# Manual brightness analysis client — a Dafny model

This project models the local logic of a browser client for a dataset and
image-analysis service. The user places horizontal and vertical grid lines
on a skin-section image, as fractions of its width and height. The client
converts them to integer pixels and sends them to the server. The server
averages the brightness per cell. The client keeps the result per image and
shows the means in an HTML table, where cells can be assigned to tissue
categories.

The model covers:

- **Manual analysis (`src/api/manual.ts`).**
  - The per-image state store.
  - Loading the original and the blurred image into it, and restoring lines
    from a stored result.
  - The default lines.
  - The conversions between relative lines and pixels.
  - The "unsaved changes" flag.
  - The two computations (plain means and categorized means): their guards,
    requests, error messages and state updates.
  - The recalculation of all means.
  - The cell grid and cell size, the table headers, and restoring selections
    from a categorized result.
- **Table controller (`src/utils/TableController.ts`).**
  - The table state and its updates.
  - Cell selection toggling.
  - Per-row, per-column and per-category averages.
  - Category statistics.
  - Colour lightening.
- **Import (`src/api/importer.ts`).**
  - Decoding a markup file's data URL.
  - Upload, seeding of the analysis state, and the two computations.
  - File-by-file importing with progress.
- **K-Means client (`src/api/kmeans.ts`).** Parameter validation, default
  parameters, `data:` URLs, result look-up and error formatting.
- **Images (`src/api/images.ts`).** Validation, single and batch upload, and
  the two caches.
- **Dataset export (`src/api/datasets.ts`).** Start the task, poll it up to
  sixty times, and hand back the download link.

Modelling conventions:

- **Numbers.** Numbers are exact reals. `Math.round` is the nearest
  integer, with halves rounded up (`Numeric.Round`). Image extents are
  positive integers.
- **Side effects.** An operation that mutates the store is a pure function.
  It takes the store (`map<int, AnalysisState>`) and returns a new one.
- **Outside world as inputs.** Everything the code receives from outside is
  a parameter, and every reply is a datatype that includes its failures.
  This covers:
  - HTTP replies;
  - the clock;
  - `atob`;
  - the image probe;
  - `hslToRgb`;
  - `Math.random`.
- **Errors.** A thrown error is a `Failure` carrying its message.

## Model

| member | source | states |
|---|---|---|
| Analysis.GetAnalysisState | src/api/manual.ts:144-157 | The stored state is returned and the store is unchanged. A first look-up creates the default state (no dimensions, no lines, no saved result, clean, idle), and no other image is touched. |
| Analysis.GetAnalysisStateStable | src/api/manual.ts:144-157 | A second look-up returns the same state and leaves the store as the first one left it. |
| Analysis.ClearAnalysisState | src/api/manual.ts:673-676 | The image's state is gone, and every other image keeps its state. |
| Analysis.ClearThenGet | src/api/manual.ts:673-676 | After clearing, the image starts over from the default state. |
| Analysis.LoadOriginalImage | src/api/manual.ts:162-184 | A cached image is returned without a request. A fetched image is cached before its size is probed, so a failed probe leaves the image cached without dimensions. A full success also sets the dimensions. Other images are untouched. |
| Analysis.OriginalCached | src/api/manual.ts:162-167 | After a successful load, every later load returns the same image and changes nothing, whatever the server would answer. |
| Analysis.ProbeFailureSticks | src/api/manual.ts:162-184 | A failed size probe sticks: the next load succeeds from the cache without setting dimensions, so the mean computation fails with 'Image dimensions not available'. |
| Analysis.GetBlurredImage | src/api/manual.ts:189-224 | A cached blurred image is returned without a request. A fetched one is cached. A failure throws its message or the status line and caches nothing. |
| Analysis.BlurredCached | src/api/manual.ts:189-224 | Only the blurred image of this state may change. After a success, later calls return the same image and change nothing. |
| Analysis.CheckExistingResult | src/api/manual.ts:230-269 | Every failure, including 404, gives null and leaves the store as it was. A found result is saved on the image's state. With dimensions, its interior lines replace the current ones. The dirty flag is not recomputed. |
| Analysis.RestoredLinesAgree | src/api/manual.ts:230-269 | After a result is found, a line update that keeps the restored lines finds them unchanged exactly when neither stored axis repeats an interior pixel. Without dimensions, that update marks the image changed. |
| Analysis.RestoredAxisAgrees | src/api/manual.ts:249-260 | A stored axis agrees with its own restored interior exactly when that interior has no repeats. |
| Analysis.UpdateLines | src/api/manual.ts:312-318 | The lines are stored and the flag is recomputed against the saved result. Nothing else in the state or the store changes. |
| Analysis.UpdateLinesFlag | src/api/manual.ts:312-318 | After an update the flag is clear exactly when dimensions and a saved result exist and each axis agrees with it. Agreement means the saved interior pixels are duplicate-free and, as a set, equal the rounded interior pixels of the new lines. |
| Analysis.FreshImageBecomesDirty | src/api/manual.ts:146-154 | A new image reports no unsaved changes, yet any line update on it (there is no saved result) sets the flag. |
| Analysis.HasUnsavedChanges | src/api/manual.ts:656-659 | Reports the stored flag. An unknown image reports false and gets the default state. |
| Analysis.DefaultLines | src/api/manual.ts:274-306 | Three horizontal and three vertical lines at 0.25, 0.5 and 0.75. Their ids are `h-<time>-<i>` and `v-<time>-<i>`, with the horizontal ones reading the clock first. |
| Analysis.InitializeDefaultLines | src/api/manual.ts:274-306 | Without dimensions the call fails, after the state was created. Otherwise it stores the defaults, sets the flag, and touches no other image. |
| Analysis.QuarterPixels | src/api/manual.ts:274-306 | On an extent of at least 4 pixels the quarter positions round to three strictly ascending interior pixels. |
| Analysis.DefaultAxisPixels | src/api/manual.ts:699-720 | On an extent of at least 4 pixels the default lines convert to 0, the three rounded quarter pixels and the extent. |
| Analysis.ThreeCuts | src/api/manual.ts:699-720 | Positions that round to strictly ascending interior pixels convert to exactly those pixels, between 0 and the extent. |
| Analysis.DefaultLinesGrid | src/api/manual.ts:598-632 | On an image at least 4 by 4 pixels the default lines give a 6 by 6 grid of cells. |
| Analysis.QuarterGrid | src/api/manual.ts:598-632 | Any lines at the quarter positions give a 6 by 6 grid. |
| Analysis.QuarterAxisLength | src/api/manual.ts:699-720 | The quarter positions convert to five pixels per axis. |
| Analysis.Guard | src/api/manual.ts:329-335 | No error exactly when there are dimensions and lines on both axes. A missing dimension wins over missing lines. |
| Analysis.RespondToMean | src/api/manual.ts:364-441 | Each reply is handled by its kind. A fetch failure rethrows its message. An error status throws the server-derived message. A missing line list fails at the rounding. In all three cases only `isProcessing` is cleared. Otherwise the lines are resynced to the echo, the rounded echo is saved, the flag is cleared, and the call fails only when there is no brightness matrix. |
| Analysis.CalculateMeanLines | src/api/manual.ts:326-442 | A failed guard throws before any request, leaving only the lazily created state. Otherwise the interior pixels are sent and the reply is handled as above. |
| Analysis.MeanStore | src/api/manual.ts:326-442 | The mean computation leaves every other image's state as it was. |
| Analysis.MeanLeavesIdle | src/api/manual.ts:338-441 | `isProcessing` is clear after any request. The dimensions and images never change, and a guard failure leaves the state as it was. |
| Analysis.MeanRequest | src/api/manual.ts:340-350 | Every pixel sent lies strictly inside the image on its axis. |
| Analysis.MeanRequestShape | src/api/manual.ts:340-350 | The mean request sends strictly ascending pixels that lie strictly inside the image, never the boundaries. |
| Analysis.RoundAllOfIntegers | src/api/manual.ts:416-417 | Rounding integer pixels leaves them unchanged. |
| Analysis.EchoAgrees | src/api/manual.ts:398-408 | Integer echo pixels, converted back to lines, agree with themselves exactly when their interior holds no repeated pixel. |
| Analysis.SavedLinesStayClean | src/api/manual.ts:398-428 | After a successful computation with an integer echo, moving no line off its pixel keeps the flag clear exactly when neither echoed axis repeats an interior pixel. |
| Analysis.RoundBody | src/api/manual.ts:530-531 | Both line lists of the categorized answer are rounded and every other field is kept. A missing list fails. |
| Analysis.RespondToCategorized | src/api/manual.ts:497-531 | A fetch failure rethrows its message. An error status throws the server-derived message. An answer is returned with its lists rounded. |
| Analysis.CalculateCategorizedMean | src/api/manual.ts:447-542 | The same guards as the mean computation apply. The request carries the full pixel lists, boundaries included, with the cells, the categories and the image id. Only `isProcessing` changes, and it is cleared. |
| Analysis.CategorizedStore | src/api/manual.ts:447-542 | Of the whole store, only this image's processing flag can change. |
| Analysis.RequestsDifferInBoundaries | src/api/manual.ts:349-350 | For the same state, each categorized line list is the mean request's list with 0 in front and the extent behind. |
| Analysis.BoundariesAround | src/api/manual.ts:699-720 | A converted axis is its interior with 0 in front and the extent behind. |
| Geometry.Interior | src/api/manual.ts:349-350 | Keeps exactly the pixels strictly between 0 and the extent. |
| Geometry.RealInterior | src/api/manual.ts:728-729 | The same filter on unrounded echo values. |
| Geometry.Scale | src/api/manual.ts:704-710 | Each relative position becomes the rounded product with the extent. |
| Geometry.RoundAll | src/api/manual.ts:416-417 | Each value becomes its nearest integer. |
| Geometry.AxisToPixels | src/api/manual.ts:699-720 | One axis of the conversion gives a strictly ascending list from 0 to the extent. Its elements are 0, the extent, and exactly the rounded positions that fall strictly inside. |
| Geometry.BoundedSorted | src/api/manual.ts:712-718 | After the boundaries are added, `[...new Set()]` and the second sort yield the strictly ascending list of those elements. |
| Geometry.Bounded | src/api/manual.ts:713-714 | Adds exactly 0 and the extent. |
| Geometry.ToPixels | src/api/manual.ts:699-720 | Vertical lines are scaled by the width and horizontal lines by the height. |
| Geometry.AxisToRelative | src/api/manual.ts:722-744 | One output per interior echo value. Each output lies strictly between 0 and 1 and is that value divided by the extent. |
| Geometry.RelativeOf | src/api/manual.ts:731-741 | The relative coordinate times the extent is the pixel. Interior pixels give positions strictly inside (0, 1). |
| Geometry.PixelOfRelative | src/api/manual.ts:704-741 | Scaling a restored coordinate back by the same extent rounds to the original value. |
| Geometry.ToRelative | src/api/manual.ts:722-744 | The restored lines carry ids `v-restored-<i>` and `h-restored-<i>`, counted from 0, and hold the relative interior echo values. |
| Geometry.RealInteriorOfIntegers | src/api/manual.ts:728-729 | On integer pixels, the real-valued filter and the integer filter keep the same values. |
| Geometry.PixelsRoundTripElements | src/api/manual.ts:699-744 | Pixels to lines and back hold the boundaries and exactly the original interior pixels. |
| Geometry.RestoredPixels | src/api/manual.ts:699-744 | Restored integer pixels scale back to the interior pixels, in order. |
| Geometry.PixelsRoundTrip | src/api/manual.ts:699-744 | For strictly ascending interior pixels the round trip is exact: 0, the pixels, then the extent. |
| Geometry.ArraysEqual | src/api/manual.ts:771-773 | True exactly when the lists are equal. |
| Geometry.CurrentInteriorShape | src/api/manual.ts:753-760 | The current interior list is strictly ascending and holds exactly the rounded interior positions. |
| Geometry.InteriorOfStrict | src/api/manual.ts:759-760 | Filtering keeps strict ascent. |
| Geometry.AxisAgreement | src/api/manual.ts:746-769 | One axis compares equal exactly when the saved interior pixels are duplicate-free and, as a set, equal the current ones. |
| Geometry.HasParametersChangedMeaning | src/api/manual.ts:746-769 | Unchanged exactly when there are dimensions and a saved result and both axes agree. |
| Geometry.HasParametersChanged | src/api/manual.ts:746-751 | Without a saved result or without dimensions, the parameters count as changed. Geometry.HasParametersChangedMeaning states the comparison itself. |
| Geometry.RepeatedSavedLineStaysChanged | src/api/manual.ts:762-768 | A saved axis that repeats an interior pixel never matches, so the flag stays set whatever the lines. |
| Geometry.Grid | src/api/manual.ts:616-629 | Cell (r, c) spans from the c-th to the (c+1)-th vertical pixel and from the r-th to the (r+1)-th horizontal pixel. |
| Geometry.CellCoordinates | src/api/manual.ts:598-632 | No cells without dimensions. Otherwise there is one more row than horizontal pixels and one more column than vertical pixels. |
| Geometry.PixelGrid | src/api/manual.ts:613-629 | The grid over the pixel lists, boundaries added once more, has one more row and column than the lists have entries. |
| Geometry.Telescope | src/api/manual.ts:616-629 | The cell sizes along an axis add up to the last position minus the first. |
| Geometry.GapsSpan | src/api/manual.ts:616-629 | The cells along a sorted axis from 0 to the extent cover it without gaps or overlaps. |
| Geometry.Gaps | src/api/manual.ts:623-624 | Each size is the distance between consecutive positions. |
| Geometry.BoundedPixels | src/api/manual.ts:613-614 | The doubled-boundary list is sorted from 0 to the extent. |
| Geometry.GridRow | src/api/manual.ts:616-629 | A row starts at the vertical positions and its widths are their gaps. |
| Geometry.GridColumn | src/api/manual.ts:616-629 | A column starts at the horizontal positions and its heights are their gaps. |
| Geometry.GridRowSpans | src/api/manual.ts:616-629 | Each row covers the width, and its first and last cells are empty. |
| Geometry.PixelGridRows | src/api/manual.ts:613-629 | Every grid row covers the image width, and its first and last cells have width 0. |
| Geometry.PixelGridColumns | src/api/manual.ts:613-629 | Every grid column covers the image height. |
| Geometry.CellCoordinatesTile | src/api/manual.ts:598-632 | Every row of cells covers the image width exactly, and its first and last cells have width 0 because the boundaries are doubled. |
| Geometry.CellColumnsTile | src/api/manual.ts:598-632 | Every column of cells covers the image height exactly. |
| Geometry.CellCoordinatesCount | src/api/manual.ts:598-632 | There are three more columns than distinct interior vertical pixels, and three more rows than distinct interior horizontal pixels. |
| Geometry.PixelGridCount | src/api/manual.ts:613-629 | Three more cells per axis than interior pixels. |
| Geometry.InteriorCount | src/api/manual.ts:699-720 | A converted axis has exactly two non-interior entries. |
| Geometry.InteriorAppend | src/api/manual.ts:349-350 | Filtering distributes over concatenation. |
| Geometry.InteriorOfInside | src/api/manual.ts:349-350 | Filtering keeps a list whose entries are all inside. |
| Geometry.RoundQuotient | src/api/manual.ts:648-649 | A rounded quotient times the divisor lies within half a divisor of the total. |
| Geometry.CellDimensions | src/api/manual.ts:637-651 | Without dimensions the sizes are 16 by 18. Otherwise the block size times the number of blocks is within half a block count of the extent. |
| Geometry.TableHeaders | src/api/manual.ts:963-976 | One "Строка i" per row and one "Колонка i" per column, numbered from 1, with one more of each than there are lines. |
| Geometry.TableHeadersDistinct | src/api/manual.ts:963-976 | Row labels are pairwise different. |
| Geometry.LabelsDistinct | src/api/manual.ts:972-973 | Numbered labels with a common prefix are pairwise different. |
| Aggregation.Valid | src/api/manual.ts:829-834 | Keeps exactly the present numbers of a row, in order. |
| Aggregation.ValidAppend | src/api/manual.ts:849-852 | Filtering distributes over concatenation. |
| Aggregation.RecalculateAllMeans | src/api/manual.ts:813-862 | Fails exactly when there is no brightness data. Otherwise the cell means are kept, there is one mean per row, one per column of the first row, and one overall mean of all usable values. Each is 0 when it has nothing to average. |
| Aggregation.RowMeanBounds | src/api/manual.ts:829-834 | A row mean lies between any bounds of the row's usable values, and is 0 for an empty row. |
| Aggregation.RowTotals | src/api/manual.ts:829-834 | One total per row. |
| Aggregation.FlattenSum | src/api/manual.ts:849-852 | The overall sum is the sum of the row totals. |
| Aggregation.FlattenCount | src/api/manual.ts:849-852 | With k usable values in each row there are rows × k in all. |
| Aggregation.SumDivide | src/api/manual.ts:829-852 | Dividing every term divides the sum. |
| Aggregation.OverallMeanOfEqualRows | src/api/manual.ts:829-852 | With equally many usable values per row, the overall mean is the mean of the row means. |
| Aggregation.RowMeansOfTotals | src/api/manual.ts:829-834 | With k values per row, the row means add up to the total divided by k. |
| Aggregation.MeanOfTotals | src/api/manual.ts:849-852 | A total over n·k values divided by n·k is the mean of the row means. |
| Aggregation.OverallMeanDiffersFromRowMeans | src/api/manual.ts:829-852 | The overall mean weighs rows by their number of values: for every x, rows [x] and [x+2, x+4] give x+2 overall but row means x and x+3, whose mean is x+1.5. |
| Aggregation.ExampleValues | src/api/manual.ts:829-852 | The usable values of the example rows. |
| Aggregation.ExampleMeans | src/api/manual.ts:829-852 | The means the example needs. |
| Aggregation.GetCategoryRowMeans | src/api/manual.ts:867-879 | One summary per category, in order, with id, name and colour kept and a missing average shown as 0. |
| Aggregation.CategoryRowMeansAppend | src/api/manual.ts:867-879 | Each category is summarised on its own: summarising two lists one after the other equals summarising them together. |
| Aggregation.SafeRestoreCellSelections | src/api/manual.ts:1054-1085 | No result gives no selections. Otherwise the selections are rebuilt category by category. |
| Aggregation.AddCells | src/api/manual.ts:1067-1073 | Earlier keys stay present. A key's value is either the category id or its earlier value. Aggregation.AddCellsMeaning states which. |
| Aggregation.Restore | src/api/manual.ts:1063-1076 | Every restored value is the id of one of the categories. Aggregation.RestoreMeaning states which one. |
| Aggregation.AddCellsMeaning | src/api/manual.ts:1067-1077 | A category's cells keep the earlier selections, except that every well-formed listed key now maps to that category. |
| Aggregation.RestoreMeaning | src/api/manual.ts:1054-1085 | The rebuilt selections hold exactly the keys of well-formed cells, each mapped to the last category that lists it. |
| Replies.Join | src/api/manual.ts:373-380 | Joining one part gives that part. |
| Replies.ItemTexts | src/api/manual.ts:373-379 | One text per validation item, in order. |
| Replies.HttpErrorMessage | src/api/manual.ts:365-391 | Without a usable `detail` the message is "HTTP error! status: N". A non-empty string detail is the message itself. An array detail becomes "Validation error: " with the items joined by "; ". Any other detail is shown as is. |
| Replies.StatusMessagesDiffer | src/api/manual.ts:366 | Without a detail, different statuses give different messages. |
| Replies.ValidationMessageAppend | src/api/manual.ts:373-380 | One more validation item appends "; " and its text. |
| Replies.LocatedItemText | src/api/manual.ts:375-378 | An item with a location reads "body.vertical_lines: msg". One without a message is shown as its JSON. |
| Errors.FormatError | src/api/manual.ts:793-808 | A non-`Error` value gets the unknown-error text. An `Error` gets the network, not-found or server text, or else its own message. |
| Errors.FormatErrorPrecedence | src/api/manual.ts:793-808 | 'fetch' anywhere in the message wins over '404', which wins over '500'. A message with none of them is passed through. |
| Errors.ClientsDifferOnlyOnNotFound | src/api/kmeans.ts:283-298 | The manual and K-Means formatters disagree exactly on messages that mention '404' but not 'fetch'. |
| Table.ValueAt | src/utils/TableController.ts:164 | A value exists exactly at stored positions and is the stored value. |
| Table.UpdateData | src/utils/TableController.ts:87-97 | Data that fits the current shape replaces the values, and data that does not leaves the table unchanged. Nothing else changes. |
| Table.UpdateDataKeepsShape | src/utils/TableController.ts:486-489 | A table whose values fit its shape keeps fitting. |
| Table.GeneratedData | src/utils/TableController.ts:285-289 | The drawn data has the table's shape, with one drawn value per cell. |
| Table.UpdateDimensions | src/utils/TableController.ts:66-82 | The table takes the new shape. The same shape changes nothing. A new shape gets fitting drawn data. Headers, selections and sizes stay. |
| Table.UpdateDimensionsIdempotent | src/utils/TableController.ts:66-82 | A second update to the same shape is a no-op. |
| Table.DefaultHeaders | src/utils/TableController.ts:334-337 | One header per row and per column. |
| Table.UpdateHeaders | src/utils/TableController.ts:102-116 | Given row headers replace the row headers. Without them both lists are regenerated, unless column headers are given, which then win. Nothing else changes. |
| Table.UpdateHeadersIdempotent | src/utils/TableController.ts:102-116 | Repeating the same header update changes nothing more. |
| Table.RebuildTable | src/utils/TableController.ts:47-61 | Supplied fields replace the current ones. Categories stay. The headers are then regenerated from the resulting shape, even when new headers were supplied. |
| Table.SelectionsRoundTrip | src/utils/TableController.ts:121-144 | What is set is read back, a clear leaves nothing selected, and neither touches anything else. |
| Table.SetSelections | src/utils/TableController.ts:121-126 | The selections are replaced and nothing else changes. |
| Table.ClearSelections | src/utils/TableController.ts:131-137 | No cell stays selected and nothing else changes. |
| Table.GetSelections | src/utils/TableController.ts:142-144 | Returns the current selections. Table.SelectionsRoundTrip states that they read back what was set. |
| Table.ToggleCellSelection | src/utils/TableController.ts:459-471 | A cell holding the first category is cleared and any other cell gets it. With no categories a selected cell gets the empty id. Other cells and fields are untouched. |
| Table.ToggleTwice | src/utils/TableController.ts:459-471 | Two clicks restore the selections when the cell was unselected or held the first category. A cell holding another category ends up unselected. |
| Table.HandleCellClick | src/utils/TableController.ts:434-444 | Only a click whose row and column parse to non-negative numbers toggles. Any other click changes nothing. |
| Table.ClickKeepsWellKeyed | src/utils/TableController.ts:434-471 | Clicks keep every selection key readable as the cell it names. |
| Table.RowCategoryValuesMembership | src/utils/TableController.ts:491-507 | A value is averaged exactly when some column of the row holds the category and has a stored value equal to it. |
| Table.RowAverageByCategory | src/utils/TableController.ts:491-507 | The mean of those values, or 0 when there are none. |
| Table.ColumnValuesOfFitting | src/utils/TableController.ts:509-522 | In a fitting table a column lists one value per row, in row order. |
| Table.ColumnAverage | src/utils/TableController.ts:509-522 | The mean of the column's stored values, or 0. |
| Table.CategoryValuesCount | src/utils/TableController.ts:524-542 | There is one value per enumerated key that holds the category and names a stored cell. |
| Table.TotalCategoryAverage | src/utils/TableController.ts:524-542 | The mean of the values of the keys holding the category, or 0. |
| Table.CategoryStatistics | src/utils/TableController.ts:149-179 | One entry per category, in order, keeping its id, name and colour. |
| Table.StatisticsCount | src/utils/TableController.ts:149-179 | Whatever order the keys are enumerated in, the count is the number of keys holding the category that name a stored cell. The average equals the total category average. |
| Table.HexDigitValue | src/utils/TableController.ts:546-548 | A hexadecimal digit has a value below 16. |
| Table.HexRun | src/utils/TableController.ts:546-548 | `parseInt` reads the longest leading run of hexadecimal digits. |
| Table.Substr | src/utils/TableController.ts:546-548 | `substr` within bounds is the slice. |
| Table.RemoveFirst | src/utils/TableController.ts:545 | The first '#' is dropped wherever it stands. A string without '#' is kept. |
| Table.IndexOf | src/utils/TableController.ts:545 | The position found holds the character, and no earlier position does. |
| Table.LightenChannel | src/utils/TableController.ts:550-552 | For a factor in [0, 1] a channel moves up towards 255 and stays at most 255. Factor 0 keeps it and factor 1 gives 255. |
| Table.HexChar | src/utils/TableController.ts:546-548 | The digit reads back as its value. |
| Table.HexByte | src/utils/TableController.ts:546-548 | Two hexadecimal digits. |
| Table.ParseHexByte | src/utils/TableController.ts:546-548 | Two hexadecimal digits read back as the byte. |
| Table.LightenColorOfHex | src/utils/TableController.ts:544-555 | A `#RRGGBB` colour becomes `rgb(r, g, b)` with each channel lightened on its own, and factor 0 gives the channels unchanged. |
| Table.LightenColor | src/utils/TableController.ts:544-555 | The result is written as `rgb(…)`. Table.LightenColorOfHex states the channels. |
| Text.NatToStringRoundTrip | src/utils/TableController.ts:460 | The decimal rendering of a count reads back as that count. |
| Text.CellKeyRoundTrip | src/utils/TableController.ts:162 | A key written for a cell reads back as that cell. |
| Text.CellKey | src/utils/TableController.ts:460 | Builds the key `${row}-${col}`. Text.CellKeyRoundTrip and Text.CellKeyInjective state that it identifies the cell. |
| Text.ParseCellKey | src/utils/TableController.ts:162 | A key that parses has at least two '-'-separated parts. Text.CellKeyRoundTrip states the values. |
| Text.CellKeyInjective | src/utils/TableController.ts:460 | Distinct cells have distinct keys. |
| Text.ContainsIsOccurrence | src/api/manual.ts:795-801 | The substring search holds exactly when the word occurs at some offset. |
| Text.StripExtension | src/api/importer.ts:75 | The title is a prefix of the file name, with only a final extension dropped. |
| Images.FileErrors | src/api/images.ts:224-232 | A file contributes at most two messages, and none exactly when it passes both checks. |
| Images.FileErrorsMeaning | src/api/images.ts:224-232 | The size message appears exactly when the file is over 10 MB. The type message appears exactly when the type is not one of the four allowed. |
| Images.ConcatMapAppend | src/api/images.ts:224-232 | Messages gathered file by file over a longer list extend those of its prefix. |
| Images.ConcatMapEmpty | src/api/images.ts:224-235 | Nothing is gathered exactly when no element contributes anything. |
| Images.ConcatMapBound | src/api/images.ts:224-232 | At most k messages per file give at most k times the file count. |
| Images.AllFileErrors | src/api/images.ts:224-232 | At most two messages per file. |
| Images.NoErrorsIffAcceptable | src/api/images.ts:219-238 | No messages exactly when every file passes both checks. |
| Images.ErrorsFollowFileOrder | src/api/images.ts:224-232 | The messages come file by file. |
| Images.ValidateFiles | src/api/images.ts:219-238 | The messages are those of all files, and the batch is valid exactly when every file passes. |
| Images.UploadImage | src/api/images.ts:124-151 | An accepted reply keeps success, message and image id. A refusal throws the body's message, or the status line when the message is empty or unreadable. A fetch failure rethrows. |
| Images.UploadImages | src/api/images.ts:154-171 | One result per file, at the file's position. A failed upload becomes an unsuccessful result without an image id. Its message is the thrown message, or 'Upload failed' when that is empty. |
| Images.Settled | src/api/images.ts:160-166 | A fulfilled upload keeps its result. A rejected one is unsuccessful, has no image id, and carries the reason's message or 'Upload failed'. |
| Images.PercentBounds | src/api/images.ts:195 | The percentage lies in [0, 100] and reaches 100 with the last file. |
| Images.Reports | src/api/importer.ts:49-52 | The i-th report says that i+1 of all files are done, with that fraction as a rounded percentage. |
| Images.UploadImagesWithProgress | src/api/images.ts:174-216 | One result and one progress report per file, in order. The report counts the files done out of all of them. Percentages stay in [0, 100] and the last one is 100. |
| Images.Sequential | src/api/images.ts:186-203 | A success keeps its result. A thrown upload is unsuccessful, has no image id, and keeps the thrown message as it is. |
| Images.UploadPathsAgree | src/api/images.ts:154-216 | The sequential and the settled paths give the same results whenever every thrown message is non-empty. |
| Images.GetImageById | src/api/images.ts:42-70 | A cached record is returned without a request. Otherwise a fetched record is cached, and a failure throws with the caches unchanged. |
| Images.GetImageBase64 | src/api/images.ts:241-259 | The same cache discipline for data URLs. |
| Images.SecondLookupCached | src/api/images.ts:42-70 | After a successful lookup, the next one is served from the cache with the same value, whatever the server would say. |
| Images.CacheImages | src/api/images.ts:87-92 | The cache then holds exactly the earlier ids and the listed ones. |
| Images.CacheImagesContents | src/api/images.ts:87-92 | A listed id maps to its last listed record. |
| Images.CacheImagesKeeps | src/api/images.ts:87-92 | An id that is not listed keeps its record. |
| Images.ClearImageFromCache | src/api/images.ts:275-278 | Drops the id from both caches and keeps every other entry. |
| Images.RemoveImage | src/api/images.ts:97-111 | A successful removal clears the id from both caches. A failure throws and clears nothing. |
| Images.ClearAllCache | src/api/images.ts:281-284 | Both caches end up empty. |
| Images.ClearedIdIsFetched | src/api/images.ts:275-284 | After a removal or a clear, the next lookup of that id asks the server. |
| Importer.CaptureEnd | src/api/importer.ts:153-154 | The lazy capture ends at the first ';' and never crosses a line terminator. |
| Importer.MimeFrom | src/api/importer.ts:153-154 | A captured type contains no ';'. |
| Importer.CaptureEndAt | src/api/importer.ts:153-154 | The capture ends at the named ';'. |
| Importer.MimeFromSkips | src/api/importer.ts:153-154 | A search may skip a stretch without a ':'. |
| Importer.MatchMimeOfHeader | src/api/importer.ts:150-154 | The header `data:<type>;base64` yields its type. |
| Importer.MatchMime | src/api/importer.ts:152 | A matched type contains no ';'. |
| Importer.Bytes | src/api/importer.ts:160-165 | One byte per character. |
| Importer.FillBytes | src/api/importer.ts:160-165 | The backwards loop stores each character's low byte at the character's own index. |
| Importer.Base64ToFile | src/api/importer.ts:146-167 | Text without ',' fails with the format message. An empty type part fails with the missing-part message, and an unmatched type with the missing-type message. A success has the matched type, the decoded bytes and the name. |
| Importer.Base64ToFileOfDataUrl | src/api/importer.ts:146-167 | A well-formed data URL decodes to its own type and payload. |
| Importer.ImportedAxis | src/api/importer.ts:122-132 | One line per position, in order, with id prefix and index. The line's coordinate on its own axis times the extent is the position, and its other coordinate is 0. |
| Importer.ImportedLines | src/api/importer.ts:117-135 | One line per pixel position, none dropped, with ids `v-imported-<i>` and `h-imported-<i>`, counted from 0. |
| Importer.ImportedLinesPositions | src/api/importer.ts:122-132 | Each imported line's coordinate times the image extent is its pixel position: the width for vertical lines and the height for horizontal ones. The other coordinate is 0. |
| Importer.ImportKeepsBorderLines | src/api/importer.ts:117-135 | Unlike the conversion of a server echo, the import keeps lines on the border. |
| Importer.FileName | src/api/importer.ts:69 | The stored name, or `imported_<time>.png` when it is empty. |
| Importer.KeepsSeedTransitive | src/api/importer.ts:82-106 | Keeping the seeded images is transitive. |
| Importer.MeanKeepsSeed | src/api/importer.ts:99 | The mean computation changes no other image and keeps this image's images and dimensions. |
| Importer.CategorizedKeepsSeed | src/api/importer.ts:102-106 | The same holds for the categorized computation. |
| Importer.Categorize | src/api/importer.ts:102-112 | The seed is kept, and a success is the imported-result record. |
| Importer.Compute | src/api/importer.ts:99-112 | The seed is kept, and a success is the imported-result record. |
| Importer.SeedAndCompute | src/api/importer.ts:82-112 | The image gets its two images. A failed probe fails the import, and a successful one sets the dimensions. No other image changes. |
| Importer.ImportMarkup | src/api/importer.ts:60-113 | Invalid JSON fails with nothing uploaded. A bad data URL fails before the upload. A failed or refused upload fails with the store untouched. A success is the imported-result record under the file's name. |
| Importer.ImportOne | src/api/importer.ts:37-48 | A failed read gives the unknown-error entry. Any failure is reported under the file's own name. |
| Importer.ImportAll | src/api/importer.ts:32-55 | One entry per file. |
| Importer.ImportAllStep | src/api/importer.ts:37-48 | The next file is imported from the store the earlier files left, and its entry is appended after theirs. |
| Importer.ImportAllNamesFailures | src/api/importer.ts:37-48 | Every failing entry carries the name of its own file. |
| Importer.ImportFiles | src/api/importer.ts:32-55 | The results and the final store are those of importing the files one after another, so a failing file does not stop the rest. The reports are one per file, as `Images.Reports` lists them. |
| KMeans.Messages | src/api/kmeans.ts:191-217 | Seven messages. |
| KMeans.FailingMessages | src/api/kmeans.ts:191-217 | Each listed message belongs to a failing check. |
| KMeans.ValidateParameters | src/api/kmeans.ts:188-220 | No messages exactly when every field is in range and the colour count matches the cluster count. |
| KMeans.MessagesDistinct | src/api/kmeans.ts:191-217 | The seven messages are pairwise different. |
| KMeans.ValidateParametersInCheckOrder | src/api/kmeans.ts:188-220 | The validation reports the failing checks' messages in the order the checks run. |
| KMeans.FailingMessagesMembership | src/api/kmeans.ts:191-217 | A check's message is among the failing messages exactly when that check fails. |
| KMeans.ValidateParametersOrder | src/api/kmeans.ts:188-220 | The messages are exactly those of the failing checks, in check order. A check's message is present exactly when that check fails. |
| KMeans.FailingPrefixKeeps | src/api/kmeans.ts:191-217 | Later checks only append. |
| KMeans.DefaultParameters | src/api/kmeans.ts:225-244 | n colours (none for n ≤ 0; n is 3 when not given) at evenly spaced hues with saturation 70 and lightness 50, plus the fixed settings. |
| KMeans.DefaultCountIsThree | src/api/kmeans.ts:225 | Called without a count, the defaults have three clusters and pass validation. |
| KMeans.DefaultParametersValid | src/api/kmeans.ts:188-244 | The defaults pass validation exactly for 2 to 10 clusters. Otherwise the cluster message comes first. |
| KMeans.Base64ImageUrl | src/api/kmeans.ts:175-183 | The result always starts with "data:". A data URL is kept, and anything else gets the JPEG prefix. |
| KMeans.Base64ImageUrlIdempotent | src/api/kmeans.ts:175-183 | Prefixing twice adds nothing. |
| KMeans.GetResult | src/api/kmeans.ts:89-118 | A found result is returned. 404 means no result. A thrown message never mentions '404', because such messages are also read as no result. |
| KMeans.GetResultSkipsNotFound | src/api/kmeans.ts:89-118 | A message from `getResult` is never formatted as not-found. |
| Datasets.DownloadUrl | src/api/datasets.ts:127-129 | The link is the download prefix followed by the task id. |
| Datasets.DownloadUrlRoundTrip | src/api/datasets.ts:127-129 | The task id is recovered from its link, so two tasks never share a link. |
| Datasets.Verdict | src/api/datasets.ts:119-134 | A status reply decides nothing exactly when the task is still pending. It succeeds exactly on 'completed', with the link. |
| Datasets.StartFailure | src/api/datasets.ts:105-108 | A fetch failure rethrows its message. A refusal throws the body's detail, or the 'Failed to start export task' line when the detail is missing or empty. |
| Datasets.PollFrom | src/api/datasets.ts:113-140 | At most sixty queries are counted, and a success is the task's download link. |
| Datasets.Export | src/api/datasets.ts:99-141 | At most sixty status queries, and a success is the started task's download link. |
| Datasets.PollFromOutcome | src/api/datasets.ts:114-140 | Polling makes at most the remaining queries, all but the last of them pending. The last one decides, unless all sixty were pending, which is a timeout. |
| Datasets.ExportSucceedsOnlyOnCompletion | src/api/datasets.ts:99-141 | A success is the started task's link, reached through a 'completed' status that only pending ones preceded. |
| Datasets.PollFromReadsOnlyQueried | src/api/datasets.ts:114-140 | Polling reads no reply past its last query. |
| Datasets.ExportReadsOnlyQueried | src/api/datasets.ts:99-141 | The export depends only on the status replies it asked for. |
| Datasets.ExportOutcome | src/api/datasets.ts:99-141 | A failed start makes no query and throws the start message. Otherwise there are 1 to 60 queries, the first reply that is not pending decides, and sixty pending replies time out. |
| Datasets.ExportDataset | src/api/datasets.ts:99-141 | The loop's outcome and query count are those of `Datasets.Export`. The start URL is fetched first, then the status URL of the started task once per query. |
| Numeric.Round | src/api/manual.ts:704-710 | `Math.round` is the nearest integer, with halves rounded up. |
| Numeric.RoundInside | src/api/manual.ts:704-714 | A position rounds strictly inside exactly when it lies in [0.5, extent − 0.5). |
| Ordering.Sort | src/api/manual.ts:704-718 | Sorting is a permutation. |
| Ordering.SortSorted | src/api/manual.ts:704-718 | The sorted result is ascending. |
| Ordering.Dedupe | src/api/manual.ts:717-718 | `[...new Set()]` keeps each value once. |
| Ordering.SortStrictOnlyIfDistinct | src/api/manual.ts:759-765 | A sort yields a strictly ascending list only for duplicate-free input. |

## Left out

- HTTP, `FileReader`, `Image` loading, timers and the DOM are not modelled as such. Server replies, decoded text, probed image sizes, clock readings and random draws are inputs to the operations instead.
- The one-second wait between export status queries is not modelled; only the query count is.
- `Promise.allSettled` runs uploads concurrently. The model gives each upload its own reply, so the interleaving does not matter.
- `isProcessing` is a flag, not a lock: nothing in the code consults it. The model keeps the flag but no concurrency.
- Floating-point arithmetic is replaced by exact reals. So `Math.round` of values near halves, NaN table values and the precision of `sum / count` are not modelled.
- `Number()` and `parseInt` are modelled for digit strings only. In cell keys, whitespace, signs, exponents and hexadecimal prefixes are not modelled. Table.ParseHex likewise does not model the leading whitespace, sign or "0x" prefix that `parseInt(…, 16)` accepts in colour strings.
- Table values that are NaN are not modelled; stored table values are reals.
- `charCodeAt` beyond the Basic Multilingual Plane and `atob` itself are not modelled: `atob` is a parameter.
- `hslToRgb` (kmeans.ts) is a parameter of `KMeans.DefaultParameters`, because its colour arithmetic is floating point.
- KMeans.ValidateParameters: counts are whole numbers, so a fractional cluster count, which the source would compare as a float, is not modelled.
- JSON parsing is not modelled. A markup file is either a well-formed record or `None`; records with missing or mistyped fields are not modelled.
- `getCategorizedMeanResult` in manual.ts is a single request whose reply is reshaped; its outcome is an input of Aggregation.SafeRestoreCellSelections. `getImageDimensions` is the size probe, an input of Analysis.LoadOriginalImage.
- Analysis.CheckExistingResult: a stored result without `parameters` is not modelled. The source saves such a result, then throws on `.filter` and returns null. Stored lines are taken as the integer pixels that the result's type documents.
- Analysis.GetBlurredImage: the fixed blur settings in the request body (kernel 3, sigma 0) are not modelled, and `blobToBase64` is folded into the reply.
- `updateTableForNewImage`, `calculateCategorizedMeanFixed`, `safeUpdateTableForNewImage`, `resetTableState` and `showUnsavedChangesWarning` in manual.ts are compositions of modelled operations and a confirmation dialog.
- `setCategories`, `setSelectionChangeHandler`, `destroy`, the rendering methods and `showCellMenu` in TableController.ts only replace a field or redraw the DOM. Rendering has no state of its own.
- `getImagesList` beyond its cache update, `downloadImage`, `getCacheSize` and `getImageUrl` in images.ts are single requests or accessors.
- `getDatasetsList`, `createDataset`, `removeDataset` and `importDataset` in datasets.ts are single requests.
- `runAnalysis` in kmeans.ts is a single request.
- Stores, router, views and other API modules are not part of this model.
- Analysis.RespondToMean: the saved result's timestamps come from `new Date()` and are not modelled.
- Images.GetImageBase64: `blobToBase64` is not modelled; the fetched data URL is the reply.
