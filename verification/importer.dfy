/** Markup import: a markup file carries the original and blurred images as
    data URLs, pixel line positions, selected cells and categories. Importing
    one file decodes the original image, uploads it, seeds the analysis
    state of the new image and runs both server computations; importing many
    files does this file by file, reporting progress after each. Everything
    the outside world answers (the clock, `atob`, the upload, the image
    probe, the two computations) is an input. */
module Importer {
  import opened Wrappers
  import opened Geometry
  import Text
  import Images
  import Analysis

  // ------------------------------------------------------- data URL parsing

  const FormatMessage: string := "Неверный формат base64."
  const NoMimePartMessage: string := "Неверный формат base64: отсутствует MIME-часть."
  const NoMimeTypeMessage: string := "Не удалось определить MIME-тип."

  /** Characters `.` in a regular expression does not match. */
  predicate LineTerminator(c: char) {
    c == '\n' || c == '\r' || (c as int) == 0x2028 || (c as int) == 0x2029
  }

  /** The first ';' at or after `j` that no line terminator precedes. */
  function CaptureEnd(s: string, j: nat): (r: Option<nat>)
    ensures r.Some? ==> j <= r.value < |s| && s[r.value] == ';'
    ensures r.Some? ==> forall k :: j <= k < r.value ==> s[k] != ';' && !LineTerminator(s[k])
    decreases |s| - j
  {
    if j >= |s| || LineTerminator(s[j]) then None
    else if s[j] == ';' then Some(j)
    else CaptureEnd(s, j + 1)
  }

  /** The capture of the leftmost match of `/:(.*?);/` starting at or after `i`. */
  function MimeFrom(s: string, i: nat): (r: Option<string>)
    ensures r.Some? ==> ';' !in r.value
    decreases |s| - i
  {
    if i >= |s| then None
    else if s[i] == ':' && CaptureEnd(s, i + 1).Some? then
      var e := CaptureEnd(s, i + 1).value;
      Some(s[i + 1..e])
    else MimeFrom(s, i + 1)
  }

  /** `mimePart.match(/:(.*?);/)?.[1]`. */
  function MatchMime(s: string): (r: Option<string>)
    ensures r.Some? ==> ';' !in r.value
  {
    MimeFrom(s, 0)
  }

  lemma {:induction false} CaptureEndAt(s: string, j: nat, k: nat)
    requires j <= k < |s| && s[k] == ';'
    requires forall m :: j <= m < k ==> s[m] != ';' && !LineTerminator(s[m])
    ensures CaptureEnd(s, j) == Some(k)
    decreases k - j
  {
    if j < k {
      CaptureEndAt(s, j + 1, k);
    }
  }

  lemma {:induction false} MimeFromSkips(s: string, i: nat, k: nat)
    requires i <= k <= |s|
    requires forall m :: i <= m < k ==> s[m] != ':'
    ensures MimeFrom(s, i) == MimeFrom(s, k)
    decreases k - i
  {
    if i < k {
      MimeFromSkips(s, i + 1, k);
    }
  }

  /** A header `data:<mime>;base64` yields `<mime>` when the type holds no
      ';' and no line break. */
  lemma MatchMimeOfHeader(mime: string)
    requires ';' !in mime && forall k :: 0 <= k < |mime| ==> !LineTerminator(mime[k])
    ensures MatchMime("data:" + mime + ";base64") == Some(mime)
  {
    var s := "data:" + mime + ";base64";
    MimeFromSkips(s, 0, 4);
    CaptureEndAt(s, 5, 5 + |mime|);
    assert s[5..5 + |mime|] == mime;
  }

  /** The byte `Uint8Array` stores for a character code. */
  function ByteOf(c: char): nat {
    (c as int) % 256
  }

  /** The bytes of a binary string, one per character. */
  function Bytes(bstr: string): (u8: seq<nat>)
    ensures |u8| == |bstr|
  {
    seq(|bstr|, i requires 0 <= i < |bstr| => ByteOf(bstr[i]))
  }

  /** The `while (n--)` loop of `base64ToFile`, filling the array from the
      end. */
  method FillBytes(bstr: string) returns (u8: seq<nat>)
    ensures |u8| == |bstr|
    ensures forall i :: 0 <= i < |bstr| ==> u8[i] == ByteOf(bstr[i]) && u8[i] < 256
  {
    u8 := seq(|bstr|, _ => 0);
    var n := |bstr|;
    while n > 0
      invariant 0 <= n <= |bstr| && |u8| == |bstr|
      invariant forall i :: n <= i < |bstr| ==> u8[i] == ByteOf(bstr[i])
    {
      n := n - 1;
      u8 := u8[n := ByteOf(bstr[n])];
    }
  }

  /** A `File`: its bytes, name and type. */
  datatype FileModel = FileModel(bytes: seq<nat>, name: string, mimeType: string)

  /** `base64ToFile`; `atob` decodes the data part or gives the message it
      throws. */
  function Base64ToFile(base64: string, filename: string, atob: string -> Result<string, string>): (r: Result<FileModel, string>)
    ensures ',' !in base64 ==> r == Failure(FormatMessage)
    ensures ',' in base64 && base64[0] == ',' ==> r == Failure(NoMimePartMessage)
    ensures ',' in base64 && base64[0] != ',' && MatchMime(Text.Split(base64, ',')[0]).None? ==>
      r == Failure(NoMimeTypeMessage)
    ensures r.Success? ==>
      var parts := Text.Split(base64, ',');
      MatchMime(parts[0]) == Some(r.value.mimeType) && r.value.mimeType != "" &&
      parts[1] != "" && atob(parts[1]).Success? &&
      r.value.bytes == Bytes(atob(parts[1]).value) && r.value.name == filename
  {
    var parts := Text.Split(base64, ',');
    if ',' !in base64 then
      Text.SplitNoSeparator(base64, ',');
      Failure(FormatMessage)
    else if |parts| < 2 then Failure(FormatMessage)
    else if parts[0] == "" then Failure(NoMimePartMessage)
    else match MatchMime(parts[0])
      case None => Failure(NoMimeTypeMessage)
      case Some(mime) =>
        if mime == "" || parts[1] == "" then Failure(FormatMessage)
        else match atob(parts[1])
          case Failure(e) => Failure(e)
          case Success(bstr) => Success(FileModel(Bytes(bstr), filename, mime))
  }

  /** The data URL a markup file carries decodes to its own type and
      payload. */
  lemma Base64ToFileOfDataUrl(mime: string, payload: string, filename: string, atob: string -> Result<string, string>)
    requires mime != "" && payload != "" && ',' !in mime && ',' !in payload
    requires ';' !in mime && forall k :: 0 <= k < |mime| ==> !LineTerminator(mime[k])
    requires atob(payload).Success?
    ensures Base64ToFile("data:" + mime + ";base64," + payload, filename, atob) ==
      Success(FileModel(Bytes(atob(payload).value), filename, mime))
  {
    var header := "data:" + mime + ";base64";
    assert ',' !in header;
    assert "data:" + mime + ";base64," + payload == header + [','] + payload;
    Text.SplitTwoParts(header, payload, ',');
    MatchMimeOfHeader(mime);
  }

  // --------------------------------------------------------- line import

  /** One axis of `convertPixelLinesToRelative`: a line per position, with
      `prefix` and the index as id, the position divided by the extent on
      this axis and 0 on the other. */
  function ImportedAxis(prefix: string, xs: seq<real>, extent: Extent, vertical: bool): (ls: seq<Line>)
    ensures |ls| == |xs|
    ensures forall i :: 0 <= i < |xs| ==> ls[i].id == prefix + Text.NatToString(i)
    ensures vertical ==> forall i :: 0 <= i < |xs| ==>
      ls[i].relativeX * extent as real == xs[i] && ls[i].relativeY == 0.0
    ensures !vertical ==> forall i :: 0 <= i < |xs| ==>
      ls[i].relativeY * extent as real == xs[i] && ls[i].relativeX == 0.0
  {
    seq(|xs|, i requires 0 <= i < |xs| =>
      var r := RelativeOf(xs[i], extent);
      if vertical then Line(prefix + Text.NatToString(i), r, 0.0)
      else Line(prefix + Text.NatToString(i), 0.0, r))
  }

  /** `convertPixelLinesToRelative`: one line per pixel position, none
      dropped, numbered from 0 on each axis. */
  function ImportedLines(vertical: seq<real>, horizontal: seq<real>, d: Dims): (lines: LineSet)
    ensures |lines.vertical| == |vertical| && |lines.horizontal| == |horizontal|
    ensures forall i :: 0 <= i < |vertical| ==> lines.vertical[i].id == "v-imported-" + Text.NatToString(i)
    ensures forall i :: 0 <= i < |horizontal| ==> lines.horizontal[i].id == "h-imported-" + Text.NatToString(i)
  {
    LineSet(ImportedAxis("h-imported-", horizontal, d.height, false),
            ImportedAxis("v-imported-", vertical, d.width, true))
  }

  /** Each imported line sits at its pixel position divided by the image
      extent: vertical lines by the width, horizontal ones by the height. */
  lemma ImportedLinesPositions(vertical: seq<real>, horizontal: seq<real>, d: Dims)
    ensures var lines := ImportedLines(vertical, horizontal, d);
      forall i :: 0 <= i < |vertical| ==>
        lines.vertical[i].relativeX * d.width as real == vertical[i] && lines.vertical[i].relativeY == 0.0
    ensures var lines := ImportedLines(vertical, horizontal, d);
      forall i :: 0 <= i < |horizontal| ==>
        lines.horizontal[i].relativeY * d.height as real == horizontal[i] && lines.horizontal[i].relativeX == 0.0
  {
    var v := ImportedAxis("v-imported-", vertical, d.width, true);
    var h := ImportedAxis("h-imported-", horizontal, d.height, false);
    assert ImportedLines(vertical, horizontal, d) == LineSet(h, v);
  }

  /** Unlike the conversion applied to a server echo, the import keeps
      positions on or outside the image border, so it never has fewer lines. */
  lemma ImportKeepsBorderLines(vertical: seq<real>, horizontal: seq<real>, d: Dims)
    ensures |ToRelative(vertical, horizontal, d).vertical| <= |ImportedLines(vertical, horizontal, d).vertical|
    ensures |ToRelative(vertical, horizontal, d).horizontal| <= |ImportedLines(vertical, horizontal, d).horizontal|
    ensures |ToRelative([0.0, 1.0], [], d).vertical| == 1 && |ImportedLines([0.0, 1.0], [], d).vertical| == 2 <==>
      d.width > 1
  {
    var tv := ToRelative(vertical, horizontal, d);
    assert |XsOf(tv.vertical)| == |tv.vertical|;
    assert |YsOf(tv.horizontal)| == |tv.horizontal|;
    var t2 := ToRelative([0.0, 1.0], [], d);
    assert |XsOf(t2.vertical)| == |t2.vertical|;
    var ri := RealInterior([0.0, 1.0], d.width);
    if d.width > 1 {
      assert 1.0 in ri;
      assert 0.0 !in ri;
      assert ri == [1.0] by {
        assert ri == RealInterior([1.0], d.width);
      }
    } else {
      assert ri == [];
    }
  }

  // ------------------------------------------------------------ one file

  /** What the markup metadata holds; the luminance matrix is carried but
      not used. */
  datatype Metadata = Metadata(
    luminance: seq<seq<real>>,
    verticalLines: seq<real>,
    horizontalLines: seq<real>,
    selectedCells: seq<Analysis.SelectedCell>,
    selectionCategories: seq<Analysis.SelectionCategory>,
    name: string)

  datatype MarkupFile = MarkupFile(originalImage: string, blurredImage: string, metadata: Metadata)

  datatype ImportResult = ImportResult(success: bool, filename: string, message: string)

  /** What the outside world answers while one file is imported: the clock
      reading for a default name, `atob`, the upload reply, the image probe
      (`None` when the image does not load) and the two computations. */
  datatype World = World(
    now: int,
    atob: string -> Result<string, string>,
    upload: Images.UploadReply,
    probe: Option<Dims>,
    mean: Analysis.MeanReply,
    categorized: Analysis.CategorizedReply)

  const JsonMessage: string := "Ошибка парсинга JSON."
  const CreateFailedPrefix: string := "Не удалось создать изображение в датасете: "
  const ProbeMessage: string := "Не удалось загрузить изображение для определения размеров"
  const ImportedMessage: string := "Разметка успешно импортирована."

  /** `metadata.name`, or `imported_<now>.png` when it is empty. */
  function FileName(name: string, now: int): (r: string)
    ensures name != "" ==> r == name
    ensures name == "" ==> Text.StartsWith(r, "imported_") && r[|r| - 4..] == ".png"
  {
    if name != "" then name
    else
      var r := "imported_" + Text.IntToString(now) + ".png";
      assert r[..9] == "imported_";
      r
  }

  /** The upload `importMarkup` makes: the decoded file under the name with
      its final extension dropped as title. */
  datatype UploadRequest = UploadRequest(datasetId: int, file: FileModel, title: string)

  /** The result, the upload made (if it came that far) and the store of
      analysis states left behind. */
  datatype ImportOutcome = ImportOutcome(result: Result<ImportResult, string>, upload: Option<UploadRequest>, store: Analysis.Store)

  /** `b` differs from `a` at most in the state of `id`, whose images and
      dimensions are the same in both. */
  ghost predicate KeepsSeed(a: Analysis.Store, b: Analysis.Store, id: int) {
    id in a && id in b && Analysis.SameElsewhere(a, b, id) &&
    b[id].original == a[id].original && b[id].blurred == a[id].blurred && b[id].dims == a[id].dims
  }

  lemma KeepsSeedTransitive(a: Analysis.Store, b: Analysis.Store, c: Analysis.Store, id: int)
    requires KeepsSeed(a, b, id) && KeepsSeed(b, c, id)
    ensures KeepsSeed(a, c, id)
  {
  }

  /** The mean computation keeps the seed. */
  lemma MeanKeepsSeed(st: Analysis.Store, imageId: int, reply: Analysis.MeanReply)
    requires imageId in st
    ensures KeepsSeed(st, Analysis.CalculateMeanLines(st, imageId, reply).store, imageId)
  {
    Analysis.MeanLeavesIdle(st, imageId, reply);
    Analysis.MeanStore(st, imageId, reply);
  }

  /** The categorized computation keeps the seed: it changes at most the
      image's processing flag. */
  lemma CategorizedKeepsSeed(st: Analysis.Store, imageId: int, cells: seq<Analysis.SelectedCell>,
                             categories: seq<Analysis.SelectionCategory>, reply: Analysis.CategorizedReply)
    requires imageId in st
    ensures KeepsSeed(st, Analysis.CalculateCategorizedMean(st, imageId, cells, categories, reply).store, imageId)
  {
    Analysis.CategorizedStore(st, imageId, cells, categories, reply);
  }

  /** The categorized computation on the state the mean computation left;
      it keeps the seed. */
  function Categorize(st: Analysis.Store, imageId: int, m: MarkupFile, filename: string, w: World): (o: (Result<ImportResult, string>, Analysis.Store))
    requires imageId in st
    ensures KeepsSeed(st, o.1, imageId)
    ensures o.0.Success? ==> o.0.value == ImportResult(true, filename, ImportedMessage)
  {
    var cat := Analysis.CalculateCategorizedMean(st, imageId,
      m.metadata.selectedCells, m.metadata.selectionCategories, w.categorized);
    CategorizedKeepsSeed(st, imageId, m.metadata.selectedCells, m.metadata.selectionCategories, w.categorized);
    if cat.result.Failure? then (Failure(cat.result.error), cat.store)
    else (Success(ImportResult(true, filename, ImportedMessage)), cat.store)
  }

  /** The two computations on a seeded state, the first failure ending the
      import with the store as it stands. */
  function Compute(st: Analysis.Store, imageId: int, m: MarkupFile, filename: string, w: World): (o: (Result<ImportResult, string>, Analysis.Store))
    requires imageId in st
    ensures KeepsSeed(st, o.1, imageId)
    ensures o.0.Success? ==> o.0.value == ImportResult(true, filename, ImportedMessage)
  {
    var mean := Analysis.CalculateMeanLines(st, imageId, w.mean);
    MeanKeepsSeed(st, imageId, w.mean);
    if mean.result.Failure? then (Failure(mean.result.error), mean.store)
    else
      var r := Categorize(mean.store, imageId, m, filename, w);
      KeepsSeedTransitive(st, mean.store, r.1, imageId);
      r
  }

  /** The steps after the upload, for the image id the server gave: seed the
      state with both images, probe the dimensions, set the imported lines,
      then compute. */
  function SeedAndCompute(store: Analysis.Store, imageId: int, m: MarkupFile, filename: string, w: World): (o: (Result<ImportResult, string>, Analysis.Store))
    ensures imageId in o.1
    ensures Analysis.SameElsewhere(store, o.1, imageId)
    ensures o.1[imageId].original == Some(m.originalImage) && o.1[imageId].blurred == Some(m.blurredImage)
    ensures w.probe.None? ==> o.0 == Failure(ProbeMessage)
    ensures w.probe.Some? ==> o.1[imageId].dims == w.probe
    ensures o.0.Success? ==> o.0.value == ImportResult(true, filename, ImportedMessage)
  {
    var (s, st) := Analysis.GetAnalysisState(store, imageId);
    var seeded := s.(original := Some(m.originalImage), blurred := Some(m.blurredImage));
    match w.probe
    case None => (Failure(ProbeMessage), st[imageId := seeded])
    case Some(d) =>
      var ready := seeded.(dims := Some(d),
        lines := ImportedLines(m.metadata.verticalLines, m.metadata.horizontalLines, d));
      Compute(st[imageId := ready], imageId, m, filename, w)
  }

  /** `importMarkup`; `markup` is `None` when the text is not valid JSON. A
      malformed data URL fails before any upload, and a failed or refused
      upload fails before any analysis state is touched. */
  function ImportMarkup(store: Analysis.Store, datasetId: int, markup: Option<MarkupFile>, w: World): (o: ImportOutcome)
    ensures markup.None? ==> o == ImportOutcome(Failure(JsonMessage), None, store)
    ensures markup.Some? ==>
      var m := markup.value;
      var filename := FileName(m.metadata.name, w.now);
      var file := Base64ToFile(m.originalImage, filename, w.atob);
      (file.Failure? ==> o == ImportOutcome(Failure(file.error), None, store)) &&
      (file.Success? ==> o.upload == Some(UploadRequest(datasetId, file.value, Text.StripExtension(filename)))) &&
      (file.Success? && Images.UploadImage(w.upload).Failure? ==>
        o.result == Failure(Images.UploadImage(w.upload).error) && o.store == store) &&
      (file.Success? && Images.UploadImage(w.upload).Success? && !Created(Images.UploadImage(w.upload).value) ==>
        o.result == Failure(CreateFailedPrefix + Images.UploadImage(w.upload).value.message) && o.store == store)
    ensures o.result.Success? ==>
      markup.Some? && o.result.value == ImportResult(true, FileName(markup.value.metadata.name, w.now), ImportedMessage)
  {
    match markup
    case None => ImportOutcome(Failure(JsonMessage), None, store)
    case Some(m) =>
      var filename := FileName(m.metadata.name, w.now);
      match Base64ToFile(m.originalImage, filename, w.atob)
      case Failure(e) => ImportOutcome(Failure(e), None, store)
      case Success(file) =>
        var request := Some(UploadRequest(datasetId, file, Text.StripExtension(filename)));
        match Images.UploadImage(w.upload)
        case Failure(e) => ImportOutcome(Failure(e), request, store)
        case Success(response) =>
          if !Created(response) then
            ImportOutcome(Failure(CreateFailedPrefix + response.message), request, store)
          else
            var (result, after) := SeedAndCompute(store, response.imageId.value, m, filename, w);
            ImportOutcome(result, request, after)
  }

  /** The upload created an image: success with a truthy (non-zero) id. */
  predicate Created(r: Images.ResultResponse) {
    r.success && r.imageId.Some? && r.imageId.value != 0
  }

  // ---------------------------------------------------------- many files

  /** How reading a file ended: the reader failed, or its text was read and
      parsed (`None` when it is not valid JSON). */
  datatype Read = ReadFailed | ReadText(parsed: Option<MarkupFile>)

  /** One selected file: its name, how reading it ended, and the world's
      answers during its import. */
  datatype Source = Source(name: string, read: Read, world: World)

  /** The text for a thrown value that is not an `Error`, as a failed read
      rejects with an event. */
  const UnknownMessage: string := "Неизвестная ошибка"

  /** The entry `importFiles` records for one file and the store after it; a
      failure is reported under the file's own name. */
  function ImportOne(store: Analysis.Store, datasetId: int, f: Source): (r: (ImportResult, Analysis.Store))
    ensures !r.0.success ==> r.0.filename == f.name
    ensures f.read.ReadFailed? ==> r == (ImportResult(false, f.name, UnknownMessage), store)
  {
    match f.read
    case ReadFailed => (ImportResult(false, f.name, UnknownMessage), store)
    case ReadText(parsed) =>
      var o := ImportMarkup(store, datasetId, parsed, f.world);
      match o.result
      case Success(v) => (v, o.store)
      case Failure(e) => (ImportResult(false, f.name, e), o.store)
  }

  /** The files imported in order, each starting from the store the previous
      one left. */
  function ImportAll(store: Analysis.Store, datasetId: int, files: seq<Source>): (r: (seq<ImportResult>, Analysis.Store))
    ensures |r.0| == |files|
    decreases |files|
  {
    if |files| == 0 then ([], store)
    else
      var before := ImportAll(store, datasetId, files[..|files| - 1]);
      var last := ImportOne(before.1, datasetId, files[|files| - 1]);
      (before.0 + [last.0], last.1)
  }

  /** Importing one more file continues from the store the earlier files
      left and appends that file's entry. */
  lemma ImportAllStep(store: Analysis.Store, datasetId: int, files: seq<Source>, k: int)
    requires 0 <= k < |files|
    ensures var before := ImportAll(store, datasetId, files[..k]);
      var last := ImportOne(before.1, datasetId, files[k]);
      ImportAll(store, datasetId, files[..k + 1]) == (before.0 + [last.0], last.1)
  {
    assert files[..k + 1][..k] == files[..k];
  }

  /** Every failing entry carries the name of its own file. */
  lemma {:induction false} ImportAllNamesFailures(store: Analysis.Store, datasetId: int, files: seq<Source>)
    ensures var results := ImportAll(store, datasetId, files).0;
      forall i :: 0 <= i < |files| && !results[i].success ==> results[i].filename == files[i].name
    decreases |files|
  {
    if |files| > 0 {
      var init := files[..|files| - 1];
      ImportAllNamesFailures(store, datasetId, init);
      assert forall i :: 0 <= i < |init| ==> init[i] == files[i];
    }
  }

  /** `importFiles`: one result per file in file order, a failing file not
      stopping the rest, and one progress report per file. */
  method ImportFiles(store: Analysis.Store, datasetId: int, files: seq<Source>)
    returns (results: seq<ImportResult>, reports: seq<Images.Progress>, after: Analysis.Store)
    ensures (results, after) == ImportAll(store, datasetId, files)
    ensures |results| == |files| && |reports| == |files|
    ensures reports == Images.Reports(|files|, |files|)
  {
    results := [];
    reports := [];
    after := store;
    var total := |files|;
    var completed := 0;
    for k := 0 to |files|
      invariant completed == k
      invariant (results, after) == ImportAll(store, datasetId, files[..k])
      invariant reports == Images.Reports(k, total)
    {
      ImportAllStep(store, datasetId, files, k);
      var one := ImportOne(after, datasetId, files[k]);
      var result, next := one.0, one.1;
      results := results + [result];
      after := next;
      completed := completed + 1;
      reports := reports + [Images.Progress(completed, total, Images.Percent(completed, total))];
    }
    assert files[..|files|] == files;
  }
}
