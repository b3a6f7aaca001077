/** The data half of the brightness table: its shape and values, the row and
    column headers, the map from `${row}-${col}` cell keys to category ids,
    and the averages and per-category statistics computed from them.
    Rendering is left out; a click reaches the model as the row and column
    attributes of the clicked cell. */
module Table {
  import opened Wrappers
  import opened Numeric
  import Text

  /** A selectable tissue category. */
  datatype Category = Category(id: string, name: string, color: string)

  const DefaultCategories: seq<Category> := [
    Category("epidermis", "Эпидермис", "#90EE90"),
    Category("dermis", "Дерма", "#FFFFE0")
  ]

  /** Cell key to category id. */
  type Selections = map<string, string>

  /** The controller's `TableData` together with its category list. Values
      are numbers; NaN entries are not modelled. */
  datatype TableState = TableState(
    rows: nat,
    cols: nat,
    data: seq<seq<real>>,
    rowHeaders: seq<string>,
    colHeaders: seq<string>,
    selections: Selections,
    yBlockSize: int,
    xBlockSize: int,
    categories: seq<Category>)

  const Initial: TableState :=
    TableState(0, 0, [], [], [], map[], 16, 18, DefaultCategories)

  /** `data` has `rows` rows of `cols` values each. */
  predicate Fits(data: seq<seq<real>>, rows: nat, cols: nat) {
    |data| == rows && forall r :: 0 <= r < |data| ==> |data[r]| == cols
  }

  /** `data[row]?.[col]`: `None` outside the stored values. */
  function ValueAt(data: seq<seq<real>>, row: int, col: int): (v: Option<real>)
    ensures v.Some? <==> 0 <= row < |data| && 0 <= col < |data[row]|
    ensures v.Some? ==> v.value == data[row][col]
  {
    if 0 <= row < |data| && 0 <= col < |data[row]| then Some(data[row][col]) else None
  }

  // ---------------------------------------------------------------- shape

  /** `updateData`: the new values are stored only when their shape matches
      the table's; otherwise nothing changes. */
  function UpdateData(t: TableState, data: seq<seq<real>>): (r: TableState)
    ensures Fits(data, t.rows, t.cols) ==> r.data == data
    ensures !Fits(data, t.rows, t.cols) ==> r == t
    ensures r.(data := t.data) == t
  {
    if |data| == t.rows && (forall i :: 0 <= i < |data| ==> |data[i]| == t.cols)
    then t.(data := data) else t
  }

  /** A table whose values fit its shape keeps fitting after `updateData`. */
  lemma UpdateDataKeepsShape(t: TableState, data: seq<seq<real>>)
    requires Fits(t.data, t.rows, t.cols)
    ensures Fits(UpdateData(t, data).data, t.rows, t.cols)
  {
  }

  /** `generateEmptyData`; `sample(r, c)` stands for the random value drawn
      for that cell. */
  function GeneratedData(rows: nat, cols: nat, sample: (nat, nat) -> real): (d: seq<seq<real>>)
    ensures Fits(d, rows, cols)
    ensures forall r, c :: 0 <= r < rows && 0 <= c < cols ==> d[r][c] == sample(r, c)
  {
    seq(rows, r requires 0 <= r < rows =>
      seq(cols, c requires 0 <= c < cols => sample(r, c)))
  }

  /** `updateDimensions`: the same shape changes nothing; a new shape gets
      freshly drawn values, and headers and selections are kept. */
  function UpdateDimensions(t: TableState, rows: nat, cols: nat, sample: (nat, nat) -> real): (r: TableState)
    ensures r.rows == rows && r.cols == cols
    ensures rows == t.rows && cols == t.cols ==> r == t
    ensures Fits(t.data, t.rows, t.cols) ==> Fits(r.data, rows, cols)
    ensures r.(rows := t.rows, cols := t.cols, data := t.data) == t
  {
    if t.rows == rows && t.cols == cols then t
    else t.(rows := rows, cols := cols, data := GeneratedData(rows, cols, sample))
  }

  /** A second `updateDimensions` with the same shape is a no-op. */
  lemma UpdateDimensionsIdempotent(t: TableState, rows: nat, cols: nat, s1: (nat, nat) -> real, s2: (nat, nat) -> real)
    ensures UpdateDimensions(UpdateDimensions(t, rows, cols, s1), rows, cols, s2) ==
      UpdateDimensions(t, rows, cols, s1)
  {
  }

  // -------------------------------------------------------------- headers

  /** `generateDefaultHeaders`: both header lists from the current shape. */
  function DefaultHeaders(rows: nat, cols: nat): (h: (seq<string>, seq<string>))
    ensures |h.0| == rows && |h.1| == cols
  {
    (Text.NumberedLabels("Строка ", rows), Text.NumberedLabels("Колонка ", cols))
  }

  /** `updateHeaders`: given row headers replace the row headers only; without
      them both lists are regenerated; given column headers then replace the
      column headers. */
  function UpdateHeaders(t: TableState, rowHeaders: Option<seq<string>>, colHeaders: Option<seq<string>>): (r: TableState)
    ensures rowHeaders.Some? ==> r.rowHeaders == rowHeaders.value
    ensures rowHeaders.None? ==> r.rowHeaders == DefaultHeaders(t.rows, t.cols).0
    ensures colHeaders.Some? ==> r.colHeaders == colHeaders.value
    ensures colHeaders.None? && rowHeaders.Some? ==> r.colHeaders == t.colHeaders
    ensures colHeaders.None? && rowHeaders.None? ==> r.colHeaders == DefaultHeaders(t.rows, t.cols).1
    ensures r.(rowHeaders := t.rowHeaders, colHeaders := t.colHeaders) == t
  {
    var withRows :=
      if rowHeaders.Some? then t.(rowHeaders := rowHeaders.value)
      else
        var h := DefaultHeaders(t.rows, t.cols);
        t.(rowHeaders := h.0, colHeaders := h.1);
    if colHeaders.Some? then withRows.(colHeaders := colHeaders.value) else withRows
  }

  /** Repeating the same header update changes nothing more. */
  lemma UpdateHeadersIdempotent(t: TableState, rowHeaders: Option<seq<string>>, colHeaders: Option<seq<string>>)
    ensures UpdateHeaders(UpdateHeaders(t, rowHeaders, colHeaders), rowHeaders, colHeaders) ==
      UpdateHeaders(t, rowHeaders, colHeaders)
  {
  }

  /** The fields a `rebuildTable` call supplies; `None` keeps the current one. */
  datatype TablePatch = TablePatch(
    rows: Option<nat>,
    cols: Option<nat>,
    data: Option<seq<seq<real>>>,
    rowHeaders: Option<seq<string>>,
    colHeaders: Option<seq<string>>,
    selections: Option<Selections>,
    yBlockSize: Option<int>,
    xBlockSize: Option<int>)

  /** `rebuildTable`: merge the supplied fields, then `updateHeaders()` with no
      arguments, so any supplied headers are replaced by the defaults. */
  function RebuildTable(t: TableState, patch: TablePatch): (r: TableState)
    ensures r.rows == patch.rows.GetOr(t.rows) && r.cols == patch.cols.GetOr(t.cols)
    ensures r.data == patch.data.GetOr(t.data)
    ensures r.selections == patch.selections.GetOr(t.selections)
    ensures (r.rowHeaders, r.colHeaders) == DefaultHeaders(r.rows, r.cols)
    ensures r.yBlockSize == patch.yBlockSize.GetOr(t.yBlockSize)
    ensures r.xBlockSize == patch.xBlockSize.GetOr(t.xBlockSize)
    ensures r.categories == t.categories
  {
    var merged := TableState(
      patch.rows.GetOr(t.rows), patch.cols.GetOr(t.cols), patch.data.GetOr(t.data),
      patch.rowHeaders.GetOr(t.rowHeaders), patch.colHeaders.GetOr(t.colHeaders),
      patch.selections.GetOr(t.selections),
      patch.yBlockSize.GetOr(t.yBlockSize), patch.xBlockSize.GetOr(t.xBlockSize),
      t.categories);
    UpdateHeaders(merged, None, None)
  }

  // ----------------------------------------------------------- selections

  /** `setSelections`: replace the selections and nothing else. */
  function SetSelections(t: TableState, selections: Selections): (r: TableState)
    ensures r.selections == selections && r.(selections := t.selections) == t
  {
    t.(selections := selections)
  }

  /** `clearSelections`: no cell stays selected and nothing else changes. */
  function ClearSelections(t: TableState): (r: TableState)
    ensures forall k :: k !in r.selections
    ensures r.(selections := t.selections) == t
  {
    t.(selections := map[])
  }

  /** `getSelections`. */
  function GetSelections(t: TableState): Selections {
    t.selections
  }

  /** What is set is read back; a clear leaves nothing selected; neither
      touches anything but the selections. */
  lemma SelectionsRoundTrip(t: TableState, selections: Selections)
    ensures GetSelections(SetSelections(t, selections)) == selections
    ensures GetSelections(ClearSelections(t)) == map[]
    ensures SetSelections(t, selections).(selections := t.selections) == t
    ensures ClearSelections(t).(selections := t.selections) == t
  {
  }

  /** The id of the first category, `categories[0]?.id`. */
  function PrimaryId(categories: seq<Category>): Option<string> {
    if |categories| > 0 then Some(categories[0].id) else None
  }

  /** `toggleCellSelection`: a cell already holding the first category is
      cleared, any other cell is given it. With no categories the comparison
      is against `undefined`, so a selected cell gets the empty id and an
      unselected one stays unselected. */
  function ToggleCellSelection(t: TableState, row: int, col: int): (r: TableState)
    ensures var key := Text.CellKey(row, col);
      match PrimaryId(t.categories)
      case Some(p) =>
        (key in t.selections && t.selections[key] == p ==> key !in r.selections) &&
        (!(key in t.selections && t.selections[key] == p) ==>
          key in r.selections && r.selections[key] == p)
      case None =>
        (key !in t.selections ==> r.selections == t.selections) &&
        (key in t.selections ==> key in r.selections && r.selections[key] == "")
    ensures forall k :: k != Text.CellKey(row, col) ==>
      (k in r.selections <==> k in t.selections) &&
      (k in t.selections ==> r.selections[k] == t.selections[k])
    ensures r.(selections := t.selections) == t
  {
    var key := Text.CellKey(row, col);
    var primary := PrimaryId(t.categories);
    var current: Option<string> := if key in t.selections then Some(t.selections[key]) else None;
    if current == primary then t.(selections := t.selections - {key})
    else t.(selections := t.selections[key := primary.GetOr("")])
  }

  /** Two clicks on the same cell restore the selections when the cell was
      unselected or held the first category; a cell holding another category
      ends up unselected instead. */
  lemma ToggleTwice(t: TableState, row: int, col: int)
    requires |t.categories| > 0
    ensures var key := Text.CellKey(row, col);
      var twice := ToggleCellSelection(ToggleCellSelection(t, row, col), row, col);
      (key !in t.selections || t.selections[key] == t.categories[0].id ==> twice == t) &&
      (key in t.selections && t.selections[key] != t.categories[0].id ==> key !in twice.selections)
  {
    var key := Text.CellKey(row, col);
    var twice := ToggleCellSelection(ToggleCellSelection(t, row, col), row, col);
    if key !in t.selections || t.selections[key] == t.categories[0].id {
      assert twice.selections == t.selections;
    }
  }

  /** Every selection key names a cell and is that cell's own key. */
  ghost predicate WellKeyed(selections: Selections) {
    forall k :: k in selections ==>
      Text.ParseCellKey(k).Some? &&
      Text.CellKey(Text.ParseCellKey(k).value.0, Text.ParseCellKey(k).value.1) == k
  }

  /** `handleCellClick`: the parsed `data-row` and `data-col` attributes,
      `None` for NaN; only a cell with both non-negative toggles. */
  function HandleCellClick(t: TableState, row: Option<int>, col: Option<int>): (r: TableState)
    ensures !(row.Some? && col.Some? && row.value >= 0 && col.value >= 0) ==> r == t
    ensures row.Some? && col.Some? && row.value >= 0 && col.value >= 0 ==>
      r == ToggleCellSelection(t, row.value, col.value)
  {
    if row.Some? && col.Some? && row.value >= 0 && col.value >= 0
    then ToggleCellSelection(t, row.value, col.value) else t
  }

  /** Clicks keep every selection key readable as the cell it was made for. */
  lemma ClickKeepsWellKeyed(t: TableState, row: Option<int>, col: Option<int>)
    requires WellKeyed(t.selections)
    ensures WellKeyed(HandleCellClick(t, row, col).selections)
  {
    if row.Some? && col.Some? && row.value >= 0 && col.value >= 0 {
      Text.CellKeyRoundTrip(row.value, col.value);
    }
  }

  // ------------------------------------------------------------- averages

  /** The cell at (row, col) holds `categoryId` and has a stored value. */
  predicate CountsFor(t: TableState, row: int, col: int, categoryId: string) {
    var key := Text.CellKey(row, col);
    key in t.selections && t.selections[key] == categoryId && ValueAt(t.data, row, col).Some?
  }

  /** Values of the first `n` columns of `row` that count for the category, in
      column order. */
  function RowCategoryValues(t: TableState, row: int, categoryId: string, n: nat): seq<real> {
    if n == 0 then []
    else
      var init := RowCategoryValues(t, row, categoryId, n - 1);
      if CountsFor(t, row, n - 1, categoryId) then init + [ValueAt(t.data, row, n - 1).value] else init
  }

  /** A value is listed exactly when some counted column holds it. */
  lemma {:induction false} RowCategoryValuesMembership(t: TableState, row: int, categoryId: string, n: nat, x: real)
    ensures x in RowCategoryValues(t, row, categoryId, n) <==>
      exists col :: 0 <= col < n && CountsFor(t, row, col, categoryId) && ValueAt(t.data, row, col) == Some(x)
  {
    if n > 0 {
      var init := RowCategoryValues(t, row, categoryId, n - 1);
      var values := RowCategoryValues(t, row, categoryId, n);
      RowCategoryValuesMembership(t, row, categoryId, n - 1, x);
      var last := n - 1;
      var hit := CountsFor(t, row, last, categoryId) && ValueAt(t.data, row, last) == Some(x);
      assert x in values <==> x in init || hit by {
        if CountsFor(t, row, last, categoryId) {
          assert values == init + [ValueAt(t.data, row, last).value];
        } else {
          assert values == init;
        }
      }
      if hit {
        assert 0 <= last < n && CountsFor(t, row, last, categoryId) && ValueAt(t.data, row, last) == Some(x);
      }
      if exists col :: 0 <= col < n && CountsFor(t, row, col, categoryId) && ValueAt(t.data, row, col) == Some(x) {
        var col :| 0 <= col < n && CountsFor(t, row, col, categoryId) && ValueAt(t.data, row, col) == Some(x);
        if col == last {
          assert hit;
        }
      }
    }
  }

  /** `getRowAverageByCategory`: the mean of the row's values in cells of the
      category, 0 when there are none. */
  method RowAverageByCategory(t: TableState, row: int, categoryId: string) returns (average: real)
    ensures average == Mean(RowCategoryValues(t, row, categoryId, t.cols))
  {
    var sum := 0.0;
    var count := 0;
    var col := 0;
    while col < t.cols
      invariant 0 <= col <= t.cols
      invariant sum == Sum(RowCategoryValues(t, row, categoryId, col))
      invariant count == |RowCategoryValues(t, row, categoryId, col)|
    {
      var key := Text.CellKey(row, col);
      if key in t.selections && t.selections[key] == categoryId {
        var value := ValueAt(t.data, row, col);
        if value.Some? {
          ghost var init := RowCategoryValues(t, row, categoryId, col);
          assert (init + [value.value])[..|init|] == init;
          sum := sum + value.value;
          count := count + 1;
        }
      }
      col := col + 1;
    }
    average := if count > 0 then sum / count as real else 0.0;
  }

  /** Stored values of the first `n` rows in column `col`. */
  function ColumnValues(t: TableState, col: int, n: nat): seq<real> {
    if n == 0 then []
    else
      var init := ColumnValues(t, col, n - 1);
      if ValueAt(t.data, n - 1, col).Some? then init + [ValueAt(t.data, n - 1, col).value] else init
  }

  /** In a table whose values fit its shape, a column in range lists one value
      per row, top to bottom. */
  lemma {:induction false} ColumnValuesOfFitting(t: TableState, col: int, n: nat)
    requires Fits(t.data, t.rows, t.cols) && 0 <= col < t.cols && n <= t.rows
    ensures |ColumnValues(t, col, n)| == n
    ensures forall i :: 0 <= i < n ==> ColumnValues(t, col, n)[i] == t.data[i][col]
  {
    if n > 0 {
      ColumnValuesOfFitting(t, col, n - 1);
    }
  }

  /** `getColumnAverage`: the mean of the column's stored values, 0 when the
      column is empty. */
  method ColumnAverage(t: TableState, col: int) returns (average: real)
    ensures average == Mean(ColumnValues(t, col, t.rows))
  {
    var sum := 0.0;
    var count := 0;
    var row := 0;
    while row < t.rows
      invariant 0 <= row <= t.rows
      invariant sum == Sum(ColumnValues(t, col, row))
      invariant count == |ColumnValues(t, col, row)|
    {
      var value := ValueAt(t.data, row, col);
      if value.Some? {
        ghost var init := ColumnValues(t, col, row);
        assert (init + [value.value])[..|init|] == init;
        sum := sum + value.value;
        count := count + 1;
      }
      row := row + 1;
    }
    average := if count > 0 then sum / count as real else 0.0;
  }

  /** The value a selection key contributes to a category: the key must hold
      the category, read as two numbers, and name a stored cell. */
  function KeyValue(t: TableState, key: string, categoryId: string): Option<real> {
    if key in t.selections && t.selections[key] == categoryId then
      match Text.ParseCellKey(key)
      case Some((row, col)) => ValueAt(t.data, row, col)
      case None => None
    else None
  }

  /** Values contributed to a category by the keys in `order`, the order in
      which `for…in` visits the selection keys. */
  function CategoryValues(t: TableState, order: seq<string>, categoryId: string): seq<real> {
    if |order| == 0 then []
    else
      var init := CategoryValues(t, order[..|order| - 1], categoryId);
      var v := KeyValue(t, order[|order| - 1], categoryId);
      if v.Some? then init + [v.value] else init
  }

  /** `order` lists each selection key exactly once. */
  ghost predicate Enumerates(order: seq<string>, selections: Selections) {
    (forall i, j :: 0 <= i < j < |order| ==> order[i] != order[j]) &&
    (forall k :: k in selections <==> k in order)
  }

  /** The keys that contribute a value to the category. */
  ghost function CountedKeys(t: TableState, categoryId: string): set<string> {
    set k | k in t.selections && KeyValue(t, k, categoryId).Some?
  }

  /** Keys of a prefix of the enumeration that contribute. */
  ghost function CountedPrefix(t: TableState, order: seq<string>, categoryId: string): set<string> {
    set k | k in order && KeyValue(t, k, categoryId).Some?
  }

  lemma {:induction false} CategoryValuesCount(t: TableState, order: seq<string>, categoryId: string)
    requires forall i, j :: 0 <= i < j < |order| ==> order[i] != order[j]
    ensures |CategoryValues(t, order, categoryId)| == |CountedPrefix(t, order, categoryId)|
  {
    if |order| > 0 {
      var init, last := order[..|order| - 1], order[|order| - 1];
      CategoryValuesCount(t, init, categoryId);
      assert last !in init;
      if KeyValue(t, last, categoryId).Some? {
        assert CountedPrefix(t, order, categoryId) == CountedPrefix(t, init, categoryId) + {last};
      } else {
        assert CountedPrefix(t, order, categoryId) == CountedPrefix(t, init, categoryId);
      }
    }
  }

  /** `getTotalCategoryAverage`: the mean over all selection keys of the
      category that name a stored cell, 0 when there are none. */
  method TotalCategoryAverage(t: TableState, order: seq<string>, categoryId: string) returns (average: real)
    ensures average == Mean(CategoryValues(t, order, categoryId))
  {
    var sum := 0.0;
    var count := 0;
    var i := 0;
    while i < |order|
      invariant 0 <= i <= |order|
      invariant sum == Sum(CategoryValues(t, order[..i], categoryId))
      invariant count == |CategoryValues(t, order[..i], categoryId)|
    {
      assert order[..i + 1][..i] == order[..i];
      var key := order[i];
      if key in t.selections && t.selections[key] == categoryId {
        var cell := Text.ParseCellKey(key);
        if cell.Some? {
          var value := ValueAt(t.data, cell.value.0, cell.value.1);
          if value.Some? {
            ghost var init := CategoryValues(t, order[..i], categoryId);
            assert (init + [value.value])[..|init|] == init;
            sum := sum + value.value;
            count := count + 1;
          }
        }
      }
      i := i + 1;
    }
    assert order[..|order|] == order;
    average := if count > 0 then sum / count as real else 0.0;
  }

  /** One entry of `getCategoryStatistics`. */
  datatype CategoryStatistic = CategoryStatistic(id: string, name: string, color: string, count: nat, average: real)

  /** `getCategoryStatistics`: per category, in category order, the count of
      contributing keys and their mean value. */
  function CategoryStatistics(t: TableState, order: seq<string>): (r: seq<CategoryStatistic>)
    ensures |r| == |t.categories|
    ensures forall i :: 0 <= i < |r| ==>
      r[i].id == t.categories[i].id && r[i].name == t.categories[i].name &&
      r[i].color == t.categories[i].color
  {
    seq(|t.categories|, i requires 0 <= i < |t.categories| =>
      var c := t.categories[i];
      var values := CategoryValues(t, order, c.id);
      CategoryStatistic(c.id, c.name, c.color, |values|, Mean(values)))
  }

  /** Whatever order `for…in` takes, a category's count is the number of
      selection keys holding it that name a stored cell, and its average is
      the one `getTotalCategoryAverage` returns. */
  lemma StatisticsCount(t: TableState, order: seq<string>, i: int)
    requires Enumerates(order, t.selections) && 0 <= i < |t.categories|
    ensures CategoryStatistics(t, order)[i].count == |CountedKeys(t, t.categories[i].id)|
    ensures CategoryStatistics(t, order)[i].average == Mean(CategoryValues(t, order, t.categories[i].id))
  {
    var id := t.categories[i].id;
    CategoryValuesCount(t, order, id);
    assert CountedPrefix(t, order, id) == CountedKeys(t, id);
  }

  // --------------------------------------------------------------- colours

  function HexDigitValue(c: char): (v: Option<nat>)
    ensures v.Some? ==> v.value < 16
  {
    if '0' <= c <= '9' then Some((c as int) - ('0' as int))
    else if 'a' <= c <= 'f' then Some((c as int) - ('a' as int) + 10)
    else if 'A' <= c <= 'F' then Some((c as int) - ('A' as int) + 10)
    else None
  }

  predicate AllHex(s: string) {
    forall i :: 0 <= i < |s| ==> HexDigitValue(s[i]).Some?
  }

  /** Length of the leading run of hexadecimal digits. */
  function HexRun(s: string): (n: nat)
    ensures n <= |s| && AllHex(s[..n])
    ensures n < |s| ==> HexDigitValue(s[n]).None?
  {
    if |s| == 0 || HexDigitValue(s[0]).None? then 0
    else
      var n := HexRun(s[1..]);
      assert s[..n + 1] == [s[0]] + s[1..][..n];
      n + 1
  }

  function HexValue(s: string): nat
    requires AllHex(s)
  {
    if |s| == 0 then 0
    else HexValue(s[..|s| - 1]) * 16 + HexDigitValue(s[|s| - 1]).value
  }

  /** `parseInt(s, 16)` for text without leading blanks or sign: the value of
      the leading hexadecimal digits, `None` (NaN) when there are none. */
  function ParseHex(s: string): Option<nat> {
    var n := HexRun(s);
    if n == 0 then None else Some(HexValue(s[..n]))
  }

  /** `s.substr(start, length)` for non-negative arguments. */
  function Substr(s: string, start: nat, length: nat): (r: string)
    ensures start + length <= |s| ==> r == s[start..start + length]
  {
    if start >= |s| then ""
    else if start + length <= |s| then s[start..start + length]
    else s[start..]
  }

  /** The position of the first `c` in `s`. */
  function IndexOf(s: string, c: char): (k: nat)
    requires c in s
    ensures k < |s| && s[k] == c && c !in s[..k]
  {
    if s[0] == c then 0
    else
      assert s == [s[0]] + s[1..];
      var k := IndexOf(s[1..], c);
      assert s[..k + 1] == [s[0]] + s[1..][..k];
      k + 1
  }

  /** `s.replace(c, '')`: drops the first occurrence only, wherever it is. */
  function RemoveFirst(s: string, c: char): (r: string)
    ensures c !in s ==> r == s
    ensures c in s ==> r == s[..IndexOf(s, c)] + s[IndexOf(s, c) + 1..]
  {
    if |s| == 0 then s
    else if s[0] == c then s[1..]
    else
      var rest := RemoveFirst(s[1..], c);
      assert c in s ==> c in s[1..] by {
        if c in s {
          var k :| 0 <= k < |s| && s[k] == c;
          assert s[1..][k - 1] == c;
        }
      }
      assert c in s ==> [s[0]] + rest == s[..IndexOf(s, c)] + s[IndexOf(s, c) + 1..] by {
        if c in s {
          var k := IndexOf(s[1..], c);
          assert IndexOf(s, c) == k + 1;
          assert s[..k + 1] == [s[0]] + s[1..][..k];
          assert s[k + 2..] == s[1..][k + 1..];
        }
      }
      [s[0]] + rest
  }

  /** `Math.round(c + (255 - c) * factor)`: for a factor in [0, 1] a channel
      moves towards white, staying in [c, 255]; 0 keeps it, 1 makes it 255. */
  function LightenChannel(c: nat, factor: real): (r: int)
    ensures c <= 255 && 0.0 <= factor <= 1.0 ==> c <= r <= 255
    ensures factor == 0.0 ==> r == c
    ensures factor == 1.0 ==> r == 255
  {
    var x := c as real + (255 - c) as real * factor;
    if c <= 255 && 0.0 <= factor <= 1.0 then
      Shrink((255 - c) as real, factor);
      Round(x)
    else Round(x)
  }

  lemma Shrink(a: real, f: real)
    requires a >= 0.0 && 0.0 <= f <= 1.0
    ensures 0.0 <= a * f <= a
  {
  }

  /** A channel as the template literal shows it. */
  function ShowChannel(c: Option<nat>, factor: real): string {
    match c
    case None => "NaN"
    case Some(v) => Text.IntToString(LightenChannel(v, factor))
  }

  /** `lightenColor`. */
  function LightenColor(color: string, factor: real): (r: string)
    ensures |r| > 5 && r[..4] == "rgb(" && r[|r| - 1] == ')'
  {
    var hex := RemoveFirst(color, '#');
    "rgb(" + ShowChannel(ParseHex(Substr(hex, 0, 2)), factor) + ", "
           + ShowChannel(ParseHex(Substr(hex, 2, 2)), factor) + ", "
           + ShowChannel(ParseHex(Substr(hex, 4, 2)), factor) + ")"
  }

  /** The upper-case hexadecimal digit for `d`. */
  function HexChar(d: nat): (c: char)
    requires d < 16
    ensures HexDigitValue(c) == Some(d)
  {
    if d < 10 then ((('0' as int) + d) as char) else ((('A' as int) + d - 10) as char)
  }

  /** Two hexadecimal digits, upper case, for a byte. */
  function HexByte(n: nat): (s: string)
    requires n < 256
    ensures |s| == 2 && AllHex(s)
  {
    [HexChar(n / 16), HexChar(n % 16)]
  }

  lemma ParseHexByte(n: nat)
    requires n < 256
    ensures ParseHex(HexByte(n)) == Some(n)
  {
    var s := HexByte(n);
    assert s[1..][1..] == [];
    assert HexRun(s[1..]) == 1;
    assert HexRun(s) == 2;
    assert s[..2] == s;
    assert s[..1][..0] == [];
    assert HexValue(s[..1]) == n / 16;
  }

  /** A `#RRGGBB` colour reads back as its three channels, each lightened on
      its own; a factor of 0 gives the channels unchanged. */
  lemma {:induction false} LightenColorOfHex(r: nat, g: nat, b: nat, factor: real)
    requires r < 256 && g < 256 && b < 256
    ensures LightenColor("#" + HexByte(r) + HexByte(g) + HexByte(b), factor) ==
      "rgb(" + Text.IntToString(LightenChannel(r, factor)) + ", "
             + Text.IntToString(LightenChannel(g, factor)) + ", "
             + Text.IntToString(LightenChannel(b, factor)) + ")"
    ensures LightenColor("#" + HexByte(r) + HexByte(g) + HexByte(b), 0.0) ==
      "rgb(" + Text.IntToString(r) + ", " + Text.IntToString(g) + ", " + Text.IntToString(b) + ")"
  {
    var hex := HexByte(r) + HexByte(g) + HexByte(b);
    assert "#" + HexByte(r) + HexByte(g) + HexByte(b) == "#" + hex;
    assert RemoveFirst("#" + hex, '#') == hex;
    assert Substr(hex, 0, 2) == HexByte(r);
    assert Substr(hex, 2, 2) == HexByte(g);
    assert Substr(hex, 4, 2) == HexByte(b);
    ParseHexByte(r);
    ParseHexByte(g);
    ParseHexByte(b);
  }
}
