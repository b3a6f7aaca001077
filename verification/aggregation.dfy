/** Client-side aggregation over a saved brightness matrix and over the
    categorized results the server returns: row, column and overall means,
    the per-category summary row, and the cell selections rebuilt from a
    categorized result. A missing or NaN brightness value is `None`. */
module Aggregation {
  import opened Wrappers
  import opened Numeric
  import Text

  type Matrix = seq<seq<Option<real>>>

  /** The usable values of a row, in order: `row.filter(v => v !== null && !isNaN(v))`. */
  function Valid(row: seq<Option<real>>): (r: seq<real>)
    ensures |r| <= |row|
    ensures forall v :: v in r <==> Some(v) in row
  {
    if |row| == 0 then []
    else
      var rest := Valid(row[..|row| - 1]);
      assert forall x :: x in row <==> x in row[..|row| - 1] || x == row[|row| - 1];
      match row[|row| - 1]
      case Some(v) => rest + [v]
      case None => rest
  }

  lemma {:induction false} ValidAppend(a: seq<Option<real>>, b: seq<Option<real>>)
    ensures Valid(a + b) == Valid(a) + Valid(b)
    decreases |b|
  {
    if |b| > 0 {
      assert (a + b)[..|a + b| - 1] == a + b[..|b| - 1];
      ValidAppend(a, b[..|b| - 1]);
    } else {
      assert a + b == a;
    }
  }

  /** `row[col]`, which is `undefined` past the end of a short row. */
  function Entry(row: seq<Option<real>>, col: nat): Option<real> {
    if col < |row| then row[col] else None
  }

  /** The usable values of column `col` over all rows. */
  function ColumnValues(m: Matrix, col: nat): seq<real> {
    Valid(seq(|m|, i requires 0 <= i < |m| => Entry(m[i], col)))
  }

  /** `m.flat()`: the rows concatenated in order. */
  function Flatten(m: Matrix): (r: seq<Option<real>>)
  {
    if |m| == 0 then [] else Flatten(m[..|m| - 1]) + m[|m| - 1]
  }

  /** The four results of `recalculateAllMeans`. */
  datatype Means = Means(cellMeans: Matrix, rowMeans: seq<real>, colMeans: seq<real>, overallMean: real)

  const NoBrightnessData: string := "No brightness data available for recalculation"

  /** `recalculateAllMeans` on the brightness data of the saved result
      (`None` when there is no saved result or it holds no data): one mean
      per row, one per column of the first row, and the mean of every usable
      value; each mean is 0 when it has nothing to average. */
  function RecalculateAllMeans(brightness: Option<Matrix>): (r: Result<Means, string>)
    ensures brightness.None? <==> r == Failure(NoBrightnessData)
    ensures r.Success? ==>
      var m := brightness.value;
      r.value.cellMeans == m &&
      |r.value.rowMeans| == |m| &&
      (forall i :: 0 <= i < |m| ==> r.value.rowMeans[i] == Mean(Valid(m[i]))) &&
      |r.value.colMeans| == (if |m| > 0 then |m[0]| else 0) &&
      (forall c :: 0 <= c < |r.value.colMeans| ==> r.value.colMeans[c] == Mean(ColumnValues(m, c))) &&
      r.value.overallMean == Mean(Valid(Flatten(m)))
  {
    match brightness
    case None => Failure(NoBrightnessData)
    case Some(m) =>
      var colCount := if |m| > 0 then |m[0]| else 0;
      Success(Means(
        m,
        seq(|m|, i requires 0 <= i < |m| => Mean(Valid(m[i]))),
        seq(colCount, c requires 0 <= c < colCount => Mean(ColumnValues(m, c))),
        Mean(Valid(Flatten(m)))))
  }

  /** Every row mean lies between bounds of that row's usable values, and is 0
      for a row with none. */
  lemma RowMeanBounds(m: Matrix, i: int, lo: real, hi: real)
    requires 0 <= i < |m|
    requires forall v :: Some(v) in m[i] ==> lo <= v <= hi
    ensures var r := RecalculateAllMeans(Some(m)).value.rowMeans[i];
      (|Valid(m[i])| > 0 ==> lo <= r <= hi) && (|Valid(m[i])| == 0 ==> r == 0.0)
  {
    var vs := Valid(m[i]);
    if |vs| > 0 {
      forall k | 0 <= k < |vs|
        ensures lo <= vs[k] <= hi
      {
        assert vs[k] in vs;
      }
      MeanBounds(vs, lo, hi);
    }
  }

  /** The sums of the usable values of each row. */
  function RowTotals(m: Matrix): (t: seq<real>)
    ensures |t| == |m| && forall i :: 0 <= i < |m| ==> t[i] == Sum(Valid(m[i]))
  {
    seq(|m|, i requires 0 <= i < |m| => Sum(Valid(m[i])))
  }

  /** Flattening adds up row by row. */
  lemma {:induction false} FlattenSum(m: Matrix)
    ensures Sum(Valid(Flatten(m))) == Sum(RowTotals(m))
  {
    if |m| > 0 {
      var init := m[..|m| - 1];
      FlattenSum(init);
      ValidAppend(Flatten(init), m[|m| - 1]);
      SumAppend(Valid(Flatten(init)), Valid(m[|m| - 1]));
      assert RowTotals(m)[..|m| - 1] == RowTotals(init);
    }
  }

  /** When every row has `k` usable values there are `|m| * k` of them. */
  lemma {:induction false} FlattenCount(m: Matrix, k: nat)
    requires forall i :: 0 <= i < |m| ==> |Valid(m[i])| == k
    ensures |Valid(Flatten(m))| == |m| * k
  {
    if |m| > 0 {
      var init := m[..|m| - 1];
      var n := |m|;
      FlattenCount(init, k);
      assert Flatten(m) == Flatten(init) + m[n - 1];
      ValidAppend(Flatten(init), m[n - 1]);
      assert |Valid(m[n - 1])| == k;
      MultiplyStep(n, k);
    }
  }

  lemma MultiplyStep(n: int, k: int)
    ensures (n - 1) * k + k == n * k
  {
  }

  /** Dividing every term by `k` divides the sum by `k`. */
  lemma {:induction false} SumDivide(xs: seq<real>, ys: seq<real>, k: real)
    requires k != 0.0 && |ys| == |xs|
    requires forall i :: 0 <= i < |xs| ==> ys[i] == xs[i] / k
    ensures Sum(ys) == Sum(xs) / k
  {
    if |xs| > 0 {
      SumDivide(xs[..|xs| - 1], ys[..|ys| - 1], k);
    }
  }

  /** Dividing twice is dividing by the product. */
  lemma DivideTwice(x: real, a: real, b: real)
    requires a != 0.0 && b != 0.0
    ensures (x / a) / b == x / (a * b)
  {
  }

  /** With the same number of usable values in every row, the overall mean is
      the mean of the row means. */
  lemma OverallMeanOfEqualRows(m: Matrix, k: nat)
    requires |m| > 0 && k > 0
    requires forall i :: 0 <= i < |m| ==> |Valid(m[i])| == k
    ensures var r := RecalculateAllMeans(Some(m)).value;
      r.overallMean == Mean(r.rowMeans)
  {
    var r := RecalculateAllMeans(Some(m)).value;
    var rowMeans := r.rowMeans;
    var t := RowTotals(m);
    var all := Valid(Flatten(m));
    assert r.overallMean == Mean(all);
    RowMeansOfTotals(m, k, rowMeans);
    FlattenSum(m);
    FlattenCount(m, k);
    MeanOfTotals(all, rowMeans, Sum(t), |m|, k);
  }

  /** With `k` usable values per row, the row means add up to the row totals
      over `k`. */
  lemma RowMeansOfTotals(m: Matrix, k: nat, rowMeans: seq<real>)
    requires k > 0
    requires forall i :: 0 <= i < |m| ==> |Valid(m[i])| == k
    requires |rowMeans| == |m| && forall i :: 0 <= i < |m| ==> rowMeans[i] == Mean(Valid(m[i]))
    ensures Sum(rowMeans) == Sum(RowTotals(m)) / (k as real)
  {
    var t := RowTotals(m);
    forall i | 0 <= i < |m|
      ensures rowMeans[i] == t[i] / (k as real)
    {
    }
    SumDivide(t, rowMeans, k as real);
  }

  lemma CastProduct(a: nat, b: nat)
    ensures (a * b) as real == (a as real) * (b as real)
  {
  }

  /** The real-number step: a total over `n * k` values divided by `n * k`
      equals the mean of `n` row means that add up to the total over `k`. */
  lemma MeanOfTotals(all: seq<real>, rowMeans: seq<real>, total: real, n: nat, k: nat)
    requires n > 0 && k > 0
    requires |all| == n * k && Sum(all) == total
    requires |rowMeans| == n && Sum(rowMeans) == total / (k as real)
    ensures Mean(all) == Mean(rowMeans)
  {
    var nr := n as real;
    var kr := k as real;
    CastProduct(n, k);
    assert |all| as real == nr * kr;
    assert |all| > 0 by {
      assert nr * kr > 0.0;
    }
    DivideTwice(total, kr, nr);
    assert kr * nr == nr * kr;
  }

  /** The overall mean weighs rows by their number of usable values, so it can
      differ from the mean of the row means: one row holding `x` and one
      holding `x + 2` and `x + 4` give an overall mean of `x + 2` but row
      means `x` and `x + 3`, whose mean is `x + 1.5`. */
  lemma OverallMeanDiffersFromRowMeans(x: real)
    ensures var r := RecalculateAllMeans(Some([[Some(x)], [Some(x + 2.0), Some(x + 4.0)]])).value;
      r.overallMean == x + 2.0 && r.rowMeans == [x, x + 3.0] && Mean(r.rowMeans) == x + 1.5
  {
    var m: Matrix := [[Some(x)], [Some(x + 2.0), Some(x + 4.0)]];
    var r := RecalculateAllMeans(Some(m)).value;
    ExampleValues(x);
    ExampleMeans(x);
    assert r.rowMeans[0] == Mean([x]);
    assert r.rowMeans[1] == Mean([x + 2.0, x + 4.0]);
    assert r.overallMean == Mean([x, x + 2.0, x + 4.0]);
    assert r.rowMeans == [x, x + 3.0];
  }

  /** The usable values of the example matrix, by row and flattened. */
  lemma ExampleValues(x: real)
    ensures Valid([Some(x)]) == [x]
    ensures Valid([Some(x + 2.0), Some(x + 4.0)]) == [x + 2.0, x + 4.0]
    ensures Valid(Flatten([[Some(x)], [Some(x + 2.0), Some(x + 4.0)]])) == [x, x + 2.0, x + 4.0]
  {
    var m: Matrix := [[Some(x)], [Some(x + 2.0), Some(x + 4.0)]];
    assert Valid([Some(x)]) == [x] by {
      assert [Some(x)][..0] == [];
    }
    assert Valid([Some(x + 2.0), Some(x + 4.0)]) == [x + 2.0, x + 4.0] by {
      assert [Some(x + 2.0), Some(x + 4.0)][..1] == [Some(x + 2.0)];
      assert [Some(x + 2.0)][..0] == [];
    }
    assert Flatten(m) == [Some(x)] + [Some(x + 2.0), Some(x + 4.0)] by {
      assert m[..1] == [[Some(x)]];
      assert Flatten(m[..1]) == Flatten([]) + [Some(x)];
      assert Flatten(m) == Flatten(m[..1]) + m[1];
    }
    ValidAppend([Some(x)], [Some(x + 2.0), Some(x + 4.0)]);
  }

  /** The means the example needs. */
  lemma ExampleMeans(x: real)
    ensures Mean([x]) == x && Mean([x + 2.0, x + 4.0]) == x + 3.0
    ensures Mean([x, x + 2.0, x + 4.0]) == x + 2.0 && Mean([x, x + 3.0]) == x + 1.5
  {
    assert [x][..0] == [] && [x + 2.0][..0] == [];
    assert Sum([x]) == x && Sum([x + 2.0]) == x + 2.0;
    assert [x + 2.0, x + 4.0][..1] == [x + 2.0];
    assert Sum([x + 2.0, x + 4.0]) == 2.0 * x + 6.0;
    assert [x, x + 2.0][..1] == [x];
    assert Sum([x, x + 2.0]) == 2.0 * x + 2.0;
    assert [x, x + 2.0, x + 4.0][..2] == [x, x + 2.0];
    assert Sum([x, x + 2.0, x + 4.0]) == 3.0 * x + 6.0;
    assert [x, x + 3.0][..1] == [x];
    assert Sum([x, x + 3.0]) == 2.0 * x + 3.0;
  }

  /** A brightness cell reference as stored in a categorized result; entries
      that are not objects with numeric `row` and `col` are `Malformed`. */
  datatype CellEntry = CellAt(row: int, col: int) | Malformed

  /** One category of a categorized result; `cells` is `None` when the field
      is missing or not an array, `rowMeansAverage` is `None` when null or
      NaN. */
  datatype CategoryMeanResult = CategoryMeanResult(
    categoryId: string,
    categoryName: string,
    color: string,
    meanValue: real,
    cellCount: int,
    cells: Option<seq<CellEntry>>,
    rowMeans: seq<Option<real>>,
    rowMeansAverage: Option<real>)

  /** A row of the category summary. */
  datatype CategoryRowMean = CategoryRowMean(categoryId: string, categoryName: string, color: string, rowMeansAverage: real)

  /** `getCategoryRowMeans`: one summary per category, in order, with the
      average falling back to 0. */
  function GetCategoryRowMeans(results: seq<CategoryMeanResult>): (r: seq<CategoryRowMean>)
    ensures |r| == |results|
    ensures forall i :: 0 <= i < |r| ==>
      r[i].categoryId == results[i].categoryId &&
      r[i].categoryName == results[i].categoryName &&
      r[i].color == results[i].color &&
      (results[i].rowMeansAverage.Some? ==> r[i].rowMeansAverage == results[i].rowMeansAverage.value) &&
      (results[i].rowMeansAverage.None? ==> r[i].rowMeansAverage == 0.0)
  {
    seq(|results|, i requires 0 <= i < |results| =>
      var c := results[i];
      CategoryRowMean(c.categoryId, c.categoryName, c.color, c.rowMeansAverage.GetOr(0.0)))
  }

  /** Each category is summarised on its own: summarising two lists of
      results one after the other is summarising them together. */
  lemma CategoryRowMeansAppend(a: seq<CategoryMeanResult>, b: seq<CategoryMeanResult>)
    ensures GetCategoryRowMeans(a + b) == GetCategoryRowMeans(a) + GetCategoryRowMeans(b)
  {
    var l, r := GetCategoryRowMeans(a + b), GetCategoryRowMeans(a) + GetCategoryRowMeans(b);
    forall i | 0 <= i < |l|
      ensures l[i] == r[i]
    {
      if i >= |a| {
        assert (a + b)[i] == b[i - |a|];
      }
    }
  }

  /** The keys of the well-formed cells of a list. */
  ghost function KeysOf(cells: seq<CellEntry>): set<string> {
    if |cells| == 0 then {}
    else
      var last := cells[|cells| - 1];
      KeysOf(cells[..|cells| - 1]) + (if last.CellAt? then {Text.CellKey(last.row, last.col)} else {})
  }

  /** The list holds a well-formed cell whose key is `key`. */
  ghost predicate ListsKey(cells: seq<CellEntry>, key: string) {
    key in KeysOf(cells)
  }

  /** The category holds a well-formed cell whose key is `key`. */
  ghost predicate HasKey(c: CategoryMeanResult, key: string) {
    c.cells.Some? && ListsKey(c.cells.value, key)
  }

  /** Writes `id` under the key of every well-formed cell, in order. */
  function AddCells(sel: map<string, string>, id: string, cells: seq<CellEntry>): (r: map<string, string>)
    ensures sel.Keys <= r.Keys
    ensures forall k :: k in r ==> r[k] == id || (k in sel && r[k] == sel[k])
  {
    if |cells| == 0 then sel
    else
      var before := AddCells(sel, id, cells[..|cells| - 1]);
      match cells[|cells| - 1]
      case CellAt(row, col) => before[Text.CellKey(row, col) := id]
      case Malformed => before
  }

  /** The selections rebuilt from categorized results, category by category:
      a later category overwrites an earlier one on the same cell. */
  /** The category ids of the results. */
  function CategoryIds(results: seq<CategoryMeanResult>): set<string> {
    if |results| == 0 then {}
    else CategoryIds(results[..|results| - 1]) + {results[|results| - 1].categoryId}
  }

  function Restore(results: seq<CategoryMeanResult>): (r: map<string, string>)
    ensures forall k :: k in r ==> r[k] in CategoryIds(results)
  {
    if |results| == 0 then map[]
    else
      var before := Restore(results[..|results| - 1]);
      var c := results[|results| - 1];
      match c.cells
      case Some(cells) => AddCells(before, c.categoryId, cells)
      case None => before
  }

  /** `safeRestoreCellSelections` given the fetched categorized result, which
      is `None` when absent or when fetching it failed. */
  function SafeRestoreCellSelections(result: Option<seq<CategoryMeanResult>>): (sel: map<string, string>)
    ensures result.None? ==> sel == map[]
    ensures result.Some? ==> sel == Restore(result.value)
  {
    match result
    case None => map[]
    case Some(rs) => Restore(rs)
  }

  /** The owner of a key: the last category holding a well-formed cell with
      that key. */
  ghost function Owner(results: seq<CategoryMeanResult>, key: string): Option<string> {
    if |results| == 0 then None
    else if HasKey(results[|results| - 1], key) then Some(results[|results| - 1].categoryId)
    else Owner(results[..|results| - 1], key)
  }

  /** Adding a category's cells keeps the earlier selections, except that every
      listed key now maps to the category. */
  lemma {:induction false} AddCellsMeaning(sel: map<string, string>, id: string, cells: seq<CellEntry>, key: string)
    ensures var r := AddCells(sel, id, cells);
      (key in r <==> key in sel || ListsKey(cells, key)) &&
      (key in r ==> r[key] == if ListsKey(cells, key) then id else sel[key])
  {
    if |cells| > 0 {
      AddCellsMeaning(sel, id, cells[..|cells| - 1], key);
    }
  }

  /** Rebuilt selections hold exactly the keys of well-formed cells, each
      mapped to the last category that lists it. */
  lemma {:induction false} RestoreMeaning(results: seq<CategoryMeanResult>, key: string)
    ensures key in Restore(results) <==> Owner(results, key).Some?
    ensures key in Restore(results) ==> Restore(results)[key] == Owner(results, key).value
  {
    if |results| > 0 {
      var init := results[..|results| - 1];
      var c := results[|results| - 1];
      RestoreMeaning(init, key);
      match c.cells
      case None =>
      case Some(cells) =>
        AddCellsMeaning(Restore(init), c.categoryId, cells, key);
    }
  }
}
