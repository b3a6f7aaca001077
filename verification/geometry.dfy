/** Grid-line geometry of the manual brightness analysis: lines are kept in
    relative coordinates (fractions of the image extent), the server works on
    integer pixel positions, and the client converts between the two, compares
    the current lines with the last saved ones and cuts the image into cells. */
module Geometry {
  import opened Wrappers
  import opened Numeric
  import opened Ordering
  import Text

  /** An image extent (width or height) in pixels. */
  type Extent = n: int | n > 0 witness 1

  datatype Dims = Dims(width: Extent, height: Extent)

  /** A grid line; a vertical line uses `relativeX`, a horizontal one `relativeY`. */
  datatype Line = Line(id: string, relativeX: real, relativeY: real)

  datatype LineSet = LineSet(horizontal: seq<Line>, vertical: seq<Line>)

  /** Pixel positions of the vertical and horizontal lines. */
  datatype PixelLines = PixelLines(vertical: seq<int>, horizontal: seq<int>)

  /** A cell rectangle of the grid. */
  datatype Cell = Cell(x: int, y: int, width: int, height: int)

  /** The boundary test used throughout: strictly between 0 and the extent. */
  predicate Inside(x: int, extent: int) {
    0 < x < extent
  }

  /** `xs.filter(x => x > 0 && x < extent)` on integer pixels. */
  function Interior(xs: seq<int>, extent: int): (r: seq<int>)
    ensures |r| <= |xs|
    ensures forall y :: y in r <==> y in xs && Inside(y, extent)
    ensures forall i :: 0 <= i < |r| ==> Inside(r[i], extent)
  {
    if |xs| == 0 then []
    else
      var rest := Interior(xs[1..], extent);
      assert forall y :: y in xs <==> y == xs[0] || y in xs[1..];
      if Inside(xs[0], extent) then [xs[0]] + rest else rest
  }

  /** The same filter on the (unrounded) numbers of a server reply. */
  function RealInterior(xs: seq<real>, extent: int): (r: seq<real>)
    ensures |r| <= |xs|
    ensures forall y :: y in r <==> y in xs && 0.0 < y < extent as real
    ensures forall i :: 0 <= i < |r| ==> 0.0 < r[i] < extent as real
  {
    if |xs| == 0 then []
    else
      var rest := RealInterior(xs[1..], extent);
      assert forall y :: y in xs <==> y == xs[0] || y in xs[1..];
      if 0.0 < xs[0] < extent as real then [xs[0]] + rest else rest
  }

  /** A list of integers as JSON numbers. */
  function Reals(xs: seq<int>): (r: seq<real>)
    ensures |r| == |xs| && forall i :: 0 <= i < |xs| ==> r[i] == xs[i] as real
  {
    seq(|xs|, i requires 0 <= i < |xs| => xs[i] as real)
  }

  /** `Math.round(rel * extent)`: the pixel of a relative coordinate. */
  function PixelOf(rel: real, extent: int): int {
    Round(rel * (extent as real))
  }

  /** The pixel of every relative coordinate. */
  function Scale(rels: seq<real>, extent: int): (r: seq<int>)
    ensures |r| == |rels| && forall i :: 0 <= i < |rels| ==> r[i] == PixelOf(rels[i], extent)
  {
    seq(|rels|, i requires 0 <= i < |rels| => PixelOf(rels[i], extent))
  }

  /** `xs.map(Math.round)` on the numbers of a server reply. */
  function RoundAll(xs: seq<real>): (r: seq<int>)
    ensures |r| == |xs| && forall i :: 0 <= i < |xs| ==> r[i] == Round(xs[i])
  {
    seq(|xs|, i requires 0 <= i < |xs| => Round(xs[i]))
  }

  function XsOf(lines: seq<Line>): seq<real> {
    seq(|lines|, i requires 0 <= i < |lines| => lines[i].relativeX)
  }

  function YsOf(lines: seq<Line>): seq<real> {
    seq(|lines|, i requires 0 <= i < |lines| => lines[i].relativeY)
  }

  /** One axis of `convertRelativeLinesToPixels`: round and sort, keep the
      interior positions, add the boundaries 0 and `extent`, drop duplicates
      and sort again. The result is the strictly ascending list of 0, the
      extent, and every rounded position strictly inside the image. */
  function AxisToPixels(rels: seq<real>, extent: Extent): (r: seq<int>)
    ensures AxisShape(r, extent)
    ensures forall i :: 0 < i < |r| - 1 ==> Inside(r[i], extent)
    ensures forall y :: y in r <==>
      y == 0 || y == extent || (Inside(y, extent) && y in Scale(rels, extent))
  {
    var q := Interior(Sort(Scale(rels, extent)), extent);
    BoundedSorted(q, extent);
    Sort(Dedupe(Bounded(q, extent)))
  }

  /** Sorting the de-duplicated, boundary-wrapped interior positions gives
      a strictly ascending list from 0 to the extent with exactly those
      positions in between. */
  lemma BoundedSorted(q: seq<int>, extent: Extent)
    requires forall i :: 0 <= i < |q| ==> Inside(q[i], extent)
    ensures var r := Sort(Dedupe(Bounded(q, extent)));
      AxisShape(r, extent) &&
      (forall i :: 0 < i < |r| - 1 ==> Inside(r[i], extent)) &&
      (forall y :: y in r <==> y == 0 || y == extent || y in q)
  {
    var d := Dedupe(Bounded(q, extent));
    SortDistinct(d);
    var r := Sort(d);
    assert forall y :: y in r <==> y == 0 || y == extent || y in q;
    WrappedShape(r, q, extent);
  }

  /** A strictly ascending list holding exactly 0, the extent and some
      interior positions runs from 0 to the extent with only those
      positions in between. */
  lemma WrappedShape(r: seq<int>, q: seq<int>, extent: Extent)
    requires forall i :: 0 <= i < |q| ==> Inside(q[i], extent)
    requires StrictlyAscending(r)
    requires forall y :: y in r <==> y == 0 || y == extent || y in q
    ensures AxisShape(r, extent)
    ensures forall i :: 0 < i < |r| - 1 ==> Inside(r[i], extent)
  {
    forall y | y in r
      ensures 0 <= y <= extent
    {
      if y in q {
        var i :| 0 <= i < |q| && q[i] == y;
      }
    }
    FirstIsLeast(r, 0);
    LastIsGreatest(r, extent);
    forall i | 0 < i < |r| - 1
      ensures Inside(r[i], extent)
    {
      assert r[0] < r[i] < r[|r| - 1];
    }
  }

  /** `[0, ...xs, extent]`. */
  function Bounded(xs: seq<int>, extent: int): (b: seq<int>)
    ensures |b| == |xs| + 2
    ensures forall y :: y in b <==> y == 0 || y == extent || y in xs
  {
    assert forall y :: y in [0] + xs <==> y == 0 || y in xs;
    [0] + xs + [extent]
  }

  /** `convertRelativeLinesToPixels`: vertical lines scale by the width,
      horizontal ones by the height. */
  function ToPixels(lines: LineSet, dims: Dims): (p: PixelLines)
    ensures p.vertical == AxisToPixels(XsOf(lines.vertical), dims.width)
    ensures p.horizontal == AxisToPixels(YsOf(lines.horizontal), dims.height)
  {
    PixelLines(AxisToPixels(XsOf(lines.vertical), dims.width),
               AxisToPixels(YsOf(lines.horizontal), dims.height))
  }

  /** One axis of `convertPixelLinesToRelative`: drop the positions on or
      outside the boundaries, divide the rest by the extent. */
  function AxisToRelative(xs: seq<real>, extent: Extent): (r: seq<real>)
    ensures |r| == |RealInterior(xs, extent)|
    ensures forall i :: 0 <= i < |r| ==> 0.0 < r[i] < 1.0
    ensures forall i :: 0 <= i < |r| ==> r[i] == RelativeOf(RealInterior(xs, extent)[i], extent)
  {
    var f := RealInterior(xs, extent);
    seq(|f|, i requires 0 <= i < |f| => RelativeOf(f[i], extent))
  }

  /** `x / extent`, with the facts the conversions rely on. */
  function RelativeOf(x: real, extent: Extent): (r: real)
    ensures r * (extent as real) == x
    ensures 0.0 < x < extent as real ==> 0.0 < r < 1.0
  {
    x / (extent as real)
  }

  /** Scaling a relative coordinate back by the same extent recovers the
      rounded pixel. */
  lemma PixelOfRelative(x: real, extent: Extent)
    ensures PixelOf(RelativeOf(x, extent), extent) == Round(x)
  {
  }

  /** `convertPixelLinesToRelative`: restored lines carry the ids
      `v-restored-<index>` and `h-restored-<index>` and 0 on the other axis. */
  function ToRelative(vertical: seq<real>, horizontal: seq<real>, dims: Dims): (lines: LineSet)
    ensures XsOf(lines.vertical) == AxisToRelative(vertical, dims.width)
    ensures YsOf(lines.horizontal) == AxisToRelative(horizontal, dims.height)
    ensures forall i :: 0 <= i < |lines.vertical| ==>
      lines.vertical[i] == Line("v-restored-" + Text.NatToString(i), lines.vertical[i].relativeX, 0.0)
    ensures forall i :: 0 <= i < |lines.horizontal| ==>
      lines.horizontal[i] == Line("h-restored-" + Text.NatToString(i), 0.0, lines.horizontal[i].relativeY)
  {
    var v := AxisToRelative(vertical, dims.width);
    var h := AxisToRelative(horizontal, dims.height);
    LineSet(
      seq(|h|, i requires 0 <= i < |h| => Line("h-restored-" + Text.NatToString(i), 0.0, h[i])),
      seq(|v|, i requires 0 <= i < |v| => Line("v-restored-" + Text.NatToString(i), v[i], 0.0)))
  }

  /** Restoring integer pixels keeps exactly their interior values. */
  lemma {:induction false} RealInteriorOfIntegers(p: seq<int>, extent: int)
    ensures RealInterior(Reals(p), extent) == Reals(Interior(p, extent))
  {
    if |p| > 0 {
      assert Reals(p)[1..] == Reals(p[1..]);
      RealInteriorOfIntegers(p[1..], extent);
      if Inside(p[0], extent) {
        assert Reals([p[0]] + Interior(p[1..], extent)) == [p[0] as real] + Reals(Interior(p[1..], extent));
      }
    }
  }

  /** Pixels to relative and back: the result holds the boundaries and exactly
      the interior pixels of the input; positions on or outside the boundaries
      are dropped and never restored. */
  lemma PixelsRoundTripElements(p: seq<int>, extent: Extent)
    ensures forall y :: y in AxisToPixels(AxisToRelative(Reals(p), extent), extent) <==>
      y == 0 || y == extent || y in Interior(p, extent)
  {
    RestoredPixels(p, extent);
  }

  /** Restored integer pixels round back to the interior pixels, in order. */
  lemma RestoredPixels(p: seq<int>, extent: Extent)
    ensures Scale(AxisToRelative(Reals(p), extent), extent) == Interior(p, extent)
  {
    var rels := AxisToRelative(Reals(p), extent);
    var q := Interior(p, extent);
    RealInteriorOfIntegers(p, extent);
    forall k | 0 <= k < |q|
      ensures Scale(rels, extent)[k] == q[k]
    {
      PixelOfRelative(q[k] as real, extent);
      RoundOfInteger(q[k]);
    }
  }

  /** For strictly ascending interior pixels the round trip is exact: the
      boundaries are added back around the very same list. */
  lemma PixelsRoundTrip(p: seq<int>, extent: Extent)
    requires StrictlyAscending(p)
    requires forall i :: 0 <= i < |p| ==> Inside(p[i], extent)
    ensures AxisToPixels(AxisToRelative(Reals(p), extent), extent) == [0] + p + [extent]
  {
    PixelsRoundTripElements(p, extent);
    var b := [0] + p + [extent];
    assert StrictlyAscending(b) by {
      forall i, j | 0 <= i < j < |b|
        ensures b[i] < b[j]
      {
        if 0 < i && j < |b| - 1 {
          assert b[i] == p[i - 1] && b[j] == p[j - 1];
        } else if 0 < j < |b| - 1 {
          assert b[j] == p[j - 1];
        } else if 0 < i < |b| - 1 {
          assert b[i] == p[i - 1];
        }
      }
    }
    forall y
      ensures y in AxisToPixels(AxisToRelative(Reals(p), extent), extent) <==> y in b
    {
      if y in p {
        var i :| 0 <= i < |p| && p[i] == y;
        assert Inside(y, extent);
      }
    }
    StrictUnique(AxisToPixels(AxisToRelative(Reals(p), extent), extent), b);
  }

  /** `arraysEqual`: same length and the same element at every index. */
  function ArraysEqual(a: seq<int>, b: seq<int>): (r: bool)
    ensures r <==> a == b
  {
    |a| == |b| && forall i :: 0 <= i < |a| ==> a[i] == b[i]
  }

  /** The interior pixels of the current lines on one axis, as compared. */
  function CurrentInterior(rels: seq<real>, extent: Extent): seq<int> {
    Sort(Interior(AxisToPixels(rels, extent), extent))
  }

  /** The interior pixels saved with the last server result on one axis. */
  function SavedInterior(saved: seq<int>, extent: Extent): seq<int> {
    Sort(Interior(saved, extent))
  }

  /** `hasParametersChanged`: changed when there is no saved result or no
      dimensions; otherwise when the sorted interior lists of either axis
      differ. The saved lists are not de-duplicated, the current ones are. */
  function HasParametersChanged(dims: Option<Dims>, lines: LineSet, saved: Option<PixelLines>): (changed: bool)
    ensures dims.None? || saved.None? ==> changed
  {
    match (dims, saved)
    case (Some(d), Some(s)) =>
      !ArraysEqual(SavedInterior(s.vertical, d.width), CurrentInterior(XsOf(lines.vertical), d.width))
      || !ArraysEqual(SavedInterior(s.horizontal, d.height), CurrentInterior(YsOf(lines.horizontal), d.height))
    case _ => true
  }

  /** The current interior list is strictly ascending and holds exactly the
      rounded positions strictly inside the image. */
  lemma CurrentInteriorShape(rels: seq<real>, extent: Extent)
    ensures StrictlyAscending(CurrentInterior(rels, extent))
    ensures forall y :: y in CurrentInterior(rels, extent) <==>
      Inside(y, extent) && y in Scale(rels, extent)
  {
    var a := AxisToPixels(rels, extent);
    var q := Interior(a, extent);
    assert Distinct(q) by {
      InteriorOfStrict(a, extent);
    }
    SortDistinct(q);
  }

  /** Filtering keeps the order, so it keeps strict ascent. */
  lemma {:induction false} InteriorOfStrict(a: seq<int>, extent: int)
    requires StrictlyAscending(a)
    ensures StrictlyAscending(Interior(a, extent))
  {
    if |a| > 0 {
      InteriorOfStrict(a[1..], extent);
      var rest := Interior(a[1..], extent);
      forall j | 0 <= j < |rest|
        ensures a[0] < rest[j]
      {
        assert rest[j] in a[1..];
      }
    }
  }

  /** The saved interior positions of one axis are duplicate-free and equal,
      as a set, to the rounded interior positions of the current lines. */
  ghost predicate AxisAgrees(saved: seq<int>, rels: seq<real>, extent: Extent) {
    Distinct(Interior(saved, extent)) &&
    forall y :: y in Interior(saved, extent) <==> Inside(y, extent) && y in Scale(rels, extent)
  }

  /** One axis compares equal exactly when it agrees in the above sense. */
  lemma AxisAgreement(saved: seq<int>, rels: seq<real>, extent: Extent)
    ensures SavedInterior(saved, extent) == CurrentInterior(rels, extent) <==>
      AxisAgrees(saved, rels, extent)
  {
    CurrentInteriorShape(rels, extent);
    var s := Interior(saved, extent);
    if SavedInterior(saved, extent) == CurrentInterior(rels, extent) {
      SortStrictOnlyIfDistinct(s);
    }
    if AxisAgrees(saved, rels, extent) {
      SortDistinct(s);
      StrictUnique(Sort(s), CurrentInterior(rels, extent));
    }
  }

  /** The change flag, stated without the comparison code: unchanged exactly
      when dimensions and a saved result exist and both axes agree. */
  lemma HasParametersChangedMeaning(dims: Option<Dims>, lines: LineSet, saved: Option<PixelLines>)
    ensures !HasParametersChanged(dims, lines, saved) <==>
      dims.Some? && saved.Some? &&
      AxisAgrees(saved.value.vertical, XsOf(lines.vertical), dims.value.width) &&
      AxisAgrees(saved.value.horizontal, YsOf(lines.horizontal), dims.value.height)
  {
    ChangedIffAxesDiffer(dims, lines, saved);
    if dims.Some? && saved.Some? {
      AxisAgreement(saved.value.vertical, XsOf(lines.vertical), dims.value.width);
      AxisAgreement(saved.value.horizontal, YsOf(lines.horizontal), dims.value.height);
    }
  }

  /** The flag is clear exactly when both axes compare equal. */
  lemma ChangedIffAxesDiffer(dims: Option<Dims>, lines: LineSet, saved: Option<PixelLines>)
    ensures !HasParametersChanged(dims, lines, saved) <==>
      dims.Some? && saved.Some? &&
      SavedInterior(saved.value.vertical, dims.value.width) == CurrentInterior(XsOf(lines.vertical), dims.value.width) &&
      SavedInterior(saved.value.horizontal, dims.value.height) == CurrentInterior(YsOf(lines.horizontal), dims.value.height)
  {
  }

  /** A saved result whose interior holds a repeated position can never match
      the current lines: the flag stays set whatever the lines are. */
  lemma RepeatedSavedLineStaysChanged(d: Dims, lines: LineSet, s: PixelLines, i: int, j: int)
    requires 0 <= i < j < |Interior(s.vertical, d.width)|
    requires Interior(s.vertical, d.width)[i] == Interior(s.vertical, d.width)[j]
    ensures HasParametersChanged(Some(d), lines, Some(s))
  {
    HasParametersChangedMeaning(Some(d), lines, Some(s));
  }

  /** The rows of cells between consecutive positions of `ah` and columns
      between consecutive positions of `av`. */
  function Grid(av: seq<int>, ah: seq<int>): (cells: seq<seq<Cell>>)
    requires |av| >= 1 && |ah| >= 1
    ensures |cells| == |ah| - 1
    ensures forall r :: 0 <= r < |cells| ==> |cells[r]| == |av| - 1
    ensures forall r, c :: 0 <= r < |cells| && 0 <= c < |cells[r]| ==>
      cells[r][c] == Cell(av[c], ah[r], av[c + 1] - av[c], ah[r + 1] - ah[r])
  {
    seq(|ah| - 1, r requires 0 <= r < |ah| - 1 =>
      seq(|av| - 1, c requires 0 <= c < |av| - 1 =>
        Cell(av[c], ah[r], av[c + 1] - av[c], ah[r + 1] - ah[r])))
  }

  /** `getCellCoordinates`: no cells without dimensions; otherwise the grid of
      the pixel lines with 0 and the extent added once more at both ends. */
  function CellCoordinates(dims: Option<Dims>, lines: LineSet): (cells: seq<seq<Cell>>)
    ensures dims.None? ==> cells == []
    ensures dims.Some? ==>
      var p := ToPixels(lines, dims.value);
      |cells| == |p.horizontal| + 1 &&
      forall r :: 0 <= r < |cells| ==> |cells[r]| == |p.vertical| + 1
  {
    match dims
    case None => []
    case Some(d) => PixelGrid(ToPixels(lines, d), d)
  }

  /** The grid over pixel lines with the boundaries added once more. */
  function PixelGrid(p: PixelLines, d: Dims): (cells: seq<seq<Cell>>)
    ensures |cells| == |p.horizontal| + 1
    ensures forall r :: 0 <= r < |cells| ==> |cells[r]| == |p.vertical| + 1
  {
    Grid(Bounded(p.vertical, d.width), Bounded(p.horizontal, d.height))
  }

  function IntSum(xs: seq<int>): int {
    if |xs| == 0 then 0 else IntSum(xs[..|xs| - 1]) + xs[|xs| - 1]
  }

  /** Intervals given by start offsets and sizes cover [0, extent) without gaps
      or overlaps: the first starts at 0, each starts where the previous ends,
      no size is negative, and the sizes add up to the extent. */
  predicate Spans(starts: seq<int>, sizes: seq<int>, extent: int) {
    |starts| == |sizes| >= 1 && starts[0] == 0 &&
    (forall i :: 0 <= i < |sizes| ==> sizes[i] >= 0) &&
    (forall i :: 0 <= i < |sizes| - 1 ==> starts[i + 1] == starts[i] + sizes[i]) &&
    IntSum(sizes) == extent
  }

  /** Consecutive differences of a position list add up to last minus first. */
  lemma {:induction false} Telescope(a: seq<int>, d: seq<int>)
    requires |a| >= 1 && |d| == |a| - 1
    requires forall i :: 0 <= i < |d| ==> d[i] == a[i + 1] - a[i]
    ensures IntSum(d) == a[|a| - 1] - a[0]
  {
    if |d| > 0 {
      Telescope(a[..|a| - 1], d[..|d| - 1]);
    }
  }

  /** Starts and sizes of the intervals between consecutive positions of a
      sorted list from 0 to `extent` span [0, extent). */
  lemma GapsSpan(a: seq<int>, extent: int)
    requires |a| >= 2 && a[0] == 0 && a[|a| - 1] == extent && Sorted(a)
    ensures Spans(a[..|a| - 1], Gaps(a), extent)
  {
    Telescope(a, Gaps(a));
  }

  function Gaps(a: seq<int>): (d: seq<int>)
    ensures |d| == if |a| == 0 then 0 else |a| - 1
    ensures forall i :: 0 <= i < |d| ==> d[i] == a[i + 1] - a[i]
  {
    if |a| == 0 then [] else seq(|a| - 1, i requires 0 <= i < |a| - 1 => a[i + 1] - a[i])
  }

  /** The boundary-wrapped pixel list of an axis is sorted from 0 to the
      extent, with 0 and the extent each appearing twice. */
  lemma BoundedPixels(px: seq<int>, extent: Extent)
    requires AxisShape(px, extent)
    ensures var a := Bounded(px, extent);
      |a| == |px| + 2 && a[0] == a[1] == 0 && a[|a| - 2] == a[|a| - 1] == extent && Sorted(a)
  {
    var a := Bounded(px, extent);
    assert a == [0] + px + [extent];
    forall i, j | 0 <= i < j < |a|
      ensures a[i] <= a[j]
    {
      if 0 < i && j < |a| - 1 {
        assert a[i] == px[i - 1] && a[j] == px[j - 1];
      } else if 0 < j < |a| - 1 {
        assert a[j] == px[j - 1];
      } else if 0 < i < |a| - 1 {
        assert a[i] == px[i - 1];
      }
    }
  }

  function Xs(row: seq<Cell>): seq<int> {
    seq(|row|, c requires 0 <= c < |row| => row[c].x)
  }

  function Widths(row: seq<Cell>): seq<int> {
    seq(|row|, c requires 0 <= c < |row| => row[c].width)
  }

  function Ys(column: seq<Cell>): seq<int> {
    seq(|column|, r requires 0 <= r < |column| => column[r].y)
  }

  function Heights(column: seq<Cell>): seq<int> {
    seq(|column|, r requires 0 <= r < |column| => column[r].height)
  }

  /** Column `c` of a grid of cells. */
  function Column(cells: seq<seq<Cell>>, c: int): seq<Cell>
    requires 0 <= c && forall r :: 0 <= r < |cells| ==> c < |cells[r]|
  {
    seq(|cells|, r requires 0 <= r < |cells| => cells[r][c])
  }

  /** A grid row starts at the positions of `av` and has its gaps as widths. */
  lemma GridRow(av: seq<int>, ah: seq<int>, r: int)
    requires |av| >= 1 && |ah| >= 1 && 0 <= r < |ah| - 1
    ensures Xs(Grid(av, ah)[r]) == av[..|av| - 1]
    ensures Widths(Grid(av, ah)[r]) == Gaps(av)
  {
  }

  /** A grid column starts at the positions of `ah` and has its gaps as heights. */
  lemma GridColumn(av: seq<int>, ah: seq<int>, c: int)
    requires |av| >= 1 && |ah| >= 1 && 0 <= c < |av| - 1
    ensures Ys(Column(Grid(av, ah), c)) == ah[..|ah| - 1]
    ensures Heights(Column(Grid(av, ah), c)) == Gaps(ah)
  {
  }

  /** The pixel list of one axis as `convertRelativeLinesToPixels` returns it. */
  predicate AxisShape(px: seq<int>, extent: Extent) {
    StrictlyAscending(px) && |px| >= 2 && px[0] == 0 && px[|px| - 1] == extent
  }

  /** A row of a grid over positions that start and end with a repeated
      boundary spans the extent and has empty first and last cells. */
  lemma GridRowSpans(av: seq<int>, ah: seq<int>, r: int, extent: int)
    requires |av| >= 3 && |ah| >= 1 && 0 <= r < |ah| - 1
    requires av[0] == av[1] && av[|av| - 2] == av[|av| - 1]
    requires Spans(av[..|av| - 1], Gaps(av), extent)
    ensures var row := Grid(av, ah)[r];
      Spans(Xs(row), Widths(row), extent) && row[0].width == 0 && row[|row| - 1].width == 0
  {
    GridRow(av, ah, r);
    var row := Grid(av, ah)[r];
    var n := |av|;
    assert row[0].width == Widths(row)[0] == Gaps(av)[0];
    assert row[n - 2].width == Widths(row)[n - 2] == Gaps(av)[n - 2];
  }

  /** Every row spans `width` from offset 0, and its first and last cells
      have width 0. */
  predicate RowsTile(cells: seq<seq<Cell>>, width: int) {
    forall r :: 0 <= r < |cells| ==>
      |cells[r]| > 0 &&
      Spans(Xs(cells[r]), Widths(cells[r]), width) &&
      cells[r][0].width == 0 && cells[r][|cells[r]| - 1].width == 0
  }

  /** Rows of the grid over boundary-wrapped axis lists span the width, and
      their first and last cells are empty. */
  lemma PixelGridRows(p: PixelLines, d: Dims)
    requires AxisShape(p.vertical, d.width) && AxisShape(p.horizontal, d.height)
    ensures RowsTile(PixelGrid(p, d), d.width)
  {
    var av := Bounded(p.vertical, d.width);
    var ah := Bounded(p.horizontal, d.height);
    BoundedPixels(p.vertical, d.width);
    GapsSpan(av, d.width);
    forall r | 0 <= r < |ah| - 1
      ensures var row := Grid(av, ah)[r];
        Spans(Xs(row), Widths(row), d.width) && row[0].width == 0 && row[|row| - 1].width == 0
    {
      GridRowSpans(av, ah, r, d.width);
    }
  }

  /** Columns of the grid over boundary-wrapped axis lists span the height. */
  lemma PixelGridColumns(p: PixelLines, d: Dims, c: int)
    requires AxisShape(p.vertical, d.width) && AxisShape(p.horizontal, d.height)
    requires 0 <= c < |p.vertical| + 1
    ensures Spans(Ys(Column(PixelGrid(p, d), c)), Heights(Column(PixelGrid(p, d), c)), d.height)
  {
    var av := Bounded(p.vertical, d.width);
    var ah := Bounded(p.horizontal, d.height);
    BoundedPixels(p.horizontal, d.height);
    GapsSpan(ah, d.height);
    GridColumn(av, ah, c);
  }

  /** Every row of cells spans the image width; since the boundaries appear
      twice, the first and the last cell of each row have width 0. */
  lemma CellCoordinatesTile(d: Dims, lines: LineSet)
    ensures RowsTile(CellCoordinates(Some(d), lines), d.width)
  {
    var p := ToPixels(lines, d);
    PixelGridRows(p, d);
    assert CellCoordinates(Some(d), lines) == PixelGrid(p, d);
  }

  /** Every column of cells spans the image height. */
  lemma CellColumnsTile(d: Dims, lines: LineSet, c: int)
    requires 0 <= c < |ToPixels(lines, d).vertical| + 1
    ensures var cells := CellCoordinates(Some(d), lines);
      Spans(Ys(Column(cells, c)), Heights(Column(cells, c)), d.height)
  {
    PixelGridColumns(ToPixels(lines, d), d, c);
  }

  /** There are three more columns than distinct interior vertical pixel
      lines, and three more rows than distinct interior horizontal ones. */
  lemma CellCoordinatesCount(d: Dims, lines: LineSet)
    ensures var cells := CellCoordinates(Some(d), lines);
      var p := ToPixels(lines, d);
      |cells| == |Interior(p.horizontal, d.height)| + 3 &&
      forall r :: 0 <= r < |cells| ==> |cells[r]| == |Interior(p.vertical, d.width)| + 3
  {
    CellRowCount(d, lines);
    CellColumnCount(d, lines);
  }

  lemma CellRowCount(d: Dims, lines: LineSet)
    ensures |CellCoordinates(Some(d), lines)| == |Interior(ToPixels(lines, d).horizontal, d.height)| + 3
  {
    InteriorCount(ToPixels(lines, d).horizontal, d.height);
  }

  lemma CellColumnCount(d: Dims, lines: LineSet)
    ensures var cells := CellCoordinates(Some(d), lines);
      forall r :: 0 <= r < |cells| ==> |cells[r]| == |Interior(ToPixels(lines, d).vertical, d.width)| + 3
  {
    InteriorCount(ToPixels(lines, d).vertical, d.width);
  }

  lemma PixelGridCount(p: PixelLines, d: Dims)
    requires AxisShape(p.vertical, d.width) && AxisShape(p.horizontal, d.height)
    ensures var cells := PixelGrid(p, d);
      |cells| == |Interior(p.horizontal, d.height)| + 3 &&
      forall r :: 0 <= r < |cells| ==> |cells[r]| == |Interior(p.vertical, d.width)| + 3
  {
    InteriorCount(p.vertical, d.width);
    InteriorCount(p.horizontal, d.height);
  }

  /** A strictly ascending pixel list from 0 to the extent has exactly two
      values that are not interior. */
  lemma InteriorCount(px: seq<int>, extent: Extent)
    requires AxisShape(px, extent)
    ensures |Interior(px, extent)| == |px| - 2
  {
    assert px == [0] + px[1..|px| - 1] + [extent];
    InteriorAppend([0] + px[1..|px| - 1], [extent], extent);
    InteriorAppend([0], px[1..|px| - 1], extent);
    InteriorOfInside(px[1..|px| - 1], extent);
  }

  lemma {:induction false} InteriorAppend(a: seq<int>, b: seq<int>, extent: int)
    ensures Interior(a + b, extent) == Interior(a, extent) + Interior(b, extent)
  {
    if |a| > 0 {
      assert (a + b)[1..] == a[1..] + b;
      InteriorAppend(a[1..], b, extent);
    } else {
      assert a + b == b;
    }
  }

  lemma {:induction false} InteriorOfInside(a: seq<int>, extent: int)
    requires forall i :: 0 <= i < |a| ==> Inside(a[i], extent)
    ensures Interior(a, extent) == a
  {
    if |a| > 0 {
      InteriorOfInside(a[1..], extent);
    }
  }

  /** Bounds of a rounded quotient, multiplied out. */
  lemma RoundQuotient(total: real, parts: real)
    requires parts > 0.0
    ensures (Round(total / parts) as real - 0.5) * parts <= total
    ensures total < (Round(total / parts) as real + 0.5) * parts
  {
    var x := total / parts;
    var lo, hi := Round(x) as real - 0.5, Round(x) as real + 0.5;
    assert lo <= x < hi;
    MultiplyBounds(lo, x, hi, parts);
    assert x * parts == total;
    assert x * parts < hi * parts;
    assert total < hi * parts;
    assert hi == Round(total / parts) as real + 0.5;
  }

  lemma MultiplyBounds(lo: real, x: real, hi: real, k: real)
    requires k > 0.0 && lo <= x < hi
    ensures lo * k <= x * k < hi * k
  {
  }

  /** `getCellDimensions`: 16 by 18 without dimensions, otherwise the extent
      divided by the number of lines plus one, rounded: the block size times
      the number of blocks is within half a block count of the extent. */
  function CellDimensions(dims: Option<Dims>, lines: LineSet): (r: (int, int))
    ensures dims.None? ==> r == (16, 18)
    ensures dims.Some? ==>
      var rows := (|lines.horizontal| + 1) as real;
      var cols := (|lines.vertical| + 1) as real;
      (r.0 as real - 0.5) * rows <= dims.value.height as real < (r.0 as real + 0.5) * rows &&
      (r.1 as real - 0.5) * cols <= dims.value.width as real < (r.1 as real + 0.5) * cols
  {
    match dims
    case None => (16, 18)
    case Some(d) =>
      var rows := (|lines.horizontal| + 1) as real;
      var cols := (|lines.vertical| + 1) as real;
      RoundQuotient(d.height as real, rows);
      RoundQuotient(d.width as real, cols);
      (Round(d.height as real / rows), Round(d.width as real / cols))
  }

  /** `updateTableHeaders`: "Строка i" for each of the line count plus one
      rows, "Колонка i" for the columns. */
  function TableHeaders(lines: LineSet): (h: (seq<string>, seq<string>))
    ensures |h.0| == |lines.horizontal| + 1 && |h.1| == |lines.vertical| + 1
    ensures forall i :: 0 <= i < |h.0| ==> h.0[i] == "Строка " + Text.NatToString(i + 1)
    ensures forall i :: 0 <= i < |h.1| ==> h.1[i] == "Колонка " + Text.NatToString(i + 1)
  {
    (Text.NumberedLabels("Строка ", |lines.horizontal| + 1),
     Text.NumberedLabels("Колонка ", |lines.vertical| + 1))
  }

  /** Header labels are pairwise different. */
  lemma TableHeadersDistinct(lines: LineSet, i: int, j: int)
    requires 0 <= i < j < |TableHeaders(lines).0|
    ensures TableHeaders(lines).0[i] != TableHeaders(lines).0[j]
  {
    var h := TableHeaders(lines).0;
    LabelsDistinct("Строка ", |h|, i, j);
  }

  /** Numbered labels with a common prefix differ in their numbers. */
  lemma LabelsDistinct(prefix: string, n: nat, i: int, j: int)
    requires 0 <= i < j < n
    ensures Text.NumberedLabels(prefix, n)[i] != Text.NumberedLabels(prefix, n)[j]
  {
    var a, b := Text.NatToString(i + 1), Text.NatToString(j + 1);
    if prefix + a == prefix + b {
      Text.PrefixCancel(prefix, a, b);
      Text.NatToStringInjective(i + 1, j + 1);
    }
  }
}
