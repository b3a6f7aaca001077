/** The per-image state store of the manual brightness analysis and the state
    transitions of its operations: lazy creation of an image's state, line
    updates with dirty tracking, the default lines, the two server
    computations (the HTTP reply is an input) and clearing. Every operation
    returns the store it leaves behind. */
module Analysis {
  import opened Wrappers
  import opened Numeric
  import opened Ordering
  import opened Geometry
  import Aggregation
  import Replies
  import Text

  /** The saved server result (`lastServerResult`): the rounded echo of the
      lines, the image extent and the brightness matrix, `None` when the
      reply carried none. */
  datatype SavedResult = SavedResult(
    id: int,
    imageId: int,
    lines: PixelLines,
    width: Extent,
    height: Extent,
    brightness: Option<Aggregation.Matrix>)

  /** `ManualAnalysisState`; `processing` is `isProcessing`. */
  datatype AnalysisState = AnalysisState(
    original: Option<string>,
    blurred: Option<string>,
    dims: Option<Dims>,
    lines: LineSet,
    lastResult: Option<SavedResult>,
    unsaved: bool,
    processing: bool)

  /** The state created for an image seen for the first time. */
  const DefaultState: AnalysisState :=
    AnalysisState(None, None, None, LineSet([], []), None, false, false)

  type Store = map<int, AnalysisState>

  const NoDimensions: string := "Image dimensions not available"
  const NoLines: string := "Lines not configured"
  /** What the engine throws when `.map` is applied to a missing line list. */
  const MissingLineList: string := "Cannot read properties of undefined (reading 'map')"

  /** A result together with the store an operation leaves behind. */
  datatype Outcome<T> = Outcome(result: Result<T, string>, store: Store)

  /** The two stores agree everywhere except possibly at `id`. */
  ghost predicate SameElsewhere(a: Store, b: Store, id: int) {
    (forall k :: k != id ==> (k in a <==> k in b)) &&
    (forall k :: k != id && k in a && k in b ==> a[k] == b[k])
  }

  /** Writing the state of `id` keeps two stores the same elsewhere. */
  lemma SameElsewhereUpdate(a: Store, b: Store, id: int, s: AnalysisState)
    requires SameElsewhere(a, b, id)
    ensures SameElsewhere(a, b[id := s], id)
  {
  }

  /** `getAnalysisState`: the stored state, or the default state, which is
      then stored; no other image is affected. */
  function GetAnalysisState(store: Store, id: int): (r: (AnalysisState, Store))
    ensures id in r.1 && r.1[id] == r.0
    ensures id in store ==> r == (store[id], store)
    ensures id !in store ==> r.0 == DefaultState
    ensures SameElsewhere(store, r.1, id)
  {
    if id in store then (store[id], store) else (DefaultState, store[id := DefaultState])
  }

  /** A second look-up returns the same state and changes nothing. */
  lemma GetAnalysisStateStable(store: Store, id: int)
    ensures var (s, st) := GetAnalysisState(store, id);
      GetAnalysisState(st, id) == (s, st)
  {
  }

  /** `clearAnalysisState`: drop the image's state and nothing else. */
  function ClearAnalysisState(store: Store, id: int): (r: Store)
    ensures id !in r
    ensures SameElsewhere(store, r, id)
  {
    store - {id}
  }

  /** After clearing, the image starts over from the default state. */
  lemma ClearThenGet(store: Store, id: int)
    ensures GetAnalysisState(ClearAnalysisState(store, id), id).0 == DefaultState
  {
  }

  /** The pixel lines of the saved result, if there is one. */
  function SavedLines(saved: Option<SavedResult>): Option<PixelLines> {
    match saved
    case None => None
    case Some(r) => Some(r.lines)
  }

  /** `updateLines`: store the lines and recompute the dirty flag from the
      saved result; nothing else changes. */
  function UpdateLines(store: Store, id: int, lines: LineSet): (r: Store)
    ensures var s := GetAnalysisState(store, id).0;
      id in r &&
      r[id] == s.(lines := lines, unsaved := HasParametersChanged(s.dims, lines, SavedLines(s.lastResult)))
    ensures SameElsewhere(store, r, id)
  {
    var (s, st) := GetAnalysisState(store, id);
    st[id := s.(lines := lines, unsaved := HasParametersChanged(s.dims, lines, SavedLines(s.lastResult)))]
  }

  /** The flag `updateLines` leaves is clear exactly when the image has
      dimensions and a saved result and both axes agree with it. */
  lemma UpdateLinesFlag(store: Store, id: int, lines: LineSet)
    ensures var s := GetAnalysisState(store, id).0;
      !UpdateLines(store, id, lines)[id].unsaved <==>
        s.dims.Some? && s.lastResult.Some? &&
        AxisAgrees(s.lastResult.value.lines.vertical, XsOf(lines.vertical), s.dims.value.width) &&
        AxisAgrees(s.lastResult.value.lines.horizontal, YsOf(lines.horizontal), s.dims.value.height)
  {
    var s := GetAnalysisState(store, id).0;
    HasParametersChangedMeaning(s.dims, lines, SavedLines(s.lastResult));
  }

  /** A new image's stored flag is clear, yet any line update on it sets the
      flag, because there is no saved result to agree with. */
  lemma FreshImageBecomesDirty(store: Store, id: int, lines: LineSet)
    requires id !in store
    ensures !GetAnalysisState(store, id).0.unsaved
    ensures UpdateLines(store, id, lines)[id].unsaved
  {
  }

  /** `hasUnsavedChanges`: the stored flag. */
  function HasUnsavedChanges(store: Store, id: int): (r: (bool, Store))
    ensures id in store ==> r == (store[id].unsaved, store)
    ensures id !in store ==> !r.0 && r.1 == store[id := DefaultState]
  {
    var (s, st) := GetAnalysisState(store, id);
    (s.unsaved, st)
  }

  /** The three default positions of `initializeDefaultLines`, in order. */
  function Quarters(): seq<real> {
    [0.25, 0.5, 0.75]
  }

  /** The id `<axis>-<clock reading>-<i>` of a default line. */
  function DefaultId(axis: string, stamp: int, i: nat): string {
    axis + "-" + Text.IntToString(stamp) + "-" + Text.NatToString(i)
  }

  /** The default lines; `clock(k)` is the k-th reading of the clock, the
      horizontal lines reading it before the vertical ones. */
  function DefaultLines(clock: nat -> int): (lines: LineSet)
    ensures |lines.horizontal| == 3 && |lines.vertical| == 3
    ensures YsOf(lines.horizontal) == Quarters() && XsOf(lines.vertical) == Quarters()
    ensures forall i :: 0 <= i < 3 ==>
      lines.horizontal[i] == Line(DefaultId("h", clock(i), i + 1), 0.0, Quarters()[i]) &&
      lines.vertical[i] == Line(DefaultId("v", clock(3 + i), i + 1), Quarters()[i], 0.0)
  {
    var h := seq(3, i requires 0 <= i < 3 => Line(DefaultId("h", clock(i), i + 1), 0.0, Quarters()[i]));
    var v := seq(3, i requires 0 <= i < 3 => Line(DefaultId("v", clock(3 + i), i + 1), Quarters()[i], 0.0));
    assert YsOf(h) == Quarters();
    assert XsOf(v) == Quarters();
    LineSet(h, v)
  }

  /** `initializeDefaultLines`: fails without dimensions (the state has been
      created by then); otherwise stores the default lines and sets the flag. */
  function InitializeDefaultLines(store: Store, id: int, clock: nat -> int): (o: Outcome<LineSet>)
    ensures var (s, st) := GetAnalysisState(store, id);
      (s.dims.None? ==> o == Outcome(Failure(NoDimensions), st)) &&
      (s.dims.Some? ==>
        o.result == Success(DefaultLines(clock)) &&
        o.store == st[id := s.(lines := DefaultLines(clock), unsaved := true)])
    ensures SameElsewhere(store, o.store, id)
  {
    var (s, st) := GetAnalysisState(store, id);
    if s.dims.None? then Outcome(Failure(NoDimensions), st)
    else
      var lines := DefaultLines(clock);
      Outcome(Success(lines), st[id := s.(lines := lines, unsaved := true)])
  }

  /** On an extent of at least 4 pixels the quarter positions round to three
      different pixels strictly inside the image. */
  lemma QuarterPixels(extent: Extent)
    requires extent >= 4
    ensures var e := extent as real;
      0 < Round(0.25 * e) < Round(0.5 * e) < Round(0.75 * e) < extent
  {
    var e := extent as real;
    assert 0.5 * e >= 0.25 * e + 1.0;
    assert 0.75 * e >= 0.5 * e + 1.0;
    assert 0.75 * e + 0.5 < e;
  }

  /** 0, the three rounded quarter positions and the extent. */
  function QuarterCuts(extent: Extent): seq<int> {
    var e := extent as real;
    [0, Round(0.25 * e), Round(0.5 * e), Round(0.75 * e), extent]
  }

  /** The default lines cut an axis of at least 4 pixels at three distinct
      interior pixels, so the conversion gives exactly 0, the three rounded
      quarter positions and the extent. */
  lemma DefaultAxisPixels(extent: Extent)
    requires extent >= 4
    ensures AxisToPixels(Quarters(), extent) == QuarterCuts(extent)
  {
    var e := extent as real;
    QuarterPixels(extent);
    var sc := Scale(Quarters(), extent);
    assert sc[0] == Round(0.25 * e) && sc[1] == Round(0.5 * e) && sc[2] == Round(0.75 * e);
    assert [0] + sc + [extent] == QuarterCuts(extent);
    ThreeCuts(Quarters(), extent);
  }

  /** Three positions that round to ascending interior pixels give exactly 0,
      those pixels and the extent. */
  lemma ThreeCuts(rels: seq<real>, extent: Extent)
    requires |rels| == 3
    requires var c := Scale(rels, extent); 0 < c[0] < c[1] < c[2] < extent
    ensures AxisToPixels(rels, extent) == [0] + Scale(rels, extent) + [extent]
  {
    var a := AxisToPixels(rels, extent);
    var c := Scale(rels, extent);
    var b := [0, c[0], c[1], c[2], extent];
    assert [0] + c + [extent] == b;
    assert StrictlyAscending(b);
    forall y
      ensures y in a <==> y in b
    {
      if y in c {
        assert y == c[0] || y == c[1] || y == c[2];
      }
    }
    StrictUnique(a, b);
  }

  /** After `initializeDefaultLines` on an image at least 4 pixels in both
      directions, the cell grid has 3 interior lines per axis, hence 6 rows
      of 6 cells. */
  lemma DefaultLinesGrid(d: Dims, clock: nat -> int)
    requires d.width >= 4 && d.height >= 4
    ensures var cells := CellCoordinates(Some(d), DefaultLines(clock));
      |cells| == 6 && forall r :: 0 <= r < |cells| ==> |cells[r]| == 6
  {
    QuarterGrid(d, DefaultLines(clock));
  }

  lemma QuarterGrid(d: Dims, lines: LineSet)
    requires d.width >= 4 && d.height >= 4
    requires XsOf(lines.vertical) == Quarters() && YsOf(lines.horizontal) == Quarters()
    ensures var cells := CellCoordinates(Some(d), lines);
      |cells| == 6 && forall r :: 0 <= r < |cells| ==> |cells[r]| == 6
  {
    var p := ToPixels(lines, d);
    assert p.vertical == AxisToPixels(Quarters(), d.width);
    assert p.horizontal == AxisToPixels(Quarters(), d.height);
    QuarterAxisLength(d.width);
    QuarterAxisLength(d.height);
    FiveCutGrid(d, lines);
  }

  /** Five cuts per axis make a grid of 6 rows of 6 cells. */
  lemma FiveCutGrid(d: Dims, lines: LineSet)
    requires |ToPixels(lines, d).vertical| == 5 && |ToPixels(lines, d).horizontal| == 5
    ensures var cells := CellCoordinates(Some(d), lines);
      |cells| == 6 && forall r :: 0 <= r < |cells| ==> |cells[r]| == 6
  {
  }

  lemma QuarterAxisLength(extent: Extent)
    requires extent >= 4
    ensures |AxisToPixels(Quarters(), extent)| == 5
  {
    DefaultAxisPixels(extent);
  }

  /** The guard both computations pass before anything else happens. */
  function Guard(s: AnalysisState): (r: Option<string>)
    ensures r.None? <==> s.dims.Some? && |s.lines.horizontal| > 0 && |s.lines.vertical| > 0
    ensures s.dims.None? ==> r == Some(NoDimensions)
    ensures s.dims.Some? && r.Some? ==> r == Some(NoLines)
  {
    if s.dims.None? then Some(NoDimensions)
    else if |s.lines.horizontal| == 0 || |s.lines.vertical| == 0 then Some(NoLines)
    else None
  }

  /** The lines sent with the mean request: the interior pixels only. */
  function MeanRequest(lines: LineSet, d: Dims): (r: PixelLines)
    ensures forall i :: 0 <= i < |r.vertical| ==> Inside(r.vertical[i], d.width)
    ensures forall i :: 0 <= i < |r.horizontal| ==> Inside(r.horizontal[i], d.height)
  {
    var px := ToPixels(lines, d);
    PixelLines(Interior(px.vertical, d.width), Interior(px.horizontal, d.height))
  }

  /** The reply to the mean request. A reply whose fetch failed carries the
      thrown message; an answered reply may lack its line echo or its
      brightness matrix. */
  datatype MeanReply =
    | MeanUnreachable(message: string)
    | MeanRejected(status: nat, detail: Replies.Detail)
    | MeanAnswered(
        resultId: int,
        imageId: int,
        means: Option<Aggregation.Matrix>,
        vertical: Option<seq<real>>,
        horizontal: Option<seq<real>>)

  /** The request sent (`None` when a guard failed first), the result and the
      store left behind. */
  datatype MeanOutcome = MeanOutcome(request: Option<PixelLines>, result: Result<SavedResult, string>, store: Store)

  /** What follows the request in `calculateMeanLines`, from the state `s`
      of an image with dimensions `d`: the result and the state left behind.
      A fetch failure or an error reply leaves only `isProcessing` cleared.
      An answered reply lacking a line list fails at the rounding. Otherwise
      the lines become the echo converted back to relative, the rounded echo
      is saved and the flag cleared; the final recalculation of the means
      then fails when the reply had no brightness matrix. */
  function RespondToMean(s: AnalysisState, d: Dims, reply: MeanReply): (r: (Result<SavedResult, string>, AnalysisState))
    ensures reply.MeanUnreachable? ==> r == (Failure(reply.message), s.(processing := false))
    ensures reply.MeanRejected? ==>
      r == (Failure(Replies.HttpErrorMessage(reply.status, reply.detail)), s.(processing := false))
    ensures reply.MeanAnswered? && (reply.vertical.None? || reply.horizontal.None?) ==>
      r == (Failure(MissingLineList), s.(processing := false))
    ensures reply.MeanAnswered? && reply.vertical.Some? && reply.horizontal.Some? ==>
      var saved := SavedResult(reply.resultId, reply.imageId,
        PixelLines(RoundAll(reply.vertical.value), RoundAll(reply.horizontal.value)),
        d.width, d.height, reply.means);
      r.1 == s.(lines := ToRelative(reply.vertical.value, reply.horizontal.value, d),
                lastResult := Some(saved), unsaved := false, processing := false) &&
      (reply.means.Some? ==> r.0 == Success(saved)) &&
      (reply.means.None? ==> r.0 == Failure(Aggregation.NoBrightnessData))
  {
    var idle := s.(processing := false);
    match reply
    case MeanUnreachable(message) => (Failure(message), idle)
    case MeanRejected(status, detail) => (Failure(Replies.HttpErrorMessage(status, detail)), idle)
    case MeanAnswered(resultId, imageId, means, vertical, horizontal) =>
      if vertical.None? || horizontal.None? then (Failure(MissingLineList), idle)
      else
        var saved := SavedResult(resultId, imageId,
          PixelLines(RoundAll(vertical.value), RoundAll(horizontal.value)),
          d.width, d.height, means);
        var after := s.(lines := ToRelative(vertical.value, horizontal.value, d),
                        lastResult := Some(saved), unsaved := false, processing := false);
        var recalculated := Aggregation.RecalculateAllMeans(means);
        if recalculated.Failure? then (Failure(recalculated.error), after)
        else (Success(saved), after)
  }

  /** `calculateMeanLines`: a failed guard throws before anything but the
      lazy creation of the state; otherwise the interior pixels are sent and
      the reply is handled as above. Only this image's state changes. */
  function CalculateMeanLines(store: Store, id: int, reply: MeanReply): (o: MeanOutcome)
    ensures var (s, st) := GetAnalysisState(store, id);
      (Guard(s).Some? ==> o == MeanOutcome(None, Failure(Guard(s).value), st)) &&
      (Guard(s).None? ==>
        o.request == Some(MeanRequest(s.lines, s.dims.value)) &&
        id in o.store && (o.result, o.store[id]) == RespondToMean(s, s.dims.value, reply))
  {
    var got := GetAnalysisState(store, id);
    var guard := Guard(got.0);
    if guard.Some? then MeanOutcome(None, Failure(guard.value), got.1)
    else
      var answer := RespondToMean(got.0, got.0.dims.value, reply);
      MeanOutcome(Some(MeanRequest(got.0.lines, got.0.dims.value)), answer.0, got.1[id := answer.1])
  }

  /** The mean computation leaves every other image's state as it was. */
  lemma MeanStore(store: Store, id: int, reply: MeanReply)
    ensures SameElsewhere(store, CalculateMeanLines(store, id, reply).store, id)
  {
  }

  /** `isProcessing` is clear after the call whatever the reply, and the
      dimensions and the two images are never changed. */
  lemma MeanLeavesIdle(store: Store, id: int, reply: MeanReply)
    ensures var o := CalculateMeanLines(store, id, reply);
      var s := GetAnalysisState(store, id).0;
      id in o.store && o.store[id].dims == s.dims &&
      o.store[id].original == s.original && o.store[id].blurred == s.blurred &&
      (o.request.Some? ==> !o.store[id].processing) &&
      (o.request.None? ==> o.store[id] == s)
  {
  }

  /** The mean request carries strictly ascending pixels, all strictly
      inside the image: the boundaries are never sent. */
  lemma MeanRequestShape(lines: LineSet, d: Dims)
    ensures var r := MeanRequest(lines, d);
      StrictlyAscending(r.vertical) && StrictlyAscending(r.horizontal) &&
      (forall i :: 0 <= i < |r.vertical| ==> Inside(r.vertical[i], d.width)) &&
      (forall i :: 0 <= i < |r.horizontal| ==> Inside(r.horizontal[i], d.height))
  {
    var px := ToPixels(lines, d);
    InteriorOfStrict(px.vertical, d.width);
    InteriorOfStrict(px.horizontal, d.height);
  }

  /** Integer pixels survive `Math.round` unchanged. */
  lemma RoundAllOfIntegers(p: seq<int>)
    ensures RoundAll(Reals(p)) == p
  {
    forall i | 0 <= i < |p|
      ensures RoundAll(Reals(p))[i] == p[i]
    {
      RoundOfInteger(p[i]);
    }
  }

  /** An integer echo whose interior is duplicate-free agrees with the lines
      restored from it; with a repeated interior value it cannot agree. */
  lemma EchoAgrees(p: seq<int>, extent: Extent)
    ensures AxisAgrees(p, AxisToRelative(Reals(p), extent), extent) <==> Distinct(Interior(p, extent))
  {
    RestoredPixels(p, extent);
  }

  /** After a successful mean computation whose echo consists of integer
      pixels, a line update that leaves every line on the same pixel keeps
      the flag clear exactly when neither axis of the echo repeats an
      interior pixel. */
  lemma SavedLinesStayClean(store: Store, id: int, v: seq<int>, h: seq<int>, reply: MeanReply, lines: LineSet)
    requires reply.MeanAnswered? && reply.vertical == Some(Reals(v)) && reply.horizontal == Some(Reals(h))
    requires CalculateMeanLines(store, id, reply).result.Success?
    requires var o := CalculateMeanLines(store, id, reply);
      id in o.store && o.store[id].dims.Some? &&
      ToPixels(lines, o.store[id].dims.value) == ToPixels(o.store[id].lines, o.store[id].dims.value)
    ensures var o := CalculateMeanLines(store, id, reply);
      var d := o.store[id].dims.value;
      !UpdateLines(o.store, id, lines)[id].unsaved <==>
        Distinct(Interior(v, d.width)) && Distinct(Interior(h, d.height))
  {
    var o := CalculateMeanLines(store, id, reply);
    var s := o.store[id];
    var d := s.dims.value;
    RoundAllOfIntegers(v);
    RoundAllOfIntegers(h);
    assert s.lastResult.value.lines == PixelLines(v, h);
    assert s.lines == ToRelative(Reals(v), Reals(h), d);
    assert HasParametersChanged(s.dims, lines, SavedLines(s.lastResult)) ==
      HasParametersChanged(s.dims, s.lines, SavedLines(s.lastResult));
    UpdateLinesFlag(o.store, id, s.lines);
    HasParametersChangedMeaning(s.dims, s.lines, SavedLines(s.lastResult));
    EchoAgrees(v, d.width);
    EchoAgrees(h, d.height);
  }

  /** What loading the original image meets: the image service fails, the
      image arrives but probing its size fails, or the image and its probed
      dimensions both arrive. */
  datatype OriginalReply =
    | OriginalFailed(message: string)
    | ProbeFailed(base64: string, message: string)
    | OriginalLoaded(base64: string, dims: Dims)

  /** `loadOriginalImage`: a cached image is returned without a request.
      Otherwise the fetched image is cached before its size is probed, so a
      failed probe still leaves the image cached, without dimensions. */
  function LoadOriginalImage(store: Store, id: int, reply: OriginalReply): (o: Outcome<string>)
    ensures var (s, st) := GetAnalysisState(store, id);
      (s.original.Some? ==> o == Outcome(Success(s.original.value), st)) &&
      (s.original.None? && reply.OriginalFailed? ==> o == Outcome(Failure(reply.message), st)) &&
      (s.original.None? && reply.ProbeFailed? ==>
        o == Outcome(Failure(reply.message), st[id := s.(original := Some(reply.base64))])) &&
      (s.original.None? && reply.OriginalLoaded? ==>
        o == Outcome(Success(reply.base64), st[id := s.(original := Some(reply.base64), dims := Some(reply.dims))]))
    ensures SameElsewhere(store, o.store, id)
  {
    var (s, st) := GetAnalysisState(store, id);
    if s.original.Some? then Outcome(Success(s.original.value), st)
    else
      match reply
      case OriginalFailed(message) => Outcome(Failure(message), st)
      case ProbeFailed(base64, message) => Outcome(Failure(message), st[id := s.(original := Some(base64))])
      case OriginalLoaded(base64, dims) =>
        Outcome(Success(base64), st[id := s.(original := Some(base64), dims := Some(dims))])
  }

  /** Once an image is loaded, every later load returns it, whatever the
      server would answer, and changes nothing. */
  lemma OriginalCached(store: Store, id: int, first: OriginalReply, later: OriginalReply)
    ensures var o := LoadOriginalImage(store, id, first);
      o.result.Success? ==> LoadOriginalImage(o.store, id, later) == Outcome(o.result, o.store)
  {
  }

  /** A failed size probe sticks: the next load succeeds from the cache and
      never sets the dimensions, so the mean computation keeps failing on
      missing dimensions. */
  lemma ProbeFailureSticks(store: Store, id: int, base64: string, message: string,
                           later: OriginalReply, reply: MeanReply)
    requires GetAnalysisState(store, id).0.original.None?
    requires GetAnalysisState(store, id).0.dims.None?
    ensures var o := LoadOriginalImage(store, id, ProbeFailed(base64, message));
      o.result == Failure(message) &&
      LoadOriginalImage(o.store, id, later) == Outcome(Success(base64), o.store) &&
      CalculateMeanLines(o.store, id, reply).result == Failure(NoDimensions)
  {
    var o := LoadOriginalImage(store, id, ProbeFailed(base64, message));
    assert o.store[id].dims.None?;
    assert Guard(o.store[id]) == Some(NoDimensions);
  }

  /** The reply to the blur request: unreachable server, a failing status,
      or the blurred image as a data URL. */
  datatype BlurReply =
    | BlurUnreachable(message: string)
    | BlurRejected(status: nat)
    | Blurred(base64: string)

  /** `getBlurredImage`: a cached blurred image is returned without a
      request; otherwise a blurred image is cached and returned, and a failure
      throws its message or the status line. */
  function GetBlurredImage(store: Store, id: int, reply: BlurReply): (o: Outcome<string>)
    ensures var (s, st) := GetAnalysisState(store, id);
      (s.blurred.Some? ==> o == Outcome(Success(s.blurred.value), st)) &&
      (s.blurred.None? && reply.Blurred? ==>
        o == Outcome(Success(reply.base64), st[id := s.(blurred := Some(reply.base64))])) &&
      (s.blurred.None? && reply.BlurUnreachable? ==> o == Outcome(Failure(reply.message), st)) &&
      (s.blurred.None? && reply.BlurRejected? ==>
        o == Outcome(Failure(Replies.StatusPrefix + Text.NatToString(reply.status)), st))
    ensures SameElsewhere(store, o.store, id)
  {
    var (s, st) := GetAnalysisState(store, id);
    if s.blurred.Some? then Outcome(Success(s.blurred.value), st)
    else
      match reply
      case BlurUnreachable(message) => Outcome(Failure(message), st)
      case BlurRejected(status) => Outcome(Failure(Replies.StatusPrefix + Text.NatToString(status)), st)
      case Blurred(base64) => Outcome(Success(base64), st[id := s.(blurred := Some(base64))])
  }

  /** Once a blurred image is cached, later calls return it and change
      nothing; the original image and the lines are never touched. */
  lemma BlurredCached(store: Store, id: int, first: BlurReply, later: BlurReply)
    ensures var o := GetBlurredImage(store, id, first);
      var s := GetAnalysisState(store, id).0;
      o.store[id] == s.(blurred := o.store[id].blurred) &&
      (o.result.Success? ==> GetBlurredImage(o.store, id, later) == Outcome(o.result, o.store))
  {
  }

  /** The reply to the look-up of a stored result: the server is
      unreachable, has no result (404), answers with another failing status,
      or returns the stored result, whose lines are integer pixels. */
  datatype ExistingReply =
    | ExistingUnreachable(message: string)
    | ExistingNotFound
    | ExistingRejected(status: nat)
    | ExistingFound(result: SavedResult)

  /** The lines restored from a stored result: its positions strictly inside
      the image, converted back to relative coordinates. */
  function RestoredLines(saved: PixelLines, d: Dims): LineSet {
    ToRelative(Reals(Interior(saved.vertical, d.width)), Reals(Interior(saved.horizontal, d.height)), d)
  }

  /** `checkExistingResult`: every failure, thrown or not, yields `null` and
      leaves the store alone (the state is not even created). A found result
      is saved on the image's state and, when the image has dimensions,
      replaces its lines; the dirty flag is left as it was. */
  function CheckExistingResult(store: Store, id: int, reply: ExistingReply): (o: (Option<SavedResult>, Store))
    ensures !reply.ExistingFound? ==> o == (None, store)
    ensures reply.ExistingFound? ==>
      var s := GetAnalysisState(store, id).0;
      o.0 == Some(reply.result) && id in o.1 &&
      o.1[id] == s.(lastResult := Some(reply.result),
                    lines := if s.dims.Some? then RestoredLines(reply.result.lines, s.dims.value) else s.lines)
    ensures SameElsewhere(store, o.1, id)
  {
    match reply
    case ExistingFound(result) =>
      var (s, st) := GetAnalysisState(store, id);
      var lines := if s.dims.Some? then RestoredLines(result.lines, s.dims.value) else s.lines;
      (Some(result), st[id := s.(lastResult := Some(result), lines := lines)])
    case _ => (None, store)
  }

  /** The restored lines sit exactly on the stored interior pixels: the next
      line update that keeps them finds nothing changed exactly when neither
      stored axis repeats an interior pixel. Without dimensions nothing is
      restored and that update marks the image changed. */
  lemma RestoredLinesAgree(store: Store, id: int, reply: ExistingReply)
    requires reply.ExistingFound?
    ensures var st := CheckExistingResult(store, id, reply).1;
      var s := st[id];
      var p := reply.result.lines;
      (s.dims.None? ==> UpdateLines(st, id, s.lines)[id].unsaved) &&
      (s.dims.Some? ==>
        (!UpdateLines(st, id, s.lines)[id].unsaved <==>
          Distinct(Interior(p.vertical, s.dims.value.width)) &&
          Distinct(Interior(p.horizontal, s.dims.value.height))))
  {
    var st := CheckExistingResult(store, id, reply).1;
    var s := st[id];
    if s.dims.Some? {
      var d := s.dims.value;
      var p := reply.result.lines;
      assert s.lines == RestoredLines(p, d);
      UpdateLinesFlag(st, id, s.lines);
      RestoredAxisAgrees(p.vertical, d.width);
      RestoredAxisAgrees(p.horizontal, d.height);
    }
  }

  /** One axis of the above: a stored axis agrees with its own restored
      interior exactly when that interior has no repeats. */
  lemma RestoredAxisAgrees(saved: seq<int>, extent: Extent)
    ensures AxisAgrees(saved, AxisToRelative(Reals(Interior(saved, extent)), extent), extent) <==>
      Distinct(Interior(saved, extent))
  {
    var q := Interior(saved, extent);
    InteriorOfInside(q, extent);
    EchoAgrees(q, extent);
  }

  /** A selected cell and a selection category as sent to the server. */
  datatype SelectedCell = SelectedCell(row: int, col: int, categoryId: string)
  datatype SelectionCategory = SelectionCategory(id: string, name: string, color: string)

  /** The body of the categorized request. */
  datatype CategorizedRequest = CategorizedRequest(
    verticalLines: seq<int>,
    horizontalLines: seq<int>,
    selectedCells: seq<SelectedCell>,
    selectionCategories: seq<SelectionCategory>,
    imageId: int)

  /** `CategorizedMeanResponse` with `L` the type of its line lists: reals as
      received, integers once rounded. */
  datatype CategorizedBody<L> = CategorizedBody(
    success: bool,
    message: string,
    imageId: int,
    resultId: int,
    allCellsMean: real,
    categoryResults: seq<Aggregation.CategoryMeanResult>,
    overallMean: real,
    verticalLines: L,
    horizontalLines: L,
    totalCells: int,
    selectedCellsCount: int)

  datatype CategorizedReply =
    | CategorizedUnreachable(message: string)
    | CategorizedRejected(status: nat, detail: Replies.Detail)
    | CategorizedAnswered(body: CategorizedBody<Option<seq<real>>>)

  datatype CategorizedOutcome = CategorizedOutcome(
    request: Option<CategorizedRequest>,
    result: Result<CategorizedBody<seq<int>>, string>,
    store: Store)

  /** Two bodies agree on everything but their line lists. */
  predicate SameFields<L, M>(a: CategorizedBody<L>, b: CategorizedBody<M>) {
    a.success == b.success && a.message == b.message && a.imageId == b.imageId &&
    a.resultId == b.resultId && a.allCellsMean == b.allCellsMean &&
    a.categoryResults == b.categoryResults && a.overallMean == b.overallMean &&
    a.totalCells == b.totalCells && a.selectedCellsCount == b.selectedCellsCount
  }

  /** The answered body with both line lists rounded; a missing list fails
      at the rounding. */
  function RoundBody(b: CategorizedBody<Option<seq<real>>>): (r: Result<CategorizedBody<seq<int>>, string>)
    ensures b.verticalLines.None? || b.horizontalLines.None? <==> r == Failure(MissingLineList)
    ensures r.Success? ==>
      r.value.verticalLines == RoundAll(b.verticalLines.value) &&
      r.value.horizontalLines == RoundAll(b.horizontalLines.value) &&
      SameFields(r.value, b)
  {
    if b.verticalLines.None? || b.horizontalLines.None? then Failure(MissingLineList)
    else
      Success(CategorizedBody(b.success, b.message, b.imageId, b.resultId, b.allCellsMean,
        b.categoryResults, b.overallMean,
        RoundAll(b.verticalLines.value), RoundAll(b.horizontalLines.value),
        b.totalCells, b.selectedCellsCount))
  }

  /** The result `calculateCategorizedMean` makes of a reply: the thrown
      message, the error message of an error reply, or the rounded body. */
  function RespondToCategorized(reply: CategorizedReply): (r: Result<CategorizedBody<seq<int>>, string>)
    ensures reply.CategorizedUnreachable? ==> r == Failure(reply.message)
    ensures reply.CategorizedRejected? ==> r == Failure(Replies.HttpErrorMessage(reply.status, reply.detail))
    ensures reply.CategorizedAnswered? ==> r == RoundBody(reply.body)
  {
    match reply
    case CategorizedUnreachable(message) => Failure(message)
    case CategorizedRejected(status, detail) => Failure(Replies.HttpErrorMessage(status, detail))
    case CategorizedAnswered(body) => RoundBody(body)
  }

  /** `calculateCategorizedMean`: the same guards as the mean computation;
      the request carries the full pixel arrays, boundaries included, with
      the selections and the image id. Of the state only `isProcessing`
      changes, and it is clear at the end. */
  function CalculateCategorizedMean(store: Store, id: int, cells: seq<SelectedCell>,
                                    categories: seq<SelectionCategory>, reply: CategorizedReply): (o: CategorizedOutcome)
    ensures var (s, st) := GetAnalysisState(store, id);
      (Guard(s).Some? ==> o == CategorizedOutcome(None, Failure(Guard(s).value), st)) &&
      (Guard(s).None? ==>
        var px := ToPixels(s.lines, s.dims.value);
        o.request == Some(CategorizedRequest(px.vertical, px.horizontal, cells, categories, id)) &&
        o.result == RespondToCategorized(reply) &&
        o.store == st[id := s.(processing := false)])
  {
    var got := GetAnalysisState(store, id);
    var guard := Guard(got.0);
    if guard.Some? then CategorizedOutcome(None, Failure(guard.value), got.1)
    else
      var px := ToPixels(got.0.lines, got.0.dims.value);
      var request := CategorizedRequest(px.vertical, px.horizontal, cells, categories, id);
      CategorizedOutcome(Some(request), RespondToCategorized(reply), got.1[id := got.0.(processing := false)])
  }

  /** Of the store, the categorized computation changes at most the image's
      processing flag, which it clears once past the guards. */
  lemma CategorizedStore(store: Store, id: int, cells: seq<SelectedCell>,
                         categories: seq<SelectionCategory>, reply: CategorizedReply)
    ensures var o := CalculateCategorizedMean(store, id, cells, categories, reply);
      SameElsewhere(store, o.store, id)
    ensures var s := GetAnalysisState(store, id).0;
      var o := CalculateCategorizedMean(store, id, cells, categories, reply);
      id in o.store && o.store[id] == (if Guard(s).Some? then s else s.(processing := false))
  {
    var got := GetAnalysisState(store, id);
    var o := CalculateCategorizedMean(store, id, cells, categories, reply);
    if Guard(got.0).Some? {
      assert o.store == got.1;
    } else {
      assert o.store == got.1[id := got.0.(processing := false)];
      SameElsewhereUpdate(store, got.1, id, got.0.(processing := false));
    }
  }

  /** The two requests differ in the boundaries: for the same state, each
      categorized line list is the mean request's list with 0 and the extent
      put around it. */
  lemma RequestsDifferInBoundaries(store: Store, id: int, reply: MeanReply,
                                   cells: seq<SelectedCell>, categories: seq<SelectionCategory>,
                                   creply: CategorizedReply)
    requires CalculateMeanLines(store, id, reply).request.Some?
    ensures var m := CalculateMeanLines(store, id, reply).request.value;
      var c := CalculateCategorizedMean(store, id, cells, categories, creply).request;
      var d := GetAnalysisState(store, id).0.dims.value;
      c.Some? &&
      c.value.verticalLines == [0] + m.vertical + [d.width] &&
      c.value.horizontalLines == [0] + m.horizontal + [d.height]
  {
    var s := GetAnalysisState(store, id).0;
    var d := s.dims.value;
    var px := ToPixels(s.lines, d);
    BoundariesAround(px.vertical, d.width);
    BoundariesAround(px.horizontal, d.height);
  }

  /** A converted axis is its interior with 0 and the extent around it. */
  lemma BoundariesAround(px: seq<int>, extent: Extent)
    requires AxisShape(px, extent)
    requires forall i :: 0 < i < |px| - 1 ==> Inside(px[i], extent)
    ensures px == [0] + Interior(px, extent) + [extent]
  {
    var mid := px[1..|px| - 1];
    assert px == [0] + mid + [extent];
    InteriorAppend([0] + mid, [extent], extent);
    InteriorAppend([0], mid, extent);
    InteriorOfInside(mid, extent);
  }
}
