/**
 The numeric cores of the step-navigation helpers. Every value the source
 reads from the window or the DOM is a parameter; JavaScript numbers are
 modelled as exact reals and `undefined` as `None`.
 */
module NavigationHelpers {
  import opened Wrappers

  /** A waypoint of the stepper track: its vertical offset in the document. */
  datatype StepperPoint = StepperPoint(offsetY: real)

  /** `points[i]?.offsetY`: undefined outside the array or where the entry is undefined. */
  function OffsetAt(points: seq<Option<StepperPoint>>, i: int): (y: Option<real>)
    ensures y.Some? <==> 0 <= i < |points| && points[i].Some?
    ensures y.Some? ==> y.value == points[i].value.offsetY
  {
    if 0 <= i < |points| && points[i].Some? then Some(points[i].value.offsetY) else None
  }

  /** JavaScript truthiness of a number that may be undefined (NaN is not modelled). */
  predicate Truthy(x: Option<real>) {
    x.Some? && x.value != 0.0
  }

  /** `Math.ceil` on a finite number. */
  function Ceil(x: real): (k: int)
    ensures (k as real) - 1.0 < x <= k as real
  {
    -((-x).Floor)
  }

  /** The percentage each segment between two consecutive waypoints is worth. */
  function DistanceBetweenPoints(n: int): (d: real)
    requires n >= 2
    ensures d > 0.0 && d * ((n - 1) as real) == 100.0
  {
    100.0 / ((n - 1) as real)
  }

  /**
   The loop's segment test at `index`: both endpoint offsets are truthy (defined
   and non-zero) and the position lies strictly between them.
   */
  predicate SegmentMatches(points: seq<Option<StepperPoint>>, index: int, pos: real) {
    var current := OffsetAt(points, index);
    var next := OffsetAt(points, index + 1);
    Truthy(current) && Truthy(next) && pos > current.value && pos < next.value
  }

  /** A matching segment lies inside the array, which therefore holds at least two entries. */
  lemma MatchInRange(points: seq<Option<StepperPoint>>, index: int, pos: real)
    requires SegmentMatches(points, index, pos)
    ensures 0 <= index && index + 1 < |points| && |points| >= 2
  {
  }

  /** The loop body's value for a matching segment, in the source's order of operations. */
  function SegmentPercent(points: seq<Option<StepperPoint>>, index: int, pos: real): real
    requires SegmentMatches(points, index, pos)
  {
    MatchInRange(points, index, pos);
    var current := OffsetAt(points, index).value;
    var next := OffsetAt(points, index + 1).value;
    var d := DistanceBetweenPoints(|points|);
    var from := pos - current;
    var to := next - current;
    var percent := (from / to) * 100.0;
    d * (index as real) + (percent * d) / 100.0
  }

  /** The `for` loop from `index` on: a matching segment overwrites the running value, the last one wins. */
  function Scan(points: seq<Option<StepperPoint>>, pos: real, index: nat, globalPercent: real): (r: real)
    ensures r == globalPercent || exists j :: index <= j < |points| && SegmentMatches(points, j, pos) && r == SegmentPercent(points, j, pos)
    ensures (forall j :: index <= j < |points| ==> !SegmentMatches(points, j, pos)) ==> r == globalPercent
    decreases |points| - index
  {
    if index >= |points| then globalPercent
    else
      var next := if SegmentMatches(points, index, pos) then SegmentPercent(points, index, pos) else globalPercent;
      Scan(points, pos, index + 1, next)
  }

  /** Whether the last entry is defined and the position is strictly past it. */
  predicate PastLastPoint(points: seq<Option<StepperPoint>>, pos: real) {
    |points| > 0 && points[|points| - 1].Some? && pos > points[|points| - 1].value.offsetY
  }

  /** getIconOffset: the progress (nominally 0-100) of the stepper icon along the track. */
  function IconOffset(points: seq<Option<StepperPoint>>, pos: real, pageLoad: bool): (g: real)
    ensures !pageLoad ==> g == 0.0
    ensures pageLoad && PastLastPoint(points, pos) ==> g == 100.0
  {
    if !pageLoad then 0.0
    else if PastLastPoint(points, pos) then 100.0
    else Scan(points, pos, 0, 0.0)
  }

  /** The last index in `[lo, |points|)` whose segment matches, if any. */
  function LastMatchFrom(points: seq<Option<StepperPoint>>, pos: real, lo: nat): (m: Option<nat>)
    ensures m.Some? ==> lo <= m.value && SegmentMatches(points, m.value, pos)
    ensures m.Some? ==> forall j :: m.value < j < |points| ==> !SegmentMatches(points, j, pos)
    ensures m.None? ==> forall j :: lo <= j < |points| ==> !SegmentMatches(points, j, pos)
    decreases |points| - lo
  {
    if lo >= |points| then None
    else
      match LastMatchFrom(points, pos, lo + 1)
      case Some(j) => Some(j)
      case None => if SegmentMatches(points, lo, pos) then Some(lo) else None
  }

  /** The last matching segment of the whole track, if any. */
  function LastMatch(points: seq<Option<StepperPoint>>, pos: real): Option<nat> {
    LastMatchFrom(points, pos, 0)
  }

  /** Linear interpolation inside segment `index`: `d*index + d*(pos - p_index)/(p_index+1 - p_index)`. */
  function Interpolate(points: seq<Option<StepperPoint>>, index: int, pos: real): real
    requires SegmentMatches(points, index, pos)
  {
    MatchInRange(points, index, pos);
    var current := OffsetAt(points, index).value;
    var next := OffsetAt(points, index + 1).value;
    var d := DistanceBetweenPoints(|points|);
    d * (index as real) + d * (pos - current) / (next - current)
  }

  /** The source's percentage arithmetic equals plain linear interpolation. */
  lemma SegmentPercentIsInterpolation(points: seq<Option<StepperPoint>>, index: int, pos: real)
    requires SegmentMatches(points, index, pos)
    ensures SegmentPercent(points, index, pos) == Interpolate(points, index, pos)
  {
    MatchInRange(points, index, pos);
    var current := OffsetAt(points, index).value;
    var next := OffsetAt(points, index + 1).value;
    var d := DistanceBetweenPoints(|points|);
    var q := (pos - current) / (next - current);
    assert (q * 100.0 * d) / 100.0 == d * q;
    assert d * q == d * (pos - current) / (next - current);
  }

  /** The loop's result from `index` on is the last matching segment's value, or the running value. */
  lemma {:induction false} ScanIsLastMatch(points: seq<Option<StepperPoint>>, pos: real, index: nat, globalPercent: real)
    ensures Scan(points, pos, index, globalPercent) ==
      match LastMatchFrom(points, pos, index)
      case Some(j) => SegmentPercent(points, j, pos)
      case None => globalPercent
    decreases |points| - index
  {
    if index < |points| {
      var next := if SegmentMatches(points, index, pos) then SegmentPercent(points, index, pos) else globalPercent;
      ScanIsLastMatch(points, pos, index + 1, next);
    }
  }

  /**
   Closed form of getIconOffset once the page is loaded and the position is not
   past the last waypoint: the last matching segment interpolated, or 0 if none matches.
   */
  lemma IconOffsetClosedForm(points: seq<Option<StepperPoint>>, pos: real)
    requires !PastLastPoint(points, pos)
    ensures LastMatch(points, pos).Some? ==>
      IconOffset(points, pos, true) == Interpolate(points, LastMatch(points, pos).value, pos)
    ensures LastMatch(points, pos).None? ==> IconOffset(points, pos, true) == 0.0
  {
    ScanIsLastMatch(points, pos, 0, 0.0);
    if LastMatch(points, pos).Some? {
      SegmentPercentIsInterpolation(points, LastMatch(points, pos).value, pos);
    }
  }

  /** Every entry defined, every offset positive, offsets strictly increasing. */
  predicate RisingTrack(points: seq<Option<StepperPoint>>) {
    && (forall i :: 0 <= i < |points| ==> points[i].Some? && points[i].value.offsetY > 0.0)
    && (forall i, j :: 0 <= i < j < |points| ==> OffsetAt(points, i).value < OffsetAt(points, j).value)
  }

  /** On a rising track at most one segment matches a position. */
  lemma RisingMatchUnique(points: seq<Option<StepperPoint>>, pos: real, i: int, j: int)
    requires RisingTrack(points)
    requires SegmentMatches(points, i, pos) && SegmentMatches(points, j, pos)
    ensures i == j
  {
  }

  /** Interpolation inside segment `index` lies strictly between `d*index` and `d*(index+1)`, which is at most 100. */
  lemma InterpolateBounds(points: seq<Option<StepperPoint>>, index: int, pos: real)
    requires SegmentMatches(points, index, pos)
    ensures var d := DistanceBetweenPoints(|points|);
      && d * (index as real) < Interpolate(points, index, pos) < d * ((index + 1) as real)
      && d * ((index + 1) as real) <= 100.0
  {
    MatchInRange(points, index, pos);
    var current := OffsetAt(points, index).value;
    var next := OffsetAt(points, index + 1).value;
    var d := DistanceBetweenPoints(|points|);
    FractionBounds(pos - current, next - current, d);
    assert (index + 1) as real <= (|points| - 1) as real;
    assert d * ((index + 1) as real) <= d * ((|points| - 1) as real);
  }

  /** For `0 < a < b` and `d > 0`, `d*a/b` lies strictly between 0 and `d`. */
  lemma FractionBounds(a: real, b: real, d: real)
    requires 0.0 < a < b && d > 0.0
    ensures 0.0 < d * a / b < d
  {
    var q := a / b;
    assert q * b == a;
    assert q > 0.0;
    assert (b - a) / b > 0.0;
    assert (b - a) / b == b / b - a / b;
    assert b / b == 1.0;
    assert q < 1.0;
    assert d * q < d * 1.0;
    assert d * a / b == d * q;
  }

  /** Whatever the track, getIconOffset stays within 0-100. */
  lemma IconOffsetWithinRange(points: seq<Option<StepperPoint>>, pos: real, pageLoad: bool)
    ensures 0.0 <= IconOffset(points, pos, pageLoad) <= 100.0
  {
    if pageLoad && !PastLastPoint(points, pos) {
      IconOffsetClosedForm(points, pos);
      if LastMatch(points, pos).Some? {
        InterpolateBounds(points, LastMatch(points, pos).value, pos);
      }
    }
  }

  /** On a rising track the segment a position falls in decides the progress: strictly between `d*index` and `d*(index+1)`. */
  lemma RisingSegmentBounds(points: seq<Option<StepperPoint>>, pos: real, index: int)
    requires RisingTrack(points)
    requires SegmentMatches(points, index, pos)
    ensures var d := DistanceBetweenPoints(|points|);
      d * (index as real) < IconOffset(points, pos, true) < d * ((index + 1) as real)
  {
    MatchInRange(points, index, pos);
    var last := |points| - 1;
    if index + 1 < last {
      assert OffsetAt(points, index + 1).value < OffsetAt(points, last).value;
    }
    assert !PastLastPoint(points, pos);
    RisingMatchUnique(points, pos, LastMatch(points, pos).value, index);
    IconOffsetClosedForm(points, pos);
    InterpolateBounds(points, index, pos);
  }

  /** On a rising track, a position strictly inside the track and on no waypoint falls in some segment. */
  lemma RisingCovers(points: seq<Option<StepperPoint>>, pos: real, k: nat) returns (index: nat)
    requires RisingTrack(points)
    requires k < |points| - 1
    requires OffsetAt(points, k).value < pos < OffsetAt(points, |points| - 1).value
    requires forall i :: 0 <= i < |points| ==> OffsetAt(points, i).value != pos
    ensures k <= index && SegmentMatches(points, index, pos)
    decreases |points| - k
  {
    if pos < OffsetAt(points, k + 1).value {
      index := k;
    } else {
      assert OffsetAt(points, k + 1).value != pos;
      index := RisingCovers(points, pos, k + 1);
    }
  }

  function Points(ys: seq<real>): (points: seq<Option<StepperPoint>>)
    ensures |points| == |ys|
    ensures forall i :: 0 <= i < |ys| ==> points[i] == Some(StepperPoint(ys[i]))
  {
    seq(|ys|, i requires 0 <= i < |ys| => Some(StepperPoint(ys[i])))
  }

  /** A first waypoint at offset 0 is falsy, so the first segment never matches: 50 on [0,100,200] gives 0, not 25. */
  lemma ZeroOffsetSkipsSegment()
    ensures IconOffset(Points([0.0, 100.0, 200.0]), 50.0, true) == 0.0
  {
    var points := Points([0.0, 100.0, 200.0]);
    assert !SegmentMatches(points, 0, 50.0);
    assert !SegmentMatches(points, 1, 50.0);
    assert !SegmentMatches(points, 2, 50.0);
    IconOffsetClosedForm(points, 50.0);
  }

  /** The same track still interpolates its second segment and clamps past its end. */
  lemma ZeroOffsetTrackExamples()
    ensures IconOffset(Points([0.0, 100.0, 200.0]), 150.0, true) == 75.0
    ensures IconOffset(Points([0.0, 100.0, 200.0]), 250.0, true) == 100.0
  {
    var points := Points([0.0, 100.0, 200.0]);
    assert SegmentMatches(points, 1, 150.0);
    assert !SegmentMatches(points, 2, 150.0);
    IconOffsetClosedForm(points, 150.0);
  }

  /** A position exactly on a waypoint matches no segment and gives 0. */
  lemma OnWaypointGivesZero()
    ensures IconOffset(Points([100.0, 200.0, 300.0]), 200.0, true) == 0.0
    ensures IconOffset(Points([100.0, 200.0, 300.0]), 150.0, true) == 25.0
  {
    var points := Points([100.0, 200.0, 300.0]);
    assert !SegmentMatches(points, 0, 200.0);
    assert !SegmentMatches(points, 1, 200.0);
    assert !SegmentMatches(points, 2, 200.0);
    IconOffsetClosedForm(points, 200.0);
    assert SegmentMatches(points, 0, 150.0);
    assert !SegmentMatches(points, 1, 150.0);
    assert !SegmentMatches(points, 2, 150.0);
    IconOffsetClosedForm(points, 150.0);
  }

  /**
   The tracking block found among the stepper's siblings: the heights of its
   children, one per segment, and the height of its first child's connector line.
   */
  datatype TrackingBlock = TrackingBlock(blockHeights: seq<real>, drawingLineHeight: real)

  /**
   What setScrollPosition does. Without a tracking block it neither scrolls nor
   activates. Otherwise it scrolls to `top` (None where the source computes NaN)
   and returns the active-last-dot flag. A tracking block without children makes
   the source read the line height of a missing first child, a TypeError.
   */
  datatype ScrollOutcome = NoTrackingBlock | NoChildError | Scrolled(top: Option<real>, activeDot: bool)

  /** The in-block offset: the icon offset measured from the start of segment `k`. */
  function OffsetInBlock(iconOffset: real, width: real, k: int): (o: real)
    ensures k >= 1 ==> o == iconOffset - width * ((k - 1) as real)
    ensures k < 1 ==> o == iconOffset
  {
    if k > 1 then iconOffset - width * ((k - 1) as real)
    else assert k == 1 ==> width * ((k - 1) as real) == 0.0; iconOffset
  }

  /**
   setScrollPosition's numeric core. With a single point the segment width is
   infinite, with a zero-width track it is NaN-producing; neither yields a
   number to scroll to, and only an infinitely negative width activates the dot.
   */
  function ScrollPosition(points: seq<StepperPoint>, trackWidth: real, iconOffset: real, block: Option<TrackingBlock>): (r: ScrollOutcome)
    ensures block.None? <==> r == NoTrackingBlock
    ensures block.Some? && |block.value.blockHeights| == 0 <==> r == NoChildError
    ensures block.Some? && |block.value.blockHeights| > 0 && |points| == 1 ==> r == Scrolled(None, trackWidth < 0.0)
    ensures block.Some? && |block.value.blockHeights| > 0 && |points| != 1 && trackWidth == 0.0 ==> r == Scrolled(None, false)
    ensures block.Some? && |block.value.blockHeights| > 0 && |points| != 1 && trackWidth != 0.0 ==>
      var width := trackWidth / ((|points| - 1) as real);
      var k := Ceil(iconOffset / width);
      && r.Scrolled?
      && (r.activeDot <==> k == |points| - 1 && OffsetInBlock(iconOffset, width, k) > width / 4.0 * 3.0)
      && (r.top.Some? <==> 1 <= k <= |points| && k <= |block.value.blockHeights|)
  {
    match block
    case None => NoTrackingBlock
    case Some(b) =>
      var distances := |points| - 1;
      if |b.blockHeights| == 0 then NoChildError
      else if distances == 0 then Scrolled(None, trackWidth < 0.0)
      else if trackWidth == 0.0 then Scrolled(None, false)
      else
        var width := trackWidth / (distances as real);
        var k := Ceil(iconOffset / width);
        var inBlock := OffsetInBlock(iconOffset, width, k);
        var top :=
          if 1 <= k <= |points| && k <= |b.blockHeights| then
            Some(points[k - 1].offsetY + b.blockHeights[k - 1] * (inBlock / width) - b.drawingLineHeight)
          else None;
        Scrolled(top, inBlock > (width / 4.0) * 3.0 && k == distances)
  }

  /** The boolean setScrollPosition returns. */
  function IsActiveDot(r: ScrollOutcome): bool {
    r.Scrolled? && r.activeDot
  }

  /**
   For an icon on a measured track (`0 < iconOffset <= trackWidth`) the segment
   index k lies in 1..N-1, the in-block offset in (0, width], and the scroll target
   is waypoint k-1 plus that fraction of block k-1's height, less the line height.
   */
  lemma ScrollSegment(points: seq<StepperPoint>, trackWidth: real, iconOffset: real, b: TrackingBlock)
    requires |points| >= 2 && trackWidth > 0.0
    requires 0.0 < iconOffset <= trackWidth
    requires |b.blockHeights| >= |points| - 1
    ensures var width := trackWidth / ((|points| - 1) as real);
      var k := Ceil(iconOffset / width);
      var inBlock := OffsetInBlock(iconOffset, width, k);
      && 1 <= k <= |points| - 1
      && 0.0 < inBlock <= width
      && ScrollPosition(points, trackWidth, iconOffset, Some(b)).top ==
           Some(points[k - 1].offsetY + b.blockHeights[k - 1] * (inBlock / width) - b.drawingLineHeight)
  {
    var n := |points| - 1;
    var width := trackWidth / (n as real);
    assert width * (n as real) == trackWidth;
    var x := iconOffset / width;
    assert x * width == iconOffset;
    var k := Ceil(x);
    assert x > 0.0;
    assert x <= n as real by {
      assert iconOffset <= width * (n as real);
      DivideMonotone(iconOffset, width * (n as real), width);
      assert (width * (n as real)) / width == n as real;
    }
    assert 1 <= k <= n;
    CeilBracket(x, width, k);
  }

  /** `a <= b` and `w > 0` give `a / w <= b / w`. */
  lemma DivideMonotone(a: real, b: real, w: real)
    requires a <= b && w > 0.0
    ensures a / w <= b / w
  {
    assert b / w - a / w == (b - a) / w;
  }

  /** From `k - 1 < x <= k` with `x = offset / w`: the offset is in `((k-1)w, kw]`, so the in-block offset is in `(0, w]`. */
  lemma CeilBracket(x: real, w: real, k: int)
    requires w > 0.0 && k >= 1
    requires (k as real) - 1.0 < x <= k as real
    ensures 0.0 < OffsetInBlock(x * w, w, k) <= w
  {
    var y := x - ((k - 1) as real);
    assert 0.0 < y <= 1.0;
    assert OffsetInBlock(x * w, w, k) == y * w;
    assert y * w <= 1.0 * w;
  }

  /**
   On a measured track, in a tracking block with children (without them the
   source throws before returning), the active-last-dot flag holds exactly when
   the icon is in the final quarter of the last segment: `iconOffset > trackWidth - width/4`.
   */
  lemma ActiveDotIffFinalQuarter(points: seq<StepperPoint>, trackWidth: real, iconOffset: real, b: TrackingBlock)
    requires |points| >= 2 && trackWidth > 0.0 && |b.blockHeights| > 0
    requires 0.0 <= iconOffset <= trackWidth
    ensures var width := trackWidth / ((|points| - 1) as real);
      IsActiveDot(ScrollPosition(points, trackWidth, iconOffset, Some(b))) <==> iconOffset > trackWidth - width / 4.0
  {
    var n := |points| - 1;
    var m := n as real;
    var width := trackWidth / m;
    SegmentWidth(trackWidth, m);
    var x := iconOffset / width;
    WithinSegments(iconOffset, trackWidth, m);
    var k := Ceil(x);
    assert k <= n;
    var r := ScrollPosition(points, trackWidth, iconOffset, Some(b));
    assert r.Scrolled? && (r.activeDot <==> k == n && OffsetInBlock(iconOffset, width, k) > width / 4.0 * 3.0);
    if k == n {
      var o := OffsetInBlock(iconOffset, width, k);
      assert o == iconOffset - width * (m - 1.0);
      assert o == iconOffset - trackWidth + width;
    } else {
      BeforeLastSegment(iconOffset, trackWidth, m, x);
    }
  }

  /** The segment width of a track split into `m >= 1` segments is positive, and `m - 1` of them leave one width. */
  lemma SegmentWidth(trackWidth: real, m: real)
    requires trackWidth > 0.0 && m >= 1.0
    ensures trackWidth / m > 0.0
    ensures (trackWidth / m) * m == trackWidth
    ensures (trackWidth / m) * (m - 1.0) == trackWidth - trackWidth / m
  {
    var w := trackWidth / m;
    assert w * (m - 1.0) == w * m - w;
  }

  /** An icon on the track is at most `m` segment widths along. */
  lemma WithinSegments(iconOffset: real, trackWidth: real, m: real)
    requires 0.0 <= iconOffset <= trackWidth && trackWidth > 0.0 && m >= 1.0
    ensures iconOffset / (trackWidth / m) <= m
  {
    var w := trackWidth / m;
    SegmentWidth(trackWidth, m);
    DivideMonotone(iconOffset, w * m, w);
    assert (w * m) / w == m;
  }

  /** An icon at most `m - 1` segment widths along ends no later than one width before the track's end. */
  lemma BeforeLastSegment(iconOffset: real, trackWidth: real, m: real, x: real)
    requires trackWidth > 0.0 && m >= 1.0
    requires x == iconOffset / (trackWidth / m) && x <= m - 1.0
    ensures iconOffset <= trackWidth - trackWidth / m
  {
    var w := trackWidth / m;
    SegmentWidth(trackWidth, m);
    assert x * w == iconOffset;
    var y := m - 1.0 - x;
    assert y >= 0.0 && y * w >= 0.0;
    assert w * (m - 1.0) - x * w == y * w;
  }

  /** The worked example: four waypoints on a 300 px track, icon at 250 px, lands halfway into the last segment. */
  lemma ScrollExample()
    ensures var points := [StepperPoint(100.0), StepperPoint(400.0), StepperPoint(700.0), StepperPoint(1000.0)];
      ScrollPosition(points, 300.0, 250.0, Some(TrackingBlock([300.0, 300.0, 300.0], 10.0))) == Scrolled(Some(840.0), false)
  {
    assert Ceil(250.0 / 100.0) == 3;
  }

  /** A sibling element of the stepper: its id and its measured height. */
  datatype Sibling = Sibling(id: string, height: real)

  /**
   The `forEach` from `index` on with running value `acc`: only the visit of
   index 0, when that entry is defined, overwrites the running value.
   */
  function FirstOffsetFrom(points: seq<Option<StepperPoint>>, index: nat, acc: real): (f: real)
    ensures index == 0 && |points| > 0 && points[0].Some? ==> f == points[0].value.offsetY
    ensures index > 0 || |points| == 0 || points[0].None? ==> f == acc
    decreases |points| - index
  {
    if index >= |points| then acc
    else
      var next := if index == 0 && points[index].Some? then points[index].value.offsetY else acc;
      FirstOffsetFrom(points, index + 1, next)
  }

  /** The first waypoint's offset: the `forEach` over all entries starting from the default 2. */
  function FirstOffset(points: seq<Option<StepperPoint>>): (f: real)
    ensures |points| > 0 && points[0].Some? ==> f == OffsetAt(points, 0).value
    ensures |points| == 0 || points[0].None? ==> f == 2.0
  {
    FirstOffsetFrom(points, 0, 2.0)
  }

  /** The reduction from 0 that keeps the larger of the running value and each defined offset. */
  function MaxOffset(points: seq<Option<StepperPoint>>): (m: real)
    ensures m >= 0.0
    ensures forall i :: 0 <= i < |points| && points[i].Some? ==> points[i].value.offsetY <= m
    ensures m == 0.0 || exists i :: 0 <= i < |points| && points[i] == Some(StepperPoint(m))
    decreases |points|
  {
    if |points| == 0 then 0.0
    else
      var acc := MaxOffset(points[..|points| - 1]);
      var item := points[|points| - 1];
      if item.Some? && acc < item.value.offsetY then item.value.offsetY else acc
  }

  /** `findIndex`: the first sibling with the given id, or -1. */
  function FindIndex(siblings: seq<Sibling>, id: string): (i: int)
    ensures -1 <= i < |siblings|
    ensures i >= 0 ==> siblings[i].id == id && forall j :: 0 <= j < i ==> siblings[j].id != id
    ensures i == -1 ==> forall j :: 0 <= j < |siblings| ==> siblings[j].id != id
    decreases |siblings|
  {
    if |siblings| == 0 then -1
    else if siblings[0].id == id then 0
    else
      var rest := FindIndex(siblings[1..], id);
      if rest == -1 then -1 else rest + 1
  }

  /** `siblings[i]?.getBoundingClientRect()?.height`. */
  function HeightAt(siblings: seq<Sibling>, i: int): Option<real> {
    if 0 <= i < |siblings| then Some(siblings[i].height) else None
  }

  const NextMergeId: string := "next-merge"

  /**
   showHideNavBar's decision: None when the last section's height, the
   maximum offset or the next line's height is falsy (the class is left alone);
   otherwise whether the scroll position is strictly inside the window.
   */
  function StickyHeader(points: seq<Option<StepperPoint>>, siblings: seq<Sibling>, scrollY: real, innerHeight: real): (show: Option<bool>)
    ensures var i := FindIndex(siblings, NextMergeId);
      show.Some? <==> i >= 0 && siblings[i].height != 0.0 && MaxOffset(points) > 0.0 && i + 1 < |siblings| && siblings[i + 1].height != 0.0
    ensures var i := FindIndex(siblings, NextMergeId);
      show.Some? ==> 0 <= i && i + 1 < |siblings| && (show.value <==>
        FirstOffset(points) - innerHeight / 2.0 < scrollY < MaxOffset(points) + siblings[i].height + siblings[i + 1].height)
  {
    var first := FirstOffset(points);
    var max := MaxOffset(points);
    var lastSectionIndex := FindIndex(siblings, NextMergeId);
    var lastSectionHeight := HeightAt(siblings, lastSectionIndex);
    var nextLineHeight := HeightAt(siblings, lastSectionIndex + 1);
    if Truthy(lastSectionHeight) && max != 0.0 && Truthy(nextLineHeight) then
      Some(scrollY > first - innerHeight / 2.0 && scrollY < max + lastSectionHeight.value + nextLineHeight.value)
    else None
  }

  /** Without a `next-merge` sibling no decision is made. */
  lemma NoNextMergeNoDecision(points: seq<Option<StepperPoint>>, siblings: seq<Sibling>, scrollY: real, innerHeight: real)
    requires forall j :: 0 <= j < |siblings| ==> siblings[j].id != NextMergeId
    ensures StickyHeader(points, siblings, scrollY, innerHeight).None?
  {
  }

  /** Offsets along a rising track never decrease. */
  lemma RisingMonotone(points: seq<Option<StepperPoint>>, i: int, j: int)
    requires RisingTrack(points) && 0 <= i <= j < |points|
    ensures OffsetAt(points, i).value <= OffsetAt(points, j).value
  {
  }

  /** On a rising track the maximum offset is the last waypoint's. */
  lemma RisingMaxIsLast(points: seq<Option<StepperPoint>>)
    requires RisingTrack(points) && |points| > 0
    ensures MaxOffset(points) == OffsetAt(points, |points| - 1).value
  {
    var m := MaxOffset(points);
    var last := |points| - 1;
    assert OffsetAt(points, last).value <= m;
    var i :| 0 <= i < |points| && points[i] == Some(StepperPoint(m));
    RisingMonotone(points, i, last);
  }

  /**
   On a rising track, with both neighbouring heights truthy, the header shows
   exactly when `p_first - innerHeight/2 < scrollY < p_last + lastSection + nextLine`,
   strictly on both sides.
   */
  lemma RisingStickyWindow(points: seq<Option<StepperPoint>>, siblings: seq<Sibling>, scrollY: real, innerHeight: real, i: nat)
    requires RisingTrack(points) && |points| > 0
    requires i + 1 < |siblings| && siblings[i].id == NextMergeId
    requires forall j :: 0 <= j < i ==> siblings[j].id != NextMergeId
    requires siblings[i].height != 0.0 && siblings[i + 1].height != 0.0
    ensures StickyHeader(points, siblings, scrollY, innerHeight) == Some(
      OffsetAt(points, 0).value - innerHeight / 2.0 < scrollY <
      OffsetAt(points, |points| - 1).value + siblings[i].height + siblings[i + 1].height)
  {
    RisingMaxIsLast(points);
    assert FindIndex(siblings, NextMergeId) == i;
  }

  /** The lower edge of the window is exclusive: at `p_first - innerHeight/2` the header hides. */
  lemma StickyLowerEdgeExclusive(points: seq<Option<StepperPoint>>, siblings: seq<Sibling>, innerHeight: real)
    requires StickyHeader(points, siblings, FirstOffset(points) - innerHeight / 2.0, innerHeight).Some?
    ensures StickyHeader(points, siblings, FirstOffset(points) - innerHeight / 2.0, innerHeight) == Some(false)
  {
  }
}
