/**
 * The value-level part of the slide-menu container: the panel's state
 * machine, the geometry of a move (clamping, the zoom progress, the
 * percentage reported to the panel, the dimming opacity), the callback
 * log and the gesture dispatch table.  The container object that changes
 * these step by step lives in module Controller.
 *
 * CGFloat arithmetic is modelled with exact reals.
 */
module Slide {

  /** Where the side panel is: at rest at either end, or moving. */
  datatype SlideState = Opened | Opening | Closed | Closing

  datatype Option<T> = None | Some(value: T)

  /** A callback made by the container, in the order it is made. */
  datatype Event =
    | StateChanged(state: SlideState)          // delegate's slideStateChanged
    | ProgressChanged(percent: real)           // panel's progressChanged
    | ProgressFinished(finished: SlideState)   // panel's progressFinished

  /** Scale of the active page while the panel is fully open. */
  const ZoomFactor: real := 0.9
  /** Share of the view's width that the panel covers. */
  const SlideOverFactor: real := 0.7
  /** An open panel ignores pans that start further than this left of its edge. */
  const PanMargin: real := 20.0
  /** Opacity of the dimming layer over the active page while the panel is open. */
  const DimMax: real := 0.5

  function Min(a: real, b: real): (r: real)
    ensures r <= a && r <= b && (r == a || r == b)
  {
    if a <= b then a else b
  }

  function Max(a: real, b: real): (r: real)
    ensures a <= r && b <= r && (r == a || r == b)
  {
    if a <= b then b else a
  }

  // ---------------------------------------------------------------------
  // Geometry of one move
  // ---------------------------------------------------------------------

  /** Linear map of [inMin, inMax] onto [outMin, outMax]. */
  function MapValue(x: real, inMin: real, inMax: real, outMin: real, outMax: real): (r: real)
    requires inMin != inMax
    ensures x == inMin ==> r == outMin
    ensures x == inMax ==> r == outMax
    ensures inMin <= x <= inMax && outMax <= outMin ==> outMax <= r <= outMin
    ensures inMin < x < inMax && outMax < outMin ==> outMax < r < outMin
    ensures inMin <= x <= inMax && outMin <= outMax ==> outMin <= r <= outMax
    ensures inMin < x < inMax && outMin < outMax ==> outMin < r < outMax
  {
    (x - inMin) * (outMax - outMin) / (inMax - inMin) + outMin
  }

  /** The requested panel position, pulled into [-width, 0]. */
  function Clamp(x: real, width: real): (r: real)
    requires width > 0.0
    ensures -width <= r <= 0.0
    ensures -width <= x <= 0.0 ==> r == x
    ensures x > 0.0 ==> r == 0.0
    ensures x < -width ==> r == -width
  {
    Max(-width, Min(0.0, x))
  }

  /**
   * The zoom of the active page for panel position `point`: 1 when the
   * panel is closed, ZoomFactor when it is open.
   */
  function Progress(point: real, width: real): (p: real)
    requires width > 0.0
    ensures -width <= point <= 0.0 ==> ZoomFactor <= p <= 1.0
    ensures -width < point < 0.0 ==> ZoomFactor < p < 1.0
    ensures point == -width ==> p == 1.0
    ensures point == 0.0 ==> p == ZoomFactor
  {
    Max(MapValue(point, -width, 0.0, 1.0, ZoomFactor), ZoomFactor)
  }

  /** The zoom progress converted to the fraction handed to progressChanged. */
  function ProgressPercent(progress: real): (pct: real)
    ensures ZoomFactor <= progress <= 1.0 ==> 0.0 <= pct <= 1.0
    ensures ZoomFactor < progress < 1.0 ==> 0.0 < pct < 1.0
    ensures progress == ZoomFactor ==> pct == 0.0
    ensures progress == 1.0 ==> pct == 1.0
  {
    (progress - 0.9) / 0.1
  }

  /** The opacity the dimming layer over the active page is given. */
  function DimOpacity(state: SlideState, progress: real): (o: real)
    ensures state == Opened ==> o == DimMax
    ensures state == Closed ==> o == 0.0
    ensures ZoomFactor <= progress <= 1.0 ==> 0.0 <= o <= DimMax
    ensures (state == Opening || state == Closing) && progress == ZoomFactor ==> o == DimMax
    ensures (state == Opening || state == Closing) && progress == 1.0 ==> o == 0.0
  {
    if state == Opened then 0.5
    else if state == Closed then 0.0
    else 0.5 - (progress - 0.9) * 0.5 / 0.1
  }

  /**
   * The state after the panel is moved from `from` to the clamped point
   * `point`: at rest at either end, otherwise moving towards the side it
   * went.
   */
  function MoveState(from: real, point: real, width: real): (s: SlideState)
    requires width > 0.0
    ensures s == Opened <==> point == 0.0
    ensures s == Closed <==> point == -width
    ensures s == Opening <==> point != 0.0 && point != -width && from < point
    ensures s == Closing <==> point != 0.0 && point != -width && point <= from
  {
    if point == 0.0 then Opened
    else if point == -width then Closed
    else if from < point then Opening
    else Closing
  }

  // ---------------------------------------------------------------------
  // The callback log
  // ---------------------------------------------------------------------

  /** The state named by the most recent StateChanged of `log`, if any. */
  function LastStateChange(log: seq<Event>): (r: Option<SlideState>)
    ensures r.Some? ==> exists i :: 0 <= i < |log| && log[i] == StateChanged(r.value)
                          && forall j :: i < j < |log| ==> !log[j].StateChanged?
    ensures r.None? ==> forall i :: 0 <= i < |log| ==> !log[i].StateChanged?
  {
    if log == [] then None
    else if log[|log| - 1].StateChanged? then Some(log[|log| - 1].state)
    else LastStateChange(log[..|log| - 1])
  }

  lemma {:induction false} LastStateChangeAppend(a: seq<Event>, b: seq<Event>)
    ensures LastStateChange(a + b) ==
      if LastStateChange(b).Some? then LastStateChange(b) else LastStateChange(a)
    decreases |b|
  {
    if b == [] {
      assert a + b == a;
    } else {
      var n := |b| - 1;
      assert (a + b)[|a + b| - 1] == b[n];
      if !b[n].StateChanged? {
        assert (a + b)[..|a + b| - 1] == a + b[..n];
        LastStateChangeAppend(a, b[..n]);
      }
    }
  }

  /**
   * The callbacks made by one move from `from` to the clamped point
   * `point`: the direction, then either the resting state and
   * progressFinished, or a single progressChanged.
   */
  function MoveEvents(from: real, point: real, width: real): (r: seq<Event>)
    requires width > 0.0
    requires -width <= point <= 0.0
    ensures |r| == if point == 0.0 || point == -width then 3 else 2
    ensures forall i :: 0 <= i < |r| - 1 ==> r[i].StateChanged?
    ensures r[0] == StateChanged(if from < point then Opening else Closing)
    ensures !r[|r| - 1].StateChanged?
    ensures r[|r| - 2] == StateChanged(MoveState(from, point, width))
    ensures point == 0.0 ==> r[|r| - 1] == ProgressFinished(Opened)
    ensures point == -width ==> r[|r| - 1] == ProgressFinished(Closed)
    ensures r[|r| - 1].ProgressChanged? <==> -width < point < 0.0
    ensures r[|r| - 1].ProgressChanged? ==> 0.0 < r[|r| - 1].percent < 1.0
    ensures LastStateChange(r) == Some(MoveState(from, point, width))
  {
    var direction := StateChanged(if from < point then Opening else Closing);
    if point == 0.0 then [direction, StateChanged(Opened), ProgressFinished(Opened)]
    else if point == -width then [direction, StateChanged(Closed), ProgressFinished(Closed)]
    else [direction, ProgressChanged(ProgressPercent(Progress(point, width)))]
  }

  // ---------------------------------------------------------------------
  // Properties relating the pieces of a move
  // ---------------------------------------------------------------------

  /**
   * The fraction reported to progressChanged is the share of the panel
   * still off screen: 0 when open, 1 when closed.
   */
  lemma PercentIsHiddenShare(point: real, width: real)
    requires width > 0.0 && -width <= point <= 0.0
    ensures ProgressPercent(Progress(point, width)) == -point / width
  {
  }

  /**
   * Whatever state a move ends in, the dimming opacity is the same linear
   * function of the panel's position, so overriding a moving state with a
   * resting one at either end causes no jump in opacity.
   */
  lemma DimmingFollowsPosition(from: real, point: real, width: real)
    requires width > 0.0 && -width <= point <= 0.0
    ensures DimOpacity(MoveState(from, point, width), Progress(point, width))
            == DimMax * (point + width) / width
  {
  }

  /**
   * Moving to where the panel already rests open still reports Closing
   * before Opened, because the direction test is a strict comparison.
   */
  lemma OpenWhileOpenReportsClosing(width: real)
    requires width > 0.0
    ensures MoveEvents(0.0, 0.0, width)
            == [StateChanged(Closing), StateChanged(Opened), ProgressFinished(Opened)]
  {
  }

  // ---------------------------------------------------------------------
  // Gestures
  // ---------------------------------------------------------------------

  /** The two recognisers that report to the swipe handler. */
  datatype Recognizer = ScreenEdgePan | Pan

  datatype Phase = Possible | Began | Changed | Ended | Cancelled | Failed {
    /** The finger is still down. */
    predicate Tracking() {
      this == Possible || this == Began || this == Changed
    }
  }

  /**
   * The x the swipe handler moves the panel to, for a gesture of `kind` in
   * `phase` at touch x `x` while the panel is in `state`; None when the
   * handler does nothing.
   */
  function SwipeTarget(kind: Recognizer, phase: Phase, x: real, state: SlideState, width: real): (t: Option<real>)
    ensures kind == ScreenEdgePan && x >= width ==> t == Some(0.0)
    ensures kind == Pan && state == Opened && x < width - PanMargin ==> t == None
    ensures (!(kind == ScreenEdgePan && x >= width) && phase.Tracking()
             && !(kind == Pan && state == Opened && x < width - PanMargin)) ==> t == Some(x - width)
    ensures !(kind == ScreenEdgePan && x >= width) && !phase.Tracking() ==>
            t == match state
                 case Closing => Some(-width)
                 case Opening => Some(0.0)
                 case _ => None
  {
    if x >= width && kind == ScreenEdgePan then Some(0.0)
    else if state == Opened && kind == Pan && x < width - PanMargin then None
    else if phase.Tracking() then Some(x - width)
    else match state
      case Closing => Some(width * -1.0)
      case Opening => Some(0.0)
      case _ => None
  }

  /**
   * A gesture that ends (Ended, Cancelled or Failed) settles a moving
   * panel at the end it was moving towards and leaves a resting one
   * alone, unless it is a screen-edge pan past the panel's width, which
   * opens the panel.
   */
  lemma GestureEndSettles(kind: Recognizer, phase: Phase, x: real, state: SlideState, origin: real, width: real)
    requires width > 0.0 && -width <= origin <= 0.0 && !phase.Tracking()
    ensures var t := SwipeTarget(kind, phase, x, state, width);
      if kind == ScreenEdgePan && x >= width then
        t.Some? && Clamp(t.value, width) == 0.0 && MoveState(origin, Clamp(t.value, width), width) == Opened
      else if state == Closing then
        t.Some? && Clamp(t.value, width) == -width && MoveState(origin, Clamp(t.value, width), width) == Closed
      else if state == Opening then
        t.Some? && Clamp(t.value, width) == 0.0 && MoveState(origin, Clamp(t.value, width), width) == Opened
      else
        t.None?
  {
  }

  /**
   * While the finger is down, the panel's right edge follows the finger
   * as far as the panel reaches.
   */
  lemma TrackingFollowsFinger(kind: Recognizer, phase: Phase, x: real, state: SlideState, width: real)
    requires width > 0.0 && phase.Tracking() && 0.0 <= x < width
    requires !(kind == Pan && state == Opened && x < width - PanMargin)
    ensures var t := SwipeTarget(kind, phase, x, state, width);
      t.Some? && Clamp(t.value, width) + width == x
  {
  }

  // ---------------------------------------------------------------------
  // The list of child pages
  // ---------------------------------------------------------------------

  /** Identifies a child page (a view controller, compared by identity). */
  type PageId = int

  predicate NoDuplicates(s: seq<PageId>) {
    forall i, j :: 0 <= i < j < |s| ==> s[i] != s[j]
  }

  /** `s` with `v` appended unless it is already there. */
  function AddIfAbsent(s: seq<PageId>, v: PageId): (r: seq<PageId>)
    ensures v in r
    ensures forall u :: u in r <==> u in s || u == v
    ensures NoDuplicates(s) ==> NoDuplicates(r)
    ensures v in s ==> r == s
    ensures v !in s ==> r == s + [v]
  {
    if v in s then s else s + [v]
  }

  /** The position of the first occurrence of `v` in `s`. */
  function FirstIndex(s: seq<PageId>, v: PageId): (k: nat)
    requires v in s
    ensures k < |s| && s[k] == v
    ensures forall i :: 0 <= i < k ==> s[i] != v
  {
    if s[0] == v then 0 else 1 + FirstIndex(s[1..], v)
  }

  /** Each element of `s` once, in the order of its first occurrence. */
  function Dedup(s: seq<PageId>): (r: seq<PageId>)
    ensures NoDuplicates(r)
    ensures forall u :: u in r <==> u in s
    ensures s != [] ==> r != [] && r[0] == s[0]
    ensures NoDuplicates(s) ==> r == s
  {
    if s == [] then []
    else AddIfAbsent(Dedup(s[..|s| - 1]), s[|s| - 1])
  }

  lemma FirstIndexOfPrefix(s: seq<PageId>, n: nat, v: PageId)
    requires n <= |s| && v in s[..n]
    ensures v in s && FirstIndex(s, v) == FirstIndex(s[..n], v)
  {
  }

  /** The pages Dedup keeps are in the order of their first occurrence. */
  lemma {:induction false} DedupKeepsFirstOccurrenceOrder(s: seq<PageId>)
    ensures forall i, j :: 0 <= i < j < |Dedup(s)| ==>
      FirstIndex(s, Dedup(s)[i]) < FirstIndex(s, Dedup(s)[j])
  {
    if s != [] {
      var n := |s| - 1;
      var p, v := s[..n], s[n];
      var d := Dedup(p);
      var r := Dedup(s);
      assert r == AddIfAbsent(d, v);
      DedupKeepsFirstOccurrenceOrder(p);
      forall i, j | 0 <= i < j < |r|
        ensures FirstIndex(s, r[i]) < FirstIndex(s, r[j])
      {
        assert r[i] == d[i];
        FirstIndexOfPrefix(s, n, d[i]);
        if j < |d| {
          assert r[j] == d[j];
          FirstIndexOfPrefix(s, n, d[j]);
        } else {
          assert v !in p && r[j] == v;
          assert FirstIndex(s, v) == n;
        }
      }
    }
  }
}
