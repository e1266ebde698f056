/**
 * The shared timeseries-selection state and its reducer: timeseries bounds,
 * the visible window, the focus time and the focus interval, all optional,
 * and the transitions initialize, pan, zoom, set-visible-range,
 * set-current-time and set-current-time-interval. Every transition is a
 * function from the old state and an action to the new state.
 */
module TimeseriesSelection {
  import opened Wrappers
  import opened Numeric

  /** Times are seconds; `None` is a field the state does not have (undefined). */
  datatype Selection = Selection(
    timeseriesStart: Option<real>,
    timeseriesEnd: Option<real>,
    currentTime: Option<real>,
    currentTimeInterval: Option<(real, real)>,
    visibleStart: Option<real>,
    visibleEnd: Option<real>)

  const DefaultSelection: Selection := Selection(None, None, None, None, None, None)

  const DEFAULT_PAN_PCT: real := 10.0
  const DEFAULT_ZOOM_SCALE_FACTOR: real := 1.4

  datatype PanDirection = Forward | Back
  datatype ZoomDirection = In | Out

  datatype Action =
    | InitializeTimesAction(timeseriesStartSec: real, timeseriesEndSec: real)
    | PanAction(panDirection: PanDirection, panAmountPct: real)
    | PanDeltaTAction(deltaT: real)
    | ZoomAction(zoomDirection: ZoomDirection, factor: Option<real>)
    | SetVisibleTimeRangeAction(startTimeSec: real, endTimeSec: real)
    | SetCurrentTimeAction(currentTimeSec: real, shiftKey: bool, autoScrollVisibleTimeRange: bool)
    | SetCurrentTimeIntervalAction(currentTimeIntervalSec: (real, real), autoScroll: bool)
    | SetSelectedElectrodeIdsAction(selectedIds: seq<string>)

  /** All four bound fields are defined. */
  predicate BoundsSet(s: Selection)
  {
    s.timeseriesStart.Some? && s.timeseriesEnd.Some? && s.visibleStart.Some? && s.visibleEnd.Some?
  }

  /** The length of the visible window. */
  function WindowLength(s: Selection): real
    requires s.visibleStart.Some? && s.visibleEnd.Some?
  {
    s.visibleEnd.value - s.visibleStart.value
  }

  /**
   * The validity check, in the order the source tests it. The focus time and
   * the focus interval are not part of it.
   */
  function SelectionIsValid(s: Selection): (r: bool)
    ensures r <==>
      && BoundsSet(s)
      && 0.0 <= s.timeseriesStart.value && 0.0 <= s.timeseriesEnd.value
      && s.timeseriesStart.value <= s.timeseriesEnd.value
      && s.visibleStart.value <= s.visibleEnd.value
      && s.timeseriesStart.value <= s.visibleStart.value
      && s.visibleEnd.value <= s.timeseriesEnd.value
  {
    if !BoundsSet(s) then false
    else if s.timeseriesStart.value < 0.0 || s.timeseriesEnd.value < 0.0 then false
    else if s.timeseriesEnd.value < s.timeseriesStart.value then false
    else if s.visibleEnd.value < s.visibleStart.value then false
    else if s.visibleStart.value < s.timeseriesStart.value || s.timeseriesEnd.value < s.visibleEnd.value then false
    else true
  }

  /** Validity does not look at the focus time or the focus interval. */
  lemma ValidityIgnoresFocus(s: Selection, t: Option<real>, iv: Option<(real, real)>)
    ensures SelectionIsValid(s.(currentTime := t, currentTimeInterval := iv)) == SelectionIsValid(s)
  {
  }

  // ---------------------------------------------------------------- initialize

  /**
   * The timeseries bounds widen to cover the new range (or take it when unset),
   * the visible bounds are kept when set and otherwise take the new bounds, and
   * the focus time and interval are dropped. The result is returned even when it
   * is invalid; the source only logs a warning.
   */
  function InitializeTimes(state: Selection, startSec: real, endSec: real): (r: Selection)
    ensures BoundsSet(r) && r.currentTime.None? && r.currentTimeInterval.None?
    ensures r.timeseriesStart.value <= startSec && r.timeseriesEnd.value >= endSec
    ensures state.timeseriesStart.None? ==> r.timeseriesStart.value == startSec
    ensures state.timeseriesStart.Some? ==>
      r.timeseriesStart.value <= state.timeseriesStart.value
      && (r.timeseriesStart.value == startSec || r.timeseriesStart == state.timeseriesStart)
    ensures state.timeseriesEnd.None? ==> r.timeseriesEnd.value == endSec
    ensures state.timeseriesEnd.Some? ==>
      r.timeseriesEnd.value >= state.timeseriesEnd.value
      && (r.timeseriesEnd.value == endSec || r.timeseriesEnd == state.timeseriesEnd)
    ensures r.visibleStart == (if state.visibleStart.Some? then state.visibleStart else r.timeseriesStart)
    ensures r.visibleEnd == (if state.visibleEnd.Some? then state.visibleEnd else r.timeseriesEnd)
  {
    var newStart := if state.timeseriesStart.None? then startSec else MinReal(state.timeseriesStart.value, startSec);
    var newEnd := if state.timeseriesEnd.None? then endSec else MaxReal(state.timeseriesEnd.value, endSec);
    Selection(
      timeseriesStart := Some(newStart),
      timeseriesEnd := Some(newEnd),
      currentTime := None,
      currentTimeInterval := None,
      visibleStart := if state.visibleStart.None? then Some(newStart) else state.visibleStart,
      visibleEnd := if state.visibleEnd.None? then Some(newEnd) else state.visibleEnd)
  }

  /** Initializing the default state with a range gives a valid state exactly when `0 <= start <= end`. */
  lemma InitializeDefaultValid(startSec: real, endSec: real)
    ensures SelectionIsValid(InitializeTimes(DefaultSelection, startSec, endSec)) <==> 0.0 <= startSec <= endSec
    ensures var r := InitializeTimes(DefaultSelection, startSec, endSec);
      r.visibleStart == Some(startSec) && r.visibleEnd == Some(endSec)
  {
  }

  /** Re-initializing a valid state with a non-negative range keeps it valid. */
  lemma InitializeKeepsValid(state: Selection, startSec: real, endSec: real)
    requires SelectionIsValid(state)
    requires 0.0 <= startSec <= endSec
    ensures SelectionIsValid(InitializeTimes(state, startSec, endSec))
    ensures InitializeTimes(state, startSec, endSec).visibleStart == state.visibleStart
    ensures InitializeTimes(state, startSec, endSec).visibleEnd == state.visibleEnd
  {
  }

  /** Initializing twice with the same range is the same as initializing once. */
  lemma InitializeIdempotent(state: Selection, startSec: real, endSec: real)
    ensures InitializeTimes(InitializeTimes(state, startSec, endSec), startSec, endSec)
         == InitializeTimes(state, startSec, endSec)
  {
    var once := InitializeTimes(state, startSec, endSec);
    assert MinReal(once.timeseriesStart.value, startSec) == once.timeseriesStart.value;
    assert MaxReal(once.timeseriesEnd.value, endSec) == once.timeseriesEnd.value;
  }

  // ----------------------------------------------------------------------- pan

  /** The state with a new visible window, or the state itself when neither bound moved. */
  function WithWindow(state: Selection, newStart: real, newEnd: real): (r: Selection)
    requires state.visibleStart.Some? && state.visibleEnd.Some?
    ensures r.visibleStart == Some(newStart) && r.visibleEnd == Some(newEnd)
    ensures r == state.(visibleStart := Some(newStart), visibleEnd := Some(newEnd))
  {
    if newStart == state.visibleStart.value && newEnd == state.visibleEnd.value then state
    else state.(visibleStart := Some(newStart), visibleEnd := Some(newEnd))
  }

  /**
   * Moves the window by `displacement` seconds, clamped to the timeseries
   * bounds. A forward pan pins the end first and derives the start from the
   * window length; a backward pan pins the start first. A zero displacement or
   * an uninitialized state gives the state back. From a valid state the result
   * is valid and the window keeps its length; nothing but the window changes.
   */
  function PanTimeHelper(state: Selection, displacement: real): (r: Selection)
    ensures !BoundsSet(state) || displacement == 0.0 ==> r == state
    ensures r.(visibleStart := state.visibleStart, visibleEnd := state.visibleEnd) == state
    ensures SelectionIsValid(state) ==> SelectionIsValid(r) && WindowLength(r) == WindowLength(state)
    ensures SelectionIsValid(state) && displacement > 0.0 ==>
      r.visibleEnd.value == MinReal(state.visibleEnd.value + displacement, state.timeseriesEnd.value)
    ensures SelectionIsValid(state) && displacement < 0.0 ==>
      r.visibleStart.value == MaxReal(state.visibleStart.value + displacement, state.timeseriesStart.value)
  {
    if !BoundsSet(state) then state
    else
      var windowLength := state.visibleEnd.value - state.visibleStart.value;
      if displacement > 0.0 then
        var newEnd := MinReal(state.visibleEnd.value + displacement, state.timeseriesEnd.value);
        var newStart := MaxReal(newEnd - windowLength, state.timeseriesStart.value);
        WithWindow(state, newStart, newEnd)
      else if displacement < 0.0 then
        var newStart := MaxReal(state.visibleStart.value + displacement, state.timeseriesStart.value);
        var newEnd := MinReal(newStart + windowLength, state.timeseriesEnd.value);
        WithWindow(state, newStart, newEnd)
      else state
  }

  /** The signed displacement of a percentage pan: `pct / 100` of the window, negated for a backward pan. */
  function PanDisplacement(state: Selection, direction: PanDirection, panAmountPct: real): real
    requires state.visibleStart.Some? && state.visibleEnd.Some?
  {
    panAmountPct / 100.0 * WindowLength(state) * (if direction == Back then -1.0 else 1.0)
  }

  /** Pan by a percentage of the current window. */
  function PanTime(state: Selection, direction: PanDirection, panAmountPct: real): (r: Selection)
    ensures !BoundsSet(state) ==> r == state
    ensures BoundsSet(state) ==> r == PanTimeHelper(state, PanDisplacement(state, direction, panAmountPct))
  {
    if !BoundsSet(state) then state
    else PanTimeHelper(state, PanDisplacement(state, direction, panAmountPct))
  }

  /** Pan by `deltaT` seconds. */
  function PanTimeDeltaT(state: Selection, deltaT: real): (r: Selection)
    ensures r == PanTimeHelper(state, deltaT)
  {
    if !BoundsSet(state) then state else PanTimeHelper(state, deltaT)
  }

  /**
   * A forward pan of a valid state never leaves the window behind its old
   * position, and a backward pan never moves it ahead.
   */
  lemma PanDirectionRespected(state: Selection, direction: PanDirection, panAmountPct: real)
    requires SelectionIsValid(state)
    requires panAmountPct >= 0.0
    ensures var r := PanTime(state, direction, panAmountPct);
      direction == Forward ==> r.visibleStart.value >= state.visibleStart.value
    ensures var r := PanTime(state, direction, panAmountPct);
      direction == Back ==> r.visibleStart.value <= state.visibleStart.value
  {
    var d := PanDisplacement(state, direction, panAmountPct);
    var len := WindowLength(state);
    assert panAmountPct / 100.0 * len >= 0.0;
    if direction == Forward {
      assert d >= 0.0;
    } else {
      assert d <= 0.0;
    }
  }

  // ---------------------------------------------------------------------- zoom

  /** A zoom factor is usable when it is positive (the source asks for at least 1). */
  predicate FactorOk(factor: Option<real>)
  {
    factor.None? || factor.value > 0.0
  }

  /** The multiplier applied to the window: the factor (default 1.4), inverted for zoom-in. */
  function ZoomMultiplier(direction: ZoomDirection, factor: Option<real>): (m: real)
    requires FactorOk(factor)
    ensures m > 0.0
    ensures direction == Out ==> m == factor.GetOr(DEFAULT_ZOOM_SCALE_FACTOR)
    ensures direction == In ==> m * factor.GetOr(DEFAULT_ZOOM_SCALE_FACTOR) == 1.0
  {
    var f := factor.GetOr(DEFAULT_ZOOM_SCALE_FACTOR);
    if direction == In then 1.0 / f else f
  }

  /** The window length a zoom asks for: the scaled window, capped at the timeseries length. */
  function RequestedWindow(state: Selection, direction: ZoomDirection, factor: Option<real>): real
    requires BoundsSet(state) && FactorOk(factor)
  {
    MinReal(WindowLength(state) * ZoomMultiplier(direction, factor),
            state.timeseriesEnd.value - state.timeseriesStart.value)
  }

  /**
   * Where the anchor sits in the window, as a fraction of its length. The
   * source tests the focus time for truthiness, so a focus time of 0 counts as
   * unset here (fraction one half) although it is still used as the anchor.
   * When the window is empty and the focus time is set, the source divides by
   * zero and gets NaN or an infinity; the model picks 0 there instead.
   */
  function AnchorFraction(currentTime: Option<real>, visibleStart: real, currentWindow: real): real
  {
    if currentTime.Some? && currentTime.value != 0.0 then
      if currentWindow == 0.0 then 0.0 else (currentTime.value - visibleStart) / currentWindow
    else 0.5
  }

  /**
   * Zooms about the focus time (or the window midpoint when unset). A zoom-out
   * of a window that already spans the timeseries, or any zoom of an
   * uninitialized state, gives the state back; otherwise the window takes the
   * requested length (see `ZoomTo`).
   */
  function ZoomTime(state: Selection, direction: ZoomDirection, factor: Option<real>): (r: Selection)
    requires FactorOk(factor)
    ensures !BoundsSet(state) ==> r == state
    ensures (BoundsSet(state) && direction == Out
             && WindowLength(state) == state.timeseriesEnd.value - state.timeseriesStart.value) ==> r == state
    ensures r.(visibleStart := state.visibleStart, visibleEnd := state.visibleEnd) == state
    ensures BoundsSet(state) ==> BoundsSet(r)
    ensures BoundsSet(state) && !(direction == Out && WindowLength(state) == state.timeseriesEnd.value - state.timeseriesStart.value) ==>
      r == ZoomTo(state, RequestedWindow(state, direction, factor))
    ensures SelectionIsValid(state) ==> SelectionIsValid(r)
  {
    if !BoundsSet(state) then state
    else if WindowLength(state) == state.timeseriesEnd.value - state.timeseriesStart.value && direction == Out then state
    else
      var w := RequestedWindow(state, direction, factor);
      assert SelectionIsValid(state) ==> w >= 0.0 by {
        if SelectionIsValid(state) {
          NonNegativeProduct(WindowLength(state), ZoomMultiplier(direction, factor));
        }
      }
      ZoomTo(state, w)
  }

  /**
   * Shows a window of length `newWindow` about the zoom anchor, keeping the
   * anchor's fraction of the window when the bounds allow. A length at least
   * that of the timeseries shows all of it. Otherwise the start is clamped to
   * the timeseries start, the end to the timeseries end, and the start is
   * derived again from the end.
   */
  function ZoomTo(state: Selection, newWindow: real): (r: Selection)
    requires BoundsSet(state)
    ensures r.(visibleStart := state.visibleStart, visibleEnd := state.visibleEnd) == state
    ensures BoundsSet(r)
    ensures WindowLength(r) == MinReal(newWindow, state.timeseriesEnd.value - state.timeseriesStart.value)
    ensures SelectionIsValid(state) && newWindow >= 0.0 ==> SelectionIsValid(r)
  {
    var ts, te := state.timeseriesStart.value, state.timeseriesEnd.value;
    if newWindow >= te - ts then
      state.(visibleStart := Some(ts), visibleEnd := Some(te))
    else
      var (newStart, newEnd) := PlaceWindow(ZoomAnchor(state) - AnchorOffset(state, newWindow), newWindow, ts, te);
      state.(visibleStart := Some(newStart), visibleEnd := Some(newEnd))
  }

  /** How far before the anchor a window of length `w` starts: the anchor's fraction of `w`. */
  function AnchorOffset(state: Selection, w: real): real
    requires state.visibleStart.Some? && state.visibleEnd.Some?
  {
    AnchorFraction(state.currentTime, state.visibleStart.value, WindowLength(state)) * w
  }

  /**
   * Places a window of length `w` at `start`: the start is first raised to
   * `ts`, then the end lowered to `te`, and the start derived again from the end.
   */
  function PlaceWindow(start: real, w: real, ts: real, te: real): (r: (real, real))
    ensures r.1 - r.0 == w
    ensures r.1 == MinReal(MaxReal(start, ts) + w, te)
    ensures ts <= start && start + w <= te ==> r == (start, start + w)
  {
    var newStart := MaxReal(start, ts);
    var newEnd := MinReal(newStart + w, te);
    (newEnd - w, newEnd)
  }

  /** The anchor a zoom keeps in place: the focus time, or the window midpoint when unset. */
  function ZoomAnchor(state: Selection): real
    requires state.visibleStart.Some? && state.visibleEnd.Some?
  {
    state.currentTime.GetOr(state.visibleStart.value + WindowLength(state) / 2.0)
  }

  /** When no bound has to be clamped, the new window starts `AnchorOffset` before the anchor. */
  lemma ZoomUnclamped(state: Selection, w: real, start: real)
    requires BoundsSet(state)
    requires w < state.timeseriesEnd.value - state.timeseriesStart.value
    requires start == ZoomAnchor(state) - AnchorOffset(state, w)
    requires state.timeseriesStart.value <= start
    requires start + w <= state.timeseriesEnd.value
    ensures ZoomTo(state, w).visibleStart == Some(start)
    ensures ZoomTo(state, w).visibleEnd == Some(start + w)
  {
    var ts, te := state.timeseriesStart.value, state.timeseriesEnd.value;
    assert PlaceWindow(start, w, ts, te) == (start, start + w);
  }

  /**
   * When neither bound has to be clamped, a zoom about a nonzero focus time
   * keeps the focus at the same fraction of the window.
   */
  lemma ZoomKeepsAnchorFraction(state: Selection, direction: ZoomDirection, factor: Option<real>)
    requires SelectionIsValid(state) && FactorOk(factor)
    requires state.currentTime.Some? && state.currentTime.value != 0.0
    requires WindowLength(state) > 0.0
    requires RequestedWindow(state, direction, factor) < state.timeseriesEnd.value - state.timeseriesStart.value
    requires var start := state.currentTime.value - AnchorOffset(state, RequestedWindow(state, direction, factor));
      state.timeseriesStart.value <= start
      && start + RequestedWindow(state, direction, factor) <= state.timeseriesEnd.value
    ensures var r := ZoomTime(state, direction, factor);
      var t := state.currentTime.value;
      (t - r.visibleStart.value) / WindowLength(r) == (t - state.visibleStart.value) / WindowLength(state)
  {
    var cw := WindowLength(state);
    if direction == Out && cw == state.timeseriesEnd.value - state.timeseriesStart.value {
      return;
    }
    var w := RequestedWindow(state, direction, factor);
    RequestedPositive(state, direction, factor);
    assert ZoomTime(state, direction, factor) == ZoomTo(state, w);
    ZoomToKeepsAnchorFraction(state, w);
  }

  /** A non-empty window asks for a window of positive length. */
  lemma RequestedPositive(state: Selection, direction: ZoomDirection, factor: Option<real>)
    requires SelectionIsValid(state) && FactorOk(factor) && WindowLength(state) > 0.0
    ensures RequestedWindow(state, direction, factor) > 0.0
  {
    PositiveProduct(WindowLength(state), ZoomMultiplier(direction, factor));
  }

  /** `ZoomKeepsAnchorFraction` for a window of any positive length that needs no clamping. */
  lemma ZoomToKeepsAnchorFraction(state: Selection, w: real)
    requires BoundsSet(state)
    requires state.currentTime.Some? && state.currentTime.value != 0.0
    requires WindowLength(state) > 0.0
    requires 0.0 < w < state.timeseriesEnd.value - state.timeseriesStart.value
    requires var start := state.currentTime.value - AnchorOffset(state, w);
      state.timeseriesStart.value <= start && start + w <= state.timeseriesEnd.value
    ensures var r := ZoomTo(state, w);
      var t := state.currentTime.value;
      (t - r.visibleStart.value) / WindowLength(r) == (t - state.visibleStart.value) / WindowLength(state)
  {
    var t := state.currentTime.value;
    var fr := AnchorFraction(state.currentTime, state.visibleStart.value, WindowLength(state));
    var offset := AnchorOffset(state, w);
    assert offset == fr * w;
    ZoomUnclamped(state, w, t - offset);
    var r := ZoomTo(state, w);
    RatioOfOffset(t, r.visibleStart.value, WindowLength(r), fr, w);
    assert fr == (t - state.visibleStart.value) / WindowLength(state);
  }

  /** A window of length `w` starting `fr * w` before `t` puts `t` at fraction `fr` of it. */
  lemma RatioOfOffset(t: real, start: real, length: real, fr: real, w: real)
    requires w != 0.0 && length == w && t - start == fr * w
    ensures (t - start) / length == fr
  {
    DivCancel(fr, w);
  }

  /** The window a zoom-in by `f >= 1` asks for is the old one divided by `f`. */
  lemma ZoomInRequest(state: Selection, f: real)
    requires SelectionIsValid(state) && f >= 1.0
    ensures RequestedWindow(state, In, Some(f)) == WindowLength(state) * (1.0 / f)
  {
    var cw := WindowLength(state);
    var total := state.timeseriesEnd.value - state.timeseriesStart.value;
    assert 0.0 <= cw <= total;
    var m := ZoomMultiplier(In, Some(f));
    assert m == 1.0 / f;
    InverseShrinks(cw, f);
    var p := cw * m;
    assert p <= total;
  }

  /**
   * A zoom-in by `f >= 1` about a focus time strictly inside the window, when
   * the requested window is shorter than the timeseries, gives the window
   * `[t - (t - vs) / f, t + (ve - t) / f]`: it never needs clamping.
   */
  lemma ZoomInAboutFocus(state: Selection, f: real)
    requires SelectionIsValid(state) && f >= 1.0
    requires state.currentTime.Some? && state.currentTime.value != 0.0
    requires state.visibleStart.value < state.currentTime.value < state.visibleEnd.value
    requires WindowLength(state) * (1.0 / f) < state.timeseriesEnd.value - state.timeseriesStart.value
    ensures ZoomTime(state, In, Some(f)).visibleStart
         == Some(state.currentTime.value - (state.currentTime.value - state.visibleStart.value) / f)
    ensures WindowLength(ZoomTime(state, In, Some(f))) == WindowLength(state) * (1.0 / f)
    ensures ZoomTime(state, In, Some(f)).currentTime == state.currentTime
    ensures SelectionIsValid(ZoomTime(state, In, Some(f)))
  {
    var t := state.currentTime.value;
    var vs, ve := state.visibleStart.value, state.visibleEnd.value;
    var w1 := WindowLength(state) * (1.0 / f);
    ZoomInRequest(state, f);
    ShrinkOffset(state, f);
    FocusWindow(t, vs, ve, f);
    ZoomUnclamped(state, w1, t - (t - vs) / f);
  }

  /** Shrinking by `f` about a focus time inside the window starts the window `(t - vs) / f` before it. */
  lemma ShrinkOffset(state: Selection, f: real)
    requires SelectionIsValid(state) && f >= 1.0
    requires state.currentTime.Some? && state.currentTime.value != 0.0
    requires state.visibleStart.value < state.currentTime.value < state.visibleEnd.value
    ensures AnchorOffset(state, WindowLength(state) * (1.0 / f))
         == (state.currentTime.value - state.visibleStart.value) / f
  {
    var cw := WindowLength(state);
    var a := state.currentTime.value - state.visibleStart.value;
    assert AnchorFraction(state.currentTime, state.visibleStart.value, cw) == a / cw;
    FractionTimesWindow(a, cw, f);
  }

  /** The shrunk window about `t` starts no earlier than `vs` and ends at `t + (ve - t) / f`, no later than `ve`. */
  lemma FocusWindow(t: real, vs: real, ve: real, f: real)
    requires vs < t < ve && f >= 1.0
    ensures vs <= t - (t - vs) / f
    ensures (t - (t - vs) / f) + (ve - vs) * (1.0 / f) == t + (ve - t) / f <= ve
  {
    DivBetween(t - vs, f);
    DivBetween(ve - t, f);
    DivSplit(ve - vs, t - vs, f);
  }

  /**
   * Zooming in by a factor `f >= 1` about a focus time strictly inside the
   * window, then out by the same factor, restores the window exactly.
   */
  lemma ZoomInOutRestores(state: Selection, f: real)
    requires SelectionIsValid(state) && f >= 1.0
    requires state.currentTime.Some? && state.currentTime.value != 0.0
    requires state.visibleStart.value < state.currentTime.value < state.visibleEnd.value
    ensures var back := ZoomTime(ZoomTime(state, In, Some(f)), Out, Some(f));
      back.visibleStart == state.visibleStart && back.visibleEnd == state.visibleEnd
  {
    if WindowLength(state) * (1.0 / f) >= state.timeseriesEnd.value - state.timeseriesStart.value {
      ZoomInOfFullWindow(state, f);
    } else {
      ZoomInThenOut(state, f);
    }
  }

  /** `ZoomInOutRestores` when the zoomed-in window is shorter than the timeseries. */
  lemma ZoomInThenOut(state: Selection, f: real)
    requires SelectionIsValid(state) && f >= 1.0
    requires state.currentTime.Some? && state.currentTime.value != 0.0
    requires state.visibleStart.value < state.currentTime.value < state.visibleEnd.value
    requires WindowLength(state) * (1.0 / f) < state.timeseriesEnd.value - state.timeseriesStart.value
    ensures var back := ZoomTime(ZoomTime(state, In, Some(f)), Out, Some(f));
      back.visibleStart == state.visibleStart && back.visibleEnd == state.visibleEnd
  {
    var t := state.currentTime.value;
    var vs := state.visibleStart.value;
    var ve := state.visibleEnd.value;
    var ts, te := state.timeseriesStart.value, state.timeseriesEnd.value;
    ZoomInAboutFocus(state, f);
    var zoomedIn := ZoomTime(state, In, Some(f));
    var cw := ve - vs;
    SameBounds(zoomedIn, state);
    ZoomOutAfterIn(zoomedIn, f, cw, t - vs);
    assert t - (t - vs) + (ve - vs) == ve;
  }

  /** A selection that differs from `state` at most in its window has the same timeseries bounds. */
  lemma SameBounds(r: Selection, state: Selection)
    requires r.(visibleStart := state.visibleStart, visibleEnd := state.visibleEnd) == state
    ensures r.timeseriesStart == state.timeseriesStart && r.timeseriesEnd == state.timeseriesEnd
  {
    var r' := r.(visibleStart := state.visibleStart, visibleEnd := state.visibleEnd);
    assert r'.timeseriesStart == r.timeseriesStart && r'.timeseriesEnd == r.timeseriesEnd;
  }

  /** A zoom-in that asks for at least the whole timeseries leaves a full window as it is. */
  lemma ZoomInOfFullWindow(state: Selection, f: real)
    requires SelectionIsValid(state) && f >= 1.0
    requires WindowLength(state) * (1.0 / f) >= state.timeseriesEnd.value - state.timeseriesStart.value
    ensures ZoomTime(state, In, Some(f)) == state
    ensures WindowLength(state) == state.timeseriesEnd.value - state.timeseriesStart.value
  {
    var total := state.timeseriesEnd.value - state.timeseriesStart.value;
    var cw := WindowLength(state);
    ShrunkCoversAll(cw, f, total);
    assert RequestedWindow(state, In, Some(f)) == total;
    ZoomToWhole(state);
  }

  /** A window that, shrunk by `f >= 1`, still covers `total`, is itself `total` long. */
  lemma ShrunkCoversAll(cw: real, f: real, total: real)
    requires 0.0 <= cw <= total && f >= 1.0 && cw * (1.0 / f) >= total
    ensures cw == total && cw * (1.0 / f) == total
  {
    InverseShrinks(cw, f);
  }

  /** Zooming a window that spans the timeseries to the timeseries' length leaves the state as it is. */
  lemma ZoomToWhole(state: Selection)
    requires BoundsSet(state)
    requires state.visibleStart == state.timeseriesStart && state.visibleEnd == state.timeseriesEnd
    ensures ZoomTo(state, state.timeseriesEnd.value - state.timeseriesStart.value) == state
  {
  }

  /** The zoom-out half of `ZoomInOutRestores`, stated on the zoomed-in state. */
  lemma ZoomOutAfterIn(zoomedIn: Selection, f: real, cw: real, offset: real)
    requires SelectionIsValid(zoomedIn) && f >= 1.0 && cw > 0.0
    requires zoomedIn.currentTime.Some? && zoomedIn.currentTime.value != 0.0
    requires cw <= zoomedIn.timeseriesEnd.value - zoomedIn.timeseriesStart.value
    requires WindowLength(zoomedIn) == cw * (1.0 / f)
    requires WindowLength(zoomedIn) < zoomedIn.timeseriesEnd.value - zoomedIn.timeseriesStart.value
    requires zoomedIn.visibleStart.value == zoomedIn.currentTime.value - offset / f
    requires 0.0 <= offset <= cw
    requires zoomedIn.timeseriesStart.value <= zoomedIn.currentTime.value - offset
    requires zoomedIn.currentTime.value - offset + cw <= zoomedIn.timeseriesEnd.value
    ensures var back := ZoomTime(zoomedIn, Out, Some(f));
      && back.visibleStart == Some(zoomedIn.currentTime.value - offset)
      && back.visibleEnd == Some(zoomedIn.currentTime.value - offset + cw)
  {
    var t := zoomedIn.currentTime.value;
    var ts, te := zoomedIn.timeseriesStart.value, zoomedIn.timeseriesEnd.value;
    var w1 := WindowLength(zoomedIn);
    InverseCancels(cw, f);
    assert ZoomMultiplier(Out, Some(f)) == f;
    assert w1 * f == cw;
    assert RequestedWindow(zoomedIn, Out, Some(f)) == MinReal(cw, te - ts);
    assert ZoomTime(zoomedIn, Out, Some(f)) == ZoomTo(zoomedIn, MinReal(cw, te - ts));
    if cw == te - ts {
      return;
    }
    GrownOffset(zoomedIn, f, cw, offset);
    ZoomUnclamped(zoomedIn, cw, t - offset);
  }

  /** Growing a window shrunk by `f` back to `cw` puts the focus `offset` after its start again. */
  lemma GrownOffset(s: Selection, f: real, cw: real, offset: real)
    requires s.visibleStart.Some? && s.visibleEnd.Some?
    requires s.currentTime.Some? && s.currentTime.value != 0.0
    requires f > 0.0 && cw > 0.0
    requires WindowLength(s) == cw * (1.0 / f)
    requires s.visibleStart.value == s.currentTime.value - offset / f
    ensures AnchorOffset(s, cw) == offset
  {
    var fr := AnchorFraction(s.currentTime, s.visibleStart.value, WindowLength(s));
    FractionPreserved(offset, cw, f);
    assert fr == offset / cw;
    FractionTimesLength(offset, cw);
  }

  // ------------------------------------------------------- set visible range

  /** Sets the visible window as given, without any check. */
  function SetVisibleTimeRange(state: Selection, startSec: real, endSec: real): (r: Selection)
    ensures r.visibleStart == Some(startSec) && r.visibleEnd == Some(endSec)
    ensures r.(visibleStart := state.visibleStart, visibleEnd := state.visibleEnd) == state
  {
    state.(visibleStart := Some(startSec), visibleEnd := Some(endSec))
  }

  /** The new window is valid exactly when the timeseries bounds are valid and contain it. */
  lemma SetVisibleTimeRangeValidity(state: Selection, startSec: real, endSec: real)
    ensures SelectionIsValid(SetVisibleTimeRange(state, startSec, endSec)) <==>
      && state.timeseriesStart.Some? && state.timeseriesEnd.Some?
      && 0.0 <= state.timeseriesStart.value <= state.timeseriesEnd.value
      && state.timeseriesStart.value <= startSec <= endSec <= state.timeseriesEnd.value
  {
  }

  /** Unlike the other transitions, setting the visible range can make a valid state invalid. */
  lemma SetVisibleTimeRangeCanInvalidate()
    ensures var s := InitializeTimes(DefaultSelection, 0.0, 100.0);
      SelectionIsValid(s) && !SelectionIsValid(SetVisibleTimeRange(s, 50.0, 150.0))
  {
    var s := InitializeTimes(DefaultSelection, 0.0, 100.0);
    InitializeDefaultValid(0.0, 100.0);
    SetVisibleTimeRangeValidity(s, 50.0, 150.0);
  }

  // --------------------------------------------------------------- auto-scroll

  /**
   * The window an auto-scroll moves to: the old span centred on `t`, shifted
   * back so that it ends by the timeseries end, then forward so that it starts
   * at or after the timeseries start. A missing bound counts as 0.
   */
  function Recentre(state: Selection, t: real): (r: (real, real))
    requires state.visibleStart.Some? && state.visibleEnd.Some?
    ensures r.1 - r.0 == WindowLength(state)
    ensures var span := WindowLength(state);
      var ts, te := state.timeseriesStart.GetOr(0.0), state.timeseriesEnd.GetOr(0.0);
      ts <= t - span / 2.0 && t + span / 2.0 <= te ==> r == (t - span / 2.0, t + span / 2.0)
    ensures var ts, te := state.timeseriesStart.GetOr(0.0), state.timeseriesEnd.GetOr(0.0);
      WindowLength(state) <= te - ts ==> ts <= r.0 && r.1 <= te
    ensures var ts, te := state.timeseriesStart.GetOr(0.0), state.timeseriesEnd.GetOr(0.0);
      WindowLength(state) >= 0.0 && ts <= t <= te ==> r.0 <= t <= r.1
  {
    var span := WindowLength(state);
    var ts, te := state.timeseriesStart.GetOr(0.0), state.timeseriesEnd.GetOr(0.0);
    var (s1, e1) := (t - span / 2.0, t + span / 2.0);
    var (s2, e2) := if e1 > te then (s1 + (te - e1), e1 + (te - e1)) else (s1, e1);
    if s2 < ts then (s2 + (ts - s2), e2 + (ts - s2)) else (s2, e2)
  }

  /**
   * When asked to, and the window is defined and `t` lies outside it, moves
   * the window to `Recentre(state, t)`; otherwise changes nothing.
   */
  function AutoScroll(newState: Selection, state: Selection, t: real, autoScroll: bool): (r: Selection)
    ensures r.(visibleStart := newState.visibleStart, visibleEnd := newState.visibleEnd) == newState
    ensures !ScrollNeeded(state, t, autoScroll) ==> r == newState
    ensures ScrollNeeded(state, t, autoScroll) ==>
      r.visibleStart == Some(Recentre(state, t).0) && r.visibleEnd == Some(Recentre(state, t).1)
  {
    if ScrollNeeded(state, t, autoScroll) then
      var (s, e) := Recentre(state, t);
      newState.(visibleStart := Some(s), visibleEnd := Some(e))
    else newState
  }

  /** Auto-scroll is asked for, the window is defined, and `t` lies outside it. */
  predicate ScrollNeeded(state: Selection, t: real, autoScroll: bool)
  {
    autoScroll && state.visibleStart.Some? && state.visibleEnd.Some?
    && (t < state.visibleStart.value || t > state.visibleEnd.value)
  }

  /** From a valid state, the auto-scrolled window is valid and keeps its length. */
  lemma AutoScrollKeepsValid(newState: Selection, state: Selection, t: real, autoScroll: bool)
    requires SelectionIsValid(state)
    requires newState.(currentTime := state.currentTime, currentTimeInterval := state.currentTimeInterval) == state
    ensures var r := AutoScroll(newState, state, t, autoScroll);
      SelectionIsValid(r) && WindowLength(r) == WindowLength(state)
  {
    ValidityIgnoresFocus(state, newState.currentTime, newState.currentTimeInterval);
  }

  // ---------------------------------------------------------- set current time

  /**
   * Sets the focus time and clears the focus interval, auto-scrolling the
   * window to it when asked. With the shift key and a previous focus time,
   * the previous focus time stays and the interval between the two becomes
   * the focus interval. An invalid result is discarded: the old state is
   * returned.
   */
  function SetCurrentTime(state: Selection, t: real, shiftKey: bool, autoScroll: bool): (r: Selection)
    ensures r == state || SelectionIsValid(r)
    ensures !BoundsSet(state) ==> r == state
    ensures r.timeseriesStart == state.timeseriesStart && r.timeseriesEnd == state.timeseriesEnd
  {
    var focused := state.(currentTime := Some(t), currentTimeInterval := None);
    var scrolled := AutoScroll(focused, state, t, autoScroll);
    var newState :=
      if shiftKey && state.currentTime.Some? then
        var t0 := state.currentTime.value;
        scrolled.(currentTime := state.currentTime, currentTimeInterval := Some((MinReal(t0, t), MaxReal(t0, t))))
      else scrolled;
    if SelectionIsValid(newState) then newState else state
  }

  /**
   * From a valid state, setting the focus time always takes effect: the
   * result is valid, has the focus time (or, with the shift key and a previous
   * focus time, keeps it and spans the interval between the two), keeps the
   * window length, and moves the window only when auto-scrolling to a time
   * outside it, and then to `Recentre(state, t)`. A time within the
   * timeseries then lies in the new window.
   */
  lemma SetCurrentTimeFromValid(state: Selection, t: real, shiftKey: bool, autoScroll: bool)
    requires SelectionIsValid(state)
    ensures var r := SetCurrentTime(state, t, shiftKey, autoScroll);
      && SelectionIsValid(r)
      && WindowLength(r) == WindowLength(state)
      && (if shiftKey && state.currentTime.Some? then
            r.currentTime == state.currentTime
            && r.currentTimeInterval == Some((MinReal(state.currentTime.value, t), MaxReal(state.currentTime.value, t)))
          else r.currentTime == Some(t) && r.currentTimeInterval.None?)
      && (!ScrollNeeded(state, t, autoScroll) ==>
            r.visibleStart == state.visibleStart && r.visibleEnd == state.visibleEnd)
      && (ScrollNeeded(state, t, autoScroll) ==>
            r.visibleStart == Some(Recentre(state, t).0) && r.visibleEnd == Some(Recentre(state, t).1))
      && (autoScroll && state.timeseriesStart.value <= t <= state.timeseriesEnd.value ==>
            r.visibleStart.value <= t <= r.visibleEnd.value)
  {
    var focused := state.(currentTime := Some(t), currentTimeInterval := None);
    AutoScrollKeepsValid(focused, state, t, autoScroll);
    var scrolled := AutoScroll(focused, state, t, autoScroll);
    if shiftKey && state.currentTime.Some? {
      var t0 := state.currentTime.value;
      ValidityIgnoresFocus(scrolled, state.currentTime, Some((MinReal(t0, t), MaxReal(t0, t))));
    }
  }

  /**
   * Auto-scrolling to 150 s from the window [50, 100] of a timeseries
   * [0, 200] centres the window on 150 s: [125, 175].
   */
  lemma SetCurrentTimeCentres()
    ensures var s := Selection(Some(0.0), Some(200.0), None, None, Some(50.0), Some(100.0));
      var r := SetCurrentTime(s, 150.0, false, true);
      r.visibleStart == Some(125.0) && r.visibleEnd == Some(175.0) && r.currentTime == Some(150.0)
  {
    var s := Selection(Some(0.0), Some(200.0), None, None, Some(50.0), Some(100.0));
    SetCurrentTimeFromValid(s, 150.0, false, true);
    assert Recentre(s, 150.0) == (125.0, 175.0);
  }

  // ------------------------------------------------- set current time interval

  /**
   * Sets the focus interval, auto-scrolling the window to its midpoint when
   * asked. The focus time is kept. An invalid result is discarded.
   */
  function SetCurrentTimeInterval(state: Selection, interval: (real, real), autoScroll: bool): (r: Selection)
    ensures r == state || SelectionIsValid(r)
    ensures !BoundsSet(state) ==> r == state
    ensures r.currentTime == state.currentTime
  {
    var newState := AutoScroll(state.(currentTimeInterval := Some(interval)), state,
                               (interval.0 + interval.1) / 2.0, autoScroll);
    if SelectionIsValid(newState) then newState else state
  }

  /**
   * From a valid state, setting the focus interval always takes effect: the
   * result is valid, holds the interval, keeps the window length, and moves
   * the window only to bring the interval's midpoint into view, and then to
   * `Recentre(state, mid)`.
   */
  lemma SetCurrentTimeIntervalFromValid(state: Selection, interval: (real, real), autoScroll: bool)
    requires SelectionIsValid(state)
    ensures var r := SetCurrentTimeInterval(state, interval, autoScroll);
      var mid := (interval.0 + interval.1) / 2.0;
      && SelectionIsValid(r)
      && r.currentTimeInterval == Some(interval)
      && WindowLength(r) == WindowLength(state)
      && (!ScrollNeeded(state, mid, autoScroll) ==>
            r.visibleStart == state.visibleStart && r.visibleEnd == state.visibleEnd)
      && (ScrollNeeded(state, mid, autoScroll) ==>
            r.visibleStart == Some(Recentre(state, mid).0) && r.visibleEnd == Some(Recentre(state, mid).1))
      && (autoScroll && state.timeseriesStart.value <= mid <= state.timeseriesEnd.value ==>
            r.visibleStart.value <= mid <= r.visibleEnd.value)
  {
    AutoScrollKeepsValid(state.(currentTimeInterval := Some(interval)), state,
                         (interval.0 + interval.1) / 2.0, autoScroll);
  }

  // ------------------------------------------------------------------- reducer

  /** The zoom factor of a zoom action is usable. */
  predicate ActionOk(action: Action)
  {
    action.ZoomAction? ==> FactorOk(action.factor)
  }

  /** Dispatches an action to its transition; an action it does not handle leaves the state as it is. */
  function Reduce(state: Selection, action: Action): (r: Selection)
    requires ActionOk(action)
    ensures action.SetSelectedElectrodeIdsAction? ==> r == state
    ensures !action.InitializeTimesAction? ==>
      r.timeseriesStart == state.timeseriesStart && r.timeseriesEnd == state.timeseriesEnd
  {
    match action
    case InitializeTimesAction(startSec, endSec) => InitializeTimes(state, startSec, endSec)
    case PanAction(direction, pct) => PanTime(state, direction, pct)
    case PanDeltaTAction(deltaT) => PanTimeDeltaT(state, deltaT)
    case ZoomAction(direction, factor) => ZoomTime(state, direction, factor)
    case SetVisibleTimeRangeAction(startSec, endSec) => SetVisibleTimeRange(state, startSec, endSec)
    case SetCurrentTimeAction(t, shiftKey, autoScroll) => SetCurrentTime(state, t, shiftKey, autoScroll)
    case SetCurrentTimeIntervalAction(interval, autoScroll) => SetCurrentTimeInterval(state, interval, autoScroll)
    case SetSelectedElectrodeIdsAction(_) => state
  }

  /** An action that cannot take a valid state to an invalid one. */
  predicate SafeAction(action: Action)
    ensures SafeAction(action) ==> ActionOk(action)
  {
    && ActionOk(action)
    && !action.SetVisibleTimeRangeAction?
    && (action.InitializeTimesAction? ==> 0.0 <= action.timeseriesStartSec <= action.timeseriesEndSec)
  }

  /** Every safe action keeps a valid state valid. */
  lemma ReducePreservesValidity(state: Selection, action: Action)
    requires SelectionIsValid(state) && SafeAction(action)
    ensures SelectionIsValid(Reduce(state, action))
  {
    match action
    case InitializeTimesAction(startSec, endSec) => InitializeKeepsValid(state, startSec, endSec);
    case SetCurrentTimeAction(t, shiftKey, autoScroll) => SetCurrentTimeFromValid(state, t, shiftKey, autoScroll);
    case SetCurrentTimeIntervalAction(interval, autoScroll) => SetCurrentTimeIntervalFromValid(state, interval, autoScroll);
    case _ =>
  }

  /** Applies the actions in order. */
  function ReduceAll(state: Selection, actions: seq<Action>): (r: Selection)
    requires forall a :: a in actions ==> ActionOk(a)
    decreases |actions|
  {
    if |actions| == 0 then state else ReduceAll(Reduce(state, actions[0]), actions[1..])
  }

  /** Every action of the sequence is safe. */
  predicate AllSafe(actions: seq<Action>)
    ensures AllSafe(actions) ==> forall a :: a in actions ==> ActionOk(a)
  {
    forall a :: a in actions ==> SafeAction(a)
  }

  /** A sequence of safe actions keeps a valid state valid. */
  lemma {:induction false} ReduceAllPreservesValidity(state: Selection, actions: seq<Action>)
    requires SelectionIsValid(state)
    requires AllSafe(actions)
    ensures SelectionIsValid(ReduceAll(state, actions))
    decreases |actions|
  {
    if |actions| > 0 {
      assert actions[0] in actions;
      ReducePreservesValidity(state, actions[0]);
      assert forall a :: a in actions[1..] ==> a in actions;
      ReduceAllPreservesValidity(Reduce(state, actions[0]), actions[1..]);
    }
  }

  /** The state after initializing the default state with [0, 100]. */
  const InitializedZeroToHundred: Selection := Selection(Some(0.0), Some(100.0), None, None, Some(0.0), Some(100.0))

  /**
   * Initializing with [0, 100] shows the whole timeseries, so a 10 % forward
   * pan has nowhere to go and returns the state unchanged.
   */
  lemma InitializeThenPanScenario()
    ensures Reduce(DefaultSelection, InitializeTimesAction(0.0, 100.0)) == InitializedZeroToHundred
    ensures Reduce(InitializedZeroToHundred, PanAction(Forward, DEFAULT_PAN_PCT)) == InitializedZeroToHundred
  {
    assert PanDisplacement(InitializedZeroToHundred, Forward, DEFAULT_PAN_PCT) == 10.0;
  }

  /** Zooming in by 2 about the midpoint of [0, 100] shows [25, 75]. */
  lemma ZoomInScenario()
    ensures var r := Reduce(InitializedZeroToHundred, ZoomAction(In, Some(2.0)));
      r.visibleStart == Some(25.0) && r.visibleEnd == Some(75.0)
  {
    var s0 := InitializedZeroToHundred;
    assert ZoomMultiplier(In, Some(2.0)) == 0.5;
    assert RequestedWindow(s0, In, Some(2.0)) == 50.0;
    assert AnchorOffset(s0, 50.0) == 25.0;
    ZoomUnclamped(s0, 50.0, 25.0);
  }

  lemma PositiveProduct(a: real, b: real)
    requires a > 0.0 && b > 0.0
    ensures a * b > 0.0
  {
  }

  lemma NonNegativeProduct(a: real, b: real)
    requires a >= 0.0 && b > 0.0
    ensures a * b >= 0.0
  {
  }

  lemma DivCancel(f: real, w: real)
    requires w != 0.0
    ensures (f * w) / w == f
  {
  }

  lemma InverseShrinks(c: real, f: real)
    requires c >= 0.0 && f >= 1.0
    ensures 0.0 <= c * (1.0 / f) <= c
  {
  }

  lemma InverseCancels(c: real, f: real)
    requires f > 0.0
    ensures c * (1.0 / f) * f == c
  {
  }

  lemma FractionTimesWindow(a: real, c: real, f: real)
    requires c > 0.0 && f > 0.0
    ensures (a / c) * (c * (1.0 / f)) == a / f
  {
  }

  lemma FractionTimesLength(a: real, c: real)
    requires c > 0.0
    ensures (a / c) * c == a
  {
  }

  lemma FractionPreserved(a: real, c: real, f: real)
    requires c > 0.0 && f > 0.0
    ensures (a / f) / (c * (1.0 / f)) == a / c
  {
  }

  lemma DivBetween(a: real, f: real)
    requires a >= 0.0 && f >= 1.0
    ensures 0.0 <= a / f <= a
  {
  }

  lemma DivSplit(c: real, a: real, f: real)
    requires f > 0.0
    ensures c * (1.0 / f) - a / f == (c - a) / f
  {
  }
}
