/**
 * The scroll view shared by the timeseries plots: the width of the visible
 * window in seconds, the layout sizes, the highlight layer, and the
 * annotations kept for drawing, split into time points and time intervals.
 */
module TimeScrollView {
  import opened Wrappers
  import TimeseriesSelection

  /** `hideToolbar` is fixed at false: the toolbar is always shown. */
  const HIDE_TOOLBAR: bool := false

  /** `panelWidthSeconds`: the visible span, an unset bound reading as zero. */
  function PanelWidthSeconds(visibleStart: Option<real>, visibleEnd: Option<real>): (r: real)
    ensures visibleStart.Some? && visibleEnd.Some? ==> r == visibleEnd.value - visibleStart.value
    ensures visibleStart.None? && visibleEnd.None? ==> r == 0.0
  {
    visibleEnd.GetOr(0.0) - visibleStart.GetOr(0.0)
  }

  /** For a valid selection the panel spans exactly the visible window, which is never negative. */
  lemma PanelWidthOfValidSelection(s: TimeseriesSelection.Selection)
    requires TimeseriesSelection.SelectionIsValid(s)
    ensures PanelWidthSeconds(s.visibleStart, s.visibleEnd) == TimeseriesSelection.WindowLength(s) >= 0.0
  {
  }

  /** `toolbarWidth`: zero only when the toolbar is hidden. */
  function ToolbarWidth(hideToolbar: bool, defaultToolbarWidth: real): (r: real)
    ensures r == 0.0 <==> hideToolbar || defaultToolbarWidth == 0.0
    ensures !hideToolbar ==> r == defaultToolbarWidth
  {
    if hideToolbar then 0.0 else defaultToolbarWidth
  }

  /** The sizes the layers are drawn with. */
  datatype ViewLayout = ViewLayout(toolbarWidth: real, effectiveWidth: real, perPanelOffset: real)

  /** `effectiveWidth` and `perPanelOffset`; the panel height comes from the unseen dimension hook. */
  function Layout(width: real, defaultToolbarWidth: real, panelHeight: real, panelSpacing: real): (l: ViewLayout)
    ensures l.toolbarWidth == ToolbarWidth(HIDE_TOOLBAR, defaultToolbarWidth)
    ensures l.toolbarWidth + l.effectiveWidth == width
    ensures l.perPanelOffset - panelSpacing == panelHeight
  {
    var toolbarWidth := ToolbarWidth(HIDE_TOOLBAR, defaultToolbarWidth);
    ViewLayout(toolbarWidth, width - toolbarWidth, panelHeight + panelSpacing)
  }

  /** With the toolbar always shown, the content is the full width less the default toolbar. */
  lemma ToolbarAlwaysShown(width: real, defaultToolbarWidth: real, panelHeight: real, panelSpacing: real)
    ensures Layout(width, defaultToolbarWidth, panelHeight, panelSpacing).effectiveWidth == width - defaultToolbarWidth
  {
  }

  /** A highlight span in pixels. */
  datatype PixelSpan = PixelSpan(pixelStart: real, pixelEnd: real)

  /** The highlight layer: an empty element when no span is left to draw. */
  datatype HighlightLayer = EmptyLayer | SpansLayer(spans: seq<PixelSpan>)

  function Highlight(pixelSpans: seq<PixelSpan>): (r: HighlightLayer)
    ensures r == EmptyLayer <==> |pixelSpans| == 0
    ensures r.SpansLayer? ==> r.spans == pixelSpans
  {
    if |pixelSpans| > 0 then SpansLayer(pixelSpans) else EmptyLayer
  }

  /** An annotation: a time point or a closed time interval, with its id. */
  datatype Annotation =
    | Timepoint(annotationId: string, timeSec: real)
    | TimeInterval(annotationId: string, intervalStart: real, intervalEnd: real)

  /**
   * Whether an annotation is drawn for the time range: a time point inside
   * the closed range, an interval that overlaps it. An unset bound compares
   * false, so nothing is drawn before the range is known.
   */
  predicate InRange(a: Annotation, timeRange: (Option<real>, Option<real>))
  {
    && timeRange.0.Some? && timeRange.1.Some?
    && match a
       case Timepoint(_, t) => timeRange.0.value <= t && t <= timeRange.1.value
       case TimeInterval(_, s, e) => timeRange.0.value <= e && s <= timeRange.1.value
  }

  /** `filter`: the elements that satisfy `p`, in their order. */
  function Filter<T>(xs: seq<T>, p: T -> bool): (r: seq<T>)
    ensures |r| <= |xs|
    ensures forall k :: 0 <= k < |r| ==> p(r[k])
  {
    if |xs| == 0 then []
    else Filter(xs[..|xs| - 1], p) + (if p(xs[|xs| - 1]) then [xs[|xs| - 1]] else [])
  }

  /** The conjunction of two predicates. */
  function Both<T>(p: T -> bool, q: T -> bool): T -> bool
  {
    x => p(x) && q(x)
  }

  /** The negation of a predicate. */
  function Not<T>(p: T -> bool): T -> bool
  {
    x => !p(x)
  }

  /** An element is kept exactly when it is in the input and satisfies the predicate. */
  lemma {:induction false} FilterMembers<T>(xs: seq<T>, p: T -> bool, x: T)
    ensures x in Filter(xs, p) <==> x in xs && p(x)
  {
    if |xs| > 0 {
      var init := xs[..|xs| - 1];
      FilterMembers(init, p, x);
      assert xs == init + [xs[|xs| - 1]];
    }
  }

  /** Filtering a concatenation filters each part. */
  lemma {:induction false} FilterAppend<T>(xs: seq<T>, ys: seq<T>, p: T -> bool)
    ensures Filter(xs + ys, p) == Filter(xs, p) + Filter(ys, p)
    decreases |ys|
  {
    if |ys| > 0 {
      var init := ys[..|ys| - 1];
      var last := ys[|ys| - 1];
      assert (xs + ys)[..|xs + ys| - 1] == xs + init;
      assert (xs + ys)[|xs + ys| - 1] == last;
      FilterAppend(xs, init, p);
      assert Filter(xs + ys, p) == Filter(xs + init, p) + (if p(last) then [last] else []);
      assert Filter(ys, p) == Filter(init, p) + (if p(last) then [last] else []);
    } else {
      assert xs + ys == xs;
    }
  }

  /** Filtering twice keeps, in order, what one filter by both predicates keeps. */
  lemma {:induction false} FilterTwice<T>(xs: seq<T>, p: T -> bool, q: T -> bool)
    ensures Filter(Filter(xs, p), q) == Filter(xs, Both(p, q))
  {
    if |xs| > 0 {
      var init := xs[..|xs| - 1];
      var last := xs[|xs| - 1];
      FilterTwice(init, p, q);
      FilterAppend(Filter(init, p), if p(last) then [last] else [], q);
      if p(last) {
        assert Filter([last], q) == Filter([], q) + (if q(last) then [last] else []);
      }
    }
  }

  /** The numbers of elements that do and do not satisfy a predicate add up to the length. */
  lemma {:induction false} FilterSplits<T>(xs: seq<T>, p: T -> bool)
    ensures |Filter(xs, p)| + |Filter(xs, Not(p))| == |xs|
  {
    if |xs| > 0 {
      FilterSplits(xs[..|xs| - 1], p);
    }
  }

  /** Two predicates that agree everywhere filter alike. */
  lemma {:induction false} FilterSame<T>(xs: seq<T>, p: T -> bool, q: T -> bool)
    requires forall x :: p(x) == q(x)
    ensures Filter(xs, p) == Filter(xs, q)
  {
    if |xs| > 0 {
      FilterSame(xs[..|xs| - 1], p, q);
    }
  }

  /** A drawn time point: its pixel position and the annotation. */
  datatype PixelTimepoint = PixelTimepoint(pixelTime: real, annotation: Annotation)

  /** A drawn interval: its pixel ends and the annotation. */
  datatype PixelTimeInterval = PixelTimeInterval(pixelStart: real, pixelEnd: real, annotation: Annotation)

  predicate IsTimepoint(a: Annotation) { a.Timepoint? }

  predicate IsTimeInterval(a: Annotation) { a.TimeInterval? }

  /** The in-range test for one time range, as a predicate on annotations. */
  function InRangeOf(timeRange: (Option<real>, Option<real>)): Annotation -> bool
  {
    a => InRange(a, timeRange)
  }

  /** The annotations in range, in order. */
  function AnnotationsInRange(annotations: seq<Annotation>, timeRange: (Option<real>, Option<real>)): seq<Annotation>
  {
    Filter(annotations, InRangeOf(timeRange))
  }

  /** The kept time points, each projected to pixels by `toPixels`. */
  function PixelTimepoints(annotations: seq<Annotation>, timeRange: (Option<real>, Option<real>),
                           toPixels: real -> real): (r: seq<PixelTimepoint>)
  {
    var tps := Filter(AnnotationsInRange(annotations, timeRange), IsTimepoint);
    seq(|tps|, k requires 0 <= k < |tps| => PixelTimepoint(toPixels(tps[k].timeSec), tps[k]))
  }

  /** The kept intervals, each end projected to pixels by `toPixels`. */
  function PixelTimeIntervals(annotations: seq<Annotation>, timeRange: (Option<real>, Option<real>),
                              toPixels: real -> real): (r: seq<PixelTimeInterval>)
  {
    var ivs := Filter(AnnotationsInRange(annotations, timeRange), IsTimeInterval);
    seq(|ivs|, k requires 0 <= k < |ivs| =>
      PixelTimeInterval(toPixels(ivs[k].intervalStart), toPixels(ivs[k].intervalEnd), ivs[k]))
  }

  /**
   * The two drawn lists take, in their original order, the time points and
   * the intervals that are in range; every annotation in range is drawn
   * once, in one of them.
   */
  lemma AnnotationLayerPartition(annotations: seq<Annotation>, timeRange: (Option<real>, Option<real>),
                                 toPixels: real -> real)
    ensures var tps := PixelTimepoints(annotations, timeRange, toPixels);
      var expected := Filter(annotations, Both(InRangeOf(timeRange), IsTimepoint));
      && |tps| == |expected|
      && forall k :: 0 <= k < |tps| ==> tps[k].annotation == expected[k] && tps[k].pixelTime == toPixels(expected[k].timeSec)
    ensures var ivs := PixelTimeIntervals(annotations, timeRange, toPixels);
      var expected := Filter(annotations, Both(InRangeOf(timeRange), IsTimeInterval));
      && |ivs| == |expected|
      && forall k :: 0 <= k < |ivs| ==>
           (&& ivs[k].annotation == expected[k]
            && ivs[k].pixelStart == toPixels(expected[k].intervalStart)
            && ivs[k].pixelEnd == toPixels(expected[k].intervalEnd))
    ensures |PixelTimepoints(annotations, timeRange, toPixels)| + |PixelTimeIntervals(annotations, timeRange, toPixels)|
         == |AnnotationsInRange(annotations, timeRange)|
  {
    var kept := AnnotationsInRange(annotations, timeRange);
    FilterTwice(annotations, InRangeOf(timeRange), IsTimepoint);
    FilterTwice(annotations, InRangeOf(timeRange), IsTimeInterval);
    FilterSplits(kept, IsTimepoint);
    FilterSame(kept, IsTimeInterval, Not(IsTimepoint));
  }

  /** A time point is drawn exactly when it lies in the closed visible range. */
  lemma TimepointDrawn(annotations: seq<Annotation>, timeRange: (Option<real>, Option<real>), a: Annotation)
    requires a in annotations && a.Timepoint?
    ensures a in AnnotationsInRange(annotations, timeRange) <==>
      timeRange.0.Some? && timeRange.1.Some? && timeRange.0.value <= a.timeSec <= timeRange.1.value
  {
    FilterMembers(annotations, InRangeOf(timeRange), a);
  }

  /** An interval is drawn exactly when it overlaps the closed visible range. */
  lemma IntervalDrawn(annotations: seq<Annotation>, timeRange: (Option<real>, Option<real>), a: Annotation)
    requires a in annotations && a.TimeInterval?
    ensures a in AnnotationsInRange(annotations, timeRange) <==>
      timeRange.0.Some? && timeRange.1.Some? && timeRange.0.value <= a.intervalEnd && a.intervalStart <= timeRange.1.value
  {
    FilterMembers(annotations, InRangeOf(timeRange), a);
  }
}
