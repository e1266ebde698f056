/**
 * The firing-rates plot: each unit's spike times are counted in bins of a
 * tenth of a second from the recording's start, the counts are smoothed with
 * a three-bin moving mean, and the bins near the visible time range become
 * coloured segments of the unit's panel.
 */
module FiringRates {
  import opened Wrappers
  import opened Numeric
  import opened Decimal

  const BIN_SIZE_SEC: real := 0.1
  const SMOOTHING_RADIUS: nat := 1

  /** A unit id, which the view data gives as a number or a string. */
  datatype UnitId = NumId(n: int) | StrId(s: string)

  /** One unit's spike train. */
  datatype Plot = Plot(unitId: UnitId, spikeTimesSec: seq<real>)

  /**
   * `numBins`: the ceiling of the duration, in tenths. A negative count
   * (end before start) makes every loop that uses it run zero times, as
   * zero does.
   */
  function NumBins(startTimeSec: real, endTimeSec: real): (r: nat)
    ensures endTimeSec <= startTimeSec ==> r == 0
    ensures startTimeSec < endTimeSec ==>
      && endTimeSec - startTimeSec <= r as real * BIN_SIZE_SEC < endTimeSec - startTimeSec + 1.0
      && r % 10 == 0
  {
    MaxInt(0, 10 * Ceil(endTimeSec - startTimeSec))
  }

  /** The bin a spike at `t` falls in. */
  function BinOf(t: real, startTimeSec: real): (b: int)
    ensures startTimeSec + b as real * BIN_SIZE_SEC <= t < startTimeSec + (b + 1) as real * BIN_SIZE_SEC
  {
    Floor((t - startTimeSec) / BIN_SIZE_SEC)
  }

  /** The number of spikes in bin `b`. */
  function Count(spikeTimes: seq<real>, startTimeSec: real, b: int): nat
  {
    if |spikeTimes| == 0 then 0
    else
      Count(spikeTimes[..|spikeTimes| - 1], startTimeSec, b)
      + (if BinOf(spikeTimes[|spikeTimes| - 1], startTimeSec) == b then 1 else 0)
  }

  /** The counts of bins `0 .. numBins - 1`. */
  function CountsOf(spikeTimes: seq<real>, startTimeSec: real, numBins: nat): seq<nat>
  {
    seq(numBins, b requires 0 <= b < numBins => Count(spikeTimes, startTimeSec, b))
  }

  /** The number of spikes whose bin is one of `0 .. numBins - 1`. */
  function InRange(spikeTimes: seq<real>, startTimeSec: real, numBins: nat): nat
  {
    if |spikeTimes| == 0 then 0
    else
      InRange(spikeTimes[..|spikeTimes| - 1], startTimeSec, numBins)
      + (if 0 <= BinOf(spikeTimes[|spikeTimes| - 1], startTimeSec) < numBins then 1 else 0)
  }

  function Total(s: seq<nat>): nat
  {
    if |s| == 0 then 0 else Total(s[..|s| - 1]) + s[|s| - 1]
  }

  /**
   * The counting loop: start from `numBins` zeros and add one to the bin of
   * each spike. A spike whose bin lies outside `0 .. numBins - 1` is written
   * to an array slot the smoothing never reads, so it is dropped here.
   */
  method BinSpikes(spikeTimes: seq<real>, startTimeSec: real, numBins: nat) returns (counts: seq<nat>)
    ensures counts == CountsOf(spikeTimes, startTimeSec, numBins)
  {
    counts := seq(numBins, _ => 0);
    for j := 0 to |spikeTimes|
      invariant counts == CountsOf(spikeTimes[..j], startTimeSec, numBins)
    {
      var b := BinOf(spikeTimes[j], startTimeSec);
      assert spikeTimes[..j + 1][..j] == spikeTimes[..j];
      if 0 <= b < numBins {
        counts := counts[b := counts[b] + 1];
      }
    }
    assert spikeTimes[..|spikeTimes|] == spikeTimes;
  }

  /** Adding one to an entry adds one to the total. */
  lemma {:induction false} TotalIncrement(s: seq<nat>, b: nat)
    requires b < |s|
    ensures Total(s[b := s[b] + 1]) == Total(s) + 1
  {
    var last := |s| - 1;
    var t := s[b := s[b] + 1];
    if b < last {
      assert t[..last] == s[..last][b := s[b] + 1];
      TotalIncrement(s[..last], b);
    } else {
      assert t[..last] == s[..last];
    }
  }

  /** The counts add up to the number of spikes that fall in a bin. */
  lemma {:induction false} CountsTotal(spikeTimes: seq<real>, startTimeSec: real, numBins: nat)
    ensures Total(CountsOf(spikeTimes, startTimeSec, numBins)) == InRange(spikeTimes, startTimeSec, numBins)
    decreases |spikeTimes|
  {
    if |spikeTimes| == 0 {
      assert CountsOf(spikeTimes, startTimeSec, numBins) == seq(numBins, _ => 0);
      ZeroTotal(numBins);
    } else {
      var init := spikeTimes[..|spikeTimes| - 1];
      var b := BinOf(spikeTimes[|spikeTimes| - 1], startTimeSec);
      CountsTotal(init, startTimeSec, numBins);
      var before := CountsOf(init, startTimeSec, numBins);
      if 0 <= b < numBins {
        assert CountsOf(spikeTimes, startTimeSec, numBins) == before[b := before[b] + 1];
        TotalIncrement(before, b);
      } else {
        assert CountsOf(spikeTimes, startTimeSec, numBins) == before;
      }
    }
  }

  lemma {:induction false} ZeroTotal(n: nat)
    ensures Total(seq(n, _ => 0)) == 0
  {
    if n > 0 {
      assert seq(n, _ => 0)[..n - 1] == seq(n - 1, _ => 0);
      ZeroTotal(n - 1);
    }
  }

  /** When every spike lies within the binned span, the counts add up to the number of spikes. */
  lemma {:induction false} AllSpikesCounted(spikeTimes: seq<real>, startTimeSec: real, numBins: nat)
    requires forall k :: 0 <= k < |spikeTimes| ==> 0 <= BinOf(spikeTimes[k], startTimeSec) < numBins
    ensures Total(CountsOf(spikeTimes, startTimeSec, numBins)) == |spikeTimes|
  {
    CountsTotal(spikeTimes, startTimeSec, numBins);
    AllInRange(spikeTimes, startTimeSec, numBins);
  }

  lemma {:induction false} AllInRange(spikeTimes: seq<real>, startTimeSec: real, numBins: nat)
    requires forall k :: 0 <= k < |spikeTimes| ==> 0 <= BinOf(spikeTimes[k], startTimeSec) < numBins
    ensures InRange(spikeTimes, startTimeSec, numBins) == |spikeTimes|
    decreases |spikeTimes|
  {
    if |spikeTimes| > 0 {
      var init := spikeTimes[..|spikeTimes| - 1];
      assert forall k :: 0 <= k < |init| ==> init[k] == spikeTimes[k];
      AllInRange(init, startTimeSec, numBins);
    }
  }

  /** `computeMean`: the value that, taken once per item, adds up to the total. Its callers pass non-empty slices. */
  function Mean(a: seq<nat>): (r: real)
    requires |a| > 0
    ensures r * (|a| as real) == Total(a) as real
    ensures r >= 0.0
  {
    Total(a) as real / |a| as real
  }

  /** The smoothing window of bin `i`: bins `i - 1 .. i + 1`, clipped to the bins there are. */
  function Window(counts: seq<nat>, i: nat): (w: seq<nat>)
    requires i < |counts|
    ensures |w| > 0 && i - MaxInt(i - SMOOTHING_RADIUS, 0) < |w|
    ensures |counts| >= 3 ==> |w| == if 0 < i < |counts| - 1 then 3 else 2
  {
    counts[MaxInt(i - SMOOTHING_RADIUS, 0)..MinInt(i + SMOOTHING_RADIUS + 1, |counts|)]
  }

  /** The smoothed counts: each bin's window mean. */
  function SmoothedOf(counts: seq<nat>): seq<real>
  {
    seq(|counts|, i requires 0 <= i < |counts| => Mean(Window(counts, i)))
  }

  /** The smoothing loop. */
  method Smooth(counts: seq<nat>) returns (smoothed: seq<real>)
    ensures smoothed == SmoothedOf(counts)
  {
    smoothed := [];
    for i := 0 to |counts|
      invariant smoothed == SmoothedOf(counts)[..i]
    {
      smoothed := smoothed + [Mean(Window(counts, i))];
    }
  }

  /** A mean lies between the smallest and the largest value averaged. */
  lemma MeanBetween(a: seq<nat>, lo: nat, hi: nat)
    requires |a| > 0
    requires forall k :: 0 <= k < |a| ==> lo <= a[k] <= hi
    ensures lo as real <= Mean(a) <= hi as real
  {
    TotalBounds(a, lo, hi);
    DivBetween(Total(a) as real, |a| as real, lo as real, hi as real);
  }

  lemma {:induction false} TotalBounds(a: seq<nat>, lo: nat, hi: nat)
    requires forall k :: 0 <= k < |a| ==> lo <= a[k] <= hi
    ensures lo * |a| <= Total(a) <= hi * |a|
  {
    if |a| > 0 {
      var init := a[..|a| - 1];
      assert forall k :: 0 <= k < |init| ==> init[k] == a[k];
      TotalBounds(init, lo, hi);
      assert lo * |a| == lo * |init| + lo;
      assert hi * |a| == hi * |init| + hi;
    }
  }

  lemma DivBetween(x: real, n: real, lo: real, hi: real)
    requires n > 0.0 && lo * n <= x <= hi * n
    ensures lo <= x / n <= hi
  {
  }

  /**
   * Every smoothed value lies between the smallest and the largest count of
   * its window, so smoothing never invents activity nor exceeds the peak.
   */
  lemma SmoothedBetween(counts: seq<nat>, i: nat, lo: nat, hi: nat)
    requires i < |counts|
    requires forall k :: 0 <= k < |counts| ==> lo <= counts[k] <= hi
    ensures lo as real <= SmoothedOf(counts)[i] <= hi as real
  {
    var w := Window(counts, i);
    var start := MaxInt(i - SMOOTHING_RADIUS, 0);
    assert forall k :: 0 <= k < |w| ==> w[k] == counts[start + k];
    MeanBetween(w, lo, hi);
  }

  /** One coloured segment: a bin's time span and its rate in spikes per second. */
  datatype Segment = Segment(t1: real, t2: real, firingRate: real)

  /** The segments of bins `i1 .. i2 - 1`, in order. */
  function SegmentsOf(smoothed: seq<real>, startTimeSec: real, i1: int, i2: int): (r: seq<Segment>)
    requires 0 <= i1 && i2 <= |smoothed|
    ensures |r| == MaxInt(0, i2 - i1)
    ensures forall k :: 0 <= k < |r| ==>
      && r[k].t1 == startTimeSec + (i1 + k) as real * BIN_SIZE_SEC
      && r[k].t2 == r[k].t1 + BIN_SIZE_SEC
      && r[k].firingRate * BIN_SIZE_SEC == smoothed[i1 + k]
    ensures forall k :: 0 <= k < |r| - 1 ==> r[k].t2 == r[k + 1].t1
  {
    seq(MaxInt(0, i2 - i1), k requires 0 <= k < MaxInt(0, i2 - i1) =>
      Segment(startTimeSec + (i1 + k) as real * BIN_SIZE_SEC,
              startTimeSec + (i1 + k + 1) as real * BIN_SIZE_SEC,
              smoothed[i1 + k] / BIN_SIZE_SEC))
  }

  /** The segment loop. */
  method BuildSegments(smoothed: seq<real>, startTimeSec: real, i1: int, i2: int) returns (segments: seq<Segment>)
    requires 0 <= i1 && i2 <= |smoothed|
    ensures segments == SegmentsOf(smoothed, startTimeSec, i1, i2)
  {
    segments := [];
    var ii := i1;
    while ii < i2
      invariant ii == i1 || i1 <= ii <= i2
      invariant segments == SegmentsOf(smoothed, startTimeSec, i1, i2)[..ii - i1]
    {
      segments := segments + [Segment(startTimeSec + ii as real * BIN_SIZE_SEC,
                                       startTimeSec + (ii + 1) as real * BIN_SIZE_SEC,
                                       smoothed[ii] / BIN_SIZE_SEC)];
      ii := ii + 1;
    }
  }

  /**
   * The bin range the source draws, `[i1, i2)`, computed from the visible
   * times as they are, although bin `ii` starts at `startTimeSec + ii / 10`.
   */
  function VisibleBinsAsWritten(visibleStart: Option<real>, visibleEnd: Option<real>, numBins: nat): (r: (int, int))
    ensures 0 <= r.0 && r.1 <= numBins
  {
    (MaxInt(0, Floor(visibleStart.GetOr(0.0) / BIN_SIZE_SEC - 1.0)),
     MinInt(numBins, Ceil(visibleEnd.GetOr(0.0) / BIN_SIZE_SEC + 1.0)))
  }

  /**
   * A recording from 100 s to 110 s shown whole: the written range is
   * `[999, 100)`, so no segment is drawn although all 100 bins are visible;
   * the range measured from the start draws them all.
   */
  lemma VisibleBinsAsWrittenMissesOffsetRecording()
    ensures NumBins(100.0, 110.0) == 100
    ensures VisibleBinsAsWritten(Some(100.0), Some(110.0), 100) == (999, 100)
    ensures VisibleBins(100.0, Some(100.0), Some(110.0), 100) == (0, 100)
    ensures VisibleOverlap(100.0, 100.0, 110.0, 0)
  {
    assert 100.0 / BIN_SIZE_SEC - 1.0 == 999.0;
    assert Floor(999.0) == 999;
    assert 110.0 / BIN_SIZE_SEC + 1.0 == 1101.0;
    assert (100.0 - 100.0) / BIN_SIZE_SEC - 1.0 == -1.0;
    assert Floor(-1.0) == -1;
    assert (110.0 - 100.0) / BIN_SIZE_SEC + 1.0 == 101.0;
  }

  /** Bin `ii` overlaps the visible range `[vs, ve]`. */
  predicate VisibleOverlap(startTimeSec: real, vs: real, ve: real, ii: int)
  {
    startTimeSec + ii as real * BIN_SIZE_SEC <= ve && vs <= startTimeSec + (ii + 1) as real * BIN_SIZE_SEC
  }

  /** The bin range measured from the recording's start, one bin of margin on either side. */
  function VisibleBins(startTimeSec: real, visibleStart: Option<real>, visibleEnd: Option<real>, numBins: nat): (r: (int, int))
    ensures 0 <= r.0 && r.1 <= numBins
  {
    (MaxInt(0, Floor((visibleStart.GetOr(0.0) - startTimeSec) / BIN_SIZE_SEC - 1.0)),
     MinInt(numBins, Ceil((visibleEnd.GetOr(0.0) - startTimeSec) / BIN_SIZE_SEC + 1.0)))
  }

  /** Every bin that overlaps the visible range is drawn. */
  lemma VisibleBinsCover(startTimeSec: real, vs: real, ve: real, numBins: nat, ii: int)
    requires 0 <= ii < numBins && VisibleOverlap(startTimeSec, vs, ve, ii)
    ensures var r := VisibleBins(startTimeSec, Some(vs), Some(ve), numBins); r.0 <= ii < r.1
  {
  }

  /** Every drawn bin lies within one bin of the visible range. */
  lemma VisibleBinsNear(startTimeSec: real, vs: real, ve: real, numBins: nat, ii: int)
    requires var r := VisibleBins(startTimeSec, Some(vs), Some(ve), numBins); r.0 <= ii < r.1
    ensures 0 <= ii < numBins
    ensures vs - BIN_SIZE_SEC < startTimeSec + (ii + 1) as real * BIN_SIZE_SEC
    ensures startTimeSec + ii as real * BIN_SIZE_SEC < ve + BIN_SIZE_SEC
  {
  }

  /** A heat-map colour: hue in degrees, saturation and lightness in percent. */
  datatype Hsl = Hsl(hue: int, saturation: int, lightness: int)

  /** `heatMapColorforValue`: blue at 0, red at 1. */
  function HeatMapColor(value: real, saturation: real): (c: Hsl)
    ensures 0.0 <= value <= 1.0 ==> 0 <= c.hue <= 240
    ensures 0.0 <= saturation <= 1.0 ==> 0 <= c.saturation <= 100
    ensures c.lightness == 50
  {
    Hsl(Floor((1.0 - value) * 240.0), Floor(saturation * 100.0), 50)
  }

  /** `firingRateToColor`: the rate scaled so that 30 spikes per second or more is full red. */
  function FiringRateToColor(f: real): (c: Hsl)
    ensures f >= 0.0 ==> 0 <= c.hue <= 240 && 0 <= c.saturation <= 100
    ensures f >= 30.0 ==> c == Hsl(0, 100, 50)
    ensures f == 0.0 ==> c == Hsl(240, 0, 50)
  {
    var a := MinReal(1.0, f / 30.0);
    HeatMapColor(a, a)
  }

  /** A higher rate is never bluer nor paler. */
  lemma ColorMonotone(f1: real, f2: real)
    requires f1 <= f2
    ensures FiringRateToColor(f2).hue <= FiringRateToColor(f1).hue
    ensures FiringRateToColor(f1).saturation <= FiringRateToColor(f2).saturation
  {
  }

  /** An element of a sequence of plots is sorted by the key `idToNum` gives. */
  predicate SortedByKey(s: seq<Plot>, idToNum: UnitId -> int)
  {
    forall p, q :: 0 <= p < q < |s| ==> idToNum(s[p].unitId) <= idToNum(s[q].unitId)
  }

  /** `data.plots.sort(...)`: in place, ascending by `idToNum` of the unit id. */
  method SortPlots(plots: array<Plot>, idToNum: UnitId -> int)
    modifies plots
    ensures SortedByKey(plots[..], idToNum)
    ensures multiset(plots[..]) == multiset(old(plots[..]))
  {
    for i := 0 to plots.Length
      invariant SortedUpTo(plots[..], i, idToNum)
      invariant multiset(plots[..]) == multiset(old(plots[..]))
    {
      InsertLast(plots, i, idToNum);
    }
  }

  /** The first `n` plots are in key order. */
  predicate SortedUpTo(s: seq<Plot>, n: nat, idToNum: UnitId -> int)
  {
    forall p, q :: 0 <= p < q < n && q < |s| ==> idToNum(s[p].unitId) <= idToNum(s[q].unitId)
  }

  /**
   * While plot `j` moves down: the others among the first `i + 1` are in
   * order, and every plot it has passed has a larger key.
   */
  predicate Inserting(s: seq<Plot>, i: nat, j: nat, idToNum: UnitId -> int)
    requires j <= i < |s|
  {
    && (forall p, q :: 0 <= p < q <= i && p != j && q != j ==> idToNum(s[p].unitId) <= idToNum(s[q].unitId))
    && (forall q :: j < q <= i ==> idToNum(s[j].unitId) < idToNum(s[q].unitId))
  }

  /** Swapping the moving plot with a larger left neighbour keeps the insertion invariant. */
  lemma SwapDown(s: seq<Plot>, i: nat, j: nat, idToNum: UnitId -> int)
    requires 0 < j <= i < |s| && Inserting(s, i, j, idToNum)
    requires idToNum(s[j - 1].unitId) > idToNum(s[j].unitId)
    ensures Inserting(s[j - 1 := s[j]][j := s[j - 1]], i, j - 1, idToNum)
  {
  }

  lemma SwapPermutes(s: seq<Plot>, j: nat)
    requires 0 < j < |s|
    ensures multiset(s[j - 1 := s[j]][j := s[j - 1]]) == multiset(s)
  {
  }

  /** Once the moving plot meets a key no larger than its own, the first `i + 1` are sorted. */
  lemma InsertDone(s: seq<Plot>, i: nat, j: nat, idToNum: UnitId -> int)
    requires j <= i < |s| && Inserting(s, i, j, idToNum)
    requires j == 0 || idToNum(s[j - 1].unitId) <= idToNum(s[j].unitId)
    ensures SortedUpTo(s, i + 1, idToNum)
  {
    forall p, q | 0 <= p < q < i + 1
      ensures idToNum(s[p].unitId) <= idToNum(s[q].unitId)
    {
      if p == j {
      } else if q == j {
        if p < j - 1 {
          assert idToNum(s[p].unitId) <= idToNum(s[j - 1].unitId);
        }
      }
    }
  }

  /** Moves `plots[i]` down past every larger key, leaving the first `i + 1` plots sorted. */
  method InsertLast(plots: array<Plot>, i: nat, idToNum: UnitId -> int)
    requires i < plots.Length && SortedUpTo(plots[..], i, idToNum)
    modifies plots
    ensures SortedUpTo(plots[..], i + 1, idToNum)
    ensures multiset(plots[..]) == multiset(old(plots[..]))
  {
    var j := i;
    while j > 0 && idToNum(plots[j - 1].unitId) > idToNum(plots[j].unitId)
      invariant 0 <= j <= i
      invariant multiset(plots[..]) == multiset(old(plots[..]))
      invariant Inserting(plots[..], i, j, idToNum)
    {
      ghost var before := plots[..];
      SwapDown(before, i, j, idToNum);
      SwapPermutes(before, j);
      plots[j - 1], plots[j] := plots[j], plots[j - 1];
      assert plots[..] == before[j - 1 := before[j]][j := before[j - 1]];
      j := j - 1;
    }
    InsertDone(plots[..], i, j, idToNum);
  }

  /**
   * `${unitId}`: a string id as it is; a numeric id as its decimal digits,
   * after a minus sign when it is negative, which read back give the number.
   */
  function UnitIdText(u: UnitId): (r: string)
    ensures u.StrId? ==> r == u.s
    ensures u.NumId? ==> |r| >= 1 && (r[0] == '-' <==> u.n < 0)
    ensures u.NumId? && u.n >= 0 ==> (forall k :: 0 <= k < |r| ==> IsDigit(r[k])) && ParseDigits(r) == u.n
    ensures u.NumId? && u.n < 0 ==> (forall k :: 1 <= k < |r| ==> IsDigit(r[k])) && ParseDigits(r[1..]) == -u.n
  {
    match u
    case NumId(n) =>
      ParseNatToString(if n < 0 then -n else n);
      IntToString(n)
    case StrId(s) => s
  }

  /** A panel of the scroll view: keyed and labelled by the unit id. */
  datatype Panel = Panel(key: string, panelLabel: string, segments: seq<Segment>)

  /** What the view shows: a loading notice before the time range is known, else the panels. */
  datatype Rendered = Loading | Panels(panels: seq<Panel>)

  /**
   * The segments of one plot, as the view computes them: at most one per
   * bin, each within the recording, with a non-negative rate.
   */
  function PlotSegments(plot: Plot, startTimeSec: real, endTimeSec: real,
                        visibleStart: Option<real>, visibleEnd: Option<real>): (r: seq<Segment>)
    ensures |r| <= NumBins(startTimeSec, endTimeSec)
    ensures forall k :: 0 <= k < |r| ==>
      && startTimeSec <= r[k].t1
      && r[k].t2 <= startTimeSec + NumBins(startTimeSec, endTimeSec) as real * BIN_SIZE_SEC
      && r[k].firingRate >= 0.0
  {
    var numBins := NumBins(startTimeSec, endTimeSec);
    var counts := CountsOf(plot.spikeTimesSec, startTimeSec, numBins);
    var smoothed := SmoothedOf(counts);
    var r := VisibleBins(startTimeSec, visibleStart, visibleEnd, numBins);
    SmoothedNonNegative(counts);
    SegmentsWithin(smoothed, startTimeSec, r.0, r.1);
    SegmentsOf(smoothed, startTimeSec, r.0, r.1)
  }

  /** Smoothing keeps one value per bin, and none of them is negative. */
  lemma SmoothedNonNegative(counts: seq<nat>)
    ensures |SmoothedOf(counts)| == |counts|
    ensures forall i :: 0 <= i < |counts| ==> SmoothedOf(counts)[i] >= 0.0
  {
    forall i | 0 <= i < |counts|
      ensures SmoothedOf(counts)[i] >= 0.0
    {
      var w := Window(counts, i);
      assert Total(w) as real >= 0.0;
      NonNegativeQuotient(Total(w) as real, |w| as real);
    }
  }

  lemma NonNegativeQuotient(a: real, b: real)
    requires a >= 0.0 && b > 0.0
    ensures a / b >= 0.0
  {
  }

  /** The segments of bins `i1 .. i2 - 1` of non-negative smoothed counts lie in bins `0 .. |smoothed| - 1` and have non-negative rates. */
  lemma SegmentsWithin(smoothed: seq<real>, startTimeSec: real, i1: int, i2: int)
    requires 0 <= i1 && i2 <= |smoothed|
    requires forall i :: 0 <= i < |smoothed| ==> smoothed[i] >= 0.0
    ensures |SegmentsOf(smoothed, startTimeSec, i1, i2)| <= |smoothed|
    ensures forall k :: 0 <= k < |SegmentsOf(smoothed, startTimeSec, i1, i2)| ==>
      && startTimeSec <= SegmentsOf(smoothed, startTimeSec, i1, i2)[k].t1
      && SegmentsOf(smoothed, startTimeSec, i1, i2)[k].t2 <= startTimeSec + |smoothed| as real * BIN_SIZE_SEC
      && SegmentsOf(smoothed, startTimeSec, i1, i2)[k].firingRate >= 0.0
  {
    var segs := SegmentsOf(smoothed, startTimeSec, i1, i2);
    forall k | 0 <= k < |segs|
      ensures startTimeSec <= segs[k].t1
      ensures segs[k].t2 <= startTimeSec + |smoothed| as real * BIN_SIZE_SEC
      ensures segs[k].firingRate >= 0.0
    {
      BinWithin(startTimeSec, i1 + k, |smoothed|);
      RateNonNegative(segs[k].firingRate, smoothed[i1 + k]);
    }
  }

  /** Bin `b` of `n` bins starts at or after the recording start and ends by bin `n`'s start. */
  lemma BinWithin(startTimeSec: real, b: nat, n: nat)
    requires b < n
    ensures startTimeSec <= startTimeSec + b as real * BIN_SIZE_SEC
    ensures startTimeSec + b as real * BIN_SIZE_SEC + BIN_SIZE_SEC <= startTimeSec + n as real * BIN_SIZE_SEC
  {
  }

  /** A rate whose count per bin is non-negative is non-negative. */
  lemma RateNonNegative(rate: real, count: real)
    requires rate * BIN_SIZE_SEC == count && count >= 0.0
    ensures rate >= 0.0
  {
  }

  /** One panel per plot, in order, keyed and labelled by the unit id. */
  method BuildPanels(plots: seq<Plot>, startTimeSec: real, endTimeSec: real,
                     visibleStart: Option<real>, visibleEnd: Option<real>) returns (panels: seq<Panel>)
    ensures |panels| == |plots|
    ensures forall k :: 0 <= k < |plots| ==>
      && panels[k].key == UnitIdText(plots[k].unitId)
      && panels[k].panelLabel == UnitIdText(plots[k].unitId)
      && panels[k].segments == PlotSegments(plots[k], startTimeSec, endTimeSec, visibleStart, visibleEnd)
  {
    panels := [];
    for k := 0 to |plots|
      invariant |panels| == k
      invariant forall m :: 0 <= m < k ==> panels[m] == PanelOf(plots[m], startTimeSec, endTimeSec, visibleStart, visibleEnd)
    {
      var panel := BuildPanel(plots[k], startTimeSec, endTimeSec, visibleStart, visibleEnd);
      panels := panels + [panel];
    }
  }

  /** The panel of one unit: keyed and labelled by its id, showing its segments. */
  function PanelOf(plot: Plot, startTimeSec: real, endTimeSec: real,
                   visibleStart: Option<real>, visibleEnd: Option<real>): Panel
  {
    var text := UnitIdText(plot.unitId);
    Panel(text, text, PlotSegments(plot, startTimeSec, endTimeSec, visibleStart, visibleEnd))
  }

  /** One unit's panel: its spikes binned, smoothed and cut into the visible segments. */
  method BuildPanel(plot: Plot, startTimeSec: real, endTimeSec: real,
                    visibleStart: Option<real>, visibleEnd: Option<real>) returns (panel: Panel)
    ensures panel == PanelOf(plot, startTimeSec, endTimeSec, visibleStart, visibleEnd)
  {
    var numBins := NumBins(startTimeSec, endTimeSec);
    var r := VisibleBins(startTimeSec, visibleStart, visibleEnd, numBins);
    var counts := BinSpikes(plot.spikeTimesSec, startTimeSec, numBins);
    var smoothed := Smooth(counts);
    var segments := BuildSegments(smoothed, startTimeSec, r.0, r.1);
    assert segments == PlotSegments(plot, startTimeSec, endTimeSec, visibleStart, visibleEnd);
    var text := UnitIdText(plot.unitId);
    panel := Panel(text, text, segments);
  }

  /**
   * The view: the plots are sorted in place, each is binned and smoothed,
   * and each becomes a panel keyed and labelled by its unit id, in sorted
   * order; before the visible start is known only the loading notice shows.
   */
  method FiringRatesPlot(plots: array<Plot>, startTimeSec: real, endTimeSec: real,
                         visibleStart: Option<real>, visibleEnd: Option<real>, idToNum: UnitId -> int)
    returns (out: Rendered)
    modifies plots
    ensures SortedByKey(plots[..], idToNum)
    ensures multiset(plots[..]) == multiset(old(plots[..]))
    ensures visibleStart.None? <==> out == Loading
    ensures out.Panels? ==>
      && |out.panels| == plots.Length
      && forall k :: 0 <= k < plots.Length ==>
           && out.panels[k].key == UnitIdText(plots[k].unitId)
           && out.panels[k].panelLabel == UnitIdText(plots[k].unitId)
           && out.panels[k].segments == PlotSegments(plots[k], startTimeSec, endTimeSec, visibleStart, visibleEnd)
  {
    SortPlots(plots, idToNum);
    var panels := BuildPanels(plots[..], startTimeSec, endTimeSec, visibleStart, visibleEnd);
    if visibleStart.None? {
      out := Loading;
    } else {
      out := Panels(panels);
    }
  }
}
