/**
 * The sparse encoding of an audio spectrogram: the spectrogram is flattened
 * row by row, and the flat vector is stored as the values worth keeping and,
 * for each, its distance from the previously kept index. Zeros are skipped,
 * except that a value is kept whenever the distance would otherwise exceed
 * the largest delta the index type can hold.
 */
module SparseAudioSpectrogram {
  import opened Bytes

  /** The sum of the deltas: the position of the last kept value. */
  function Sum(deltas: seq<nat>): nat
  {
    if |deltas| == 0 then 0 else Sum(deltas[..|deltas| - 1]) + deltas[|deltas| - 1]
  }

  /** The position of kept value `k`: the sum of the first `k + 1` deltas. */
  function Position(deltas: seq<nat>, k: nat): nat
    requires k < |deltas|
  {
    Sum(deltas[..k + 1])
  }

  /**
   * The vector of length `n` the encoding stands for: every kept value at
   * its position (a later one wins), zero everywhere else.
   */
  function Decode(values: seq<real>, deltas: seq<nat>, n: nat): (r: seq<real>)
    requires |values| == |deltas|
    ensures |r| == n
    decreases |values|
  {
    if |values| == 0 then seq(n, _ => 0.0)
    else
      var prev := Decode(values[..|values| - 1], deltas[..|deltas| - 1], n);
      var p := Sum(deltas);
      if p < n then prev[p := values[|values| - 1]] else prev
  }

  /** A prefix of the deltas never sums to more than all of them. */
  lemma {:induction false} SumPrefix(deltas: seq<nat>, k: nat)
    requires k <= |deltas|
    ensures Sum(deltas[..k]) <= Sum(deltas)
    decreases |deltas|
  {
    if k < |deltas| {
      var init := deltas[..|deltas| - 1];
      assert deltas[..k] == init[..k];
      SumPrefix(init, k);
    } else {
      assert deltas[..k] == deltas;
    }
  }

  /** Lengthening the decoded vector past the last position only appends zeros. */
  lemma {:induction false} DecodeGrow(values: seq<real>, deltas: seq<nat>, n: nat)
    requires |values| == |deltas|
    requires |deltas| == 0 || Sum(deltas) < n
    ensures Decode(values, deltas, n + 1) == Decode(values, deltas, n) + [0.0]
    decreases |values|
  {
    if |values| > 0 {
      var init := deltas[..|deltas| - 1];
      SumPrefix(deltas, |deltas| - 1);
      DecodeGrow(values[..|values| - 1], init, n);
    }
  }

  /** Keeping one more value at position `n` of a vector of length `n + 1`. */
  lemma DecodeKeep(values: seq<real>, deltas: seq<nat>, n: nat, x: real, d: nat)
    requires |values| == |deltas|
    requires |deltas| == 0 || Sum(deltas) < n
    requires Sum(deltas) + d == n
    ensures Decode(values + [x], deltas + [d], n + 1) == Decode(values, deltas, n) + [x]
  {
    DecodeGrow(values, deltas, n);
    assert (values + [x])[..|values|] == values;
    assert (deltas + [d])[..|deltas|] == deltas;
    SumAppend(deltas, d);
  }

  lemma SumAppend(deltas: seq<nat>, d: nat)
    ensures Sum(deltas + [d]) == Sum(deltas) + d
  {
    assert (deltas + [d])[..|deltas|] == deltas;
  }

  /**
   * The encoding of a non-empty vector, as the source's loop computes it:
   * the first value is always kept with delta 0, and index `i >= 1` is kept
   * when its value is nonzero or when it lies `maxDelta` past the last kept
   * index. The result decodes back to the vector; every later delta is at
   * least 1, and at most `maxDelta` when that is positive.
   */
  method GetSparseRepresentation(vec: seq<real>, maxDelta: nat) returns (values: seq<real>, indicesDelta: seq<nat>)
    requires |vec| > 0
    ensures |values| == |indicesDelta| >= 1
    ensures values[0] == vec[0] && indicesDelta[0] == 0
    ensures forall k :: 1 <= k < |indicesDelta| ==> 1 <= indicesDelta[k]
    ensures maxDelta >= 1 ==> forall k :: 1 <= k < |indicesDelta| ==> indicesDelta[k] <= maxDelta
    ensures Sum(indicesDelta) < |vec|
    ensures forall k :: 1 <= k < |indicesDelta| ==> values[k] != 0.0 || indicesDelta[k] == maxDelta
    ensures maxDelta >= 1 ==> |vec| - 1 - Sum(indicesDelta) < maxDelta
    ensures Decode(values, indicesDelta, |vec|) == vec
  {
    values := [vec[0]];
    indicesDelta := [0];
    var lastI := 0;
    assert Decode(values, indicesDelta, 1) == [vec[0]] by {
      assert values[..0] == [] && indicesDelta[..0] == [];
      assert Sum(indicesDelta) == 0;
    }
    assert vec[..1] == [vec[0]];
    var i := 1;
    while i < |vec|
      invariant EncodedUpTo(vec, maxDelta, values, indicesDelta, lastI, i)
    {
      if vec[i] != 0.0 || i - lastI == maxDelta {
        KeepStep(vec, maxDelta, values, indicesDelta, lastI, i);
        values := values + [vec[i]];
        indicesDelta := indicesDelta + [i - lastI];
        lastI := i;
      } else {
        SkipStep(vec, maxDelta, values, indicesDelta, lastI, i);
      }
      i := i + 1;
    }
    assert vec[..i] == vec;
  }

  /**
   * What the loop of `GetSparseRepresentation` knows after scanning the
   * first `i` elements, the last kept one at `lastI`.
   */
  ghost predicate EncodedUpTo(vec: seq<real>, maxDelta: nat, values: seq<real>, deltas: seq<nat>, lastI: nat, i: nat)
  {
    && 1 <= i <= |vec|
    && |values| == |deltas| >= 1
    && values[0] == vec[0] && deltas[0] == 0
    && (forall k :: 1 <= k < |deltas| ==> 1 <= deltas[k])
    && (maxDelta >= 1 ==> forall k :: 1 <= k < |deltas| ==> deltas[k] <= maxDelta)
    && (forall k :: 1 <= k < |deltas| ==> values[k] != 0.0 || deltas[k] == maxDelta)
    && Sum(deltas) == lastI < i
    && (maxDelta >= 1 ==> i - lastI <= maxDelta)
    && Decode(values, deltas, i) == vec[..i]
  }

  /** Keeping element `i` extends the encoding by one value and its distance from `lastI`. */
  lemma KeepStep(vec: seq<real>, maxDelta: nat, values: seq<real>, deltas: seq<nat>, lastI: nat, i: nat)
    requires EncodedUpTo(vec, maxDelta, values, deltas, lastI, i) && i < |vec|
    requires vec[i] != 0.0 || i - lastI == maxDelta
    ensures EncodedUpTo(vec, maxDelta, values + [vec[i]], deltas + [i - lastI], i, i + 1)
  {
    var values', deltas' := values + [vec[i]], deltas + [i - lastI];
    DecodeKeep(values, deltas, i, vec[i], i - lastI);
    SumAppend(deltas, i - lastI);
    assert vec[..i + 1] == vec[..i] + [vec[i]];
    assert forall k :: 0 <= k < |deltas| ==> deltas'[k] == deltas[k] && values'[k] == values[k];
  }

  /** Skipping a zero element `i` short of `maxDelta` leaves the encoding as it is. */
  lemma SkipStep(vec: seq<real>, maxDelta: nat, values: seq<real>, deltas: seq<nat>, lastI: nat, i: nat)
    requires EncodedUpTo(vec, maxDelta, values, deltas, lastI, i) && i < |vec|
    requires !(vec[i] != 0.0 || i - lastI == maxDelta)
    ensures EncodedUpTo(vec, maxDelta, values, deltas, lastI, i + 1)
  {
    DecodeGrow(values, deltas, i);
    assert vec[..i + 1] == vec[..i] + [vec[i]];
  }

  /** Kept value `k` sits at its position in the decoded vector, when no later value shares it. */
  lemma {:induction false} DecodeAt(values: seq<real>, deltas: seq<nat>, n: nat, k: nat)
    requires |values| == |deltas| && k < |deltas|
    requires forall j :: 1 <= j < |deltas| ==> 1 <= deltas[j]
    requires Sum(deltas) < n
    ensures Position(deltas, k) < n
    ensures Decode(values, deltas, n)[Position(deltas, k)] == values[k]
    decreases |values|
  {
    var last := |deltas| - 1;
    var init := deltas[..last];
    if k == last {
      assert deltas[..k + 1] == deltas;
    } else {
      assert init[..k + 1] == deltas[..k + 1];
      SumPrefix(init, k + 1);
      assert Sum(deltas) == Sum(init) + deltas[last];
      DecodeAt(values[..last], init, n, k);
    }
  }

  /** The decoded vector is zero at every index that is not a position. */
  lemma {:induction false} DecodeElsewhere(values: seq<real>, deltas: seq<nat>, n: nat, j: nat)
    requires |values| == |deltas| && j < n
    requires forall k :: 0 <= k < |deltas| ==> Position(deltas, k) != j
    ensures Decode(values, deltas, n)[j] == 0.0
    decreases |values|
  {
    if |values| > 0 {
      var last := |deltas| - 1;
      var init := deltas[..last];
      assert deltas[..last + 1] == deltas;
      assert Position(deltas, last) == Sum(deltas);
      forall k | 0 <= k < |init|
        ensures Position(init, k) != j
      {
        assert init[..k + 1] == deltas[..k + 1];
        assert Position(deltas, k) != j;
      }
      DecodeElsewhere(values[..last], init, n, j);
    }
  }

  /** Positions strictly increase, since every delta after the first is at least 1. */
  lemma {:induction false} PositionsIncrease(deltas: seq<nat>, k: nat)
    requires k + 1 < |deltas|
    requires forall j :: 1 <= j < |deltas| ==> 1 <= deltas[j]
    ensures Position(deltas, k) < Position(deltas, k + 1)
  {
    assert deltas[..k + 2][..k + 1] == deltas[..k + 1];
  }

  /** The row-by-row (C order) flattening of a two-dimensional array. */
  function Flatten(rows: seq<seq<real>>): (r: seq<real>)
  {
    if |rows| == 0 then [] else rows[0] + Flatten(rows[1..])
  }

  /** All rows have `width` entries. */
  predicate Rectangular(rows: seq<seq<real>>, width: nat)
  {
    forall t :: 0 <= t < |rows| ==> |rows[t]| == width
  }

  /** Entry `[t][f]` of a rectangular array is element `t * width + f` of its flattening. */
  lemma {:induction false} FlattenAt(rows: seq<seq<real>>, width: nat, t: nat, f: nat)
    requires Rectangular(rows, width) && t < |rows| && f < width
    ensures |Flatten(rows)| == |rows| * width
    ensures t * width + f < |Flatten(rows)| && Flatten(rows)[t * width + f] == rows[t][f]
    decreases |rows|
  {
    FlattenLength(rows, width);
    RowMajorInRange(t, |rows|, width, f);
    assert Flatten(rows) == rows[0] + Flatten(rows[1..]);
    if t > 0 {
      var i' := (t - 1) * width + f;
      FlattenAt(rows[1..], width, t - 1, f);
      assert t * width == width + (t - 1) * width;
      assert Flatten(rows)[width + i'] == Flatten(rows[1..])[i'];
    }
  }

  /** Row `t < n` of width `w` ends within `n * w` entries. */
  lemma RowMajorInRange(t: nat, n: nat, w: nat, f: nat)
    requires t < n && f < w
    ensures t * w + f < n * w
  {
    assert (t + 1) * w <= n * w;
  }

  lemma {:induction false} FlattenLength(rows: seq<seq<real>>, width: nat)
    requires Rectangular(rows, width)
    ensures |Flatten(rows)| == |rows| * width
    decreases |rows|
  {
    if |rows| > 0 {
      FlattenLength(rows[1..], width);
    }
  }

  /** The largest value of `uint8`, the index type. */
  const MAX_DELTA: nat := 255

  /** The dictionary `to_dict` builds. */
  datatype SpectrogramDict = SpectrogramDict(
    viewType: string,
    numFrequencies: nat,
    numTimepoints: nat,
    samplingFrequency: real,
    spectrogramValues: seq<real>,
    spectrogramIndicesDelta: seq<Byte>)

  /**
   * `SparseAudioSpectrogram.to_dict` for a spectrogram of `|rows|` time points
   * by `width` frequencies: the shape, and the sparse encoding of the
   * flattened data with `uint8` deltas.
   */
  method ToDict(samplingFrequency: real, rows: seq<seq<real>>, width: nat) returns (d: SpectrogramDict)
    requires Rectangular(rows, width) && |rows| > 0 && width > 0
    ensures d.viewType == "saneslab.SparseAudioSpectrogram"
    ensures d.numTimepoints == |rows| && d.numFrequencies == width
    ensures d.samplingFrequency == samplingFrequency
    ensures |d.spectrogramValues| == |d.spectrogramIndicesDelta|
    ensures exists deltas: seq<nat> ::
      && |deltas| == |d.spectrogramIndicesDelta|
      && (forall k :: 0 <= k < |deltas| ==> deltas[k] == d.spectrogramIndicesDelta[k])
      && Decode(d.spectrogramValues, deltas, |rows| * width) == Flatten(rows)
  {
    var vec := Flatten(rows);
    FlattenLength(rows, width);
    var values, deltas := GetSparseRepresentation(vec, MAX_DELTA);
    var bytes := seq(|deltas|, k requires 0 <= k < |deltas| => deltas[k] as Byte);
    d := SpectrogramDict("saneslab.SparseAudioSpectrogram", width, |rows|, samplingFrequency, values, bytes);
    assert forall k :: 0 <= k < |deltas| ==> deltas[k] == d.spectrogramIndicesDelta[k];
  }
}
