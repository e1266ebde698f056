/**
 * The position-decode-field file of an annotated video: per video frame, a
 * sparse field of `uint16` values over spatial bins, each array stored as
 * base64 of its little-endian bytes, written as line-delimited JSON behind a
 * header line holding the record lengths, the bins and the maximum value.
 */
module PositionDecodeField {
  import opened Wrappers
  import opened Bytes
  import Base64
  import opened Json
  import opened Jsonl
  import opened Strings

  /** An array's element type, as NumPy names it. */
  datatype DType = UInt16 | OtherDType(name: string)

  /**
   * What a caller passes for `indices` or `values`: a Python list (its
   * nesting depth is the array's `ndim` once converted) or a NumPy array,
   * each with its elements in order.
   */
  datatype ArrayInput =
    | PyList(depth: nat, items: seq<int>)
    | NdArray(ndim: nat, dtype: DType, items: seq<int>)

  /** A NumPy array of dtype `uint16` holds only `uint16` values. */
  predicate WellTyped(x: ArrayInput)
  {
    x.NdArray? && x.dtype == UInt16 ==> forall k :: 0 <= k < |x.items| ==> 0 <= x.items[k] < 0x1_0000
  }

  /** The error `np.array(list, dtype=np.uint16)` raises for an element out of range. */
  const OUT_OF_BOUNDS: string := "Python integer out of bounds for uint16"

  predicate AllUint16(items: seq<int>)
  {
    forall k :: 0 <= k < |items| ==> 0 <= items[k] < 0x1_0000
  }

  /** A list becomes a `uint16` array of the same depth; an array is kept as it is. */
  function ToArray(x: ArrayInput): (r: Result<ArrayInput>)
    ensures x.NdArray? ==> r == Success(x)
    ensures x.PyList? && AllUint16(x.items) ==> r == Success(NdArray(x.depth, UInt16, x.items))
    ensures x.PyList? && !AllUint16(x.items) ==> r == Failure(OUT_OF_BOUNDS)
  {
    match x
    case NdArray(_, _, _) => Success(x)
    case PyList(depth, items) =>
      if AllUint16(items) then Success(NdArray(depth, UInt16, items)) else Failure(OUT_OF_BOUNDS)
  }

  /** A validated frame: two one-dimensional `uint16` arrays. */
  datatype Frame = Frame(indices: seq<Uint16>, values: seq<Uint16>)

  function AsUint16s(items: seq<int>): (r: seq<Uint16>)
    requires AllUint16(items)
    ensures r == items
  {
    seq(|items|, k requires 0 <= k < |items| => items[k] as Uint16)
  }

  /**
   * The `PositionDecodeFieldFrame` constructor: both inputs are converted,
   * then checked for one dimension and for `uint16`, indices before values;
   * the first failing check is the error.
   */
  function NewFrame(indices: ArrayInput, values: ArrayInput): (r: Result<Frame>)
    requires WellTyped(indices) && WellTyped(values)
    ensures r.Success? <==>
      && ToArray(indices).Success? && ToArray(values).Success?
      && ToArray(indices).value.ndim == 1 && ToArray(indices).value.dtype == UInt16
      && ToArray(values).value.ndim == 1 && ToArray(values).value.dtype == UInt16
    ensures r.Success? ==> r.value.indices == indices.items && r.value.values == values.items
    ensures ToArray(indices).Failure? || (ToArray(indices).Success? && ToArray(values).Failure?) ==>
      r == Failure(OUT_OF_BOUNDS)
    ensures ToArray(indices).Success? && ToArray(values).Success? ==>
      var ia, va := ToArray(indices).value, ToArray(values).value;
      && (ia.ndim != 1 ==> r == Failure("indices must be 1D array"))
      && (ia.ndim == 1 && ia.dtype != UInt16 ==> r == Failure("dtype of indices must be np.uint16"))
      && (ia.ndim == 1 && ia.dtype == UInt16 && va.ndim != 1 ==> r == Failure("values must be 1D array"))
      && (ia.ndim == 1 && ia.dtype == UInt16 && va.ndim == 1 && va.dtype != UInt16 ==>
            r == Failure("dtype of values must be np.uint16"))
  {
    match ToArray(indices)
    case Failure(e) => Failure(e)
    case Success(ia) =>
      match ToArray(values)
      case Failure(e) => Failure(e)
      case Success(va) =>
        if ia.ndim != 1 then Failure("indices must be 1D array")
        else if ia.dtype != UInt16 then Failure("dtype of indices must be np.uint16")
        else if va.ndim != 1 then Failure("values must be 1D array")
        else if va.dtype != UInt16 then Failure("dtype of values must be np.uint16")
        else Success(Frame(AsUint16s(ia.items), AsUint16s(va.items)))
  }

  /** Flat lists of `uint16` values are always accepted, whatever their lengths. */
  lemma FlatListsAccepted(indices: seq<int>, values: seq<int>)
    requires AllUint16(indices) && AllUint16(values)
    ensures NewFrame(PyList(1, indices), PyList(1, values)).Success?
    ensures NewFrame(PyList(1, indices), PyList(1, values)).value == Frame(indices, values)
  {
  }

  /** Every frame is accepted back from its own two arrays. */
  lemma FrameFromArrays(f: Frame)
    ensures NewFrame(NdArray(1, UInt16, f.indices), NdArray(1, UInt16, f.values)) == Success(f)
  {
  }

  /** A spatial bin: its corner and size. */
  datatype Bin = Bin(x: real, y: real, w: real, h: real)

  /** `PositionDecodeFieldBin.to_dict`. */
  function BinDict(b: Bin): (r: Json)
    ensures r.Obj? && r.fields.Keys == {"x", "y", "w", "h"}
    ensures r.fields["x"] == Float(b.x) && r.fields["y"] == Float(b.y)
    ensures r.fields["w"] == Float(b.w) && r.fields["h"] == Float(b.h)
  {
    Obj(map["x" := Float(b.x), "y" := Float(b.y), "w" := Float(b.w), "h" := Float(b.h)])
  }

  /** `uint16_array_to_b64`: base64 of the array's bytes. */
  function Uint16ArrayToB64(a: seq<Uint16>): (r: string)
    ensures |r| == 4 * ((2 * |a| + 2) / 3)
  {
    Base64.EncodeLength(Uint16sToBytes(a));
    Base64.Encode(Uint16sToBytes(a))
  }

  /** A reader decodes the text back to the bytes and reads element `k` from bytes `2k` and `2k + 1`. */
  lemma B64Decodes(a: seq<Uint16>, k: nat)
    requires k < |a|
    ensures Base64.Decode(Uint16ArrayToB64(a)).Some?
    ensures var b := Base64.Decode(Uint16ArrayToB64(a)).value;
      |b| == 2 * |a| && b[2 * k] as int + 256 * b[2 * k + 1] as int == a[k]
  {
    Base64.DecodeEncode(Uint16sToBytes(a));
    Uint16sToBytesAt(a, k);
  }

  /** A frame's record: the two encoded arrays under `i` and `v`. */
  function FrameDict(f: Frame): (r: Json)
    ensures r.Obj? && r.fields.Keys == {"i", "v"}
    ensures r.fields["i"] == Str(Uint16ArrayToB64(f.indices)) && r.fields["v"] == Str(Uint16ArrayToB64(f.values))
  {
    Obj(map["i" := Str(Uint16ArrayToB64(f.indices)), "v" := Str(Uint16ArrayToB64(f.values))])
  }

  function FrameRecords(frames: seq<Frame>, dumps: Json -> string): seq<string>
  {
    seq(|frames|, k requires 0 <= k < |frames| => dumps(FrameDict(frames[k])))
  }

  /** The header dictionary: the record lengths, the bins in order and the maximum value. */
  function HeaderDict(records: seq<string>, bins: seq<Bin>, maxValue: real): (r: Json)
    ensures r.Obj? && r.fields.Keys == {"recordByteLengths", "bins", "maxValue"}
    ensures r.fields["recordByteLengths"].Arr? && |r.fields["recordByteLengths"].items| == |records|
    ensures forall k :: 0 <= k < |records| ==> r.fields["recordByteLengths"].items[k] == Int(|records[k]|)
    ensures r.fields["bins"].Arr? && |r.fields["bins"].items| == |bins|
    ensures forall k :: 0 <= k < |bins| ==> r.fields["bins"].items[k] == BinDict(bins[k])
    ensures r.fields["maxValue"] == Float(maxValue)
  {
    Obj(map[
      "recordByteLengths" := IntArray(Lengths(records)),
      "bins" := Arr(seq(|bins|, k requires 0 <= k < |bins| => BinDict(bins[k]))),
      "maxValue" := Float(maxValue)])
  }

  /** The header line: the dumped header dictionary. */
  function HeaderLine(frames: seq<Frame>, bins: seq<Bin>, maxValue: real, dumps: Json -> string): string
  {
    dumps(HeaderDict(FrameRecords(frames, dumps), bins, maxValue))
  }

  /**
   * `create_position_decode_field_jsonl_text`: the header line first, a
   * newline after it when there are frames, and nothing after the last
   * frame's record.
   */
  function FieldText(frames: seq<Frame>, bins: seq<Bin>, maxValue: real, dumps: Json -> string): (r: string)
    ensures var header := HeaderLine(frames, bins, maxValue, dumps);
      |header| <= |r| && r[..|header|] == header
    ensures |r| == |HeaderLine(frames, bins, maxValue, dumps)| + PieceStart(Lengths(FrameRecords(frames, dumps)), |frames|)
    ensures |frames| > 0 ==> r[|HeaderLine(frames, bins, maxValue, dumps)|] == '\n'
  {
    var records := FrameRecords(frames, dumps);
    Framing(HeaderLine(frames, bins, maxValue, dumps), records);
    Text(HeaderLine(frames, bins, maxValue, dumps), records)
  }

  /** Slicing at the offsets the header's lengths give recovers the dump of each frame's record. */
  lemma RecordOfFrame(frames: seq<Frame>, bins: seq<Bin>, maxValue: real, dumps: Json -> string, k: nat)
    requires k < |frames|
    ensures var records := FrameRecords(frames, dumps);
      var text := FieldText(frames, bins, maxValue, dumps);
      var start := RecordStart(|dumps(HeaderDict(records, bins, maxValue))|, Lengths(records), k);
      && start + |records[k]| <= |text|
      && text[start..start + |records[k]|] == dumps(FrameDict(frames[k]))
  {
    var records := FrameRecords(frames, dumps);
    RecordAt(dumps(HeaderDict(records, bins, maxValue)), records, k);
  }

  /** With compact dumps the text has the header line and then one line per frame, in order. */
  lemma FieldLines(frames: seq<Frame>, bins: seq<Bin>, maxValue: real, dumps: Json -> string)
    requires forall j :: '\n' !in dumps(j)
    ensures var records := FrameRecords(frames, dumps);
      Split(FieldText(frames, bins, maxValue, dumps), '\n') == [dumps(HeaderDict(records, bins, maxValue))] + records
    ensures |Split(FieldText(frames, bins, maxValue, dumps), '\n')| == |frames| + 1
  {
    var records := FrameRecords(frames, dumps);
    assert forall k :: 0 <= k < |records| ==> records[k] == dumps(FrameDict(frames[k]));
    Lines(dumps(HeaderDict(records, bins, maxValue)), records);
  }
}
