/**
 * JSON values as the Python writers build them. Dictionaries are maps: the
 * line-delimited writers dump with sorted keys, so insertion order never
 * shows in their text.
 */
module Json {
  datatype Json =
    | Null
    | Bool(b: bool)
    | Int(i: int)
    | Float(r: real)
    | Str(s: string)
    | Arr(items: seq<Json>)
    | Obj(fields: map<string, Json>)

  /** A list of Python ints, as JSON. */
  function IntArray(xs: seq<nat>): (r: Json)
    ensures r.Arr? && |r.items| == |xs|
    ensures forall k :: 0 <= k < |xs| ==> r.items[k] == Int(xs[k])
  {
    Arr(seq(|xs|, k requires 0 <= k < |xs| => Int(xs[k])))
  }
}

/**
 * The line-delimited framing both the annotation and the position-decode
 * writers use: a header line whose `recordByteLengths` lists the length of
 * every record, then the records, all joined by single newlines with no
 * newline at the end.
 */
module Jsonl {
  import opened Strings

  /** `'\n'.join([header] + records)`. */
  function Text(header: string, records: seq<string>): string
  {
    Join([header] + records, '\n')
  }

  /** Where record `k` starts, computed from the header's length and the listed record lengths. */
  function RecordStart(headerLength: nat, lengths: seq<nat>, k: nat): nat
    requires k <= |lengths|
  {
    headerLength + 1 + PieceStart(lengths, k)
  }

  /** A reader that slices at the offsets the listed lengths give recovers every record. */
  lemma RecordAt(header: string, records: seq<string>, k: nat)
    requires k < |records|
    ensures RecordStart(|header|, Lengths(records), k) + |records[k]| <= |Text(header, records)|
    ensures Text(header, records)[RecordStart(|header|, Lengths(records), k)..RecordStart(|header|, Lengths(records), k) + |records[k]|]
         == records[k]
  {
    var pieces := [header] + records;
    JoinPieceAt(pieces, '\n', k + 1);
    assert Lengths(pieces)[1..] == Lengths(records);
  }

  /**
   * The text opens with the header, a newline follows it when there are
   * records, and it ends right after the last record: its length is the
   * header's plus each record's plus one newline per record.
   */
  lemma Framing(header: string, records: seq<string>)
    ensures |Text(header, records)| == |header| + PieceStart(Lengths(records), |records|)
    ensures |header| <= |Text(header, records)| && Text(header, records)[..|header|] == header
    ensures |records| > 0 ==> Text(header, records)[|header|] == '\n'
  {
    var pieces := [header] + records;
    if |records| > 0 {
      assert pieces[1..] == records;
      JoinLength(records, '\n');
      assert Text(header, records) == header + ['\n'] + Join(records, '\n');
    }
  }

  /** With newline-free records the text has exactly one line per record plus the header line. */
  lemma Lines(header: string, records: seq<string>)
    requires '\n' !in header
    requires forall k :: 0 <= k < |records| ==> '\n' !in records[k]
    ensures Split(Text(header, records), '\n') == [header] + records
    ensures |Split(Text(header, records), '\n')| == |records| + 1
  {
    var pieces := [header] + records;
    assert forall k :: 1 <= k < |pieces| ==> pieces[k] == records[k - 1];
    SplitJoin(pieces, '\n');
  }
}
