/**
 * The annotations file of an annotated video: one record per video frame
 * listing the frame's elements (nodes at a position, edges between two
 * nodes), written as line-delimited JSON behind a header line of record
 * lengths. `dumps` stands for the compact, key-sorted JSON dump.
 */
module Annotations {
  import opened Json
  import opened Jsonl
  import opened Strings

  /** An element: its one-letter type, its id and its type-specific data, already serialised. */
  datatype AnnotationElement = AnnotationElement(elementType: string, id: string, data: map<string, Json>)

  /**
   * A node at `(x, y)`: type `n`, and data holding exactly `x` and `y`, so that
   * neither data key clashes with the `t` and `i` keys of its record.
   */
  function NodeElement(id: string, x: real, y: real): (e: AnnotationElement)
    ensures e.elementType == "n" && e.id == id
    ensures e.data.Keys == {"x", "y"} && e.data["x"] == Float(x) && e.data["y"] == Float(y)
    ensures "t" !in e.data && "i" !in e.data
  {
    AnnotationElement("n", id, map["x" := Float(x), "y" := Float(y)])
  }

  /**
   * An edge between nodes `id1` and `id2`: type `e`, and data holding exactly
   * `i1` and `i2`, neither of which clashes with the `t` and `i` keys.
   */
  function EdgeElement(id: string, id1: string, id2: string): (e: AnnotationElement)
    ensures e.elementType == "e" && e.id == id
    ensures e.data.Keys == {"i1", "i2"} && e.data["i1"] == Str(id1) && e.data["i2"] == Str(id2)
    ensures "t" !in e.data && "i" !in e.data
  {
    AnnotationElement("e", id, map["i1" := Str(id1), "i2" := Str(id2)])
  }

  /**
   * `to_dict`: the type under `t`, the id under `i`, and the data's own
   * keys, which are spread after those two and so win over them.
   */
  function ElementDict(e: AnnotationElement): (r: Json)
    ensures r.Obj? && r.fields.Keys == {"t", "i"} + e.data.Keys
    ensures forall k :: k in e.data ==> r.fields[k] == e.data[k]
    ensures "t" !in e.data ==> r.fields["t"] == Str(e.elementType)
    ensures "i" !in e.data ==> r.fields["i"] == Str(e.id)
  {
    Obj(map["t" := Str(e.elementType), "i" := Str(e.id)] + e.data)
  }

  /** A node's record is `{t: 'n', i: id, x, y}` and nothing else. */
  lemma NodeRecord(id: string, x: real, y: real)
    ensures var r := ElementDict(NodeElement(id, x, y));
      && r.fields.Keys == {"t", "i", "x", "y"}
      && r.fields["t"] == Str("n") && r.fields["i"] == Str(id)
      && r.fields["x"] == Float(x) && r.fields["y"] == Float(y)
  {
    var data := NodeElement(id, x, y).data;
    assert "t" !in data && "i" !in data;
  }

  /** An edge's record is `{t: 'e', i: id, i1, i2}` and nothing else. */
  lemma EdgeRecord(id: string, id1: string, id2: string)
    ensures var r := ElementDict(EdgeElement(id, id1, id2));
      && r.fields.Keys == {"t", "i", "i1", "i2"}
      && r.fields["t"] == Str("e") && r.fields["i"] == Str(id)
      && r.fields["i1"] == Str(id1) && r.fields["i2"] == Str(id2)
  {
    var data := EdgeElement(id, id1, id2).data;
    assert "t" !in data && "i" !in data;
  }

  /** A frame's dictionary: its element records, in order, under `e`. */
  function FrameDict(elements: seq<AnnotationElement>): (r: Json)
    ensures r.Obj? && r.fields.Keys == {"e"} && r.fields["e"].Arr?
    ensures |r.fields["e"].items| == |elements|
    ensures forall k :: 0 <= k < |elements| ==> r.fields["e"].items[k] == ElementDict(elements[k])
  {
    Obj(map["e" := Arr(seq(|elements|, k requires 0 <= k < |elements| => ElementDict(elements[k])))])
  }

  /** The dumped frame records. */
  function FrameRecords(frames: seq<seq<AnnotationElement>>, dumps: Json -> string): seq<string>
  {
    seq(|frames|, k requires 0 <= k < |frames| => dumps(FrameDict(frames[k])))
  }

  /** The header dictionary: the length of every record. */
  function HeaderDict(records: seq<string>): (r: Json)
    ensures r.Obj? && r.fields.Keys == {"recordByteLengths"} && r.fields["recordByteLengths"].Arr?
    ensures |r.fields["recordByteLengths"].items| == |records|
    ensures forall k :: 0 <= k < |records| ==> r.fields["recordByteLengths"].items[k] == Int(|records[k]|)
  {
    Obj(map["recordByteLengths" := IntArray(Lengths(records))])
  }

  /** The header line: the dumped header dictionary. */
  function HeaderLine(frames: seq<seq<AnnotationElement>>, dumps: Json -> string): string
  {
    dumps(HeaderDict(FrameRecords(frames, dumps)))
  }

  /**
   * `create_annotations_jsonl_text`: the header line first, a newline after it
   * when there are frames, and nothing after the last frame's record.
   */
  function AnnotationsText(frames: seq<seq<AnnotationElement>>, dumps: Json -> string): (r: string)
    ensures |HeaderLine(frames, dumps)| <= |r| && r[..|HeaderLine(frames, dumps)|] == HeaderLine(frames, dumps)
    ensures |r| == |HeaderLine(frames, dumps)| + PieceStart(Lengths(FrameRecords(frames, dumps)), |frames|)
    ensures |frames| > 0 ==> r[|HeaderLine(frames, dumps)|] == '\n'
  {
    var records := FrameRecords(frames, dumps);
    Framing(HeaderLine(frames, dumps), records);
    Text(HeaderLine(frames, dumps), records)
  }

  /**
   * A reader that slices the text at the offsets the header's lengths give
   * gets back the dump of each frame.
   */
  lemma RecordOfFrame(frames: seq<seq<AnnotationElement>>, dumps: Json -> string, k: nat)
    requires k < |frames|
    ensures var records := FrameRecords(frames, dumps);
      var text := AnnotationsText(frames, dumps);
      var start := RecordStart(|dumps(HeaderDict(records))|, Lengths(records), k);
      && start + |records[k]| <= |text|
      && text[start..start + |records[k]|] == dumps(FrameDict(frames[k]))
  {
    var records := FrameRecords(frames, dumps);
    RecordAt(dumps(HeaderDict(records)), records, k);
  }

  /**
   * Compact JSON holds no raw newline, so the text has one line for the
   * header and one per frame, in order.
   */
  lemma AnnotationsLines(frames: seq<seq<AnnotationElement>>, dumps: Json -> string)
    requires forall j :: '\n' !in dumps(j)
    ensures var records := FrameRecords(frames, dumps);
      Split(AnnotationsText(frames, dumps), '\n') == [dumps(HeaderDict(records))] + records
    ensures |Split(AnnotationsText(frames, dumps), '\n')| == |frames| + 1
  {
    var records := FrameRecords(frames, dumps);
    assert forall k :: 0 <= k < |records| ==> records[k] == dumps(FrameDict(frames[k]));
    Lines(dumps(HeaderDict(records)), records);
  }
}
