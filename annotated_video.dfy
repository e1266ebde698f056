/**
 * The annotated-video view: a video (by URI and size) with optional
 * annotation and position-decode-field files and an optional list of named
 * nodes, serialised to the dictionary the viewer loads.
 */
module AnnotatedVideo {
  import opened Wrappers
  import opened Numeric
  import opened Json
  import Views

  /** A named node of the annotations, with the colour index the viewer uses for it. */
  datatype Node = Node(id: string, nodeLabel: string, colorIndex: int)

  /** `AnnotatedVideoNode.to_dict`. */
  function NodeDict(n: Node): (r: Json)
    ensures r.Obj? && r.fields.Keys == {"id", "label", "colorIndex"}
    ensures r.fields["id"] == Str(n.id) && r.fields["label"] == Str(n.nodeLabel)
    ensures r.fields["colorIndex"] == Int(n.colorIndex)
  {
    Obj(map["id" := Str(n.id), "label" := Str(n.nodeLabel), "colorIndex" := Int(n.colorIndex)])
  }

  /**
   * The view's fields. The sizes are numbers that `int()` truncates; the
   * optional fields are `None` when not given.
   */
  datatype AnnotatedVideoView = AnnotatedVideoView(
    videoWidth: real,
    videoHeight: real,
    videoNumFrames: real,
    samplingFrequency: real,
    videoUri: Option<string>,
    annotationsUri: Option<string>,
    nodes: Option<seq<Node>>,
    positionDecodeFieldUri: Option<string>)

  const VIEW_TYPE: string := "misc.AnnotatedVideo"

  /** Python truthiness of an optional string: given and non-empty. */
  predicate Given(s: Option<string>)
  {
    s.Some? && s.value != ""
  }

  /** Python truthiness of an optional list: given and non-empty. */
  predicate GivenNodes(s: Option<seq<Node>>)
  {
    s.Some? && s.value != []
  }

  /** The keys every dictionary has. */
  const REQUIRED_KEYS: set<string> := {"type", "videoWidth", "videoHeight", "videoNumFrames", "samplingFrequency"}

  /**
   * `AnnotatedVideo.to_dict`: the type, the truncated sizes and the
   * sampling frequency always; each optional field only when it is truthy,
   * the nodes as their records in order.
   */
  function ToDict(v: AnnotatedVideoView): (r: Json)
    ensures r.Obj?
    ensures r.fields.Keys ==
      REQUIRED_KEYS
      + (if Given(v.videoUri) then {"videoUri"} else {})
      + (if Given(v.annotationsUri) then {"annotationsUri"} else {})
      + (if GivenNodes(v.nodes) then {"nodes"} else {})
      + (if Given(v.positionDecodeFieldUri) then {"positionDecodeFieldUri"} else {})
  {
    var m1 := if Given(v.videoUri) then map["videoUri" := Str(v.videoUri.value)] else map[];
    var m2 := if Given(v.annotationsUri) then m1["annotationsUri" := Str(v.annotationsUri.value)] else m1;
    var m3 := if GivenNodes(v.nodes) then m2["nodes" := NodesArray(v.nodes.value)] else m2;
    var m4 := if Given(v.positionDecodeFieldUri)
      then m3["positionDecodeFieldUri" := Str(v.positionDecodeFieldUri.value)]
      else m3;
    var fields := m4[
      "type" := Str(VIEW_TYPE)][
      "videoWidth" := Int(Trunc(v.videoWidth))][
      "videoHeight" := Int(Trunc(v.videoHeight))][
      "videoNumFrames" := Int(Trunc(v.videoNumFrames))][
      "samplingFrequency" := Float(v.samplingFrequency)];
    Obj(fields)
  }

  /** The fixed fields: the view type, the sizes truncated to integers, and the sampling frequency. */
  lemma ToDictFixedFields(v: AnnotatedVideoView)
    ensures var r := ToDict(v);
      && r.fields.Keys >= REQUIRED_KEYS
      && r.fields["type"] == Str(VIEW_TYPE)
      && r.fields["videoWidth"] == Int(Trunc(v.videoWidth))
      && r.fields["videoHeight"] == Int(Trunc(v.videoHeight))
      && r.fields["videoNumFrames"] == Int(Trunc(v.videoNumFrames))
      && r.fields["samplingFrequency"] == Float(v.samplingFrequency)
  {
  }

  /** Each truthy optional field carries the given value; the nodes are their records, in order. */
  lemma ToDictOptionalFields(v: AnnotatedVideoView)
    ensures var r := ToDict(v);
      && (Given(v.videoUri) ==> r.fields["videoUri"] == Str(v.videoUri.value))
      && (Given(v.annotationsUri) ==> r.fields["annotationsUri"] == Str(v.annotationsUri.value))
      && (Given(v.positionDecodeFieldUri) ==> r.fields["positionDecodeFieldUri"] == Str(v.positionDecodeFieldUri.value))
      && (GivenNodes(v.nodes) ==>
           && r.fields["nodes"].Arr? && |r.fields["nodes"].items| == |v.nodes.value|
           && forall k :: 0 <= k < |v.nodes.value| ==> r.fields["nodes"].items[k] == NodeDict(v.nodes.value[k]))
  {
  }

  /** The nodes' records, in order. */
  function NodesArray(nodes: seq<Node>): (r: Json)
    ensures r.Arr? && |r.items| == |nodes|
    ensures forall k :: 0 <= k < |nodes| ==> r.items[k] == NodeDict(nodes[k])
  {
    Arr(seq(|nodes|, k requires 0 <= k < |nodes| => NodeDict(nodes[k])))
  }

  /** A video given only its sizes serialises to exactly the five fixed keys, whatever empty values the optional fields hold. */
  lemma EmptyOptionalsOmitted(w: real, h: real, n: real, fs: real, uri: Option<string>, nodes: Option<seq<Node>>)
    requires uri == None || uri == Some("")
    requires nodes == None || nodes == Some([])
    ensures ToDict(AnnotatedVideoView(w, h, n, fs, uri, uri, nodes, uri)).fields.Keys == REQUIRED_KEYS
  {
  }

  /**
   * The view object: an annotated video is not a layout and has no child
   * views, so its pre-order listing is itself alone.
   */
  method NewView(uuid: string) returns (v: Views.View)
    ensures fresh(v)
    ensures v.viewType == VIEW_TYPE && !v.isLayout && v.children == []
    ensures v.Acyclic() && v.Descendants() == [v]
  {
    v := new Views.View(VIEW_TYPE, false, [], uuid);
    Views.LeafDescendants(v);
  }
}
