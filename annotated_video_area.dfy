/**
 * The layout of the annotated-video area: a bottom bar of controls, a
 * legend of nodes on the right when nodes are given, and the video fitted
 * into what is left; and the colour of each node id for the annotations.
 */
module AnnotatedVideoArea {
  import opened Wrappers
  import opened Letterbox

  const BOTTOM_BAR_HEIGHT: real := 40.0
  const LEGEND_WIDTH: real := 150.0

  /** A node as the viewer receives it; the colour index may be missing. */
  datatype VideoNode = VideoNode(id: string, nodeLabel: string, colorIndex: Option<int>)

  /** The computed sizes and positions. */
  datatype AreaLayout = AreaLayout(
    width2: real,
    height2: real,
    legendWidth: real,
    rect: Rect,
    scale: (real, real),
    legendX: real)

  /**
   * The layout of a `width` by `height` area. A given node list, even an
   * empty one, is truthy and takes a legend.
   */
  function Layout(width: real, height: real, nodes: Option<seq<VideoNode>>, videoW: real, videoH: real): (l: AreaLayout)
    requires videoW > 0.0 && videoH > 0.0
    ensures l.legendWidth == if nodes.Some? then LEGEND_WIDTH else 0.0
    ensures l.width2 == width - l.legendWidth && l.height2 == height - BOTTOM_BAR_HEIGHT
    ensures l.rect == Fit(l.width2, l.height2, videoW, videoH)
    ensures l.legendX == l.rect.x + l.rect.w
  {
    var height2 := height - BOTTOM_BAR_HEIGHT;
    var legendWidth := if nodes.Some? then LEGEND_WIDTH else 0.0;
    var width2 := width - legendWidth;
    var rect := Fit(width2, height2, videoW, videoH);
    AreaLayout(width2, height2, legendWidth, rect, (rect.w / videoW, rect.h / videoH), rect.x + rect.w)
  }

  /**
   * The video keeps its aspect ratio with one scale factor for both axes,
   * and when the area leaves room, the video lies inside the space above the
   * bar and left of the legend, and the legend starts at the video's right
   * edge and ends within the area.
   */
  lemma LayoutFits(width: real, height: real, nodes: Option<seq<VideoNode>>, videoW: real, videoH: real)
    requires videoW > 0.0 && videoH > 0.0
    requires width >= (if nodes.Some? then LEGEND_WIDTH else 0.0) && height >= BOTTOM_BAR_HEIGHT
    ensures var l := Layout(width, height, nodes, videoW, videoH);
      && l.scale.0 == l.scale.1
      && l.rect.w * videoH == l.rect.h * videoW
      && 0.0 <= l.rect.x && l.rect.x + l.rect.w <= l.width2
      && 0.0 <= l.rect.y && l.rect.y + l.rect.h <= l.height2
      && l.legendX + l.legendWidth <= width
  {
    var l := Layout(width, height, nodes, videoW, videoH);
    FitEqualScale(l.width2, l.height2, videoW, videoH);
    FitKeepsAspect(l.width2, l.height2, videoW, videoH);
    FitInside(l.width2, l.height2, videoW, videoH);
  }

  /** The colours by node id, as the loop over the first `n` nodes leaves them. */
  function ColorsUpTo(nodes: seq<VideoNode>, n: nat, getNodeColor: int -> string): map<string, string>
    requires n <= |nodes|
  {
    if n == 0 then map[]
    else ColorsUpTo(nodes, n - 1, getNodeColor)[nodes[n - 1].id := getNodeColor(nodes[n - 1].colorIndex.GetOr(n - 1))]
  }

  /**
   * `colorsForNodeIds`: nothing without nodes; otherwise each node's id
   * gets the colour of its colour index, or of its position when it has none.
   */
  method ColorsForNodeIds(nodes: Option<seq<VideoNode>>, getNodeColor: int -> string) returns (ret: map<string, string>)
    ensures nodes.None? ==> ret == map[]
    ensures nodes.Some? ==> ret == ColorsUpTo(nodes.value, |nodes.value|, getNodeColor)
  {
    ret := map[];
    if nodes.None? {
      return;
    }
    var ns := nodes.value;
    for i := 0 to |ns|
      invariant ret == ColorsUpTo(ns, i, getNodeColor)
    {
      var ind := ns[i].colorIndex;
      var colorIndex := if ind.None? then i else ind.value;
      ret := ret[ns[i].id := getNodeColor(colorIndex)];
    }
  }

  /** Exactly the ids of the nodes have a colour. */
  lemma {:induction false} ColorsKeys(nodes: seq<VideoNode>, n: nat, getNodeColor: int -> string)
    requires n <= |nodes|
    ensures ColorsUpTo(nodes, n, getNodeColor).Keys == set k | 0 <= k < n :: nodes[k].id
  {
    if n > 0 {
      ColorsKeys(nodes, n - 1, getNodeColor);
      assert (set k | 0 <= k < n :: nodes[k].id) == (set k | 0 <= k < n - 1 :: nodes[k].id) + {nodes[n - 1].id};
    }
  }

  /** When ids repeat, the last node with the id decides its colour. */
  lemma {:induction false} ColorsLastWins(nodes: seq<VideoNode>, n: nat, k: nat, getNodeColor: int -> string)
    requires k < n <= |nodes|
    requires forall m :: k < m < n ==> nodes[m].id != nodes[k].id
    ensures nodes[k].id in ColorsUpTo(nodes, n, getNodeColor)
    ensures ColorsUpTo(nodes, n, getNodeColor)[nodes[k].id] == getNodeColor(nodes[k].colorIndex.GetOr(k))
  {
    if k < n - 1 {
      ColorsLastWins(nodes, n - 1, k, getNodeColor);
    }
  }
}
