/**
 * The network graph component's data preparation: each network node becomes a
 * graph node with a size and a colour, each edge a link. The centre node is
 * drawn large and purple; the other nodes are sized between 4 and 10 by
 * citation count relative to the whole batch (the centre's count included)
 * and coloured by the colour function the page supplies. Also the two drawing
 * and interaction rules: which nodes get a text label, and where a right-click
 * navigates.
 */
module NetworkGraph {
  import opened NetworkTypes
  import QueryClassification

  datatype GraphNode = GraphNode(id: string, name: string, year: Year, citationCount: Count,
                                 isCenter: bool, color: Color, val: real)

  datatype GraphLink = GraphLink(source: string, target: string)

  datatype GraphData = GraphData(nodes: seq<GraphNode>, links: seq<GraphLink>)

  /** The size of the centre node, larger than any other. */
  const CenterSize: real := 15.0

  /** The size of a non-centre node when the largest count is not positive. */
  const FallbackSize: real := 5.0

  /** `nodes.map(n => n.citationCount || 0)` */
  function CitationCounts(nodes: seq<NetworkNode>): (counts: seq<int>)
    ensures |counts| == |nodes|
  {
    seq(|nodes|, i requires 0 <= i < |nodes| => CountOrZero(nodes[i].citationCount))
  }

  /** `Math.max(...counts, 1)`: never below 1, so the fallback size is never used. */
  function MaxCitations(counts: seq<int>): (m: int)
    ensures m >= 1
    ensures forall i :: 0 <= i < |counts| ==> counts[i] <= m
    ensures m == 1 || m in counts
  {
    var all := counts + [1];
    assert forall i :: 0 <= i < |counts| ==> counts[i] == all[i];
    assert all[|counts|] == 1;
    MaxOf(all)
  }

  /** `4 + (citations - min) / ((max - min) || 1) * 6` */
  function ScaledSize(citations: int, minC: int, maxC: int): (v: real)
    ensures var range := maxC - minC;
      (v - 4.0) * (if range == 0 then 1 else range) as real == 6.0 * (citations - minC) as real
  {
    var range := maxC - minC;
    4.0 + (citations - minC) as real / (if range == 0 then 1 else range) as real * 6.0
  }

  /** The size of one node. */
  function NodeSize(isCenter: bool, citations: int, minC: int, maxC: int): (v: real)
    ensures isCenter ==> v == CenterSize
    ensures !isCenter && maxC > 0 && citations == minC ==> v == 4.0
    ensures !isCenter && maxC <= 0 ==> v == FallbackSize
  {
    if isCenter then CenterSize
    else if maxC > 0 then ScaledSize(citations, minC, maxC)
    else FallbackSize
  }

  /** The colour of one node: purple for the centre, else the supplied function, else the default. */
  function NodeColor(isCenter: bool, year: Year, getNodeColor: Option<Year -> Color>): (c: Color)
    ensures isCenter ==> c == CenterNodeColor
    ensures !isCenter && getNodeColor.Some? ==> c == getNodeColor.value(year)
    ensures !isCenter && getNodeColor.None? ==> c == DefaultNodeColor
  {
    if isCenter then CenterNodeColor
    else match getNodeColor
      case Some(f) => f(year)
      case None => DefaultNodeColor
  }

  /** One node of the graph data: fields copied, the centre recognised by id, then sized and coloured. */
  function ToGraphNode(node: NetworkNode, centerId: string, minC: int, maxC: int,
                       getNodeColor: Option<Year -> Color>): (v: GraphNode)
    ensures v.id == node.id && v.name == node.nodeLabel
    ensures v.year == node.year && v.citationCount == node.citationCount
    ensures v.isCenter <==> node.id == centerId
    ensures v.color == NodeColor(v.isCenter, node.year, getNodeColor)
    ensures v.val == NodeSize(v.isCenter, CountOrZero(node.citationCount), minC, maxC)
  {
    var isCenter := node.id == centerId;
    GraphNode(node.id, node.nodeLabel, node.year, node.citationCount, isCenter,
              NodeColor(isCenter, node.year, getNodeColor),
              NodeSize(isCenter, CountOrZero(node.citationCount), minC, maxC))
  }

  /**
   * The graph data the effect stores; None when there are no nodes, in which
   * case the placeholder stays on screen.
   */
  function ToGraphData(nodes: seq<NetworkNode>, edges: seq<NetworkEdge>, centerId: string,
                       getNodeColor: Option<Year -> Color>): (g: Option<GraphData>)
    ensures g.None? <==> nodes == []
    ensures g.Some? ==> |g.value.nodes| == |nodes| && |g.value.links| == |edges|
    ensures g.Some? ==> forall i :: 0 <= i < |nodes| ==>
      var v := g.value.nodes[i];
      && v.id == nodes[i].id && v.name == nodes[i].nodeLabel
      && v.year == nodes[i].year && v.citationCount == nodes[i].citationCount
      && v.isCenter == (nodes[i].id == centerId)
      && v.color == NodeColor(v.isCenter, nodes[i].year, getNodeColor)
      && v.val == NodeSize(v.isCenter, CitationCounts(nodes)[i],
                           MinOf(CitationCounts(nodes)), MaxCitations(CitationCounts(nodes)))
    ensures g.Some? ==> forall k :: 0 <= k < |edges| ==>
      g.value.links[k].source == edges[k].from && g.value.links[k].target == edges[k].to
  {
    if |nodes| == 0 then None
    else
      var counts := CitationCounts(nodes);
      var maxC := MaxCitations(counts);
      var minC := MinOf(counts);
      Some(GraphData(
        seq(|nodes|, i requires 0 <= i < |nodes| => ToGraphNode(nodes[i], centerId, minC, maxC, getNodeColor)),
        seq(|edges|, k requires 0 <= k < |edges| => GraphLink(edges[k].from, edges[k].to))))
  }

  /** The encoding of node `i`, for the lemmas below. */
  function EncodedNode(nodes: seq<NetworkNode>, centerId: string, getNodeColor: Option<Year -> Color>, i: nat): GraphNode
    requires i < |nodes|
  {
    ToGraphData(nodes, [], centerId, getNodeColor).value.nodes[i]
  }

  /** The encoding of a node does not depend on the edges passed alongside. */
  lemma EncodingIgnoresEdges(nodes: seq<NetworkNode>, edges: seq<NetworkEdge>, centerId: string,
                             getNodeColor: Option<Year -> Color>, i: nat)
    requires i < |nodes|
    ensures ToGraphData(nodes, edges, centerId, getNodeColor).value.nodes[i]
         == EncodedNode(nodes, centerId, getNodeColor, i)
  {
  }

  /** The centre gets size 15 and the highlight colour, whatever its count and year. */
  lemma CenterNodeEncoding(nodes: seq<NetworkNode>, centerId: string, getNodeColor: Option<Year -> Color>, i: nat)
    requires i < |nodes| && nodes[i].id == centerId
    ensures EncodedNode(nodes, centerId, getNodeColor, i).val == CenterSize
    ensures EncodedNode(nodes, centerId, getNodeColor, i).color == CenterNodeColor
  {
  }

  /** Any other node is coloured by the supplied function, or gets the default colour. */
  lemma OtherNodeColor(nodes: seq<NetworkNode>, centerId: string, getNodeColor: Option<Year -> Color>, i: nat)
    requires i < |nodes| && nodes[i].id != centerId
    ensures EncodedNode(nodes, centerId, getNodeColor, i).color
         == if getNodeColor.Some? then getNodeColor.value(nodes[i].year) else DefaultNodeColor
  {
  }

  /** Never the fallback: every non-centre node is sized by the scale. */
  lemma FallbackSizeUnreachable(nodes: seq<NetworkNode>, centerId: string, getNodeColor: Option<Year -> Color>, i: nat)
    requires i < |nodes| && nodes[i].id != centerId
    ensures var counts := CitationCounts(nodes);
      EncodedNode(nodes, centerId, getNodeColor, i).val
        == ScaledSize(counts[i], MinOf(counts), MaxCitations(counts))
  {
  }

  /** Where a count sits between the batch minimum and maximum, as a share in [0, 1]. */
  lemma ScaledSizeBounds(c: int, minC: int, maxC: int)
    requires minC <= c <= maxC
    ensures 4.0 <= ScaledSize(c, minC, maxC) <= 10.0
    ensures c == minC ==> ScaledSize(c, minC, maxC) == 4.0
    ensures c == maxC && maxC != minC ==> ScaledSize(c, minC, maxC) == 10.0
  {
    var range := maxC - minC;
    RatioBounds(c - minC, if range == 0 then 1 else range);
    if c == maxC && maxC != minC {
      assert (c - minC) as real / range as real == 1.0;
    }
  }

  /** Every non-centre node has a size in [4, 10]; the least cited gets 4. */
  lemma OtherNodeSizeBounds(nodes: seq<NetworkNode>, centerId: string, getNodeColor: Option<Year -> Color>, i: nat)
    requires i < |nodes| && nodes[i].id != centerId
    ensures var v := EncodedNode(nodes, centerId, getNodeColor, i);
      4.0 <= v.val <= 10.0
    ensures var counts := CitationCounts(nodes);
      counts[i] == MinOf(counts) ==> EncodedNode(nodes, centerId, getNodeColor, i).val == 4.0
  {
    var counts := CitationCounts(nodes);
    ScaledSizeBounds(counts[i], MinOf(counts), MaxCitations(counts));
  }

  /** A non-centre node holding the batch's largest count, above the smallest, gets 10. */
  lemma MostCitedGetsLargestSize(nodes: seq<NetworkNode>, centerId: string, getNodeColor: Option<Year -> Color>, i: nat)
    requires i < |nodes| && nodes[i].id != centerId
    requires var counts := CitationCounts(nodes);
      counts[i] == MaxCitations(counts) && counts[i] != MinOf(counts)
    ensures EncodedNode(nodes, centerId, getNodeColor, i).val == 10.0
  {
    var counts := CitationCounts(nodes);
    ScaledSizeBounds(counts[i], MinOf(counts), MaxCitations(counts));
  }

  lemma ScaledSizeMonotone(c1: int, c2: int, minC: int, maxC: int)
    requires c1 <= c2 && minC <= maxC
    ensures ScaledSize(c1, minC, maxC) <= ScaledSize(c2, minC, maxC)
  {
    var range := maxC - minC;
    RatioMonotone(c1 - minC, c2 - minC, if range == 0 then 1 else range);
  }

  /** Among non-centre nodes, more citations never mean a smaller node. */
  lemma SizeMonotoneInCitations(nodes: seq<NetworkNode>, centerId: string, getNodeColor: Option<Year -> Color>, i: nat, j: nat)
    requires i < |nodes| && j < |nodes| && nodes[i].id != centerId && nodes[j].id != centerId
    requires CountOrZero(nodes[i].citationCount) <= CountOrZero(nodes[j].citationCount)
    ensures EncodedNode(nodes, centerId, getNodeColor, i).val <= EncodedNode(nodes, centerId, getNodeColor, j).val
  {
    var counts := CitationCounts(nodes);
    assert MinOf(counts) <= counts[0] <= MaxCitations(counts);
    FallbackSizeUnreachable(nodes, centerId, getNodeColor, i);
    FallbackSizeUnreachable(nodes, centerId, getNodeColor, j);
    ScaledSizeMonotone(counts[i], counts[j], MinOf(counts), MaxCitations(counts));
  }

  /** `node.val > 6 || node.isCenter` */
  predicate ShowsLabel(v: GraphNode)
    ensures v.isCenter ==> ShowsLabel(v)
    ensures ShowsLabel(v) && !v.isCenter ==> v.val > 6.0
  {
    v.val > 6.0 || v.isCenter
  }

  /** Multiplying by a positive number keeps the sign. */
  lemma ProductSign(a: real, s: real)
    requires s > 0.0
    ensures a > 0.0 <==> a * s > 0.0
  {
    if a > 0.0 {
      assert a * s > 0.0;
    } else {
      assert a * s <= 0.0;
    }
  }

  /** A scaled size exceeds 6 iff the count is more than a third of the way up the range. */
  lemma ScaledSizeAboveSix(c: int, minC: int, maxC: int)
    requires minC <= maxC
    ensures var range := maxC - minC;
      ScaledSize(c, minC, maxC) > 6.0 <==> 3 * (c - minC) > (if range == 0 then 1 else range)
  {
    var range := maxC - minC;
    var span := (if range == 0 then 1 else range) as real;
    var t := (c - minC) as real / span;
    assert t * span == (c - minC) as real;
    assert (3.0 * t - 1.0) * span == 3.0 * (c - minC) as real - span;
    ProductSign(3.0 * t - 1.0, span);
  }

  /**
   * A node is labelled iff it is the centre or its count lies more than a
   * third of the way from the batch minimum to the maximum.
   */
  lemma LabelRule(nodes: seq<NetworkNode>, centerId: string, getNodeColor: Option<Year -> Color>, i: nat)
    requires i < |nodes|
    ensures var counts := CitationCounts(nodes);
            var range := MaxCitations(counts) - MinOf(counts);
      (ShowsLabel(EncodedNode(nodes, centerId, getNodeColor, i)) <==>
        nodes[i].id == centerId || 3 * (counts[i] - MinOf(counts)) > (if range == 0 then 1 else range))
  {
    var counts := CitationCounts(nodes);
    if nodes[i].id != centerId {
      assert MinOf(counts) <= counts[0] <= MaxCitations(counts);
      FallbackSizeUnreachable(nodes, centerId, getNodeColor, i);
      ScaledSizeAboveSix(counts[i], MinOf(counts), MaxCitations(counts));
    }
  }

  /** Where a right-click on node `nodeId` navigates; None for the centre. */
  function RightClickTarget(nodeId: string, centerId: string): (target: Option<string>)
    ensures target.None? <==> nodeId == centerId
    ensures target.Some? ==> target.value == QueryClassification.PaperRoute + nodeId
  {
    if nodeId != centerId then Some(QueryClassification.PaperRoute + nodeId) else None
  }

  /** Right-clicking a node whose id is a paper id opens that paper by direct lookup. */
  lemma RightClickOpensPaper(nodeId: string, centerId: string)
    requires nodeId != centerId && QueryClassification.IsPaperId(nodeId)
    ensures var target := RightClickTarget(nodeId, centerId);
      target.Some? && QueryClassification.Lookup(QueryClassification.RouteQuery(target.value))
                      == QueryClassification.ById(nodeId)
  {
    assert '/' !in nodeId by {
      assert forall k :: 0 <= k < |nodeId| ==> QueryClassification.IsLowerHex(nodeId[k]);
    }
  }
}
