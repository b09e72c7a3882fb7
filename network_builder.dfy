/**
 * The paper detail page's network-building effect: once the centre paper, its
 * references and its citations have all arrived, it pushes one node for the
 * centre, then a node and an edge for every reference and every citation whose
 * linked paper is present. Nodes are not deduplicated by id.
 */
module NetworkBuilder {
  import opened NetworkTypes

  /** An entry of the references response; `citedPaper` is absent when the service could not resolve it. */
  datatype ReferenceEntry = ReferenceEntry(citedPaper: Option<Paper>)

  /** An entry of the citations response; `citingPaper` is absent when the service could not resolve it. */
  datatype CitationEntry = CitationEntry(citingPaper: Option<Paper>)

  /** The body of a references response; `data` may be missing. */
  datatype ReferencesResponse = ReferencesResponse(data: Option<seq<ReferenceEntry>>)

  /** The body of a citations response; `data` may be missing. */
  datatype CitationsResponse = CitationsResponse(data: Option<seq<CitationEntry>>)

  datatype Network = Network(nodes: seq<NetworkNode>, edges: seq<NetworkEdge>)

  /** The label of a linked paper without a title. */
  const UntitledLabel: string := "タイトルなし"

  /** `title || "タイトルなし"` */
  function LabelOf(title: string): (shown: string)
    ensures shown != ""
    ensures shown == title <==> title != ""
    ensures title == "" ==> shown == UntitledLabel
  {
    if title == "" then UntitledLabel else title
  }

  /** The first node: the centre paper, its title as label, flagged as centre. */
  function CenterNode(paper: Paper): (n: NetworkNode)
    ensures n.isCenter && n.id == paper.paperId && n.nodeLabel == paper.title
    ensures n.year == paper.year && n.citationCount == paper.citationCount
  {
    NetworkNode(paper.paperId, paper.title, paper.year, paper.citationCount, true)
  }

  /** The node pushed for a resolved reference or citation. */
  function LinkedNode(p: Paper): (n: NetworkNode)
    ensures !n.isCenter && n.id == p.paperId && n.nodeLabel == LabelOf(p.title) && n.nodeLabel != ""
    ensures n.year == p.year && n.citationCount == p.citationCount
  {
    NetworkNode(p.paperId, LabelOf(p.title), p.year, p.citationCount, false)
  }

  /** The papers present among `links`, in order, duplicates kept. */
  function Resolved(links: seq<Option<Paper>>): (papers: seq<Paper>)
    ensures |papers| <= |links|
    ensures forall p :: p in papers <==> Some(p) in links
  {
    if links == [] then []
    else
      var init := Resolved(links[..|links| - 1]);
      assert links == links[..|links| - 1] + [links[|links| - 1]];
      match links[|links| - 1]
      case None => init
      case Some(p) => init + [p]
  }

  function CitedPapers(refs: seq<ReferenceEntry>): (links: seq<Option<Paper>>)
    ensures |links| == |refs|
  {
    seq(|refs|, i requires 0 <= i < |refs| => refs[i].citedPaper)
  }

  function CitingPapers(cits: seq<CitationEntry>): (links: seq<Option<Paper>>)
    ensures |links| == |cits|
  {
    seq(|cits|, i requires 0 <= i < |cits| => cits[i].citingPaper)
  }

  function LinkedNodes(papers: seq<Paper>): (nodes: seq<NetworkNode>)
    ensures |nodes| == |papers|
  {
    seq(|papers|, i requires 0 <= i < |papers| => LinkedNode(papers[i]))
  }

  /** The edges centre -> reference. */
  function OutgoingEdges(centerId: string, papers: seq<Paper>): (edges: seq<NetworkEdge>)
    ensures |edges| == |papers|
  {
    seq(|papers|, i requires 0 <= i < |papers| => NetworkEdge(centerId, papers[i].paperId))
  }

  /** The edges citation -> centre. */
  function IncomingEdges(centerId: string, papers: seq<Paper>): (edges: seq<NetworkEdge>)
    ensures |edges| == |papers|
  {
    seq(|papers|, i requires 0 <= i < |papers| => NetworkEdge(papers[i].paperId, centerId))
  }

  /** A response without `data` contributes like an empty one. */
  function EntriesOf<T>(data: Option<seq<T>>): seq<T> {
    match data
    case None => []
    case Some(s) => s
  }

  /** The network the effect stores for a centre paper and its reference and citation entries. */
  function Assemble(paper: Paper, refs: seq<ReferenceEntry>, cits: seq<CitationEntry>): (net: Network)
    ensures |net.nodes| == 1 + |net.edges|
    ensures net.nodes[0] == CenterNode(paper)
    ensures forall i :: 1 <= i < |net.nodes| ==> !net.nodes[i].isCenter
  {
    var r := Resolved(CitedPapers(refs));
    var c := Resolved(CitingPapers(cits));
    Network([CenterNode(paper)] + LinkedNodes(r) + LinkedNodes(c),
            OutgoingEdges(paper.paperId, r) + IncomingEdges(paper.paperId, c))
  }

  lemma ResolvedSnoc(links: seq<Option<Paper>>, x: Option<Paper>)
    ensures Resolved(links + [x]) == Resolved(links) + (if x.Some? then [x.value] else [])
  {
    assert (links + [x])[..|links|] == links;
  }

  lemma CitedPapersPrefix(refs: seq<ReferenceEntry>, i: nat)
    requires i < |refs|
    ensures CitedPapers(refs[..i + 1]) == CitedPapers(refs[..i]) + [refs[i].citedPaper]
  {
  }

  lemma CitingPapersPrefix(cits: seq<CitationEntry>, i: nat)
    requires i < |cits|
    ensures CitingPapers(cits[..i + 1]) == CitingPapers(cits[..i]) + [cits[i].citingPaper]
  {
  }

  lemma LinkedNodesSnoc(papers: seq<Paper>, p: Paper)
    ensures LinkedNodes(papers + [p]) == LinkedNodes(papers) + [LinkedNode(p)]
  {
  }

  lemma OutgoingEdgesSnoc(centerId: string, papers: seq<Paper>, p: Paper)
    ensures OutgoingEdges(centerId, papers + [p]) == OutgoingEdges(centerId, papers) + [NetworkEdge(centerId, p.paperId)]
  {
  }

  lemma IncomingEdgesSnoc(centerId: string, papers: seq<Paper>, p: Paper)
    ensures IncomingEdges(centerId, papers + [p]) == IncomingEdges(centerId, papers) + [NetworkEdge(p.paperId, centerId)]
  {
  }

  /** Entry `i` of the references adds its node and edge, or nothing when its paper is absent. */
  lemma ReferencesStep(centerId: string, refs: seq<ReferenceEntry>, i: nat)
    requires i < |refs|
    ensures var done := Resolved(CitedPapers(refs[..i]));
            var next := Resolved(CitedPapers(refs[..i + 1]));
      match refs[i].citedPaper
      case None => next == done
      case Some(p) =>
        && LinkedNodes(next) == LinkedNodes(done) + [LinkedNode(p)]
        && OutgoingEdges(centerId, next) == OutgoingEdges(centerId, done) + [NetworkEdge(centerId, p.paperId)]
  {
    var done := Resolved(CitedPapers(refs[..i]));
    CitedPapersPrefix(refs, i);
    ResolvedSnoc(CitedPapers(refs[..i]), refs[i].citedPaper);
    if refs[i].citedPaper.Some? {
      LinkedNodesSnoc(done, refs[i].citedPaper.value);
      OutgoingEdgesSnoc(centerId, done, refs[i].citedPaper.value);
    }
  }

  /** Entry `i` of the citations adds its node and edge, or nothing when its paper is absent. */
  lemma CitationsStep(centerId: string, cits: seq<CitationEntry>, i: nat)
    requires i < |cits|
    ensures var done := Resolved(CitingPapers(cits[..i]));
            var next := Resolved(CitingPapers(cits[..i + 1]));
      match cits[i].citingPaper
      case None => next == done
      case Some(p) =>
        && LinkedNodes(next) == LinkedNodes(done) + [LinkedNode(p)]
        && IncomingEdges(centerId, next) == IncomingEdges(centerId, done) + [NetworkEdge(p.paperId, centerId)]
  {
    var done := Resolved(CitingPapers(cits[..i]));
    CitingPapersPrefix(cits, i);
    ResolvedSnoc(CitingPapers(cits[..i]), cits[i].citingPaper);
    if cits[i].citingPaper.Some? {
      LinkedNodesSnoc(done, cits[i].citingPaper.value);
      IncomingEdgesSnoc(centerId, done, cits[i].citingPaper.value);
    }
  }

  /** The references `forEach`: a node and an edge centre -> paper per resolved entry. */
  method PushReferences(centerId: string, refs: seq<ReferenceEntry>, nodes0: seq<NetworkNode>, edges0: seq<NetworkEdge>)
    returns (nodes: seq<NetworkNode>, edges: seq<NetworkEdge>)
    ensures nodes == nodes0 + LinkedNodes(Resolved(CitedPapers(refs)))
    ensures edges == edges0 + OutgoingEdges(centerId, Resolved(CitedPapers(refs)))
  {
    nodes, edges := nodes0, edges0;
    var i := 0;
    while i < |refs|
      invariant 0 <= i <= |refs|
      invariant nodes == nodes0 + LinkedNodes(Resolved(CitedPapers(refs[..i])))
      invariant edges == edges0 + OutgoingEdges(centerId, Resolved(CitedPapers(refs[..i])))
    {
      ReferencesStep(centerId, refs, i);
      if refs[i].citedPaper.Some? {
        var cited := refs[i].citedPaper.value;
        nodes := nodes + [LinkedNode(cited)];
        edges := edges + [NetworkEdge(centerId, cited.paperId)];
      }
      i := i + 1;
    }
    assert refs[..|refs|] == refs;
  }

  /** The citations `forEach`: a node and an edge paper -> centre per resolved entry. */
  method PushCitations(centerId: string, cits: seq<CitationEntry>, nodes0: seq<NetworkNode>, edges0: seq<NetworkEdge>)
    returns (nodes: seq<NetworkNode>, edges: seq<NetworkEdge>)
    ensures nodes == nodes0 + LinkedNodes(Resolved(CitingPapers(cits)))
    ensures edges == edges0 + IncomingEdges(centerId, Resolved(CitingPapers(cits)))
  {
    nodes, edges := nodes0, edges0;
    var i := 0;
    while i < |cits|
      invariant 0 <= i <= |cits|
      invariant nodes == nodes0 + LinkedNodes(Resolved(CitingPapers(cits[..i])))
      invariant edges == edges0 + IncomingEdges(centerId, Resolved(CitingPapers(cits[..i])))
    {
      CitationsStep(centerId, cits, i);
      if cits[i].citingPaper.Some? {
        var citing := cits[i].citingPaper.value;
        nodes := nodes + [LinkedNode(citing)];
        edges := edges + [NetworkEdge(citing.paperId, centerId)];
      }
      i := i + 1;
    }
    assert cits[..|cits|] == cits;
  }

  /** No entries: nothing resolved, no nodes, no edges. */
  lemma NoEntries()
    ensures Resolved(CitedPapers([])) == [] && Resolved(CitingPapers([])) == []
    ensures LinkedNodes([]) == []
    ensures forall centerId :: OutgoingEdges(centerId, []) == [] && IncomingEdges(centerId, []) == []
  {
    assert CitedPapers([]) == [];
    assert CitingPapers([]) == [];
  }

  /**
   * The effect. It does nothing (None) until the paper and both responses have
   * arrived; then it returns the network it stores.
   */
  method BuildNetwork(paper: Option<Paper>, references: Option<ReferencesResponse>, citations: Option<CitationsResponse>)
    returns (network: Option<Network>)
    ensures network.None? <==> paper.None? || references.None? || citations.None?
    ensures network.Some? ==>
      network.value == Assemble(paper.value, EntriesOf(references.value.data), EntriesOf(citations.value.data))
  {
    if paper.None? || references.None? || citations.None? {
      return None;
    }
    var center := paper.value;
    ghost var r := Resolved(CitedPapers(EntriesOf(references.value.data)));
    ghost var c := Resolved(CitingPapers(EntriesOf(citations.value.data)));
    NoEntries();
    var nodes := [CenterNode(center)];
    var edges: seq<NetworkEdge> := [];
    if references.value.data.Some? {
      nodes, edges := PushReferences(center.paperId, references.value.data.value, nodes, edges);
    }
    assert nodes == [CenterNode(center)] + LinkedNodes(r);
    assert edges == [] + OutgoingEdges(center.paperId, r);
    if citations.value.data.Some? {
      nodes, edges := PushCitations(center.paperId, citations.value.data.value, nodes, edges);
    }
    assert nodes == [CenterNode(center)] + LinkedNodes(r) + LinkedNodes(c);
    assert edges == [] + OutgoingEdges(center.paperId, r) + IncomingEdges(center.paperId, c);
    network := Some(Network(nodes, edges));
  }

  // ---------------------------------------------------------------------------
  // Properties of the assembled network

  /** The ids of a node list, as a set. */
  function NodeIds(nodes: seq<NetworkNode>): (ids: set<string>)
    ensures forall i :: 0 <= i < |nodes| ==> nodes[i].id in ids
    ensures forall id :: id in ids ==> exists i :: 0 <= i < |nodes| && nodes[i].id == id
  {
    set n | n in nodes :: n.id
  }

  /** Edge k belongs to node k + 1: outgoing for the references, incoming for the citations. */
  lemma EdgeOfNode(paper: Paper, refs: seq<ReferenceEntry>, cits: seq<CitationEntry>, k: nat)
    requires k < |Assemble(paper, refs, cits).edges|
    ensures var net := Assemble(paper, refs, cits);
      net.edges[k] == if k < |Resolved(CitedPapers(refs))|
                      then NetworkEdge(paper.paperId, net.nodes[k + 1].id)
                      else NetworkEdge(net.nodes[k + 1].id, paper.paperId)
  {
    var r := Resolved(CitedPapers(refs));
    var c := Resolved(CitingPapers(cits));
    var net := Assemble(paper, refs, cits);
    if k < |r| {
      assert net.nodes[k + 1] == LinkedNodes(r)[k];
      assert net.edges[k] == OutgoingEdges(paper.paperId, r)[k];
    } else {
      assert net.nodes[k + 1] == LinkedNodes(c)[k - |r|];
      assert net.edges[k] == IncomingEdges(paper.paperId, c)[k - |r|];
    }
  }

  /** Every edge has the centre as one endpoint, and both endpoints are node ids. */
  lemma NoDanglingEdges(paper: Paper, refs: seq<ReferenceEntry>, cits: seq<CitationEntry>)
    ensures var net := Assemble(paper, refs, cits);
      forall e :: e in net.edges ==>
        (e.from == paper.paperId || e.to == paper.paperId) &&
        e.from in NodeIds(net.nodes) && e.to in NodeIds(net.nodes)
  {
    var net := Assemble(paper, refs, cits);
    forall e | e in net.edges
      ensures e.from == paper.paperId || e.to == paper.paperId
      ensures e.from in NodeIds(net.nodes) && e.to in NodeIds(net.nodes)
    {
      var k :| 0 <= k < |net.edges| && net.edges[k] == e;
      EdgeOfNode(paper, refs, cits, k);
      assert net.nodes[0].id == paper.paperId;
    }
  }

  lemma CitedPapersSnoc(refs: seq<ReferenceEntry>, e: ReferenceEntry)
    ensures CitedPapers(refs + [e]) == CitedPapers(refs) + [e.citedPaper]
  {
  }

  lemma CitingPapersSnoc(cits: seq<CitationEntry>, e: CitationEntry)
    ensures CitingPapers(cits + [e]) == CitingPapers(cits) + [e.citingPaper]
  {
  }

  /** Splitting a concatenation at the seam gives back its parts. */
  lemma SplitAtSeam<T>(a: seq<T>, b: seq<T>)
    ensures (a + b)[..|a|] == a && (a + b)[|a|..] == b
  {
  }

  /** The nodes for references `r + [p]` are those for `r` with `p`'s node inserted after them. */
  lemma NodeInsertedAfterReferences(paper: Paper, r: seq<Paper>, c: seq<Paper>, p: Paper)
    ensures var before := [CenterNode(paper)] + LinkedNodes(r) + LinkedNodes(c);
      [CenterNode(paper)] + LinkedNodes(r + [p]) + LinkedNodes(c)
        == before[..|r| + 1] + [LinkedNode(p)] + before[|r| + 1..]
  {
    var head := [CenterNode(paper)] + LinkedNodes(r);
    SplitAtSeam(head, LinkedNodes(c));
    LinkedNodesSnoc(r, p);
  }

  /** The edges for references `r + [p]` are those for `r` with `p`'s edge inserted after them. */
  lemma EdgeInsertedAfterReferences(centerId: string, r: seq<Paper>, c: seq<Paper>, p: Paper)
    ensures var before := OutgoingEdges(centerId, r) + IncomingEdges(centerId, c);
      OutgoingEdges(centerId, r + [p]) + IncomingEdges(centerId, c)
        == before[..|r|] + [NetworkEdge(centerId, p.paperId)] + before[|r|..]
  {
    SplitAtSeam(OutgoingEdges(centerId, r), IncomingEdges(centerId, c));
    OutgoingEdgesSnoc(centerId, r, p);
  }

  /**
   * One more reference entry adds exactly one node and one edge centre -> paper
   * when its paper is present, and changes nothing when it is absent.
   */
  lemma ReferenceEntryContribution(paper: Paper, refs: seq<ReferenceEntry>, e: ReferenceEntry, cits: seq<CitationEntry>)
    ensures var before := Assemble(paper, refs, cits);
            var after := Assemble(paper, refs + [e], cits);
            var k := |Resolved(CitedPapers(refs))|;
      match e.citedPaper
      case None => after == before
      case Some(p) =>
        && after.nodes == before.nodes[..k + 1] + [LinkedNode(p)] + before.nodes[k + 1..]
        && after.edges == before.edges[..k] + [NetworkEdge(paper.paperId, p.paperId)] + before.edges[k..]
  {
    CitedPapersSnoc(refs, e);
    ResolvedSnoc(CitedPapers(refs), e.citedPaper);
    if e.citedPaper.Some? {
      var r := Resolved(CitedPapers(refs));
      var c := Resolved(CitingPapers(cits));
      NodeInsertedAfterReferences(paper, r, c, e.citedPaper.value);
      EdgeInsertedAfterReferences(paper.paperId, r, c, e.citedPaper.value);
    }
  }

  /**
   * One more citation entry adds exactly one node and one edge paper -> centre,
   * both at the end, when its paper is present, and changes nothing when it is absent.
   */
  lemma CitationEntryContribution(paper: Paper, refs: seq<ReferenceEntry>, cits: seq<CitationEntry>, e: CitationEntry)
    ensures var before := Assemble(paper, refs, cits);
            var after := Assemble(paper, refs, cits + [e]);
      match e.citingPaper
      case None => after == before
      case Some(p) =>
        && after.nodes == before.nodes + [LinkedNode(p)]
        && after.edges == before.edges + [NetworkEdge(p.paperId, paper.paperId)]
  {
    CitingPapersSnoc(cits, e);
    ResolvedSnoc(CitingPapers(cits), e.citingPaper);
    if e.citingPaper.Some? {
      var p := e.citingPaper.value;
      var r := Resolved(CitedPapers(refs));
      var c := Resolved(CitingPapers(cits));
      var head := [CenterNode(paper)] + LinkedNodes(r);
      var outgoing := OutgoingEdges(paper.paperId, r);
      LinkedNodesSnoc(c, p);
      IncomingEdgesSnoc(paper.paperId, c, p);
      assert Assemble(paper, refs, cits + [e]).nodes == head + (LinkedNodes(c) + [LinkedNode(p)]);
      assert Assemble(paper, refs, cits + [e]).edges == outgoing + (IncomingEdges(paper.paperId, c) + [NetworkEdge(p.paperId, paper.paperId)]);
    }
  }

  /** How many nodes carry `id`. */
  function IdCount(nodes: seq<NetworkNode>, id: string): nat {
    if nodes == [] then 0
    else (if nodes[0].id == id then 1 else 0) + IdCount(nodes[1..], id)
  }

  /** How many entries link a paper with id `id`. */
  function LinkCount(links: seq<Option<Paper>>, id: string): nat {
    if links == [] then 0
    else (if links[0].Some? && links[0].value.paperId == id then 1 else 0) + LinkCount(links[1..], id)
  }

  lemma {:induction false} IdCountAppend(a: seq<NetworkNode>, b: seq<NetworkNode>, id: string)
    ensures IdCount(a + b, id) == IdCount(a, id) + IdCount(b, id)
  {
    if a == [] {
      assert a + b == b;
    } else {
      assert (a + b)[1..] == a[1..] + b;
      IdCountAppend(a[1..], b, id);
    }
  }

  lemma {:induction false} LinkCountAppend(a: seq<Option<Paper>>, b: seq<Option<Paper>>, id: string)
    ensures LinkCount(a + b, id) == LinkCount(a, id) + LinkCount(b, id)
  {
    if a == [] {
      assert a + b == b;
    } else {
      assert (a + b)[1..] == a[1..] + b;
      LinkCountAppend(a[1..], b, id);
    }
  }

  /** Each linked paper with `id`, duplicates included, yields its own node. */
  lemma {:induction false} LinkedNodesCount(links: seq<Option<Paper>>, id: string)
    ensures IdCount(LinkedNodes(Resolved(links)), id) == LinkCount(links, id)
    decreases |links|
  {
    if links != [] {
      var init := links[..|links| - 1];
      var x := links[|links| - 1];
      assert links == init + [x];
      LinkedNodesCount(init, id);
      ResolvedSnoc(init, x);
      LinkCountAppend(init, [x], id);
      assert LinkCount([x], id) == if x.Some? && x.value.paperId == id then 1 else 0;
      if x.Some? {
        LinkedNodesSnoc(Resolved(init), x.value);
        IdCountAppend(LinkedNodes(Resolved(init)), [LinkedNode(x.value)], id);
      }
    }
  }

  /**
   * Nodes are not deduplicated: a paper id occurs among the nodes once for the
   * centre and once per reference and per citation entry that links it.
   */
  lemma NodesNotDeduplicated(paper: Paper, refs: seq<ReferenceEntry>, cits: seq<CitationEntry>, id: string)
    ensures IdCount(Assemble(paper, refs, cits).nodes, id)
         == (if id == paper.paperId then 1 else 0) + LinkCount(CitedPapers(refs), id) + LinkCount(CitingPapers(cits), id)
  {
    var r := Resolved(CitedPapers(refs));
    var c := Resolved(CitingPapers(cits));
    IdCountAppend([CenterNode(paper)] + LinkedNodes(r), LinkedNodes(c), id);
    IdCountAppend([CenterNode(paper)], LinkedNodes(r), id);
    LinkedNodesCount(CitedPapers(refs), id);
    LinkedNodesCount(CitingPapers(cits), id);
  }

  /** Resolution keeps exactly the entries whose paper is present. */
  /** The indices of the present entries of `links`. */
  function PresentIndices(links: seq<Option<Paper>>): (ids: set<int>)
    ensures forall i :: i in ids <==> 0 <= i < |links| && links[i].Some?
  {
    set i | 0 <= i < |links| && links[i].Some?
  }

  lemma PresentIndicesSnoc(init: seq<Option<Paper>>, x: Option<Paper>)
    ensures |PresentIndices(init + [x])| == |PresentIndices(init)| + (if x.Some? then 1 else 0)
  {
    var before := PresentIndices(init);
    var now := PresentIndices(init + [x]);
    assert forall i :: 0 <= i < |init| ==> (init + [x])[i] == init[i];
    if x.Some? {
      assert |init| !in before;
      assert now == before + {|init|};
    } else {
      assert now == before;
    }
  }

  lemma {:induction false} ResolvedCountsPresentEntries(links: seq<Option<Paper>>)
    ensures |Resolved(links)| == |PresentIndices(links)|
    decreases |links|
  {
    if links != [] {
      var init := links[..|links| - 1];
      var x := links[|links| - 1];
      assert links == init + [x];
      ResolvedCountsPresentEntries(init);
      ResolvedSnoc(init, x);
      PresentIndicesSnoc(init, x);
    }
  }

  /** The node count is one plus the number of reference and citation entries whose paper is present. */
  lemma NodeCount(paper: Paper, refs: seq<ReferenceEntry>, cits: seq<CitationEntry>)
    ensures |Assemble(paper, refs, cits).nodes|
         == 1 + |set i | 0 <= i < |refs| && refs[i].citedPaper.Some?|
              + |set i | 0 <= i < |cits| && cits[i].citingPaper.Some?|
  {
    ResolvedCountsPresentEntries(CitedPapers(refs));
    ResolvedCountsPresentEntries(CitingPapers(cits));
    assert (set i | 0 <= i < |refs| && refs[i].citedPaper.Some?) == PresentIndices(CitedPapers(refs));
    assert (set i | 0 <= i < |cits| && cits[i].citingPaper.Some?) == PresentIndices(CitingPapers(cits));
  }
}
