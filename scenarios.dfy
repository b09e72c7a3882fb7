/**
 * Worked examples that run the page's pieces together: assembly of a small
 * network, its encoding by the graph component with the page's year colours,
 * and the classification of a DOI route parameter.
 */
module Scenarios {
  import opened NetworkTypes
  import opened NetworkBuilder
  import YearColor
  import NetworkGraph
  import QueryClassification

  /** No references and no citations: the centre alone, no edges. */
  lemma EmptyListsGiveCenterOnly(paper: Paper)
    ensures Assemble(paper, [], []) == Network([CenterNode(paper)], [])
  {
    assert Resolved(CitedPapers([])) == [];
    assert Resolved(CitingPapers([])) == [];
  }

  /** A paper both cited by and citing the centre gets two nodes and two edges. */
  lemma PaperOnBothSides(paper: Paper, p: Paper)
    requires p.paperId != paper.paperId
    ensures var net := Assemble(paper, [ReferenceEntry(Some(p))], [CitationEntry(Some(p))]);
      && IdCount(net.nodes, p.paperId) == 2
      && net.edges == [NetworkEdge(paper.paperId, p.paperId), NetworkEdge(p.paperId, paper.paperId)]
  {
    var refs, cits := [ReferenceEntry(Some(p))], [CitationEntry(Some(p))];
    NodesNotDeduplicated(paper, refs, cits, p.paperId);
    assert CitedPapers(refs) == [Some(p)];
    assert CitingPapers(cits) == [Some(p)];
    ResolvedSnoc([], Some(p));
    assert [] + [Some(p)] == [Some(p)];
    assert LinkCount([Some(p)], p.paperId) == 1;
  }

  const Center: Paper := Paper("C", "Centre", Undefined, Some(100))
  const Cited: Paper := Paper("R1", "Reference", Known(2010), Some(5))
  const Citing: Paper := Paper("C1", "Citation", Known(2020), Some(50))

  /** The three-paper example: the assembled network. */
  lemma ExampleNetwork()
    ensures Assemble(Center, [ReferenceEntry(Some(Cited))], [CitationEntry(Some(Citing))])
         == Network([CenterNode(Center), LinkedNode(Cited), LinkedNode(Citing)],
                    [NetworkEdge("C", "R1"), NetworkEdge("C1", "C")])
  {
    ResolvedSnoc([], Some(Cited));
    ResolvedSnoc([], Some(Citing));
    assert [] + [Some(Cited)] == [Some(Cited)];
    assert [] + [Some(Citing)] == [Some(Citing)];
    assert CitedPapers([ReferenceEntry(Some(Cited))]) == [Some(Cited)];
    assert CitingPapers([CitationEntry(Some(Citing))]) == [Some(Citing)];
  }

  const ExampleNodes: seq<NetworkNode> := [CenterNode(Center), LinkedNode(Cited), LinkedNode(Citing)]

  lemma ExampleCounts()
    ensures NetworkGraph.CitationCounts(ExampleNodes) == [100, 5, 50]
    ensures MinOf([100, 5, 50]) == 5
    ensures NetworkGraph.MaxCitations([100, 5, 50]) == 100
  {
    var counts := NetworkGraph.CitationCounts(ExampleNodes);
    assert counts == [100, 5, 50];
    assert counts[1..] == [5, 50] && counts[1..][1..] == [50];
  }

  /**
   * The three-paper example encoded: the centre's 100 citations take part in
   * the range, so the citing paper with 50 gets 4 + 6 * 45/95, not 10.
   */
  lemma ExampleSizes(colors: Option<Year -> Color>)
    ensures NetworkGraph.EncodedNode(ExampleNodes, "C", colors, 0).val == 15.0
    ensures NetworkGraph.EncodedNode(ExampleNodes, "C", colors, 1).val == 4.0
    ensures NetworkGraph.EncodedNode(ExampleNodes, "C", colors, 2).val == 4.0 + 45.0 / 95.0 * 6.0
  {
    ExampleCounts();
    NetworkGraph.CenterNodeEncoding(ExampleNodes, "C", colors, 0);
    NetworkGraph.FallbackSizeUnreachable(ExampleNodes, "C", colors, 1);
    NetworkGraph.FallbackSizeUnreachable(ExampleNodes, "C", colors, 2);
  }

  lemma ExampleYears()
    ensures YearColor.CollectYears(ExampleNodes) == [2010, 2020]
    ensures MinOf([2010, 2020]) == 2010 && MaxOf([2010, 2020]) == 2020
  {
    var nodes := ExampleNodes;
    assert YearColor.CollectYears(nodes[1..][1..][1..]) == [];
    assert YearColor.CollectYears(nodes[1..][1..]) == [2020];
    assert YearColor.CollectYears(nodes[1..]) == [2010, 2020];
    assert [2010, 2020][1..] == [2020];
  }

  /** The page's colour function for the example: 2010 is green, 2020 blue. */
  lemma ExampleYearColors()
    ensures YearColor.NodeColorForAsWritten(ExampleNodes)(Known(2010)) == YearColor.OldColor
    ensures YearColor.NodeColorForAsWritten(ExampleNodes)(Known(2020)) == YearColor.NewColor
  {
    YearColor.CollectionsAgreeWithoutNull(ExampleNodes);
    ExampleYears();
    var years := YearColor.CollectYearsAsWritten(ExampleNodes);
    assert years == [2010, 2020];
    YearColor.OldestYearGetsOldColor([2010, 2020], 2010);
    YearColor.NewestYearGetsNewColor([2010, 2020], 2020);
  }

  /**
   * With the page's year colours, as written, the reference is green and the
   * citing paper blue; no year is null, so the intended colours agree.
   */
  lemma ExampleColors()
    ensures var colors := Some(YearColor.NodeColorForAsWritten(ExampleNodes));
      && NetworkGraph.EncodedNode(ExampleNodes, "C", colors, 1).color == YearColor.OldColor
      && NetworkGraph.EncodedNode(ExampleNodes, "C", colors, 2).color == YearColor.NewColor
  {
    var colors := Some(YearColor.NodeColorForAsWritten(ExampleNodes));
    NetworkGraph.OtherNodeColor(ExampleNodes, "C", colors, 1);
    NetworkGraph.OtherNodeColor(ExampleNodes, "C", colors, 2);
    ExampleYearColors();
  }

  /** A DOI route parameter is searched for with the "DOI:" prefix. */
  lemma DoiExample()
    ensures QueryClassification.Lookup("10.1000/xyz123") == QueryClassification.BySearch("DOI:10.1000/xyz123")
  {
    assert "10.1000/xyz123"[..3] == "10.";
  }
}
