# Citation network of a paper: a Dafny model

The paper detail page of this citation explorer takes a route parameter and
decides how to look the paper up: a DOI gets the `DOI:` prefix, and a
40-character lower-case hex string is treated as a paper id. It then waits for the
paper, its references and its citations. From these it builds a star-shaped network.
The centre paper comes first. Every resolved reference adds a node and an edge
centre → reference. Every resolved citation adds a node and an edge
citation → centre. The page colours nodes by publication year on a green-to-blue
scale, and it lists the other papers in a sidebar, most cited first, at most twenty.
The graph component turns the network into force-graph data:

- the centre node has size 15 and a purple colour;
- every other node has size 4 to 10, scaled linearly by citation count;
- a node is labelled when it is the centre or its size exceeds 6;
- right-clicking any node except the centre navigates to that node's paper page.

Modules, one per concern:

- `NetworkTypes` (`network_types.dfy`): the node, edge and paper records.
  - A year is `undefined`, `null` or a number.
  - A citation count is an optional number.
  - Also here: colours, `Math.min`/`Math.max` over a list, and `Math.round`.
- `QueryClassification` (`query_classification.dfy`): the `/paper/:query` route
  parameter, the DOI rewrite, the paper-id test and the lookup chosen.
- `NetworkBuilder` (`network_builder.dfy`): the network-building effect.
  - It is written imperatively, as the page does it: two loops push onto node and edge lists.
  - Each loop is proved against a functional description `Assemble`, and the
    properties of the network are proved about `Assemble`.
- `YearColor` (`year_color.dfy`): the year range and `getYearColor`, including
  the behaviour of the page as written when a year is `null` (see Findings).
- `Sidebar` (`sidebar.dfy`): filter the centre out, sort stably by citation count
  in descending order, keep the first twenty.
- `NetworkGraph` (`network_graph.dfy`): the transformation to graph data (sizes,
  colours, links), the label rule and the right-click target.
- `Scenarios` (`scenarios.dfy`): worked examples that combine the modules.

Two behaviours of the code are easy to miss, and the model states them as the code has them:

- The network is not deduplicated by paper id (`client/src/pages/PaperDetail.tsx`,
  lines 99-132). A paper that is both a reference and a citation, or that is
  listed twice, gets one node per occurrence
  (`NetworkBuilder.NodesNotDeduplicated`, `Scenarios.PaperOnBothSides`).
- The largest citation count used for sizing includes the centre's own count
  (`client/src/components/NetworkGraph.tsx`, lines 44-45 and 58-60). Take a centre
  with 100 citations, a reference with 5 and a citation with 50. The most cited
  non-centre node then gets size 4 + 6·45/95, not 10 (`Scenarios.ExampleSizes`).

## Model

| member | source | states |
|---|---|---|
| NetworkTypes.IsTruthy | client/src/pages/PaperDetail.tsx:178 | a year is truthy iff it is a number other than 0, so `undefined`, `null` and 0 all fail `!year` (a definition; `YearColor.GetYearColor` and the colour-function rows state what it decides) |
| NetworkTypes.CountOrZero | client/src/components/NetworkGraph.tsx:43 | the count when present, and 0 when it is missing; the same reading is used at NetworkGraph.tsx line 51 and PaperDetail.tsx line 235 (a definition; `NetworkGraph.CitationCounts`, `Sidebar.Key` and the size and sort rows state what follows from it) |
| NetworkTypes.MinOf | client/src/pages/PaperDetail.tsx:173 | `Math.min` of a non-empty list is an element of the list and at most every element |
| NetworkTypes.MaxOf | client/src/pages/PaperDetail.tsx:174 | `Math.max` of a non-empty list is an element of the list and at least every element |
| NetworkTypes.Round | client/src/pages/PaperDetail.tsx:181-183 | `Math.round` gives the integer within half a unit of its argument, with halves going up |
| QueryClassification.LooksLikeDoiIsPattern | client/src/pages/PaperDetail.tsx:52 | the executable DOI test holds iff the query matches `^10\.\d{4,}`, that is, "10." followed by a run of at least four digits |
| QueryClassification.LooksLikeDoi | client/src/pages/PaperDetail.tsx:52 | the page's DOI test; a query passing it has at least seven characters and a '.' at index 2 |
| QueryClassification.IsPaperId | client/src/pages/PaperDetail.tsx:57 | the page's paper-id test; a query passing it is non-empty and contains no '.', '/' or ':' |
| QueryClassification.NormalizeQuery | client/src/pages/PaperDetail.tsx:51-54 | a query that looks like a DOI gets the `DOI:` prefix; any other query is left unchanged |
| QueryClassification.DoiQueryIsNeverPaperId | client/src/pages/PaperDetail.tsx:52-57 | a query rewritten to `DOI:…` is never classified as a paper id |
| QueryClassification.PaperIdIsNotRewritten | client/src/pages/PaperDetail.tsx:52-57 | a 40-character lower-hex id never looks like a DOI, so it reaches the paper-id test unchanged |
| QueryClassification.NormalizeIdempotent | client/src/pages/PaperDetail.tsx:52-54 | rewriting an already rewritten query changes nothing |
| QueryClassification.RouteQuery | client/src/pages/PaperDetail.tsx:40 | the parameter matched by `/paper/:query` is the single non-empty segment after `/paper/`; when such a segment exists it is always the one found |
| QueryClassification.Lookup | client/src/pages/PaperDetail.tsx:49-62 | both queries are off iff the parameter is empty; lookup by id happens iff the parameter is a paper id, and then with the parameter itself; otherwise search with the normalised query; a DOI is searched as `DOI:` + DOI |
| NetworkBuilder.LabelOf | client/src/pages/PaperDetail.tsx:104 | a linked paper's label is never empty; it equals the title iff the title is non-empty, and the untitled placeholder otherwise |
| NetworkBuilder.CenterNode | client/src/pages/PaperDetail.tsx:86-94 | the first node carries the centre's id, title, year and count, and is flagged as centre |
| NetworkBuilder.LinkedNode | client/src/pages/PaperDetail.tsx:102-107 | a pushed node carries the linked paper's id, year and count, the label `LabelOf(title)` (never empty), and is not flagged as centre (lines 120-125 push the same shape) |
| NetworkBuilder.Resolved | client/src/pages/PaperDetail.tsx:100-101 | the papers kept from a list of entries are exactly the present ones, duplicates included; there are never more of them than entries |
| NetworkBuilder.Assemble | client/src/pages/PaperDetail.tsx:86-132 | the network has one more node than edges, its first node is the centre, and no other node is flagged as centre |
| NetworkBuilder.ReferencesStep | client/src/pages/PaperDetail.tsx:100-113 | one pass of the references `forEach`: an entry without a paper adds nothing; one with a paper adds exactly its linked node and its edge from the centre |
| NetworkBuilder.CitationsStep | client/src/pages/PaperDetail.tsx:118-131 | one pass of the citations `forEach`: an entry without a paper adds nothing; one with a paper adds exactly its linked node and its edge to the centre |
| NetworkBuilder.PushReferences | client/src/pages/PaperDetail.tsx:99-114 | the reference loop appends, in entry order, one linked node and one edge centre → reference per present cited paper, and nothing else |
| NetworkBuilder.PushCitations | client/src/pages/PaperDetail.tsx:117-132 | the citation loop appends, in entry order, one linked node and one edge citation → centre per present citing paper, and nothing else |
| NetworkBuilder.BuildNetwork | client/src/pages/PaperDetail.tsx:83-138 | no network is built iff the paper, the references or the citations have not arrived; otherwise the stored network is `Assemble` of them, with a missing `data` read as no entries |
| NetworkBuilder.NodeIds | client/src/pages/PaperDetail.tsx:86-132 | the network's ids are exactly the ids of its nodes |
| NetworkBuilder.EdgeOfNode | client/src/pages/PaperDetail.tsx:99-132 | edge k is pushed with node k+1; it leads from the centre to that node for a reference, and from that node to the centre for a citation |
| NetworkBuilder.NoDanglingEdges | client/src/pages/PaperDetail.tsx:108-129 | every edge touches the centre, and both of its ends are ids of nodes in the network |
| NetworkBuilder.ReferenceEntryContribution | client/src/pages/PaperDetail.tsx:100-113 | a reference entry without a paper changes nothing; one with a paper adds exactly its linked node after the earlier references and its edge from the centre |
| NetworkBuilder.CitationEntryContribution | client/src/pages/PaperDetail.tsx:118-131 | a citation entry without a paper changes nothing; one with a paper appends exactly its linked node and its edge to the centre |
| NetworkBuilder.IdCountAppend | client/src/pages/PaperDetail.tsx:86-132 | occurrences of an id in a concatenation add up |
| NetworkBuilder.LinkCountAppend | client/src/pages/PaperDetail.tsx:100-131 | occurrences of a paper id among entries add up over a concatenation |
| NetworkBuilder.LinkedNodesCount | client/src/pages/PaperDetail.tsx:100-131 | each present entry with a given id yields exactly one node with that id |
| NetworkBuilder.NodesNotDeduplicated | client/src/pages/PaperDetail.tsx:86-132 | an id occurs among the nodes once for the centre, plus once per reference entry and once per citation entry carrying it: nothing is merged |
| NetworkBuilder.ResolvedCountsPresentEntries | client/src/pages/PaperDetail.tsx:99-132 | the number of papers kept equals the number of entries whose paper is present |
| NetworkBuilder.NodeCount | client/src/pages/PaperDetail.tsx:86-132 | the node count is one plus the number of references and citations whose paper is present |
| YearColor.CollectYearsAsWritten | client/src/pages/PaperDetail.tsx:172 | the years the page collects are the numeric years of the nodes plus 0 for every null year, because only `undefined` is filtered out |
| YearColor.CollectYears | client/src/pages/PaperDetail.tsx:172 | the intended collection: exactly the numeric years of the nodes |
| YearColor.CollectionsAgreeWithoutNull | client/src/pages/PaperDetail.tsx:172 | when no year is null, the page's collection is the intended one |
| YearColor.MinYear | client/src/pages/PaperDetail.tsx:173 | `minYear` is the smallest collected year, or 2020 when none was collected |
| YearColor.MaxYear | client/src/pages/PaperDetail.tsx:174 | `maxYear` is the largest collected year, or 2025 when none was collected |
| YearColor.Normalized | client/src/pages/PaperDetail.tsx:179 | the normalised year is the fraction of the span (or of 1 when the span is 0) that the year lies above `minYear` |
| YearColor.Channel | client/src/pages/PaperDetail.tsx:181-183 | a channel interpolated at 0 is its old value, and at 1 its new value |
| YearColor.GetYearColor | client/src/pages/PaperDetail.tsx:177-185 | the default colour is returned iff the year is missing, null or 0, or no year was collected; otherwise the colour is an RGB triple |
| YearColor.NormalizedBounds | client/src/pages/PaperDetail.tsx:179 | a year inside the range normalises into [0, 1] |
| YearColor.OldestYearGetsOldColor | client/src/pages/PaperDetail.tsx:177-184 | the oldest collected year gets green, rgb(74, 222, 128) |
| YearColor.NewestYearGetsNewColor | client/src/pages/PaperDetail.tsx:177-184 | the newest collected year gets blue, rgb(99, 102, 241), when the range is not a single year |
| YearColor.ChannelsBetweenEndpoints | client/src/pages/PaperDetail.tsx:179-184 | every channel of a collected year's colour lies between the two endpoint colours |
| YearColor.ColorMonotoneInYear | client/src/pages/PaperDetail.tsx:179-184 | a later year never has less red or blue, or more green, than an earlier one |
| YearColor.NodeColorForAsWritten | client/src/pages/PaperDetail.tsx:172-185 | the colour function the page passes to the graph (line 285), with years collected as written: a year gets the default colour iff it is falsy or every node's year is undefined |
| YearColor.NodeColorFor | client/src/pages/PaperDetail.tsx:172-185 | the intended colour function, over numeric years only: a year gets the default colour iff it is falsy or no node has a numeric year |
| YearColor.ColorFunctionsAgreeWithoutNull | client/src/pages/PaperDetail.tsx:172-185 | when no node's year is null, the page's colour function and the intended one agree on every year |
| YearColor.OldestNodeGetsOldColor | client/src/pages/PaperDetail.tsx:172-185 | with the intended collection, a node carrying the oldest numeric year of the network is coloured green |
| YearColor.NullYearSampleYears | client/src/pages/PaperDetail.tsx:172 | in the sample with a null centre year, the page collects 0, 2010, 2020, and the intended collection is 2010, 2020 |
| YearColor.ZeroInRangeShiftsColor | client/src/pages/PaperDetail.tsx:173-181 | with 0 in the range, year 2010 gets rgb(99, 103, 240), next to the newest year's rgb(99, 102, 241), instead of green's rgb(74, 222, 128) |
| YearColor.NullYearShiftsRangeAsWritten | client/src/pages/PaperDetail.tsx:172-185 | with the page's colour function as written, one null year stops the oldest real year getting green; the intended colour function gives it green |
| Sidebar.Key | client/src/pages/PaperDetail.tsx:235 | the sort key: the citation count when present, and 0 when it is missing (a definition; the sort's properties are in the rows below) |
| Sidebar.OtherNodes | client/src/pages/PaperDetail.tsx:234 | no listed paper has the centre's id |
| Sidebar.OtherNodesCounts | client/src/pages/PaperDetail.tsx:234 | the filter keeps every non-centre node as often as it occurs, and drops every node with the centre's id |
| Sidebar.Insert | client/src/pages/PaperDetail.tsx:235 | inserting into a list sorted by descending count keeps it sorted and adds exactly that node |
| Sidebar.SortByCitations | client/src/pages/PaperDetail.tsx:235 | the sort orders by descending count (a missing count reads as 0) and is a permutation of its input |
| Sidebar.PrefixOfSorted | client/src/pages/PaperDetail.tsx:236 | a prefix of a sorted list is sorted, and every element in it outranks every element after it |
| Sidebar.SidebarNodes | client/src/pages/PaperDetail.tsx:233-236 | the list holds min(20, number of other papers) entries, sorted by descending count; none is the centre, and each is taken from the other papers |
| Sidebar.SortedPrefixDominates | client/src/pages/PaperDetail.tsx:235-236 | whatever a sorted prefix leaves out is cited no more than anything it keeps |
| Sidebar.SidebarShowsMostCited | client/src/pages/PaperDetail.tsx:233-236 | every paper left out of the list is cited no more than every paper shown |
| Sidebar.WithKeyAppend | client/src/pages/PaperDetail.tsx:235 | selecting the papers with a given count distributes over concatenation |
| Sidebar.WithKeyNone | client/src/pages/PaperDetail.tsx:235 | a list whose counts are all below k has no paper with count k |
| Sidebar.InsertKeepsOrder | client/src/pages/PaperDetail.tsx:235 | an inserted node goes after every node with the same count |
| Sidebar.SortIsStable | client/src/pages/PaperDetail.tsx:235 | the sort is stable: papers with equal counts keep their network order |
| Sidebar.SidebarKeepsNetworkOrder | client/src/pages/PaperDetail.tsx:233-236 | for every count, the papers shown with it are the first ones with it in network order, so ties at the cut of 20 go to the earlier papers |
| NetworkGraph.NodeSize | client/src/components/NetworkGraph.tsx:54-63 | the centre gets 15; a non-centre node with the smallest count gets 4 when the largest count is positive; the fallback 5 is taken when the largest count is not positive |
| NetworkGraph.NodeColor | client/src/components/NetworkGraph.tsx:71 | the centre gets purple; any other node gets the supplied colour function's value for its year, or the default colour when there is none |
| NetworkGraph.ShowsLabel | client/src/components/NetworkGraph.tsx:121 | the centre is always labelled; any other labelled node is larger than 6 |
| NetworkGraph.CitationCounts | client/src/components/NetworkGraph.tsx:43 | there is one count per node |
| NetworkGraph.MaxCitations | client/src/components/NetworkGraph.tsx:44 | the largest count is at least 1 and at least every count; it is 1 or one of the counts |
| NetworkGraph.ScaledSize | client/src/components/NetworkGraph.tsx:59-60 | the size s of a count c satisfies (s − 4) · r = 6 · (c − min), where r is the range, or 1 when the range is 0; its bounds, monotonicity and the threshold 6 are in the `ScaledSize*` rows below |
| NetworkGraph.ToGraphNode | client/src/components/NetworkGraph.tsx:49-73 | one graph node: id, name, year and count copied, the centre flag set iff the id is the centre id, the colour given by `NodeColor` and the size by `NodeSize` with the node's count or 0 |
| NetworkGraph.ToGraphData | client/src/components/NetworkGraph.tsx:37-79 | no graph data iff there are no nodes; otherwise one graph node per node and one link per edge, in order; id, name, year and count are copied, the centre flag is set iff the id is the centre id, each node's colour and size are `NodeColor` and `NodeSize` over the batch's minimum and `Math.max(..., 1)` of the counts, and every link mirrors its edge |
| NetworkGraph.EncodingIgnoresEdges | client/src/components/NetworkGraph.tsx:47-77 | a node's encoding does not depend on the edges passed with it, so the size and colour rows below hold for the component's call |
| NetworkGraph.CenterNodeEncoding | client/src/components/NetworkGraph.tsx:50-71 | the centre gets size 15 and purple, whatever its count and year |
| NetworkGraph.OtherNodeColor | client/src/components/NetworkGraph.tsx:71 | any other node is coloured by the supplied colour function applied to its year, or by the default colour when there is none |
| NetworkGraph.FallbackSizeUnreachable | client/src/components/NetworkGraph.tsx:57-63 | the size-5 fallback branch is dead: every non-centre node is sized by the linear scale |
| NetworkGraph.ScaledSizeBounds | client/src/components/NetworkGraph.tsx:59-60 | a count inside the range gets a size in [4, 10]; the minimum gets 4, and the maximum gets 10 when it differs from the minimum |
| NetworkGraph.OtherNodeSizeBounds | client/src/components/NetworkGraph.tsx:43-60 | every non-centre node has size in [4, 10], and the least cited gets 4 |
| NetworkGraph.MostCitedGetsLargestSize | client/src/components/NetworkGraph.tsx:43-60 | a non-centre node with the largest count, above the smallest, gets 10 |
| NetworkGraph.ScaledSizeMonotone | client/src/components/NetworkGraph.tsx:59-60 | a larger count never gets a smaller scaled size |
| NetworkGraph.SizeMonotoneInCitations | client/src/components/NetworkGraph.tsx:43-60 | among non-centre nodes, more citations never mean a smaller node |
| NetworkGraph.ScaledSizeAboveSix | client/src/components/NetworkGraph.tsx:59-60 | a scaled size exceeds 6 iff the count lies more than a third of the way up the range |
| NetworkGraph.LabelRule | client/src/components/NetworkGraph.tsx:121 | a node is labelled iff it is the centre or its count lies more than a third of the way from the smallest to the largest count |
| NetworkGraph.RightClickTarget | client/src/components/NetworkGraph.tsx:150-155 | a right-click navigates nowhere iff the node is the centre, and otherwise to `/paper/` followed by the node's id |
| NetworkGraph.RightClickOpensPaper | client/src/components/NetworkGraph.tsx:150-155 | right-clicking a node whose id is a paper id leads to a page that looks that paper up by id |
| Scenarios.EmptyListsGiveCenterOnly | client/src/pages/PaperDetail.tsx:86-132 | with no references and no citations the network is the centre alone, with no edges |
| Scenarios.PaperOnBothSides | client/src/pages/PaperDetail.tsx:86-132 | a paper both cited by and citing the centre gets two nodes and two opposite edges |
| Scenarios.ExampleNetwork | client/src/pages/PaperDetail.tsx:86-132 | the three-paper example yields nodes centre, reference, citation and edges C→R1, C1→C |
| Scenarios.ExampleCounts | client/src/components/NetworkGraph.tsx:43-45 | in the example the counts are 100, 5, 50, with minimum 5 and maximum 100 |
| Scenarios.ExampleSizes | client/src/components/NetworkGraph.tsx:43-63 | in the example the sizes are 15, 4 and 4 + 6·45/95 |
| Scenarios.ExampleYears | client/src/pages/PaperDetail.tsx:172-174 | in the example the years collected are 2010 and 2020 |
| Scenarios.ExampleYearColors | client/src/pages/PaperDetail.tsx:172-185 | with the page's colour function as written, 2010 is green and 2020 blue in the example |
| Scenarios.ExampleColors | client/src/pages/PaperDetail.tsx:172-185 | with the page's colour function as written, the example's reference from 2010 is drawn green and its citation from 2020 blue |
| Scenarios.DoiExample | client/src/pages/PaperDetail.tsx:49-62 | the parameter `10.1000/xyz123` is searched for as `DOI:10.1000/xyz123` |

## Left out

- Data fetching is not modelled: the tRPC queries, their loading and error states, and the `limit: 20` sent to the server. Arrived responses are parameters, and a response that has not arrived is `None`.
- React effect scheduling, re-rendering and state setters are not modelled. The effect is a method from its inputs to the network it would store.
- `console.log` and `console.warn` calls are left out. They have no effect on the data.
- NetworkGraph.ToGraphData: when there are no nodes, the component keeps its previous graph data. The model returns `None` and does not model the earlier state.
- Force layout, canvas drawing, label geometry, link styling and the hover tooltip are left out. They are rendering, not data. The label *predicate* is modelled.
- The `node.color || …` and `node.val || 5` fallbacks in the renderer are not modelled separately. Every node has a colour, and its size is at least 4 (`NetworkGraph.OtherNodeSizeBounds`), so neither fallback applies.
- Theme switching, the header, the author list and the year timeline are left out. They are layout only.
- Left-click selection is not modelled. This covers `onNodeClick`, the sidebar button handler, the `nodes.find` lookup and the selected-paper panel. They are UI state and do not change the network.
- Navigation is modelled as the target path (`NetworkGraph.RightClickTarget`). The router's own history handling is not modelled.
- QueryClassification.RouteQuery: `decodeURIComponent` is not applied. The parameter is taken as the raw path segment. This agrees with the page for every segment without `%`, and so for every paper id.
- QueryClassification.RouteQuery: the router's handling of trailing slashes and query strings is not modelled.
- Numbers are mathematical integers and reals, not IEEE doubles. Sizes and normalised years are exact fractions. `Math.round` can differ from the real-number rounding only at exact halves that doubles cannot represent.
- String length counts characters, not UTF-16 code units. The paper-id test accepts only ASCII hex, so for it the two agree.
- A linked paper with a null `paperId` is not modelled: ids are strings. A missing, null or empty title is modelled as the empty string. The centre's label keeps its title as it is.
- Linked nodes have `isCenter` undefined in the page. The model uses `false`, and both are falsy wherever the flag is read.
- The home page, the server routers and the external API client are not part of this model.

## Findings

| source | as written | input that shows it | evidently intended | confidence | as-written member | corrected member |
|---|---|---|---|---|---|---|
| client/src/pages/PaperDetail.tsx:172-174 | the year filter drops only `undefined`, so a `null` year from the service stays in `years` and `Math.min` reads it as 0 | a network whose centre has year `null`, plus papers from 2010 and 2020: the range becomes 0–2020, and 2010 gets rgb(99, 103, 240), almost the blue of the newest year, instead of green rgb(74, 222, 128) | the range spans only the nodes' numeric years | not executed; medium, because it depends on the service sending `null` years | YearColor.NullYearShiftsRangeAsWritten | YearColor.OldestNodeGetsOldColor |
