# Mantle network diagram: a verified model of the dependency-graph core

The Mantle scripts read an exported Mantle worksheet (a headerless CSV) and
turn it into a dependency network. In the worksheet, each item row names
other items in two blocks of parameter columns: DF..HV, then HW..MN. There
are four scripts:

- **`MantleNetworkExplorer.py`** does the most. It:
  - finds the "BENEFIT ITEMS" section, its header row and its data rows;
  - drops quote rows;
  - detects the id, event, group and name columns in three tiers;
  - builds an item table and two adjacency maps (dependency to dependents,
    and item to dependencies);
  - answers bounded breadth-first neighbourhood queries;
  - can cut the graph down to the items within ten hops of an actuarial or
    payment flag.
- **`MantleNetworkDiagram.py`** and **`MantleNetworkDiagram_backup.py`**
  share a byte-identical `create_network_data` (lines 46-113 of both files).
  It reads (label, value) column pairs. A label of the form `name:Item` or
  `name:Series` accepts the next cell as a target, but only if that target
  is a known item id. It counts each item's degree, which sets the marker
  radius; the type sets the colour.
- **`MantleNetworkDiagram_Highcharts.py`** turns every non-empty cell of both
  column blocks into an edge pointing at the row's item, with no check at
  all.

All four scripts contain the same `get_column_index`.

## How the model is built

A worksheet is a sequence of rows plus the frame's column count (`width`).
A cell is missing (`Blank`, which `str()` prints as `"nan"`), a string
(`Text`), or a number carried by the text `str()` gives for it (`Number`). A
column that a short row does not reach reads as missing, because `read_csv`
pads short lines. The explorer's graph is a `Graph` value:
`relationships` (dependency to dependents), `reverse` (item to dependencies)
and `items` (all_items).

The code changes state step by step, so the model does too:

- Every loop of the source is a `method` with a `while` loop. Each method is
  proved equal to a specification function of its inputs:
  - `GetColumnIndex` equals `ColumnIndex`;
  - `DetectExact` equals `ExactUpTo`;
  - `ScanRows` equals `PairsUpTo` and `ItemsUpTo`;
  - `ParseDependencies` equals `RangeEdges`;
  - the Highcharts `CreateNetworkData` equals `NodesOf` and `EdgesOf`.
- What the scripts promise is proved about those functions as lemmas.
- Both breadth-first searches (`get_related_items`, `find_connected_items`)
  are methods over a queue and a visited set. Python's set iteration order
  is not modelled: they take neighbours in an unspecified order. Their
  contracts do not depend on that order:
  - the nodes reached are exactly those within the hop bound;
  - each depth is the shortest distance;
  - the edges form a tree.

Where the code disagrees with its own evident intent, the model follows the
code, and states the intended behaviour beside it (see "## Findings"). There
is one exception. `SubgraphFilter.FilterByFlags` uses the intended cut of the
graph, because the code's cut always raises. `SubgraphFilter.FilterByFlagsAsWritten`
models the code as written.

## Model

| member | source | states |
|---|---|---|
| ColumnAddress.GetColumnIndex | MantleNetworkExplorer.py:20-25 | The accumulator loop returns bijective base-26 numbering minus one, with each character upper-cased first. It is non-negative for any non-empty string of letters. |
| ColumnAddress.Letters | MantleNetworkExplorer.py:20-25 | The inverse numbering gives an upper-case word. The word is empty exactly for 0. |
| ColumnAddress.AccumulatedPositive | MantleNetworkExplorer.py:20-25 | A non-empty string of letters numbers at least 1, so its index is at least 0. |
| ColumnAddress.LettersRoundTrip | MantleNetworkExplorer.py:20-25 | Numbering the word of n gives n back. |
| ColumnAddress.AccumulatedRoundTrip | MantleNetworkExplorer.py:20-25 | Every upper-case column word is the word of its own number. |
| ColumnAddress.ColumnIndexInjective | MantleNetworkExplorer.py:20-25 | Two distinct upper-case column words never share an index. |
| ColumnAddress.ColumnIndexSurjective | MantleNetworkDiagram_Highcharts.py:22-27 | Every index 0, 1, 2, … is the index of some upper-case column word. |
| ColumnAddress.ColumnIndexIgnoresCase | MantleNetworkDiagram_backup.py:22-27 | The index of a string equals the index of its upper-cased form. |
| ColumnAddress.ColumnIndexValues | MantleNetworkExplorer.py:16-17 | A→0, Z→25, AA→26, DF→109, HV→229, HW→230, MN→351; lower-case a→0 and df→109. |
| Cells.StripSpec | MantleNetworkExplorer.py:153 | `str.strip()` returns a contiguous slice of its input. |
| Cells.StripTrimmed | MantleNetworkExplorer.py:153 | A non-empty stripped string begins and ends with a non-whitespace character. |
| Cells.StripUnpadded | MantleNetworkExplorer.py:153 | Stripping a string that has no outer whitespace returns it unchanged. |
| Cells.BeforeFirstSpec | MantleNetworkExplorer.py:298 | `split(':')[0]` is a prefix of the text. It contains no colon, and a colon follows it whenever it is shorter than the text. |
| Cells.AfterFirstSpec | MantleNetworkDiagram.py:74 | The two halves of `split(':', 1)`, with the colon between them, rebuild the text. |
| Cells.BeforeFirstSplit | MantleNetworkDiagram.py:74 | For a head without a colon, splitting `head:rest` at the first colon gives back head and rest. |
| NodeColors.Palette | MantleNetworkExplorer.py:356-364 | No type in the seven-entry map is coloured with the fallback colour. |
| NodeColors.TypeColor | MantleNetworkExplorer.py:354-370 | The fallback colour is returned exactly when the type is missing or its stripped text is not in the map. Otherwise the colour is the map's entry for the stripped text. |
| NodeColors.PaletteInjective | MantleNetworkExplorer.py:356-364 | The seven map entries have seven distinct colours. |
| NodeColors.TypeColorIgnoresPadding | MantleNetworkExplorer.py:369-370 | Two present types with the same stripped text get the same colour. |
| NodeColors.TypeColorInjective | MantleNetworkDiagram_Highcharts.py:101-117 | A non-fallback colour identifies the stripped type text. |
| NodeColors.TypeColorValues | MantleNetworkDiagram_Highcharts.py:103-117 | "Service" gets its map colour. A missing type gets the fallback colour, and so does "service", because the lookup is case-sensitive. |
| SectionLocator.Drop | MantleNetworkExplorer.py:38-39 | After the re-index, the frame is exactly the rows after the first 24, in order (none when the sheet is shorter). |
| SectionLocator.Take | MantleNetworkExplorer.py:73 | `iloc[:n]` is the positional prefix of length n, or everything when fewer rows exist. |
| SectionLocator.FirstAnchor | MantleNetworkExplorer.py:42-50 | The anchor is a row holding a string cell that contains "BENEFIT ITEMS", and no earlier row holds one. None means no row holds one. |
| SectionLocator.FindAnchorRow | MantleNetworkExplorer.py:42-50 | The nested scan returns the first anchor row, or -1 when there is none. |
| SectionLocator.FirstAnchorAt | MantleNetworkExplorer.py:42-50 | Any anchor row with no anchor before it is the one the scan finds. |
| SectionLocator.FirstBlank | MantleNetworkExplorer.py:64-69 | The first all-missing row: it is all missing and no earlier row is. None means there is no such row. |
| SectionLocator.FindBlankRow | MantleNetworkExplorer.py:64-69 | The scan returns the first all-missing row's index label: its offset plus the un-reset slice's first label. It returns -1 when there is none. |
| SectionLocator.FirstBlankAt | MantleNetworkExplorer.py:64-69 | Any all-missing row with none before it is the one the scan finds. |
| SectionLocator.RegionAsWritten | MantleNetworkExplorer.py:62-73 | With no blank row, the data is everything after the header. Otherwise it is the positional prefix of length data_start + offset of the blank row. |
| SectionLocator.Region | MantleNetworkExplorer.py:64-73 | The intended region is a prefix with no all-missing row. Where it stops short of the end, the next row is all missing. |
| SectionLocator.RegionAsWrittenExtendsRegion | MantleNetworkExplorer.py:62-73 | The as-written region is never shorter than the intended one and starts with it. |
| SectionLocator.RegionOvershoots | MantleNetworkExplorer.py:62-73 | A concrete sheet where the code keeps the blank row and the row after it, although the intended region is empty. |
| SectionLocator.SectionWithoutAnchor | MantleNetworkExplorer.py:91-92 | With no anchor, every row after the first 24 is data and the header is None. |
| SectionLocator.SectionWithAnchor | MantleNetworkExplorer.py:53-75 | The header is the row after the first anchor, and the data is a positional prefix of the rows after the header: all of them when none is blank. An anchor in the last row fails, because the header lookup raises. |
| SectionLocator.QuoteColumn | MantleNetworkExplorer.py:94-106 | Some column from 3 on mentions "is_quote" in lower case; the flag column is the one after the first such column. No earlier such column mentions it. None means that no column from 3 to the second-to-last mentions it. |
| SectionLocator.QuoteColumnFrom | MantleNetworkExplorer.py:94-106 | The same search, started from a given column. |
| SectionLocator.FindQuoteColumn | MantleNetworkExplorer.py:94-106 | The column loop with its `break` finds exactly QuoteColumn. |
| SectionLocator.DropQuotes | MantleNetworkExplorer.py:108-111 | No kept row has a flag cell whose text is exactly "1", and the result is never longer than the input. |
| SectionLocator.DropQuotesSubset | MantleNetworkExplorer.py:108-111 | No rows are added: every kept row is an input row, kept at most as often as it occurs. |
| SectionLocator.DropQuotesAppend | MantleNetworkExplorer.py:108-111 | The filter works row by row: filtering a concatenation concatenates the filtered parts, which keeps order. |
| SectionLocator.DropQuotesKeeps | MantleNetworkExplorer.py:108-111 | Every row that is not a quote survives the filter. |
| SectionLocator.FilterQuotesSpec | MantleNetworkExplorer.py:94-115 | With no flag column the rows are unchanged. Otherwise no kept row is a quote, every non-quote row is kept, and no row is added. |
| SectionLocator.LoadAndPrepare | MantleNetworkExplorer.py:38-120 | The steps in source order (offset, anchor, header, blank-row cut, quote filter) give the composed specification `Prepare`. The result is None only where the code raises. |
| SchemaDetector.ExactStepField | MantleNetworkExplorer.py:156-167 | A header equal to a field's exact name sets that field to the column, whatever it held. Other fields are untouched. |
| SchemaDetector.ExactLastMatch | MantleNetworkExplorer.py:151-167 | The exact tier is last-match-wins: a found column is the last header with exactly that name. None means no header has it. |
| SchemaDetector.DetectExact | MantleNetworkExplorer.py:149-167 | The header loop produces exactly the exact-tier fold. |
| SchemaDetector.PartialStepChanges | MantleNetworkExplorer.py:176-187 | A header sets at most one field. The field it sets was missing, and its key matches that field's substring test. |
| SchemaDetector.PartialFillsOnlyMissing | MantleNetworkExplorer.py:170-187 | The substring tier keeps every field already found. A field it fills gets a column whose header passes that field's substring test. |
| SchemaDetector.PartialFirstMatch | MantleNetworkExplorer.py:170-187 | A missing field gets the lowest column whose header passes its test, except that a header a field ahead of it in the elif chain took is skipped. None means every such header was taken that way. |
| SchemaDetector.PartialIdItemFirst | MantleNetworkExplorer.py:176-177 | id_item heads the chain, so it gets exactly the first header containing "id_item", and None only when no header does. |
| SchemaDetector.DetectPartial | MantleNetworkExplorer.py:170-187 | The substring loop produces exactly the substring-tier fold. |
| SchemaDetector.PatternFillsEventAndGroup | MantleNetworkExplorer.py:190-211 | The sample tier touches only id_event and display_group and overrides neither. id_event becomes the first cell with exactly one colon. display_group becomes only a cell that looks like a group name. |
| SchemaDetector.ExamineSample | MantleNetworkExplorer.py:195-211 | One sample cell updates the schema by the pattern step. |
| SchemaDetector.DetectPattern | MantleNetworkExplorer.py:190-211 | The sample loop over the first min(30, width) cells produces exactly the pattern fold. |
| SchemaDetector.DetectColumns | MantleNetworkExplorer.py:149-213 | The three tiers run in the code's order under its `all([...])` guards, and give `Detect`. |
| SchemaDetector.DetectWithSpec | MantleNetworkExplorer.py:149-211 | An exactly named header wins for its field. Every column found either has a header matching the field's substring test or, for id_event and display_group, a sample value of the matching shape. |
| SchemaDetector.ExactNameMatches | MantleNetworkExplorer.py:156-187 | A header that is a field's exact name also passes that field's substring test. |
| SchemaDetector.DetectInFrame | MantleNetworkExplorer.py:149-213 | Without a header row nothing is found. Every column found lies inside the frame. |
| SchemaDetector.ExactSuffices | MantleNetworkExplorer.py:170 | When the exact tier finds all four fields, none at column 0 (which `all()` reads as missing), the later tiers change nothing. |
| GraphExtractor.ParameterColumns | MantleNetworkExplorer.py:134-137 | The two dependency ranges are columns 109..229 and 230..351. |
| GraphExtractor.NameParts | MantleNetworkExplorer.py:237-260 | The list of raw name fragments is never empty, and its first fragment is the canonical id. |
| GraphExtractor.NonEmpty | MantleNetworkExplorer.py:266 | Empty fragments are dropped and no others, and a non-empty first fragment stays first. |
| GraphExtractor.DedupFrom | MantleNetworkExplorer.py:267 | `dict.fromkeys` de-duplication keeps the same members, pairwise distinct, and keeps the first fragment first. |
| GraphExtractor.DedupDistinct | MantleNetworkExplorer.py:267 | De-duplication leaves a list of distinct fragments unchanged. |
| GraphExtractor.DedupIdempotent | MantleNetworkExplorer.py:267 | De-duplicating twice is the same as once. |
| GraphExtractor.Join | MantleNetworkExplorer.py:268 | Joining a single fragment gives the fragment itself. |
| GraphExtractor.JoinEnds | MantleNetworkExplorer.py:268 | A " - "-join starts with its first fragment and ends with its last. |
| GraphExtractor.RowInfoSpec | MantleNetworkExplorer.py:222-289 | For a kept row, the display name starts with the id and ends with the node label. The label is a non-empty name fragment. The type reads "Unknown" for a missing type, otherwise the type's text. The colour is the type colour. |
| GraphExtractor.DepsBetweenSpec | MantleNetworkExplorer.py:292-311 | A range's dependency ids are exactly the stripped texts, cut at the first colon, of its non-blank in-row cells. |
| GraphExtractor.Edges | MantleNetworkExplorer.py:299-300 | A row contributes the pair (dependency, row id) for each of its dependency ids, and nothing else. |
| GraphExtractor.PairsUpToSpec | MantleNetworkExplorer.py:219-311 | (a, b) is an edge exactly when some row with the non-empty id b lists a as a dependency. |
| GraphExtractor.ItemsUpToSpec | MantleNetworkExplorer.py:219-289 | The items are the non-empty ids. Each holds the record of the last row with that id, because later rows overwrite earlier ones. |
| GraphExtractor.PairsTargetsAreItems | MantleNetworkExplorer.py:283-300 | The dependent end of every edge is a known item. |
| GraphExtractor.ForwardAdd | MantleNetworkExplorer.py:299 | Adding b to relationships[a] keeps `relationships` an exact index of the edges, by first end, with the new edge included. |
| GraphExtractor.BackwardAdd | MantleNetworkExplorer.py:300 | Adding a to reverse[b] keeps `reverse` an exact index of the edges, by second end, with the new edge included. |
| GraphExtractor.HoldsAdd | MantleNetworkExplorer.py:299-300 | The paired update keeps both maps exact for the enlarged edge set. |
| GraphExtractor.HoldsDual | MantleNetworkExplorer.py:299-300 | Two maps that index the same edge set are each other's transpose: b ∈ relationships[a] ⟺ a ∈ reverse[b]. |
| GraphExtractor.RecordEdge | MantleNetworkExplorer.py:299-300 | Recording one dependency keeps both maps exact for the edge set plus that edge. |
| GraphExtractor.AddDependencies | MantleNetworkExplorer.py:292-301 | The column loop over one range adds exactly that range's edges to both maps. |
| GraphExtractor.AddRowDependencies | MantleNetworkExplorer.py:291-311 | Both ranges together add exactly the row's edges. |
| GraphExtractor.RecordRow | MantleNetworkExplorer.py:219-311 | One kept row updates all_items with its record and adds its edges. A row with an empty id changes nothing. |
| GraphExtractor.AddRow | MantleNetworkExplorer.py:219-311 | One loop turn takes the summary of rows 0..i-1 to the summary of rows 0..i. |
| GraphExtractor.ScanRows | MantleNetworkExplorer.py:219-313 | For given detected columns, both maps index exactly the edges of all rows, with no empty entry. The item table is the last record per non-empty id. |
| GraphExtractor.BuildRelationshipGraph | MantleNetworkExplorer.py:127-313 | The column detection followed by the row loop: both maps index exactly the edges of all rows under the detected columns, the item table is the last record per non-empty id, and the two maps are each other's transpose. |
| Graphs.Neighbours | MantleNetworkExplorer.py:339-350 | The items one hop away are the known items among the dependencies and dependents. |
| Graphs.ReachMonotone | MantleNetworkExplorer.py:315-352 | A larger hop bound reaches a superset. |
| Graphs.ReachWithinItems | MantleNetworkExplorer.py:340-347 | Apart from the starts, only known items are ever reached. |
| BreadthFirst.Start | MantleNetworkExplorer.py:325-326 | The start queue (every start at depth 0) satisfies the search invariants: queue contents, layering, soundness, closure. |
| BreadthFirst.Advance | MantleNetworkExplorer.py:328-350 | Taking one item from the queue and enqueueing its unseen neighbours (below the bound) keeps all four invariants. |
| BreadthFirst.Covered | MantleNetworkExplorer.py:328-352 | When the queue is empty, the items seen are exactly those within the hop bound. Each item's level is its shortest distance from the starts. |
| NeighborhoodQuery.VisitNeighbours | MantleNetworkExplorer.py:339-350 | One inner loop enqueues the unseen known neighbours of one direction, each once, at depth+1. It records one tree edge per enqueued item and marks all those neighbours seen. |
| NeighborhoodQuery.ExpandNode | MantleNetworkExplorer.py:337-350 | Both loops together enqueue exactly the unseen neighbours, once each, and leave every neighbour seen. |
| NeighborhoodQuery.GetRelatedItems | MantleNetworkExplorer.py:315-352 | An unknown root gives ([], []). Otherwise: the root comes first at depth 0; ids are distinct; depths never decrease in output order; there is one edge fewer than nodes; each edge joins a node to an earlier one along a stored dependency; the node set is exactly what lies within max_depth hops; and each depth is the shortest distance. |
| NeighborhoodQuery.Conclude | MantleNetworkExplorer.py:328-352 | The loop invariants at an empty queue give every property of GetRelatedItems. |
| NeighborhoodQuery.TreeEdgeOrientation | MantleNetworkExplorer.py:339-350 | In a dual graph, each recorded edge (x, y) has y ∈ relationships[x] and joins the parent to the child, in one direction or the other. |
| NeighborhoodQuery.QueryDepths | MantleNetworkExplorer.py:315-352 | max_depth 0 reaches only the root. The nodes for depth D are among those for D+1. |
| SubgraphFilter.FlagColumnsSpec | MantleNetworkExplorer.py:395-402 | The column search raises exactly when one of the three named columns mentions a marker. Otherwise each of the three flags is the column after the last column whose first marker (in the if/elif order) is that flag's; it is None exactly when no column has that first marker or that column is the frame's last. |
| SubgraphFilter.ErrPersists | MantleNetworkExplorer.py:395-402 | Once the search has raised, later columns do not change the outcome. |
| SubgraphFilter.FindFlagColumns | MantleNetworkExplorer.py:395-402 | The column loop produces exactly the specified search result. |
| SubgraphFilter.FlaggedSpec | MantleNetworkExplorer.py:405-427 | An item is flagged exactly when it is known and some row whose column-0 id (stripped) is that item has a flag cell reading "1". |
| SubgraphFilter.RowFlagged | MantleNetworkExplorer.py:409-424 | The three flag tests on one row compute IsFlagged. |
| SubgraphFilter.FlagRow | MantleNetworkExplorer.py:406-427 | One row of the scan extends the flagged set as specified. |
| SubgraphFilter.FindFlaggedItems | MantleNetworkExplorer.py:405-427 | The row loop gives exactly the flagged known items. |
| SubgraphFilter.Spread | MantleNetworkExplorer.py:442-451 | One inner loop connects each unconnected known neighbour in one direction once, and queues it at depth+1. |
| SubgraphFilter.SpreadBoth | MantleNetworkExplorer.py:441-451 | Both inner loops leave every neighbour connected and queue exactly the new ones. |
| SubgraphFilter.StartQueue | MantleNetworkExplorer.py:433-434 | The start queue holds every flagged item once, at depth 0. |
| SubgraphFilter.ConnectNext | MantleNetworkExplorer.py:436-451 | One loop turn keeps the search invariants. It either connects a new item or shortens the queue, which is why the loop ends. |
| SubgraphFilter.FindConnectedItems | MantleNetworkExplorer.py:432-453 | The result is exactly the set of items within max_depth hops, over both directions, of a start item. |
| SubgraphFilter.RestrictEdges | MantleNetworkExplorer.py:461-466 | In the cut map, b lies under a exactly when both are kept and b was under a. No entry is empty. |
| SubgraphFilter.Restrict | MantleNetworkExplorer.py:459-466 | The intended cut: the items are those kept, with their records unchanged, and both maps are narrowed to kept items at both ends. |
| SubgraphFilter.RestrictAsWritten | MantleNetworkExplorer.py:460-466 | The doubled-brace "comprehensions" always raise TypeError. |
| SubgraphFilter.RestrictFails | MantleNetworkExplorer.py:460-466 | The as-written cut never yields a graph, while the intended cut stays within the kept items. |
| SubgraphFilter.RestrictDual | MantleNetworkExplorer.py:461-462 | Cutting a dual graph leaves it dual. |
| SubgraphFilter.RestrictIdempotent | MantleNetworkExplorer.py:459-466 | Cutting twice to the same items equals cutting once. |
| SubgraphFilter.ReachOnCut | MantleNetworkExplorer.py:432-453 | In the graph cut to the items within k hops of the start set, every hop bound up to k reaches exactly what it reaches in the whole graph. |
| SubgraphFilter.FilterIdempotent | MantleNetworkExplorer.py:389-471 | Running the intended filter again on its own output, with the same flag rows, finds the same flagged items and returns the same graph. |
| SubgraphFilter.FilterByFlags | MantleNetworkExplorer.py:389-471 | An error where the column search raises. The graph unchanged when nothing is flagged. Otherwise the intended cut to every item within ten hops of a flagged item; the source raises here instead (see Findings). |
| SubgraphFilter.FilterByFlagsAsWritten | MantleNetworkExplorer.py:389-471 | The filter as the code runs it: an error where the column search raises, the graph unchanged when nothing is flagged, and an error whenever some item is flagged. |
| SubgraphFilter.FilterKeeps | MantleNetworkExplorer.py:455-468 | After the cut, the items are exactly the connected items, and every flagged item survives. |
| SubgraphFilter.FlaggedAreItems | MantleNetworkExplorer.py:406-408 | Only known items can be flagged. |
| DiagramNetwork.ValidRows | MantleNetworkDiagram.py:51 | Every row kept by `dropna(subset=['ItemID'])` has an id, and no rows are added. |
| DiagramNetwork.ValidRowsSpec | MantleNetworkDiagram.py:51 | A row is kept exactly when it has a present ItemID. |
| DiagramNetwork.ValidIdIn | MantleNetworkDiagram.py:52 | Every kept row's id string is a known id. |
| DiagramNetwork.Label | MantleNetworkDiagram.py:73-74 | A label is read exactly from a string cell that contains a colon. |
| DiagramNetwork.LabelRoundTrip | MantleNetworkDiagram.py:73-76 | The label `name:kind` reads back as (strip(name), strip(kind)) when name has no colon. |
| DiagramNetwork.PairEdge | MantleNetworkDiagram.py:65-82 | An edge from a pair runs from the row's own id to the text of the value cell. That target is a known id and never "nan". |
| DiagramNetwork.PairEdgeSpec | MantleNetworkDiagram.py:70-82 | A pair gives an edge exactly when its label cell holds a colon with stripped type "Item" or "Series" and its value cell prints as a known id other than "nan". The edge is named by the label's stripped name. |
| DiagramNetwork.RangeEdgesSound | MantleNetworkDiagram.py:64-82 | Every edge of a range comes from a pair (j, j+1) with j = start + 2k < end and j+1 inside the frame. |
| DiagramNetwork.RangeEdgesComplete | MantleNetworkDiagram.py:64-82 | Every such visited pair that reads as an edge gives an edge of the range. |
| DiagramNetwork.RangeEdgesSpec | MantleNetworkDiagram.py:64-69 | e is an edge of the range ⟺ some visited pair reads as e. |
| DiagramNetwork.RangeEdgesClosed | MantleNetworkDiagram.py:79-80 | Every edge of a range starts at the row's id and ends at a known id other than "nan". |
| DiagramNetwork.RowEdgesSpec | MantleNetworkDiagram.py:84-87 | A row's edges come from the first range, or from the second range only when its type contains "Series", and from nowhere else. |
| DiagramNetwork.EdgesUpToClosed | MantleNetworkDiagram.py:79-80 | Both ends of every edge so far are known ids, and the target is never "nan". |
| DiagramNetwork.EdgesClosed | MantleNetworkDiagram_backup.py:79-80 | No dangling edge: every edge of the diagram joins two known ids and never targets "nan". |
| DiagramNetwork.OccurrencesAppend | MantleNetworkDiagram.py:81-82 | Appending an edge adds one for each of its ends to an item's count. |
| DiagramNetwork.OccurrencesZero | MantleNetworkDiagram.py:102 | An item's count is zero exactly when no edge touches it. |
| DiagramNetwork.DegreeMap | MantleNetworkDiagram.py:55 | The degree table has exactly the known ids as keys. |
| DiagramNetwork.DegreesAdd | MantleNetworkDiagram.py:81-82 | Bumping both ends keeps each degree equal to the item's number of edge ends. |
| DiagramNetwork.ExaminePair | MantleNetworkDiagram.py:65-82 | One pair appends the edge it reads, or nothing, and keeps the degrees matching. |
| DiagramNetwork.ParseDependencies | MantleNetworkDiagram_backup.py:62-82 | The stepped pair loop appends exactly the range's edges, and the degrees keep matching the edge list. |
| DiagramNetwork.ProcessRow | MantleNetworkDiagram.py:84-87 | One row appends its range-1 edges, then its range-2 edges only for a Series type. |
| DiagramNetwork.DiagramColor | MantleNetworkDiagram.py:96-100 | Green ⟺ the type contains "Series"; yellow ⟺ it does not but contains "Item"; blue ⟺ it contains neither. |
| DiagramNetwork.NodeOf | MantleNetworkDiagram.py:90-111 | A node carries its row's id. Its radius is odd and at least 5, and exactly 5 when the item has no degree entry or degree 0. |
| DiagramNetwork.BuildNodes | MantleNetworkDiagram.py:89-111 | The node loop emits one node per kept row, in row order. |
| DiagramNetwork.CollectEdges | MantleNetworkDiagram.py:51-87 | The row loop collects every kept row's edges in order, with degrees matching. |
| DiagramNetwork.CreateNetworkData | MantleNetworkDiagram.py:46-113 | The edges are the rows' edges in order. The nodes are one per kept row, in order, sized by the degree table of those edges. |
| DiagramNetwork.NodesFollowRows | MantleNetworkDiagram.py:89-103 | Node k has the k-th kept row's id, radius 5 + 2 × (the item's number of edge ends), and the colour its row's type gives (green for "Series", else yellow for "Item", else blue). |
| DiagramNetwork.NodesIds | MantleNetworkDiagram.py:89-111 | The node ids are exactly the known ids. |
| DiagramNetwork.TotalIsOccurrences | MantleNetworkDiagram.py:81-82 | Summing the degree table over known ids equals summing each id's number of edge ends. |
| DiagramNetwork.SumOccurrencesTotal | MantleNetworkDiagram.py:81-82 | When every edge joins two listed ids, the edge ends summed over the listed ids come to twice the number of edges. |
| DiagramNetwork.DegreeSum | MantleNetworkDiagram.py:81-82 | The sum of all degrees is twice the number of edges. |
| DiagramNetwork.NetworkDegreeSum | MantleNetworkDiagram_backup.py:46-113 | For the network the function returns, the degree sum is twice the number of edges. |
| DiagramNetwork.DiagramColorValues | MantleNetworkDiagram_backup.py:96-100 | "Series" is green, "Item" yellow, and a missing type ("nan") blue. |
| HighchartsNetwork.KeptRows | MantleNetworkDiagram_Highcharts.py:63-65 | No kept row has a missing or empty id, and no rows are added. |
| HighchartsNetwork.KeptRowsSpec | MantleNetworkDiagram_Highcharts.py:63-65 | A row gives a node exactly when its ItemID is present and not the empty string. |
| HighchartsNetwork.NodeFacts | MantleNetworkDiagram_Highcharts.py:68-75 | Each node has its row's id. Its name is the ItemName text, or the id when ItemName is missing. Its colour is the type colour and its radius is 8. |
| HighchartsNetwork.RangeEdgesSound | MantleNetworkDiagram_Highcharts.py:78-86 | Every edge of a range comes from an in-row, present, non-blank cell of it. The edge runs from the unstripped cell text to the row's id and is named "Dependency". |
| HighchartsNetwork.RangeEdgesComplete | MantleNetworkDiagram_Highcharts.py:78-86 | Every such cell gives an edge. |
| HighchartsNetwork.RangeEdgesCount | MantleNetworkDiagram_Highcharts.py:78-86 | A range gives exactly one edge per dependency cell. |
| HighchartsNetwork.RangeEdgesBeyondWidth | MantleNetworkDiagram_Highcharts.py:79 | Columns outside the row give no edge. |
| HighchartsNetwork.RowEdgesCount | MantleNetworkDiagram_Highcharts.py:77-97 | A kept row gives as many edges as its two ranges hold dependency cells. There is no type or known-id check. |
| HighchartsNetwork.RowEdgesSpec | MantleNetworkDiagram_Highcharts.py:77-97 | e is an edge of a row ⟺ some dependency cell in either inclusive range gives e. |
| HighchartsNetwork.EdgesEndAtNodes | MantleNetworkDiagram_Highcharts.py:82-86 | Every edge is named "Dependency" and ends at the id of a kept row, that is, at a node. |
| HighchartsNetwork.ScanColumn | MantleNetworkDiagram_Highcharts.py:79-86 | One column appends its edge, or nothing. |
| HighchartsNetwork.ScanRange | MantleNetworkDiagram_Highcharts.py:78-86 | The column loop appends exactly the range's edges, in column order. |
| HighchartsNetwork.AddItem | MantleNetworkDiagram_Highcharts.py:58-97 | A skipped row changes nothing. Any other row appends its node and its edges. |
| HighchartsNetwork.CreateNetworkData | MantleNetworkDiagram_Highcharts.py:46-99 | The nodes are those of the kept rows in order. The edges are the kept rows' edges in row order, then column order. |

## Left out

- SubgraphFilter.FilterByFlags: on a frame with a flagged item it returns the
  intended cut, where the code as written raises TypeError. The code's
  behaviour is `FilterByFlagsAsWritten` (second row of "## Findings").

- Command-line entry points (`main`, `argparse`, `sys.exit`) in all four scripts: plumbing.
- HTML, CSS and JavaScript generation and file writing. This includes the
  templated JavaScript copy of `get_related_items`: it is rendering glue.
- `generate_diagram` in MantleNetworkDiagram.py:116-151: a thin wrapper over
  the external `highcharts` library.
- File and CSV handling (`os.path.exists`, `read_csv`, `json.dumps`) and all
  `print` output. The model starts from the rows `read_csv` would give.
  `load_and_prepare_data`'s catch-all `except` is modelled only for the one
  failure the modelled code can raise: an anchor in the last row, whose
  header lookup is out of range. It yields None.
- The scripts' own `load_and_prepare_data` in MantleNetworkDiagram.py:30-44:
  it is the same 24-row offset as `SectionLocator.Drop`. The Diagram and
  Highcharts models take the rows after it.
- pandas dtype coercion, for example a numeric id printing as "3.0". A
  number cell carries the text `str()` would give for it.
- Python's Unicode case mapping: `Lower` and `Upper` map only the ASCII
  letters.
- Frames narrower than three columns. There, `row['ItemType']` raises
  KeyError; the model reads a missing column as a missing cell.
- Set and dict iteration order. The breadth-first methods take neighbours in
  an unspecified order, and their contracts hold for every order.
- `pd.notna(target_node_id)` in MantleNetworkDiagram.py:79: it tests a
  string, which is never missing, so it has no effect and is not modelled.
- GraphExtractor.ScanRows: its ensures is the exact edge-set index of both
  maps. Duality is derived from it by `HoldsDual`, and stated in the contract
  of `BuildRelationshipGraph`, not in that of the row loop.
- Item records drop the source's `'id'` field, which always equals its key.
  The neighbourhood query's node copies carry the id explicitly.
- check_packages.py and test_import.py: site-packages listing and import
  probes, with no logic.

## Findings

| source | as written | input that shows it | evidently intended | confidence | as-written member | corrected member |
|---|---|---|---|---|---|---|
| MantleNetworkExplorer.py:62-73 | The blank row's index label, which counts from the un-reset frame, is used as a position in `iloc[:blank_row]`. The cut therefore lands data_start rows past the blank row. | The anchor is the first row after the offset and a blank row follows the header right away, then one data row. The code keeps the blank row and the data row. | Cut the data at the first all-missing row. | high; not executed | SectionLocator.RegionOvershoots | SectionLocator.Region |
| MantleNetworkExplorer.py:460-466 | The restriction's "comprehensions" are written in doubled braces, so each is a set display holding a dict, and building it raises TypeError (a dict is unhashable). | Any frame in which at least one known item has a flag column reading "1". | Keep the connected keys, intersect each value set with them, and drop empty entries. | high; not executed | SubgraphFilter.FilterByFlagsAsWritten | SubgraphFilter.Restrict |

In the first row, `SectionLocator.RegionOvershoots` exhibits the overshoot of
`SectionLocator.RegionAsWritten`. The intended `SectionLocator.Region` is
proved to be the prefix before the first all-missing row. The code path
(`LoadAndPrepare`, `Prepare`) keeps the as-written cut. `PrepareIntended` is
the same pipeline with the intended cut.

In the second row, `SubgraphFilter.FilterByFlagsAsWritten` is the filter as
the code runs it: it returns an error for every frame with a flagged item,
because `SubgraphFilter.RestrictAsWritten` always fails (`RestrictFails`).
`SubgraphFilter.FilterByFlags` uses the intended `SubgraphFilter.Restrict`,
whose duality and contents are proved. Filtering its output again gives the
same graph back (`SubgraphFilter.FilterIdempotent`).
