/** create_network_data of the label/value diagram script: dependency edges
    read from (label, value) column pairs, the degree of every item, and the
    node table with its colours and sizes. */
module DiagramNetwork {
  import opened Cells
  import opened ColumnAddress

  /** One dependency edge: the row's item points at the item a pair names. */
  datatype Edge = Edge(from: string, to: string, name: string)

  /** One node of the diagram (its marker radius and fill colour). */
  datatype Node = Node(id: string, name: string, title: string, radius: int, color: string)

  /** range(DF, HV, 2) and range(HW, MN, 2): the end column is excluded. */
  const Params1Start: nat := 109
  const Params1End: nat := 229
  const Params2Start: nat := 230
  const Params2End: nat := 351

  /** The words the type text is searched for. */
  const SeriesWord: string := "Series"
  const ItemWord: string := "Item"

  const SeriesColor: string := "#28a745"
  const ItemColor: string := "#ffc107"
  const PlainColor: string := "#007bff"

  /** dropna(subset=['ItemID']) keeps a row when its id cell is present. */
  predicate ValidRow(row: Row)
  {
    !CellAt(row, 0).Blank?
  }

  /** valid_items: the rows with an id, in their order. */
  function ValidRows(rows: seq<Row>): (valid: seq<Row>)
    ensures |valid| <= |rows|
    ensures forall k :: 0 <= k < |valid| ==> ValidRow(valid[k])
  {
    if rows == [] then []
    else ValidRows(rows[..|rows| - 1]) + (if ValidRow(rows[|rows| - 1]) then [rows[|rows| - 1]] else [])
  }

  /** dropna drops exactly the rows without an id. */
  lemma {:induction false} ValidRowsSpec(rows: seq<Row>)
    ensures forall r :: r in ValidRows(rows) <==> r in rows && ValidRow(r)
  {
    if rows != [] {
      ValidRowsSpec(rows[..|rows| - 1]);
      assert rows == rows[..|rows| - 1] + [rows[|rows| - 1]];
    }
  }

  /** valid_item_ids */
  function ValidIds(valid: seq<Row>): set<string>
  {
    set k | 0 <= k < |valid| :: RowId(valid[k])
  }

  lemma ValidIdIn(valid: seq<Row>, k: nat)
    requires k < |valid|
    ensures RowId(valid[k]) in ValidIds(valid)
  {
  }

  /** The (name, type) a label cell carries: a text holding a colon, split
      at its first colon, both parts stripped. */
  function Label(c: Cell): (r: Option<(string, string)>)
    ensures r.Some? <==> c.Text? && ':' in c.s
  {
    if c.Text? && ':' in c.s then Some((Strip(BeforeFirst(c.s, ':')), Strip(AfterFirst(c.s, ':'))))
    else None
  }

  /** A label "name:type" reads back as its stripped name and type. */
  lemma LabelRoundTrip(name: string, kind: string)
    requires ':' !in name
    ensures Label(Text(name + [':'] + kind)) == Some((Strip(name), Strip(kind)))
  {
    BeforeFirstSplit(name, ':', kind);
  }

  /** The parameter types that make a pair a dependency. */
  predicate IsReference(kind: string)
  {
    kind == "Item" || kind == "Series"
  }

  /** The edge the pair (i, i + 1) of a row gives, if any. */
  function PairEdge(row: Row, source: string, ids: set<string>, i: nat): (r: Option<Edge>)
    ensures r.Some? ==> r.value.from == source && r.value.to in ids && r.value.to != "nan"
    ensures r.Some? ==> r.value.to == Str(CellAt(row, i + 1))
  {
    match Label(CellAt(row, i))
    case None => None
    case Some((name, kind)) =>
      var target := Str(CellAt(row, i + 1));
      if IsReference(kind) && target != "nan" && target in ids then Some(Edge(source, target, name)) else None
  }

  /** A pair gives an edge exactly when its first cell is a label whose
      stripped type is "Item" or "Series" and its second cell prints as a
      known id other than "nan"; the edge is named by the label's stripped
      name. */
  lemma PairEdgeSpec(row: Row, source: string, ids: set<string>, i: nat)
    ensures PairEdge(row, source, ids, i).Some? <==>
              && Label(CellAt(row, i)).Some?
              && IsReference(Label(CellAt(row, i)).value.1)
              && Str(CellAt(row, i + 1)) != "nan" && Str(CellAt(row, i + 1)) in ids
    ensures PairEdge(row, source, ids, i).Some? ==>
              PairEdge(row, source, ids, i).value.name == Label(CellAt(row, i)).value.0
  {
  }

  /** The edges of the pair at i, with the check that both columns exist. */
  function PairEdges(row: Row, source: string, ids: set<string>, width: nat, i: nat): seq<Edge>
  {
    if i >= width || i + 1 >= width then []
    else match PairEdge(row, source, ids, i)
      case None => []
      case Some(e) => [e]
  }

  /** The edges of range(i, end, 2), in order. */
  function RangeEdges(row: Row, source: string, ids: set<string>, width: nat, i: nat, end: nat): seq<Edge>
    decreases end - i
  {
    if i >= end then [] else PairEdges(row, source, ids, width, i) + RangeEdges(row, source, ids, width, i + 2, end)
  }

  /** Pair j is one that range(i, end, 2) visits and that lies inside the row. */
  predicate Visited(i: nat, end: nat, width: nat, j: nat)
  {
    i <= j < end && (j - i) % 2 == 0 && j + 1 < width
  }

  /** An edge of a range comes from a visited pair. */
  lemma {:induction false} RangeEdgesSound(row: Row, source: string, ids: set<string>, width: nat, i: nat, end: nat, e: Edge)
    returns (j: nat)
    requires e in RangeEdges(row, source, ids, width, i, end)
    ensures Visited(i, end, width, j) && PairEdge(row, source, ids, j) == Some(e)
    decreases end - i
  {
    if i >= end {
      assert false;
    } else if e in PairEdges(row, source, ids, width, i) {
      j := i;
    } else {
      j := RangeEdgesSound(row, source, ids, width, i + 2, end, e);
    }
  }

  /** Every visited pair that names an item gives an edge of the range. */
  lemma {:induction false} RangeEdgesComplete(row: Row, source: string, ids: set<string>, width: nat, i: nat, end: nat, j: nat)
    requires Visited(i, end, width, j) && PairEdge(row, source, ids, j).Some?
    ensures PairEdge(row, source, ids, j).value in RangeEdges(row, source, ids, width, i, end)
    decreases end - i
  {
    if j == i {
      assert PairEdges(row, source, ids, width, i) == [PairEdge(row, source, ids, j).value];
    } else {
      assert Visited(i + 2, end, width, j);
      RangeEdgesComplete(row, source, ids, width, i + 2, end, j);
    }
  }

  /** An edge comes out of a range exactly when the range visits a pair,
      inside the row, that gives it. */
  lemma RangeEdgesSpec(row: Row, source: string, ids: set<string>, width: nat, i: nat, end: nat, e: Edge)
    ensures e in RangeEdges(row, source, ids, width, i, end) <==>
            exists j :: Visited(i, end, width, j) && PairEdge(row, source, ids, j) == Some(e)
  {
    if e in RangeEdges(row, source, ids, width, i, end) {
      var j := RangeEdgesSound(row, source, ids, width, i, end, e);
    }
    if exists j :: Visited(i, end, width, j) && PairEdge(row, source, ids, j) == Some(e) {
      var j :| Visited(i, end, width, j) && PairEdge(row, source, ids, j) == Some(e);
      RangeEdgesComplete(row, source, ids, width, i, end, j);
    }
  }

  /** Every edge of a range starts at the row and ends at a valid id other than "nan". */
  lemma {:induction false} RangeEdgesClosed(row: Row, source: string, ids: set<string>, width: nat, i: nat, end: nat)
    ensures forall e :: e in RangeEdges(row, source, ids, width, i, end) ==> e.from == source && e.to in ids && e.to != "nan"
    decreases end - i
  {
    if i < end {
      RangeEdgesClosed(row, source, ids, width, i + 2, end);
    }
  }

  /** "Series" in str(row['ItemType']): the second range is read only for series. */
  predicate IsSeries(row: Row)
  {
    Contains(Str(CellAt(row, 2)), SeriesWord)
  }

  /** The edges one valid row contributes. */
  function RowEdges(row: Row, ids: set<string>, width: nat): seq<Edge>
  {
    RangeEdges(row, RowId(row), ids, width, Params1Start, Params1End)
    + (if IsSeries(row) then RangeEdges(row, RowId(row), ids, width, Params2Start, Params2End) else [])
  }

  /** Where the edges of a row come from: a label/value pair of the first
      range, or of the second one when the row is a series. */
  lemma RowEdgesSpec(row: Row, ids: set<string>, width: nat, e: Edge)
    ensures e in RowEdges(row, ids, width) <==>
            || (exists j :: Visited(Params1Start, Params1End, width, j) && PairEdge(row, RowId(row), ids, j) == Some(e))
            || (IsSeries(row) && exists j :: Visited(Params2Start, Params2End, width, j) && PairEdge(row, RowId(row), ids, j) == Some(e))
  {
    RangeEdgesSpec(row, RowId(row), ids, width, Params1Start, Params1End, e);
    RangeEdgesSpec(row, RowId(row), ids, width, Params2Start, Params2End, e);
  }

  /** The edges of the first n valid rows, in order. */
  function EdgesUpTo(valid: seq<Row>, ids: set<string>, width: nat, n: nat): seq<Edge>
    requires n <= |valid|
  {
    if n == 0 then [] else EdgesUpTo(valid, ids, width, n - 1) + RowEdges(valid[n - 1], ids, width)
  }

  /** The edge list create_network_data returns. */
  function AllEdges(rows: seq<Row>, width: nat): seq<Edge>
  {
    var valid := ValidRows(rows);
    EdgesUpTo(valid, ValidIds(valid), width, |valid|)
  }

  /** Every edge of the first n rows joins two valid ids, and none points at "nan". */
  lemma {:induction false} EdgesUpToClosed(valid: seq<Row>, width: nat, n: nat)
    requires n <= |valid|
    ensures forall e :: e in EdgesUpTo(valid, ValidIds(valid), width, n) ==>
                        e.from in ValidIds(valid) && e.to in ValidIds(valid) && e.to != "nan"
  {
    if n > 0 {
      var ids := ValidIds(valid);
      EdgesUpToClosed(valid, width, n - 1);
      ValidIdIn(valid, n - 1);
      var row := valid[n - 1];
      RangeEdgesClosed(row, RowId(row), ids, width, Params1Start, Params1End);
      RangeEdgesClosed(row, RowId(row), ids, width, Params2Start, Params2End);
    }
  }

  /** No dangling edges: both ends of every edge are ids of valid rows. */
  lemma EdgesClosed(rows: seq<Row>, width: nat)
    ensures forall e :: e in AllEdges(rows, width) ==>
                        e.from in ValidIds(ValidRows(rows)) && e.to in ValidIds(ValidRows(rows)) && e.to != "nan"
  {
    EdgesUpToClosed(ValidRows(rows), width, |ValidRows(rows)|);
  }

  /** How many ends of e are x: a self-reference counts twice. */
  function Ends(e: Edge, x: string): nat
  {
    (if e.from == x then 1 else 0) + (if e.to == x then 1 else 0)
  }

  /** The degree of x: how many edge ends it is. */
  function Occurrences(edges: seq<Edge>, x: string): (d: nat)
    ensures d <= 2 * |edges|
  {
    if edges == [] then 0 else Occurrences(edges[..|edges| - 1], x) + Ends(edges[|edges| - 1], x)
  }

  lemma OccurrencesAppend(edges: seq<Edge>, e: Edge, x: string)
    ensures Occurrences(edges + [e], x) == Occurrences(edges, x) + Ends(e, x)
  {
    assert (edges + [e])[..|edges|] == edges;
  }

  /** An item has degree 0 exactly when no edge touches it. */
  lemma {:induction false} OccurrencesZero(edges: seq<Edge>, x: string)
    ensures Occurrences(edges, x) == 0 <==> forall k :: 0 <= k < |edges| ==> edges[k].from != x && edges[k].to != x
  {
    if edges != [] {
      var init := edges[..|edges| - 1];
      OccurrencesZero(init, x);
      assert forall k :: 0 <= k < |init| ==> init[k] == edges[k];
    }
  }

  /** degrees: one entry per valid id, holding how many edge ends it is. */
  ghost predicate DegreesMatch(degrees: map<string, nat>, ids: set<string>, edges: seq<Edge>)
  {
    degrees.Keys == ids && forall x :: x in ids ==> degrees[x] == Occurrences(edges, x)
  }

  /** The degree table as a value. */
  function DegreeMap(ids: set<string>, edges: seq<Edge>): (degrees: map<string, nat>)
    ensures degrees.Keys == ids
  {
    map x | x in ids :: Occurrences(edges, x)
  }

  lemma DegreesAreMap(degrees: map<string, nat>, ids: set<string>, edges: seq<Edge>)
    requires DegreesMatch(degrees, ids, edges)
    ensures degrees == DegreeMap(ids, edges)
  {
  }

  /** Appending an edge between two valid ids and adding one to the degree
      of each end keeps the table right. */
  lemma DegreesAdd(degrees: map<string, nat>, ids: set<string>, edges: seq<Edge>, e: Edge)
    requires DegreesMatch(degrees, ids, edges) && e.from in ids && e.to in ids
    ensures var bumped := degrees[e.from := degrees[e.from] + 1];
            DegreesMatch(bumped[e.to := bumped[e.to] + 1], ids, edges + [e])
  {
    forall x | x in ids
      ensures Occurrences(edges + [e], x) == Occurrences(edges, x) + Ends(e, x)
    {
      OccurrencesAppend(edges, e, x);
    }
  }

  /** One pass of the parse_dependencies loop: the pair (i, i + 1). */
  method ExaminePair(row: Row, source: string, ids: set<string>, width: nat, i: nat,
                     edges: seq<Edge>, degrees: map<string, nat>)
    returns (edges': seq<Edge>, degrees': map<string, nat>)
    requires source in ids && DegreesMatch(degrees, ids, edges)
    ensures edges' == edges + PairEdges(row, source, ids, width, i)
    ensures DegreesMatch(degrees', ids, edges')
  {
    edges', degrees' := edges, degrees;
    AppendEmpty(edges);
    if i >= width || i + 1 >= width {
      return;
    }
    match PairEdge(row, source, ids, i)
    case None =>
    case Some(e) =>
      DegreesAdd(degrees, ids, edges, e);
      edges' := edges + [e];
      degrees' := degrees[e.from := degrees[e.from] + 1];
      degrees' := degrees'[e.to := degrees'[e.to] + 1];
  }

  /** parse_dependencies(row, start, end): the pairs of range(start, end, 2). */
  method ParseDependencies(row: Row, ids: set<string>, width: nat, start: nat, end: nat,
                           edges: seq<Edge>, degrees: map<string, nat>)
    returns (edges': seq<Edge>, degrees': map<string, nat>)
    requires RowId(row) in ids && DegreesMatch(degrees, ids, edges)
    ensures edges' == edges + RangeEdges(row, RowId(row), ids, width, start, end)
    ensures DegreesMatch(degrees', ids, edges')
  {
    var source := RowId(row);
    edges', degrees' := edges, degrees;
    var i := start;
    while i < end
      invariant edges' + RangeEdges(row, source, ids, width, i, end) == edges + RangeEdges(row, source, ids, width, start, end)
      invariant DegreesMatch(degrees', ids, edges')
      decreases end - i
    {
      ghost var before := edges';
      edges', degrees' := ExaminePair(row, source, ids, width, i, edges', degrees');
      AppendAssoc(before, PairEdges(row, source, ids, width, i), RangeEdges(row, source, ids, width, i + 2, end));
      i := i + 2;
    }
    AppendEmpty(edges');
  }

  /** One row of the first loop of create_network_data. */
  method ProcessRow(row: Row, ids: set<string>, width: nat, start1: nat, end1: nat, start2: nat, end2: nat,
                    edges: seq<Edge>, degrees: map<string, nat>)
    returns (edges': seq<Edge>, degrees': map<string, nat>)
    requires start1 == Params1Start && end1 == Params1End && start2 == Params2Start && end2 == Params2End
    requires RowId(row) in ids && DegreesMatch(degrees, ids, edges)
    ensures edges' == edges + RowEdges(row, ids, width)
    ensures DegreesMatch(degrees', ids, edges')
  {
    ghost var first := RangeEdges(row, RowId(row), ids, width, Params1Start, Params1End);
    edges', degrees' := ParseDependencies(row, ids, width, start1, end1, edges, degrees);
    if Contains(Str(CellAt(row, 2)), SeriesWord) {
      edges', degrees' := ParseDependencies(row, ids, width, start2, end2, edges', degrees');
      AppendAssoc(edges, first, RangeEdges(row, RowId(row), ids, width, Params2Start, Params2End));
    } else {
      AppendEmpty(first);
    }
  }

  /** The fill colour: series first, then items, blue otherwise. */
  function DiagramColor(itemType: string): (color: string)
    ensures color == SeriesColor <==> Contains(itemType, SeriesWord)
    ensures color == ItemColor <==> !Contains(itemType, SeriesWord) && Contains(itemType, ItemWord)
    ensures color == PlainColor <==> !Contains(itemType, SeriesWord) && !Contains(itemType, ItemWord)
  {
    if Contains(itemType, SeriesWord) then SeriesColor
    else if Contains(itemType, ItemWord) then ItemColor
    else PlainColor
  }

  /** The hover text of a node. */
  function Title(name: string, id: string, itemType: string): string
  {
    "<b>" + name + "</b><br>ID: " + id + "<br>Type: " + itemType
  }

  /** The node of a valid row, sized by the degree table. */
  function NodeOf(row: Row, degrees: map<string, nat>): (node: Node)
    ensures node.id == RowId(row)
    ensures node.radius >= 5 && node.radius % 2 == 1
    ensures node.radius == 5 <==> RowId(row) !in degrees || degrees[RowId(row)] == 0
  {
    var id := RowId(row);
    var name := Str(CellAt(row, 1));
    var itemType := Str(CellAt(row, 2));
    var degree := if id in degrees then degrees[id] else 0;
    Node(id, name, Title(name, id, itemType), 5 + degree * 2, DiagramColor(itemType))
  }

  /** The nodes of the valid rows, in order. */
  function NodesOf(valid: seq<Row>, degrees: map<string, nat>): (nodes: seq<Node>)
    ensures |nodes| == |valid|
  {
    if valid == [] then [] else NodesOf(valid[..|valid| - 1], degrees) + [NodeOf(valid[|valid| - 1], degrees)]
  }

  lemma {:induction false} NodesOfAt(valid: seq<Row>, degrees: map<string, nat>, k: nat)
    requires k < |valid|
    ensures NodesOf(valid, degrees)[k] == NodeOf(valid[k], degrees)
  {
    if k < |valid| - 1 {
      NodesOfAt(valid[..|valid| - 1], degrees, k);
    }
  }

  /** The second loop of create_network_data: one node per valid row. */
  method BuildNodes(valid: seq<Row>, degrees: map<string, nat>) returns (nodes: seq<Node>)
    ensures nodes == NodesOf(valid, degrees)
  {
    nodes := [];
    var i := 0;
    while i < |valid|
      invariant i <= |valid|
      invariant nodes == NodesOf(valid[..i], degrees)
    {
      PrefixStep(valid, i);
      assert valid[..i + 1][..i] == valid[..i];
      nodes := nodes + [NodeOf(valid[i], degrees)];
      i := i + 1;
    }
    assert valid[..i] == valid;
  }

  /** Before the first row: no edges, every valid id at degree 0. */
  lemma NoEdgesYet(ids: set<string>)
    ensures DegreesMatch(map x | x in ids :: 0, ids, [])
  {
  }

  /** The first loop of create_network_data, with the degree table it fills. */
  method CollectEdges(valid: seq<Row>, ids: set<string>, width: nat) returns (edges: seq<Edge>, degrees: map<string, nat>)
    requires ids == ValidIds(valid)
    ensures edges == EdgesUpTo(valid, ids, width, |valid|)
    ensures DegreesMatch(degrees, ids, edges)
  {
    degrees := map x | x in ids :: 0;
    NoEdgesYet(ids);
    var start1 := GetColumnIndex("DF");
    var end1 := GetColumnIndex("HV");
    var start2 := GetColumnIndex("HW");
    var end2 := GetColumnIndex("MN");
    ColumnIndexValues();
    edges := [];
    var n := 0;
    while n < |valid|
      invariant n <= |valid|
      invariant edges == EdgesUpTo(valid, ids, width, n)
      invariant DegreesMatch(degrees, ids, edges)
    {
      ValidIdIn(valid, n);
      edges, degrees := ProcessRow(valid[n], ids, width, start1, end1, start2, end2, edges, degrees);
      n := n + 1;
    }
  }

  /** create_network_data: the edges of all valid rows with their degrees, then the nodes. */
  method CreateNetworkData(rows: seq<Row>, width: nat) returns (nodes: seq<Node>, edges: seq<Edge>)
    ensures edges == AllEdges(rows, width)
    ensures nodes == NodesOf(ValidRows(rows), DegreeMap(ValidIds(ValidRows(rows)), edges))
  {
    var valid := ValidRows(rows);
    var ids := ValidIds(valid);
    var degrees;
    edges, degrees := CollectEdges(valid, ids, width);
    DegreesAreMap(degrees, ids, edges);
    nodes := BuildNodes(valid, degrees);
  }

  /** One node per valid row, in order, each carrying its row's id, a
      radius of 5 plus twice its number of edge ends, and the colour of its
      row's type. */
  lemma NodesFollowRows(valid: seq<Row>, edges: seq<Edge>, k: nat)
    requires k < |valid|
    ensures NodesOf(valid, DegreeMap(ValidIds(valid), edges))[k].id == RowId(valid[k])
    ensures NodesOf(valid, DegreeMap(ValidIds(valid), edges))[k].radius == 5 + 2 * Occurrences(edges, RowId(valid[k]))
    ensures NodesOf(valid, DegreeMap(ValidIds(valid), edges))[k].color == DiagramColor(Str(CellAt(valid[k], 2)))
  {
    NodesOfAt(valid, DegreeMap(ValidIds(valid), edges), k);
    ValidIdIn(valid, k);
  }

  /** The node ids are exactly the valid ids. */
  lemma NodesIds(valid: seq<Row>, degrees: map<string, nat>)
    ensures (set k | 0 <= k < |NodesOf(valid, degrees)| :: NodesOf(valid, degrees)[k].id) == ValidIds(valid)
  {
    var nodes := NodesOf(valid, degrees);
    forall k | 0 <= k < |nodes|
      ensures nodes[k].id == RowId(valid[k])
    {
      NodesOfAt(valid, degrees, k);
    }
    var shown := set k | 0 <= k < |nodes| :: nodes[k].id;
    forall x | x in ValidIds(valid)
      ensures x in shown
    {
      var k :| 0 <= k < |valid| && RowId(valid[k]) == x;
      assert nodes[k].id == x;
    }
  }

  /** How often x occurs in keys. */
  function Marks(keys: seq<string>, x: string): nat
  {
    if keys == [] then 0 else (if keys[0] == x then 1 else 0) + Marks(keys[1..], x)
  }

  predicate Distinct(keys: seq<string>)
  {
    forall i, j :: 0 <= i < j < |keys| ==> keys[i] != keys[j]
  }

  lemma {:induction false} MarksOnce(keys: seq<string>, x: string)
    requires Distinct(keys)
    ensures Marks(keys, x) == (if x in keys then 1 else 0)
  {
    if keys != [] {
      assert Distinct(keys[1..]) by {
        forall i, j | 0 <= i < j < |keys[1..]| ensures keys[1..][i] != keys[1..][j] {
          assert keys[1..][i] == keys[i + 1] && keys[1..][j] == keys[j + 1];
        }
      }
      MarksOnce(keys[1..], x);
      if keys[0] == x {
        forall j | 0 <= j < |keys[1..]| ensures keys[1..][j] != x {
          assert keys[1..][j] == keys[j + 1];
        }
      }
      assert x in keys <==> keys[0] == x || x in keys[1..];
    }
  }

  /** The sum of the degrees of keys. */
  function DegreeTotal(degrees: map<string, nat>, keys: seq<string>): int
    requires forall i :: 0 <= i < |keys| ==> keys[i] in degrees
  {
    if keys == [] then 0 else degrees[keys[0]] + DegreeTotal(degrees, keys[1..])
  }

  function SumOccurrences(keys: seq<string>, edges: seq<Edge>): int
  {
    if keys == [] then 0 else Occurrences(edges, keys[0]) + SumOccurrences(keys[1..], edges)
  }

  lemma {:induction false} TotalIsOccurrences(degrees: map<string, nat>, ids: set<string>, edges: seq<Edge>, keys: seq<string>)
    requires DegreesMatch(degrees, ids, edges) && forall i :: 0 <= i < |keys| ==> keys[i] in ids
    ensures DegreeTotal(degrees, keys) == SumOccurrences(keys, edges)
  {
    if keys != [] {
      TotalIsOccurrences(degrees, ids, edges, keys[1..]);
    }
  }

  lemma {:induction false} SumOccurrencesStep(keys: seq<string>, edges: seq<Edge>, e: Edge)
    ensures SumOccurrences(keys, edges + [e]) == SumOccurrences(keys, edges) + Marks(keys, e.from) + Marks(keys, e.to)
  {
    if keys != [] {
      SumOccurrencesStep(keys[1..], edges, e);
      OccurrencesAppend(edges, e, keys[0]);
    }
  }

  lemma {:induction false} SumOccurrencesTotal(keys: seq<string>, edges: seq<Edge>)
    requires Distinct(keys)
    requires forall k :: 0 <= k < |edges| ==> edges[k].from in keys && edges[k].to in keys
    ensures SumOccurrences(keys, edges) == 2 * |edges|
  {
    if edges == [] {
      SumOccurrencesEmpty(keys);
    } else {
      var init := edges[..|edges| - 1];
      var last := edges[|edges| - 1];
      assert forall k :: 0 <= k < |init| ==> init[k] == edges[k];
      SumOccurrencesTotal(keys, init);
      assert edges == init + [last];
      SumOccurrencesStep(keys, init, last);
      MarksOnce(keys, last.from);
      MarksOnce(keys, last.to);
    }
  }

  lemma {:induction false} SumOccurrencesEmpty(keys: seq<string>)
    ensures SumOccurrences(keys, []) == 0
  {
    if keys != [] {
      SumOccurrencesEmpty(keys[1..]);
    }
  }

  /** Handshake: listing every valid id once, the degrees add up to twice
      the number of edges. */
  lemma DegreeSum(degrees: map<string, nat>, ids: set<string>, edges: seq<Edge>, keys: seq<string>)
    requires DegreesMatch(degrees, ids, edges)
    requires Distinct(keys) && forall x :: x in keys <==> x in ids
    requires forall k :: 0 <= k < |edges| ==> edges[k].from in ids && edges[k].to in ids
    ensures DegreeTotal(degrees, keys) == 2 * |edges|
  {
    TotalIsOccurrences(degrees, ids, edges, keys);
    SumOccurrencesTotal(keys, edges);
  }

  /** The degrees create_network_data sizes its nodes by add up to twice its edge count. */
  lemma NetworkDegreeSum(rows: seq<Row>, width: nat, keys: seq<string>)
    requires Distinct(keys) && forall x :: x in keys <==> x in ValidIds(ValidRows(rows))
    ensures DegreeTotal(DegreeMap(ValidIds(ValidRows(rows)), AllEdges(rows, width)), keys) == 2 * |AllEdges(rows, width)|
  {
    var ids := ValidIds(ValidRows(rows));
    var edges := AllEdges(rows, width);
    EdgesClosed(rows, width);
    assert forall k :: 0 <= k < |edges| ==> edges[k] in edges;
    DegreeSum(DegreeMap(ids, edges), ids, edges, keys);
  }

  /** Concrete colours: series wins over item, anything else is blue. */
  lemma DiagramColorValues()
    ensures DiagramColor("Series") == SeriesColor
    ensures DiagramColor("Item") == ItemColor
    ensures DiagramColor("nan") == PlainColor
  {
    assert "Series"[..6] == "Series";
    assert "Item"[..4] == "Item";
  }
}
