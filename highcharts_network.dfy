/** create_network_data of the Highcharts script: one node per row with an
    id, and one edge per non-empty cell of the two dependency ranges,
    pointing from the named dependency to the row's item. */
module HighchartsNetwork {
  import opened Cells
  import opened ColumnAddress
  import opened NodeColors
  import D = DiagramNetwork

  /** One node of the chart; every marker has the same radius. */
  datatype Node = Node(id: string, name: string, title: string, color: string, radius: int)

  /** range(DF, HV + 1) and range(HW, MN + 1): here the last column is included. */
  const Range1First: nat := 109
  const Range1Last: nat := 229
  const Range2First: nat := 230
  const Range2Last: nat := 351

  const MarkerRadius: int := 8
  const DependencyName: string := "Dependency"

  /** The rows the loop skips: a missing id or an empty id string. */
  predicate Skipped(row: Row)
  {
    CellAt(row, 0).Blank? || CellAt(row, 0) == Text("")
  }

  /** The rows that give a node, in order. */
  function KeptRows(rows: seq<Row>): (kept: seq<Row>)
    ensures |kept| <= |rows|
    ensures forall k :: 0 <= k < |kept| ==> !Skipped(kept[k])
  {
    if rows == [] then []
    else KeptRows(rows[..|rows| - 1]) + (if Skipped(rows[|rows| - 1]) then [] else [rows[|rows| - 1]])
  }

  /** A row gives a node exactly when its id is present and not empty. */
  lemma {:induction false} KeptRowsSpec(rows: seq<Row>)
    ensures forall r :: r in KeptRows(rows) <==> r in rows && !Skipped(r)
  {
    if rows != [] {
      KeptRowsSpec(rows[..|rows| - 1]);
      assert rows == rows[..|rows| - 1] + [rows[|rows| - 1]];
    }
  }

  /** The hover text, built from the raw values (a missing one prints "nan"). */
  function Title(row: Row): string
  {
    "ID: " + RowId(row) + "<br>Name: " + Str(CellAt(row, 1)) + "<br>Type: " + Str(CellAt(row, 2))
  }

  /** The node of a kept row. */
  function NodeOf(row: Row): Node
  {
    var id := RowId(row);
    var name := if !CellAt(row, 1).Blank? then Str(CellAt(row, 1)) else id;
    Node(id, name, Title(row), TypeColor(CellAt(row, 2)), MarkerRadius)
  }

  /** The nodes of the kept rows, in order. */
  function NodesOf(kept: seq<Row>): (nodes: seq<Node>)
    ensures |nodes| == |kept|
  {
    if kept == [] then [] else NodesOf(kept[..|kept| - 1]) + [NodeOf(kept[|kept| - 1])]
  }

  lemma {:induction false} NodesOfAt(kept: seq<Row>, k: nat)
    requires k < |kept|
    ensures NodesOf(kept)[k] == NodeOf(kept[k])
  {
    if k < |kept| - 1 {
      NodesOfAt(kept[..|kept| - 1], k);
    }
  }

  /** Every node carries its row's id, falls back to the id for a missing
      name, is coloured by get_node_color and has radius 8. */
  lemma NodeFacts(kept: seq<Row>, k: nat)
    requires k < |kept|
    ensures NodesOf(kept)[k].id == RowId(kept[k])
    ensures NodesOf(kept)[k].name == (if CellAt(kept[k], 1).Blank? then RowId(kept[k]) else Str(CellAt(kept[k], 1)))
    ensures NodesOf(kept)[k].color == TypeColor(CellAt(kept[k], 2))
    ensures NodesOf(kept)[k].radius == MarkerRadius
  {
    NodesOfAt(kept, k);
  }

  /** Column c holds a dependency: inside the row, present, and not blank once stripped. */
  predicate IsDependency(row: Row, width: nat, c: nat)
  {
    c < width && !CellAt(row, c).Blank? && Strip(Str(CellAt(row, c))) != ""
  }

  /** The edge column c of a row gives, if any. */
  function ColumnEdges(row: Row, width: nat, c: nat): seq<D.Edge>
  {
    if IsDependency(row, width, c) then [D.Edge(Str(CellAt(row, c)), RowId(row), DependencyName)] else []
  }

  /** The edges of columns c through last, in column order. */
  function RangeEdges(row: Row, width: nat, c: nat, last: nat): seq<D.Edge>
    decreases last + 1 - c
  {
    if c > last then [] else ColumnEdges(row, width, c) + RangeEdges(row, width, c + 1, last)
  }

  /** An edge of a range comes from a dependency column of that range. */
  lemma {:induction false} RangeEdgesSound(row: Row, width: nat, c: nat, last: nat, e: D.Edge) returns (col: nat)
    requires e in RangeEdges(row, width, c, last)
    ensures c <= col <= last && IsDependency(row, width, col)
    ensures e == D.Edge(Str(CellAt(row, col)), RowId(row), DependencyName)
    decreases last + 1 - c
  {
    if c > last {
      assert false;
    } else if e in ColumnEdges(row, width, c) {
      col := c;
    } else {
      col := RangeEdgesSound(row, width, c + 1, last, e);
    }
  }

  /** Every dependency column of a range gives its edge. */
  lemma {:induction false} RangeEdgesComplete(row: Row, width: nat, c: nat, last: nat, col: nat)
    requires c <= col <= last && IsDependency(row, width, col)
    ensures D.Edge(Str(CellAt(row, col)), RowId(row), DependencyName) in RangeEdges(row, width, c, last)
    decreases last + 1 - c
  {
    if col != c {
      RangeEdgesComplete(row, width, c + 1, last, col);
    }
  }

  /** One edge per dependency column: the count of a range. */
  function DependencyCount(row: Row, width: nat, c: nat, last: nat): nat
    decreases last + 1 - c
  {
    if c > last then 0 else (if IsDependency(row, width, c) then 1 else 0) + DependencyCount(row, width, c + 1, last)
  }

  lemma {:induction false} RangeEdgesCount(row: Row, width: nat, c: nat, last: nat)
    ensures |RangeEdges(row, width, c, last)| == DependencyCount(row, width, c, last)
    decreases last + 1 - c
  {
    if c <= last {
      RangeEdgesCount(row, width, c + 1, last);
    }
  }

  /** Columns past the end of the row give nothing. */
  lemma {:induction false} RangeEdgesBeyondWidth(row: Row, width: nat, c: nat, last: nat)
    requires width <= c
    ensures RangeEdges(row, width, c, last) == []
    decreases last + 1 - c
  {
    if c <= last {
      RangeEdgesBeyondWidth(row, width, c + 1, last);
    }
  }

  /** The edges one kept row contributes: both ranges, whatever the row's type. */
  function RowEdges(row: Row, width: nat): seq<D.Edge>
  {
    RangeEdges(row, width, Range1First, Range1Last) + RangeEdges(row, width, Range2First, Range2Last)
  }

  /** A kept row gives one edge per dependency cell of its two ranges. */
  lemma RowEdgesCount(row: Row, width: nat)
    ensures |RowEdges(row, width)| == DependencyCount(row, width, Range1First, Range1Last)
                                      + DependencyCount(row, width, Range2First, Range2Last)
  {
    RangeEdgesCount(row, width, Range1First, Range1Last);
    RangeEdgesCount(row, width, Range2First, Range2Last);
  }

  /** Every edge of a row points from a dependency cell of one of the two
      ranges to the row's own id, and every such cell gives one. */
  lemma RowEdgesSpec(row: Row, width: nat, e: D.Edge)
    ensures e in RowEdges(row, width) <==>
            exists col :: && ((Range1First <= col <= Range1Last) || (Range2First <= col <= Range2Last))
                          && IsDependency(row, width, col)
                          && e == D.Edge(Str(CellAt(row, col)), RowId(row), DependencyName)
  {
    if e in RangeEdges(row, width, Range1First, Range1Last) {
      var col := RangeEdgesSound(row, width, Range1First, Range1Last, e);
    } else if e in RangeEdges(row, width, Range2First, Range2Last) {
      var col := RangeEdgesSound(row, width, Range2First, Range2Last, e);
    }
    if exists col :: && ((Range1First <= col <= Range1Last) || (Range2First <= col <= Range2Last))
                     && IsDependency(row, width, col)
                     && e == D.Edge(Str(CellAt(row, col)), RowId(row), DependencyName) {
      var col :| && ((Range1First <= col <= Range1Last) || (Range2First <= col <= Range2Last))
                 && IsDependency(row, width, col)
                 && e == D.Edge(Str(CellAt(row, col)), RowId(row), DependencyName);
      if col <= Range1Last {
        RangeEdgesComplete(row, width, Range1First, Range1Last, col);
      } else {
        RangeEdgesComplete(row, width, Range2First, Range2Last, col);
      }
    }
  }

  /** The edges of the kept rows, in order. */
  function EdgesOf(kept: seq<Row>, width: nat): seq<D.Edge>
  {
    if kept == [] then [] else EdgesOf(kept[..|kept| - 1], width) + RowEdges(kept[|kept| - 1], width)
  }

  /** Every edge ends at the item of a kept row, so at a node. */
  lemma {:induction false} EdgesEndAtNodes(kept: seq<Row>, width: nat, e: D.Edge) returns (k: nat)
    requires e in EdgesOf(kept, width)
    ensures k < |kept| && e.to == RowId(kept[k]) && e.name == DependencyName
  {
    if kept == [] {
      assert false;
    } else {
      var init := kept[..|kept| - 1];
      if e in EdgesOf(init, width) {
        k := EdgesEndAtNodes(init, width, e);
        assert init[k] == kept[k];
      } else {
        k := |kept| - 1;
        RowEdgesSpec(kept[k], width, e);
      }
    }
  }

  /** The nodes and edges after one row more. */
  lemma NextRow(rows: seq<Row>, n: nat, width: nat)
    requires n < |rows|
    ensures NodesOf(KeptRows(rows[..n + 1])) == NodesOf(KeptRows(rows[..n])) + (if Skipped(rows[n]) then [] else [NodeOf(rows[n])])
    ensures EdgesOf(KeptRows(rows[..n + 1]), width) == EdgesOf(KeptRows(rows[..n]), width) + (if Skipped(rows[n]) then [] else RowEdges(rows[n], width))
  {
    var kept := KeptRows(rows[..n]);
    assert rows[..n + 1][..n] == rows[..n];
    if Skipped(rows[n]) {
      AppendEmpty(kept);
      AppendEmpty(NodesOf(kept));
      AppendEmpty(EdgesOf(kept, width));
    } else {
      assert (kept + [rows[n]])[..|kept|] == kept;
    }
  }

  /** One column of a dependency range. */
  method ScanColumn(row: Row, width: nat, itemId: string, col: nat, edges: seq<D.Edge>) returns (edges': seq<D.Edge>)
    requires itemId == RowId(row)
    ensures edges' == edges + ColumnEdges(row, width, col)
  {
    edges' := edges;
    AppendEmpty(edges);
    if col < width {
      var depValue := CellAt(row, col);
      if !depValue.Blank? && Strip(Str(depValue)) != "" {
        edges' := edges + [D.Edge(Str(depValue), itemId, DependencyName)];
      }
    }
  }

  /** The loop over range(first, last + 1). */
  method ScanRange(row: Row, width: nat, itemId: string, first: nat, last: nat, edges: seq<D.Edge>)
    returns (edges': seq<D.Edge>)
    requires itemId == RowId(row)
    ensures edges' == edges + RangeEdges(row, width, first, last)
  {
    edges' := edges;
    var col := first;
    while col < last + 1
      invariant edges' + RangeEdges(row, width, col, last) == edges + RangeEdges(row, width, first, last)
      decreases last + 1 - col
    {
      ghost var before := edges';
      edges' := ScanColumn(row, width, itemId, col, edges');
      AppendAssoc(before, ColumnEdges(row, width, col), RangeEdges(row, width, col + 1, last));
      col := col + 1;
    }
    AppendEmpty(edges');
  }

  /** One row of create_network_data: its node, then its two ranges. */
  method AddItem(row: Row, width: nat, start1: nat, end1: nat, start2: nat, end2: nat,
                 nodes: seq<Node>, edges: seq<D.Edge>)
    returns (nodes': seq<Node>, edges': seq<D.Edge>)
    requires start1 == Range1First && end1 == Range1Last && start2 == Range2First && end2 == Range2Last
    ensures nodes' == nodes + (if Skipped(row) then [] else [NodeOf(row)])
    ensures edges' == edges + (if Skipped(row) then [] else RowEdges(row, width))
  {
    nodes', edges' := nodes, edges;
    AppendEmpty(nodes);
    AppendEmpty(edges);
    var itemId := CellAt(row, 0);
    if itemId.Blank? || itemId == Text("") {
      return;
    }
    nodes' := nodes + [NodeOf(row)];
    var id := Str(itemId);
    edges' := ScanRange(row, width, id, start1, end1, edges);
    edges' := ScanRange(row, width, id, start2, end2, edges');
    AppendAssoc(edges, RangeEdges(row, width, Range1First, Range1Last), RangeEdges(row, width, Range2First, Range2Last));
  }

  /** create_network_data: the nodes and edges of every kept row, in row order. */
  method CreateNetworkData(rows: seq<Row>, width: nat) returns (nodes: seq<Node>, edges: seq<D.Edge>)
    ensures nodes == NodesOf(KeptRows(rows))
    ensures edges == EdgesOf(KeptRows(rows), width)
  {
    var start1 := GetColumnIndex("DF");
    var end1 := GetColumnIndex("HV");
    var start2 := GetColumnIndex("HW");
    var end2 := GetColumnIndex("MN");
    ColumnIndexValues();
    nodes, edges := [], [];
    var n := 0;
    while n < |rows|
      invariant n <= |rows|
      invariant nodes == NodesOf(KeptRows(rows[..n]))
      invariant edges == EdgesOf(KeptRows(rows[..n]), width)
    {
      nodes, edges := AddItem(rows[n], width, start1, end1, start2, end2, nodes, edges);
      NextRow(rows, n, width);
      n := n + 1;
    }
    assert rows[..n] == rows;
  }
}
