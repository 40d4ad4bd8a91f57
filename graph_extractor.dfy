/** The row loop of build_relationship_graph: each row gives an item (its
    id, display name, label, type and colour) and the dependencies listed in
    the two parameter column ranges, which become edges of the two
    adjacency maps. */
module GraphExtractor {
  import opened Cells
  import opened ColumnAddress
  import opened NodeColors
  import opened Graphs
  import opened SchemaDetector

  /** Columns DF..HV and HW..MN, both ends included. */
  const Params1Start: nat := 109
  const Params1End: nat := 229
  const Params2Start: nat := 230
  const Params2End: nat := 351

  const NameSeparator: string := " - "

  /** The column letters of the two ranges name these indices. */
  lemma ParameterColumns()
    ensures ColumnIndex("DF") == Params1Start && ColumnIndex("HV") == Params1End
    ensures ColumnIndex("HW") == Params2Start && ColumnIndex("MN") == Params2End
  {
    ColumnIndexValues();
  }

  // ------------------------------------------------------------------ one item

  /** A detected column that lies inside the row and holds a value. */
  predicate Present(row: Row, col: Option<nat>, width: nat)
  {
    col.Some? && col.value < width && !CellAt(row, col.value).Blank?
  }

  /** str(value).strip() of a column. */
  function StrippedAt(row: Row, c: nat): string
  {
    Strip(Str(CellAt(row, c)))
  }

  /** The canonical item id: the id_item column when present, else column 0
      (a missing cell there reads "nan"). */
  function ItemId(row: Row, schema: Schema, width: nat): string
  {
    if Present(row, schema.idItem, width) then StrippedAt(row, schema.idItem.value) else StrippedAt(row, 0)
  }

  /** The raw name parts: id, then event and group when present, then the
      item_name column or, failing that, column 1 when it holds a value. The
      first part repeats the id test, so it is always the id. */
  function NameParts(row: Row, schema: Schema, width: nat): (parts: seq<string>)
    ensures parts != [] && parts[0] == ItemId(row, schema, width)
  {
    [ItemId(row, schema, width)]
    + (if Present(row, schema.idEvent, width) then [StrippedAt(row, schema.idEvent.value)] else [])
    + (if Present(row, schema.displayGroup, width) then [StrippedAt(row, schema.displayGroup.value)] else [])
    + (if Present(row, schema.itemName, width) then [StrippedAt(row, schema.itemName.value)]
       else if !CellAt(row, 1).Blank? then [StrippedAt(row, 1)]
       else [])
  }

  /** [p for p in parts if p]. */
  function NonEmpty(parts: seq<string>): (r: seq<string>)
    ensures forall k :: 0 <= k < |r| ==> r[k] != ""
    ensures forall p :: p in r <==> p in parts && p != ""
    ensures parts != [] && parts[0] != "" ==> r != [] && r[0] == parts[0]
  {
    if parts == [] then []
    else (if parts[0] == "" then [] else [parts[0]]) + NonEmpty(parts[1..])
  }

  /** list(dict.fromkeys(parts)): each value at its first occurrence. */
  function Dedup(parts: seq<string>): seq<string>
  {
    DedupFrom(parts, {})
  }

  /** The same, with the values in seen already taken. */
  function DedupFrom(parts: seq<string>, seen: set<string>): (r: seq<string>)
    ensures forall p :: p in r <==> p in parts && p !in seen
    ensures forall i, j :: 0 <= i < j < |r| ==> r[i] != r[j]
    ensures parts != [] && parts[0] !in seen ==> r != [] && r[0] == parts[0]
  {
    if parts == [] then []
    else if parts[0] in seen then DedupFrom(parts[1..], seen)
    else [parts[0]] + DedupFrom(parts[1..], seen + {parts[0]})
  }

  /** Deduplicating a list with no repeats gives it back unchanged; with the
      contract above this makes Dedup idempotent. */
  lemma {:induction false} DedupDistinct(parts: seq<string>, seen: set<string>)
    requires forall i, j :: 0 <= i < j < |parts| ==> parts[i] != parts[j]
    requires forall k :: 0 <= k < |parts| ==> parts[k] !in seen
    ensures DedupFrom(parts, seen) == parts
  {
    if parts != [] {
      DedupDistinct(parts[1..], seen + {parts[0]});
    }
  }

  lemma DedupIdempotent(parts: seq<string>)
    ensures Dedup(Dedup(parts)) == Dedup(parts)
  {
    DedupDistinct(Dedup(parts), {});
  }

  /** sep.join(parts). */
  function Join(parts: seq<string>, sep: string): (r: string)
    ensures |parts| == 1 ==> r == parts[0]
  {
    if parts == [] then ""
    else if |parts| == 1 then parts[0]
    else parts[0] + sep + Join(parts[1..], sep)
  }

  /** A joined list starts with its first part and ends with its last. */
  lemma {:induction false} JoinEnds(parts: seq<string>, sep: string)
    requires parts != []
    ensures var r := Join(parts, sep);
            && |parts[0]| <= |r| && r[..|parts[0]|] == parts[0]
            && |parts[|parts| - 1]| <= |r| && r[|r| - |parts[|parts| - 1]|..] == parts[|parts| - 1]
  {
    if |parts| > 1 {
      JoinEnds(parts[1..], sep);
      var rest := Join(parts[1..], sep);
      assert parts[1..][|parts[1..]| - 1] == parts[|parts| - 1];
      var r := parts[0] + sep + rest;
      assert r[..|parts[0]|] == parts[0];
      assert r[|r| - |rest|..] == rest;
    }
  }

  /** The all_items entry of a row. */
  function RowInfo(row: Row, schema: Schema, width: nat): ItemInfo
  {
    var unique := Dedup(NonEmpty(NameParts(row, schema, width)));
    var itemType := CellAt(row, 2);
    ItemInfo(
      Join(unique, NameSeparator),
      if unique != [] then unique[|unique| - 1] else ItemId(row, schema, width),
      if itemType.Blank? then "Unknown" else Str(itemType),
      TypeColor(itemType))
  }

  /** For a row that is kept (non-empty id): the display name starts with the
      id and ends with the node label, which is one of the name parts and
      the id itself when no other part is present; the type reads "Unknown"
      exactly for a missing type; the colour is the type's colour. */
  lemma RowInfoSpec(row: Row, schema: Schema, width: nat)
    requires ItemId(row, schema, width) != ""
    ensures var info := RowInfo(row, schema, width);
            var id := ItemId(row, schema, width);
            && |id| <= |info.name| && info.name[..|id|] == id
            && |info.nodeName| <= |info.name| && info.name[|info.name| - |info.nodeName|..] == info.nodeName
            && info.nodeName in NameParts(row, schema, width) && info.nodeName != ""
            && (info.itemType == "Unknown" <== CellAt(row, 2).Blank?)
            && (!CellAt(row, 2).Blank? ==> info.itemType == Str(CellAt(row, 2)))
            && info.color == TypeColor(CellAt(row, 2))
  {
    var unique := Dedup(NonEmpty(NameParts(row, schema, width)));
    JoinEnds(unique, NameSeparator);
    assert unique[|unique| - 1] in unique;
  }

  // ------------------------------------------------------------ dependencies

  /** A dependency cell: inside the row, present and not blank once stripped. */
  predicate HasDependency(row: Row, c: nat, width: nat)
  {
    c < width && !CellAt(row, c).Blank? && StrippedAt(row, c) != ""
  }

  /** The id part of a dependency, before its first colon. */
  function DepId(row: Row, c: nat): string
  {
    BeforeFirst(StrippedAt(row, c), ':')
  }

  /** The dependency id a column gives, if any. */
  function DepAt(row: Row, c: nat, width: nat): Option<string>
  {
    if HasDependency(row, c, width) then Some(DepId(row, c)) else None
  }

  /** What each column up to the end of the second range gives. The sets
      below are built from these, so that their proofs never look inside a
      cell. */
  function DepCells(row: Row, width: nat): (cells: seq<Option<string>>)
    ensures |cells| == Params2End + 1
  {
    seq(Params2End + 1, c requires 0 <= c <= Params2End => DepAt(row, c, width))
  }

  function CellDep(cells: seq<Option<string>>, c: nat): Option<string>
  {
    if c < |cells| then cells[c] else None
  }

  /** The dependency ids given by columns lo until hi. */
  function DepsBetween(cells: seq<Option<string>>, lo: nat, hi: nat): set<string>
    decreases hi
  {
    if hi <= lo then {}
    else DepsBetween(cells, lo, hi - 1) + (if CellDep(cells, hi - 1).Some? then {CellDep(cells, hi - 1).value} else {})
  }

  /** A dependency id of a range is what one of its columns gives. */
  lemma {:induction false} DepsBetweenSpec(cells: seq<Option<string>>, lo: nat, hi: nat, d: string)
    ensures d in DepsBetween(cells, lo, hi) <==> exists c :: lo <= c < hi && CellDep(cells, c) == Some(d)
    decreases hi
  {
    if hi > lo {
      DepsBetweenSpec(cells, lo, hi - 1, d);
    }
  }

  /** Both parameter ranges. */
  function RowDeps(row: Row, width: nat): set<string>
  {
    DepsBetween(DepCells(row, width), Params1Start, Params1End + 1)
    + DepsBetween(DepCells(row, width), Params2Start, Params2End + 1)
  }

  /** The edges from each dependency to one item. */
  function Edges(deps: set<string>, id: string): (e: set<(string, string)>)
    ensures forall a, b :: (a, b) in e <==> a in deps && b == id
  {
    set d | d in deps :: (d, id)
  }

  /** What one row contributes: its id, its all_items entry and its
      dependency ids. */
  datatype RowEntry = RowEntry(id: string, info: ItemInfo, deps: set<string>)

  function Entry(row: Row, schema: Schema, width: nat): RowEntry
  {
    RowEntry(ItemId(row, schema, width), RowInfo(row, schema, width), RowDeps(row, width))
  }

  /** The entries of the rows, in order. */
  function Entries(rows: seq<Row>, schema: Schema, width: nat): (entries: seq<RowEntry>)
    ensures |entries| == |rows|
  {
    seq(|rows|, i requires 0 <= i < |rows| => Entry(rows[i], schema, width))
  }

  lemma EntryAt(rows: seq<Row>, schema: Schema, width: nat, i: nat)
    requires i < |rows|
    ensures Entries(rows, schema, width)[i] == Entry(rows[i], schema, width)
  {
  }

  /** The edges of a row; a row with an empty id is skipped. */
  function EntryPairs(e: RowEntry): set<(string, string)>
  {
    if e.id == "" then {} else Edges(e.deps, e.id)
  }

  /** The edges of the first n rows. */
  ghost function PairsUpTo(entries: seq<RowEntry>, n: nat): set<(string, string)>
    requires n <= |entries|
  {
    if n == 0 then {} else PairsUpTo(entries, n - 1) + EntryPairs(entries[n - 1])
  }

  /** all_items[id] = info for a kept row; a row with an empty id leaves
      the table alone. */
  function Record(m: map<string, ItemInfo>, e: RowEntry): map<string, ItemInfo>
  {
    if e.id == "" then m else m[e.id := e.info]
  }

  /** all_items after the first n rows: later rows with the same id win. */
  function ItemsUpTo(entries: seq<RowEntry>, n: nat): map<string, ItemInfo>
    requires n <= |entries|
  {
    if n == 0 then map[] else Record(ItemsUpTo(entries, n - 1), entries[n - 1])
  }

  /** An edge of the first n rows is a dependency listed by some kept row
      whose id is the edge's second end. */
  lemma {:induction false} PairsUpToSpec(entries: seq<RowEntry>, n: nat, a: string, b: string)
    requires n <= |entries|
    ensures (a, b) in PairsUpTo(entries, n) <==>
              b != "" && exists i :: 0 <= i < n && entries[i].id == b && a in entries[i].deps
  {
    if n > 0 {
      PairsUpToSpec(entries, n - 1, a, b);
    }
  }

  /** The items are the kept ids, each with the information of the last row
      that has it. */
  lemma {:induction false} ItemsUpToSpec(entries: seq<RowEntry>, n: nat, k: string)
    requires n <= |entries|
    ensures k in ItemsUpTo(entries, n) <==> k != "" && exists i :: 0 <= i < n && entries[i].id == k
    ensures k in ItemsUpTo(entries, n) ==>
              exists i :: && 0 <= i < n && entries[i].id == k && ItemsUpTo(entries, n)[k] == entries[i].info
                          && forall j :: i < j < n ==> entries[j].id != k
  {
    if n > 0 {
      ItemsUpToSpec(entries, n - 1, k);
      if entries[n - 1].id == k && k != "" {
        assert ItemsUpTo(entries, n)[k] == entries[n - 1].info;
      }
    }
  }

  /** Every item that depends on something is itself a known item: the
      second end of every edge is a key of all_items. */
  lemma PairsTargetsAreItems(entries: seq<RowEntry>, a: string, b: string)
    requires (a, b) in PairsUpTo(entries, |entries|)
    ensures b in ItemsUpTo(entries, |entries|)
  {
    PairsUpToSpec(entries, |entries|, a, b);
    ItemsUpToSpec(entries, |entries|, b);
  }

  /** A kept row whose dependencies split in two adds the edges of both parts. */
  lemma PairsStep(entries: seq<RowEntry>, n: nat, first: set<string>, second: set<string>)
    requires n < |entries| && entries[n].id != "" && entries[n].deps == first + second
    ensures PairsUpTo(entries, n + 1) == PairsUpTo(entries, n) + Edges(first, entries[n].id) + Edges(second, entries[n].id)
  {
    EdgesUnion(first, second, entries[n].id);
  }

  /** relationships holds exactly the edges, keyed by their first end, and
      keeps no empty entry. */
  ghost predicate HoldsForward(relationships: map<string, set<string>>, edges: set<(string, string)>)
  {
    && (forall a, b :: b in Get(relationships, a) <==> (a, b) in edges)
    && (forall a :: a in relationships ==> relationships[a] != {})
  }

  /** reverse holds exactly the edges, keyed by their second end, and keeps
      no empty entry. */
  ghost predicate HoldsBackward(reverse: map<string, set<string>>, edges: set<(string, string)>)
  {
    && (forall a, b :: a in Get(reverse, b) <==> (a, b) in edges)
    && (forall b :: b in reverse ==> reverse[b] != {})
  }

  /** The adjacency maps hold exactly the edges, keyed one way and the other,
      and keep no empty entries. */
  ghost predicate Holds(relationships: map<string, set<string>>, reverse: map<string, set<string>>,
                        edges: set<(string, string)>)
  {
    HoldsForward(relationships, edges) && HoldsBackward(reverse, edges)
  }

  lemma ForwardAdd(relationships: map<string, set<string>>, edges: set<(string, string)>, a: string, b: string)
    requires HoldsForward(relationships, edges)
    ensures HoldsForward(relationships[a := Get(relationships, a) + {b}], edges + {(a, b)})
  {
    var r := relationships[a := Get(relationships, a) + {b}];
    forall x, y
      ensures y in Get(r, x) <==> (x, y) in edges + {(a, b)}
    {
      if x == a {
        assert Get(r, x) == Get(relationships, a) + {b};
      } else {
        assert Get(r, x) == Get(relationships, x);
      }
    }
  }

  lemma BackwardAdd(reverse: map<string, set<string>>, edges: set<(string, string)>, a: string, b: string)
    requires HoldsBackward(reverse, edges)
    ensures HoldsBackward(reverse[b := Get(reverse, b) + {a}], edges + {(a, b)})
  {
    var r := reverse[b := Get(reverse, b) + {a}];
    forall x, y
      ensures x in Get(r, y) <==> (x, y) in edges + {(a, b)}
    {
      if y == b {
        assert Get(r, y) == Get(reverse, b) + {a};
      } else {
        assert Get(r, y) == Get(reverse, y);
      }
    }
  }

  /** relationships[a].add(b) and reverse[b].add(a) record one edge more. */
  lemma HoldsAdd(relationships: map<string, set<string>>, reverse: map<string, set<string>>,
                 edges: set<(string, string)>, a: string, b: string)
    requires Holds(relationships, reverse, edges)
    ensures Holds(relationships[a := Get(relationships, a) + {b}], reverse[b := Get(reverse, b) + {a}], edges + {(a, b)})
  {
    ForwardAdd(relationships, edges, a, b);
    BackwardAdd(reverse, edges, a, b);
  }

  /** Maps that hold the edges are each other's transpose. */
  lemma HoldsDual(g: Graph, edges: set<(string, string)>)
    requires Holds(g.relationships, g.reverse, edges)
    ensures Dual(g)
  {
  }

  /** relationships[a].add(b) and reverse[b].add(a). */
  method RecordEdge(relationships: map<string, set<string>>, reverse: map<string, set<string>>,
                    ghost edges: set<(string, string)>, a: string, b: string)
    returns (relationships': map<string, set<string>>, reverse': map<string, set<string>>)
    requires Holds(relationships, reverse, edges)
    ensures Holds(relationships', reverse', edges + {(a, b)})
  {
    HoldsAdd(relationships, reverse, edges, a, b);
    relationships' := relationships[a := Get(relationships, a) + {b}];
    reverse' := reverse[b := Get(reverse, b) + {a}];
  }

  /** One dependency range of one row: relationships[dep].add(item) and
      reverse[item].add(dep) for every dependency cell. */
  method AddDependencies(row: Row, width: nat, itemId: string, lo: nat, hi: nat,
                         relationships: map<string, set<string>>, reverse: map<string, set<string>>,
                         ghost edges: set<(string, string)>)
    returns (relationships': map<string, set<string>>, reverse': map<string, set<string>>)
    requires lo <= hi + 1 && hi <= Params2End
    requires Holds(relationships, reverse, edges)
    ensures Holds(relationships', reverse', edges + Edges(DepsBetween(DepCells(row, width), lo, hi + 1), itemId))
  {
    relationships', reverse' := relationships, reverse;
    ghost var cells := DepCells(row, width);
    ghost var deps: set<string> := {};
    ghost var recorded := edges;
    var colIdx := lo;
    EdgesEmpty(itemId);
    while colIdx < hi + 1
      invariant lo <= colIdx <= hi + 1
      invariant deps == DepsBetween(cells, lo, colIdx)
      invariant recorded == edges + Edges(deps, itemId)
      invariant Holds(relationships', reverse', recorded)
    {
      var dep := DepAt(row, colIdx, width);
      DepsStep(cells, lo, colIdx);
      assert CellDep(cells, colIdx) == dep;
      if dep.Some? {
        relationships', reverse' := RecordEdge(relationships', reverse', recorded, dep.value, itemId);
        EdgesAdd(edges, deps, dep.value, itemId);
        recorded := recorded + {(dep.value, itemId)};
        deps := deps + {dep.value};
      }
      colIdx := colIdx + 1;
    }
  }

  lemma DepsStep(cells: seq<Option<string>>, lo: nat, c: nat)
    requires lo <= c
    ensures DepsBetween(cells, lo, c + 1)
            == DepsBetween(cells, lo, c) + (if CellDep(cells, c).Some? then {CellDep(cells, c).value} else {})
  {
  }

  lemma EdgesEmpty(id: string)
    ensures Edges({}, id) == {}
  {
  }

  lemma EdgesUnion(a: set<string>, b: set<string>, id: string)
    ensures Edges(a + b, id) == Edges(a, id) + Edges(b, id)
  {
  }

  lemma EdgesAdd(edges: set<(string, string)>, deps: set<string>, d: string, id: string)
    ensures edges + Edges(deps + {d}, id) == edges + Edges(deps, id) + {(d, id)}
  {
  }

  /** Both dependency ranges of a kept row record the row's edges. */
  method AddRowDependencies(row: Row, schema: Schema, width: nat, itemId: string,
                            relationships: map<string, set<string>>, reverse: map<string, set<string>>,
                            ghost edges: set<(string, string)>)
    returns (relationships': map<string, set<string>>, reverse': map<string, set<string>>)
    requires itemId == ItemId(row, schema, width) && itemId != ""
    requires Holds(relationships, reverse, edges)
    ensures Holds(relationships', reverse', edges + EntryPairs(Entry(row, schema, width)))
  {
    var colStart1 := GetColumnIndex("DF");
    var colEnd1 := GetColumnIndex("HV");
    var colStart2 := GetColumnIndex("HW");
    var colEnd2 := GetColumnIndex("MN");
    ParameterColumns();
    ghost var cells := DepCells(row, width);
    ghost var first := DepsBetween(cells, colStart1, colEnd1 + 1);
    ghost var second := DepsBetween(cells, colStart2, colEnd2 + 1);
    relationships', reverse' := AddDependencies(row, width, itemId, colStart1, colEnd1, relationships, reverse, edges);
    relationships', reverse' := AddDependencies(row, width, itemId, colStart2, colEnd2, relationships', reverse',
                                                edges + Edges(first, itemId));
    EdgesUnion(first, second, itemId);
    assert Entry(row, schema, width).deps == first + second;
  }

  /** The tables after one row more. */
  lemma NextRow(entries: seq<RowEntry>, n: nat)
    requires n < |entries|
    ensures PairsUpTo(entries, n + 1) == PairsUpTo(entries, n) + EntryPairs(entries[n])
    ensures ItemsUpTo(entries, n + 1) == Record(ItemsUpTo(entries, n), entries[n])
  {
  }

  /** One row: a row with an empty id is skipped; any other row enters
      all_items (replacing an earlier row with its id) and records its edges. */
  method RecordRow(row: Row, schema: Schema, width: nat, relationships: map<string, set<string>>,
                reverse: map<string, set<string>>, allItems: map<string, ItemInfo>, ghost edges: set<(string, string)>)
    returns (relationships': map<string, set<string>>, reverse': map<string, set<string>>, allItems': map<string, ItemInfo>)
    requires Holds(relationships, reverse, edges)
    ensures Holds(relationships', reverse', edges + EntryPairs(Entry(row, schema, width)))
    ensures allItems' == Record(allItems, Entry(row, schema, width))
  {
    relationships', reverse', allItems' := relationships, reverse, allItems;
    ghost var entry := Entry(row, schema, width);
    var itemId := ItemId(row, schema, width);
    assert entry.id == itemId;
    if itemId != "" {
      var info := RowInfo(row, schema, width);
      assert entry.info == info;
      allItems' := allItems[itemId := info];
      relationships', reverse' := AddRowDependencies(row, schema, width, itemId, relationships, reverse, edges);
    } else {
      assert edges + EntryPairs(entry) == edges;
    }
  }

  /** The tables of build_relationship_graph after the first n rows. */
  ghost predicate Built(relationships: map<string, set<string>>, reverse: map<string, set<string>>,
                        items: map<string, ItemInfo>, entries: seq<RowEntry>, n: nat)
    requires n <= |entries|
  {
    Holds(relationships, reverse, PairsUpTo(entries, n)) && items == ItemsUpTo(entries, n)
  }

  /** Before the first row the tables are empty. */
  lemma NoRowsYet(entries: seq<RowEntry>)
    ensures Built(map[], map[], map[], entries, 0)
  {
    assert PairsUpTo(entries, 0) == {};
  }

  /** One row more, as RecordRow states it. */
  lemma BuiltStep(relationships: map<string, set<string>>, reverse: map<string, set<string>>,
                  items: map<string, ItemInfo>, relationships': map<string, set<string>>,
                  reverse': map<string, set<string>>, items': map<string, ItemInfo>,
                  entries: seq<RowEntry>, n: nat)
    requires n < |entries| && Built(relationships, reverse, items, entries, n)
    requires Holds(relationships', reverse', PairsUpTo(entries, n) + EntryPairs(entries[n]))
    requires items' == Record(items, entries[n])
    ensures Built(relationships', reverse', items', entries, n + 1)
  {
    NextRow(entries, n);
  }

  /** One turn of the row loop: the tables of the first index rows become
      those of the first index + 1. */
  method AddRow(rows: seq<Row>, index: nat, schema: Schema, width: nat, relationships: map<string, set<string>>,
                reverse: map<string, set<string>>, allItems: map<string, ItemInfo>)
    returns (relationships': map<string, set<string>>, reverse': map<string, set<string>>, allItems': map<string, ItemInfo>)
    requires index < |rows| && Built(relationships, reverse, allItems, Entries(rows, schema, width), index)
    ensures Built(relationships', reverse', allItems', Entries(rows, schema, width), index + 1)
  {
    ghost var entries := Entries(rows, schema, width);
    EntryAt(rows, schema, width, index);
    relationships', reverse', allItems' := RecordRow(rows[index], schema, width, relationships, reverse, allItems,
                                                     PairsUpTo(entries, index));
    BuiltStep(relationships, reverse, allItems, relationships', reverse', allItems', entries, index);
  }

  /** The row loop of build_relationship_graph, after the column detection:
      the adjacency maps hold exactly the edges the rows list, the item table
      is the last-wins table of the kept rows (by HoldsDual the two maps are
      then each other's transpose). */
  method ScanRows(rows: seq<Row>, schema: Schema, width: nat) returns (g: Graph)
    ensures Holds(g.relationships, g.reverse, PairsUpTo(Entries(rows, schema, width), |rows|))
    ensures g.items == ItemsUpTo(Entries(rows, schema, width), |rows|)
  {
    var relationships: map<string, set<string>> := map[];
    var reverse: map<string, set<string>> := map[];
    var allItems: map<string, ItemInfo> := map[];
    var index := 0;
    NoRowsYet(Entries(rows, schema, width));
    while index < |rows|
      invariant index <= |rows|
      invariant Built(relationships, reverse, allItems, Entries(rows, schema, width), index)
    {
      relationships, reverse, allItems := AddRow(rows, index, schema, width, relationships, reverse, allItems);
      index := index + 1;
    }
    g := Graph(relationships, reverse, allItems);
  }

  /** build_relationship_graph(df, headers): the column detection, then the
      row loop over the detected columns. The two maps index exactly the
      rows' edges and are each other's transpose. */
  method BuildRelationshipGraph(rows: seq<Row>, headers: Option<Row>, width: nat) returns (g: Graph)
    ensures Holds(g.relationships, g.reverse, PairsUpTo(Entries(rows, Detect(headers, rows, width), width), |rows|))
    ensures g.items == ItemsUpTo(Entries(rows, Detect(headers, rows, width), width), |rows|)
    ensures Dual(g)
  {
    var schema := DetectColumns(headers, rows, width);
    g := ScanRows(rows, schema, width);
    HoldsDual(g, PairsUpTo(Entries(rows, schema, width), |rows|));
  }
}
