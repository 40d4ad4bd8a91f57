/** filter_by_actuarial_payment_relationships: find the flag columns, the
    items flagged in them, everything within ten hops of a flagged item, and
    cut the graph down to those items. */
module SubgraphFilter {
  import opened Cells
  import opened Graphs
  import opened BreadthFirst
  import opened SectionLocator

  /** find_connected_items is called with its default hop bound. */
  const ConnectedDepth: nat := 10

  datatype Result<T> = Ok(value: T) | Err(reason: string)

  /** The three flag columns (None where not found). */
  datatype FlagColumns = FlagColumns(actuarial: Option<nat>, paymentRisk: Option<nat>, paymentInsured: Option<nat>)

  /** Which of the three markers a column mentions somewhere. */
  datatype ColumnMarks = ColumnMarks(actuarial: bool, paymentRisk: bool, paymentInsured: bool)

  function MarksOf(rows: seq<Row>, c: nat): ColumnMarks
  {
    ColumnMarks(ColumnMentions(rows, c, "actuarial_liability"),
                ColumnMentions(rows, c, "payment_risk"),
                ColumnMentions(rows, c, "payment_insured"))
  }

  /** The marks of every column. The column search below is a fold over
      these, so that its proofs never look inside a cell. */
  function AllMarks(rows: seq<Row>, width: nat): (marks: seq<ColumnMarks>)
    ensures |marks| == width
  {
    seq(width, c requires 0 <= c < width => MarksOf(rows, c))
  }

  /** col + 1 if that column exists, else None. */
  function NextColumn(c: nat, width: nat): Option<nat>
  {
    if c + 1 < width then Some(c + 1) else None
  }

  /** One column of the search: the first marker it mentions sets that flag
      to the next column, overwriting an earlier find. The first three
      columns carry names instead of numbers, and adding 1 to a name is a
      TypeError. */
  function MarkStep(cols: FlagColumns, c: nat, m: ColumnMarks, width: nat): Result<FlagColumns>
  {
    if !(m.actuarial || m.paymentRisk || m.paymentInsured) then Ok(cols)
    else if c < IdentityColumns then Err("TypeError: column name plus 1")
    else if m.actuarial then Ok(cols.(actuarial := NextColumn(c, width)))
    else if m.paymentRisk then Ok(cols.(paymentRisk := NextColumn(c, width)))
    else Ok(cols.(paymentInsured := NextColumn(c, width)))
  }

  /** The search over the first n columns. */
  function FlagColumnsUpTo(marks: seq<ColumnMarks>, width: nat, n: nat): Result<FlagColumns>
    requires n <= |marks|
  {
    if n == 0 then Ok(FlagColumns(None, None, None))
    else match FlagColumnsUpTo(marks, width, n - 1)
      case Err(e) => Err(e)
      case Ok(cols) => MarkStep(cols, n - 1, marks[n - 1], width)
  }

  datatype Flag = Actuarial | PaymentRisk | PaymentInsured

  function FlagOf(cols: FlagColumns, f: Flag): Option<nat>
  {
    match f
    case Actuarial => cols.actuarial
    case PaymentRisk => cols.paymentRisk
    case PaymentInsured => cols.paymentInsured
  }

  /** The if/elif order: a column counts for the first marker it mentions. */
  predicate FirstMarker(m: ColumnMarks, f: Flag)
  {
    match f
    case Actuarial => m.actuarial
    case PaymentRisk => !m.actuarial && m.paymentRisk
    case PaymentInsured => !m.actuarial && !m.paymentRisk && m.paymentInsured
  }

  /** Column c is the last of the first n whose first marker is f. */
  predicate LastMarked(marks: seq<ColumnMarks>, n: nat, f: Flag, c: nat)
    requires n <= |marks|
  {
    IdentityColumns <= c < n && FirstMarker(marks[c], f) &&
    forall c' :: c < c' < n ==> !FirstMarker(marks[c'], f)
  }

  /** A flag holds the column after the last column marked for it; None
      when no column is, or when that column is the frame's last. */
  ghost predicate FollowsLastMarked(marks: seq<ColumnMarks>, width: nat, n: nat, f: Flag, o: Option<nat>)
    requires n <= |marks|
  {
    match o
    case Some(v) => v < width && exists c: nat :: LastMarked(marks, n, f, c) && v == c + 1
    case None => forall c: nat :: LastMarked(marks, n, f, c) ==> c + 1 == width
  }

  /** The search fails exactly when one of the first three columns mentions
      a marker; otherwise each flag is the column after the LAST column whose
      first marker is that flag's (or None when there is no such column or
      that column is the last). */
  lemma {:induction false} FlagColumnsSpec(marks: seq<ColumnMarks>, width: nat, n: nat)
    requires n <= |marks| && |marks| <= width
    ensures FlagColumnsUpTo(marks, width, n).Err? <==>
              exists c :: 0 <= c < n && c < IdentityColumns && Marked(marks[c])
    ensures FlagColumnsUpTo(marks, width, n).Ok? ==>
              forall f :: FollowsLastMarked(marks, width, n, f, FlagOf(FlagColumnsUpTo(marks, width, n).value, f))
  {
    if n > 0 {
      FlagColumnsSpec(marks, width, n - 1);
      if FlagColumnsUpTo(marks, width, n).Ok? {
        forall f
          ensures FollowsLastMarked(marks, width, n, f, FlagOf(FlagColumnsUpTo(marks, width, n).value, f))
        {
          FlagStep(marks, width, n, f);
        }
      }
    }
  }

  /** The inductive step of FlagColumnsSpec for one flag. */
  lemma FlagStep(marks: seq<ColumnMarks>, width: nat, n: nat, f: Flag)
    requires 0 < n <= |marks| && |marks| <= width
    requires FlagColumnsUpTo(marks, width, n).Ok?
    requires FlagColumnsUpTo(marks, width, n - 1).Ok?
    requires FollowsLastMarked(marks, width, n - 1, f, FlagOf(FlagColumnsUpTo(marks, width, n - 1).value, f))
    ensures FollowsLastMarked(marks, width, n, f, FlagOf(FlagColumnsUpTo(marks, width, n).value, f))
  {
    var before := FlagOf(FlagColumnsUpTo(marks, width, n - 1).value, f);
    var after := FlagOf(FlagColumnsUpTo(marks, width, n).value, f);
    var m := marks[n - 1];
    if FirstMarker(m, f) {
      assert n - 1 >= IdentityColumns;
      assert after == NextColumn(n - 1, width);
      assert LastMarked(marks, n, f, n - 1);
    } else {
      assert after == before;
      forall c | LastMarked(marks, n, f, c)
        ensures LastMarked(marks, n - 1, f, c)
      {
      }
      if before.Some? {
        var c: nat :| LastMarked(marks, n - 1, f, c) && before.value == c + 1;
        assert LastMarked(marks, n, f, c);
      }
    }
  }

  predicate Marked(m: ColumnMarks)
  {
    m.actuarial || m.paymentRisk || m.paymentInsured
  }

  /** Once the search has failed, later columns do not change the outcome. */
  lemma {:induction false} ErrPersists(marks: seq<ColumnMarks>, width: nat, n: nat, m: nat)
    requires n <= m <= |marks| && FlagColumnsUpTo(marks, width, n).Err?
    ensures FlagColumnsUpTo(marks, width, m) == FlagColumnsUpTo(marks, width, n)
  {
    if m > n {
      ErrPersists(marks, width, n, m - 1);
    }
  }

  /** The column search loop. */
  method FindFlagColumns(rows: seq<Row>, width: nat) returns (r: Result<FlagColumns>)
    ensures r == FlagColumnsUpTo(AllMarks(rows, width), width, width)
  {
    ghost var marks := AllMarks(rows, width);
    var cols := FlagColumns(None, None, None);
    var col := 0;
    while col < width
      invariant col <= width
      invariant FlagColumnsUpTo(marks, width, col) == Ok(cols)
    {
      var actuarial := ColumnMentions(rows, col, "actuarial_liability");
      var paymentRisk := ColumnMentions(rows, col, "payment_risk");
      var paymentInsured := ColumnMentions(rows, col, "payment_insured");
      assert marks[col] == ColumnMarks(actuarial, paymentRisk, paymentInsured);
      ghost var step := MarkStep(cols, col, marks[col], width);
      assert FlagColumnsUpTo(marks, width, col + 1) == step;
      if (actuarial || paymentRisk || paymentInsured) && col < IdentityColumns {
        ErrPersists(marks, width, col + 1, width);
        return Err("TypeError: column name plus 1");
      }
      if actuarial {
        cols := cols.(actuarial := if col + 1 < width then Some(col + 1) else None);
      } else if paymentRisk {
        cols := cols.(paymentRisk := if col + 1 < width then Some(col + 1) else None);
      } else if paymentInsured {
        cols := cols.(paymentInsured := if col + 1 < width then Some(col + 1) else None);
      }
      assert step == Ok(cols);
      col := col + 1;
    }
    return Ok(cols);
  }

  // --------------------------------------------------------------- flagged items

  /** str(row['ItemID']).strip(): the flag scan reads column 0, not the
      detected id_item column. */
  function RowItemId(row: Row): string
  {
    Strip(RowId(row))
  }

  /** A flag column that is set (and not 0), inside the row, reading 1. */
  predicate FlagSet(row: Row, col: Option<nat>, width: nat)
  {
    Truthy(col) && col.value < width && Strip(Str(CellAt(row, col.value))) == "1"
  }

  predicate IsFlagged(row: Row, cols: FlagColumns, width: nat)
  {
    FlagSet(row, cols.actuarial, width) || FlagSet(row, cols.paymentRisk, width) || FlagSet(row, cols.paymentInsured, width)
  }

  /** What the flag scan reads from a row: its column-0 id and whether a
      flag is set. */
  function RowFlags(rows: seq<Row>, cols: FlagColumns, width: nat): (flags: seq<(string, bool)>)
    ensures |flags| == |rows|
  {
    if rows == [] then []
    else RowFlags(rows[..|rows| - 1], cols, width) + [(RowItemId(rows[|rows| - 1]), IsFlagged(rows[|rows| - 1], cols, width))]
  }

  lemma {:induction false} RowFlagsAt(rows: seq<Row>, cols: FlagColumns, width: nat, i: nat)
    requires i < |rows|
    ensures RowFlags(rows, cols, width)[i] == (RowItemId(rows[i]), IsFlagged(rows[i], cols, width))
  {
    if i < |rows| - 1 {
      RowFlagsAt(rows[..|rows| - 1], cols, width, i);
    }
  }

  /** The flagged known items among the first n rows. */
  function FlaggedUpTo(flags: seq<(string, bool)>, items: set<string>, n: nat): set<string>
    requires n <= |flags|
  {
    if n == 0 then {}
    else FlaggedUpTo(flags, items, n - 1) + (if flags[n - 1].0 in items && flags[n - 1].1 then {flags[n - 1].0} else {})
  }

  /** An item is flagged exactly when it is known and some row with its id
      has a flag set. */
  lemma {:induction false} FlaggedSpec(flags: seq<(string, bool)>, items: set<string>, n: nat, x: string)
    requires n <= |flags|
    ensures x in FlaggedUpTo(flags, items, n) <==> x in items && exists i :: 0 <= i < n && flags[i] == (x, true)
  {
    if n > 0 {
      FlaggedSpec(flags, items, n - 1, x);
    }
  }

  lemma FlaggedStep(flags: seq<(string, bool)>, items: set<string>, n: nat)
    requires n < |flags|
    ensures FlaggedUpTo(flags, items, n + 1) ==
            FlaggedUpTo(flags, items, n) + (if flags[n].0 in items && flags[n].1 then {flags[n].0} else {})
  {
  }

  /** The three flag tests on one row. */
  method RowFlagged(row: Row, cols: FlagColumns, width: nat) returns (isFlagged: bool)
    ensures isFlagged == IsFlagged(row, cols, width)
  {
    isFlagged := false;
    if Truthy(cols.actuarial) && cols.actuarial.value < width {
      if Strip(Str(CellAt(row, cols.actuarial.value))) == "1" {
        isFlagged := true;
      }
    }
    if Truthy(cols.paymentRisk) && cols.paymentRisk.value < width {
      if Strip(Str(CellAt(row, cols.paymentRisk.value))) == "1" {
        isFlagged := true;
      }
    }
    if Truthy(cols.paymentInsured) && cols.paymentInsured.value < width {
      if Strip(Str(CellAt(row, cols.paymentInsured.value))) == "1" {
        isFlagged := true;
      }
    }
  }

  /** One turn of the flag scan: a known item whose row has a flag set is
      added. */
  method FlagRow(rows: seq<Row>, index: nat, cols: FlagColumns, width: nat, items: set<string>, flagged: set<string>)
    returns (flagged': set<string>)
    requires index < |rows| && flagged == FlaggedUpTo(RowFlags(rows, cols, width), items, index)
    ensures flagged' == FlaggedUpTo(RowFlags(rows, cols, width), items, index + 1)
  {
    ghost var flags := RowFlags(rows, cols, width);
    FlaggedStep(flags, items, index);
    var row := rows[index];
    RowFlagsAt(rows, cols, width, index);
    flagged' := flagged;
    var itemId := RowItemId(row);
    if itemId in items {
      var isFlagged := RowFlagged(row, cols, width);
      if isFlagged {
        flagged' := flagged + {itemId};
      }
    }
  }

  /** The flag scan loop. */
  method FindFlaggedItems(rows: seq<Row>, cols: FlagColumns, width: nat, items: set<string>)
    returns (flagged: set<string>)
    ensures flagged == FlaggedUpTo(RowFlags(rows, cols, width), items, |rows|)
  {
    flagged := {};
    var index := 0;
    while index < |rows|
      invariant index <= |rows|
      invariant flagged == FlaggedUpTo(RowFlags(rows, cols, width), items, index)
    {
      flagged := FlagRow(rows, index, cols, width, items, flagged);
      index := index + 1;
    }
  }

  // ---------------------------------------------------------- connected items

  /** One inner loop of find_connected_items: the dependencies (dependents
      false) or the dependents of the current item that are known and not
      yet connected are connected and queued one level deeper. */
  method Spread(g: Graph, current: string, depth: nat, dependents: bool,
                connected: set<string>, queue: seq<(string, nat)>)
    returns (connected': set<string>, queue': seq<(string, nat)>, ghost added: seq<string>)
    ensures queue' == queue + Enqueued(added, depth)
    ensures connected' == connected + set x | x in added
    ensures Distinct(added)
    ensures forall i :: 0 <= i < |added| ==>
              (added[i] in g.items && added[i] !in connected &&
               added[i] in (if dependents then Get(g.relationships, current) else Get(g.reverse, current)))
    ensures (if dependents then Get(g.relationships, current) else Get(g.reverse, current)) * g.items.Keys <= connected'
  {
    var candidates := if dependents then Get(g.relationships, current) else Get(g.reverse, current);
    var rest := candidates;
    connected', queue', added := connected, queue, [];
    while rest != {}
      invariant rest <= candidates
      invariant queue' == queue + Enqueued(added, depth)
      invariant connected' == connected + set x | x in added
      invariant Distinct(added)
      invariant forall i :: 0 <= i < |added| ==>
                  (added[i] in g.items && added[i] !in connected && added[i] in candidates && added[i] !in rest)
      invariant (candidates - rest) * g.items.Keys <= connected'
      decreases rest
    {
      var next :| next in rest;
      rest := rest - {next};
      if next !in connected' && next in g.items {
        connected' := connected' + {next};
        queue' := queue' + [(next, depth + 1)];
        added := added + [next];
      }
    }
  }

  /** Both inner loops for the item just taken from the queue. */
  method SpreadBoth(g: Graph, current: string, depth: nat, connected: set<string>, queue: seq<(string, nat)>)
    returns (connected': set<string>, queue': seq<(string, nat)>, ghost added: seq<string>)
    ensures queue' == queue + Enqueued(added, depth)
    ensures connected' == connected + set x | x in added
    ensures Distinct(added)
    ensures forall i :: 0 <= i < |added| ==> added[i] !in connected && added[i] in Neighbours(g, current)
    ensures Neighbours(g, current) <= connected'
  {
    ghost var added1, added2;
    var connected1, queue1;
    connected1, queue1, added1 := Spread(g, current, depth, false, connected, queue);
    connected', queue', added2 := Spread(g, current, depth, true, connected1, queue1);
    added := added1 + added2;
    assert queue' == queue + Enqueued(added, depth);
    assert connected' == connected + set x | x in added;
  }

  /** The start queue: every start item at depth 0, in some order (the
      iteration order of a Python set is not modelled). */
  method StartQueue(startItems: set<string>) returns (queue: seq<(string, nat)>, ghost order: seq<string>)
    ensures Distinct(order) && (forall x :: x in startItems <==> x in order)
    ensures |queue| == |order| && forall i :: 0 <= i < |order| ==> queue[i] == (order[i], 0)
  {
    queue, order := [], [];
    var rest := startItems;
    while rest != {}
      invariant rest <= startItems
      invariant Distinct(order) && (forall x :: x in startItems <==> x in order || x in rest)
      invariant forall i :: 0 <= i < |order| ==> order[i] !in rest
      invariant |queue| == |order| && forall i :: 0 <= i < |order| ==> queue[i] == (order[i], 0)
      decreases rest
    {
      var item :| item in rest;
      queue, order := queue + [(item, 0)], order + [item];
      rest := rest - {item};
    }
  }

  /** One turn of the loop of find_connected_items: the head of the queue is
      taken out and, when it lies above the bound, spread from. The traversal
      invariants carry over to the discovery order extended by what it
      connected, and either more items are connected or the queue is shorter. */
  method ConnectNext(g: Graph, startItems: set<string>, maxDepth: int, ghost order: seq<string>,
                     ghost level: map<string, nat>, ghost head: nat, queue: seq<(string, nat)>, connected: set<string>)
    returns (queue': seq<(string, nat)>, connected': set<string>, ghost order': seq<string>, ghost level': map<string, nat>)
    requires queue != []
    requires Queued(order, level, head, queue, connected) && Layered(order, level, head)
    requires Sound(g, startItems, maxDepth, order, level) && Closed(g, maxDepth, order, level, head)
    ensures Queued(order', level', head + 1, queue', connected') && Layered(order', level', head + 1)
    ensures Sound(g, startItems, maxDepth, order', level') && Closed(g, maxDepth, order', level', head + 1)
    ensures g.items.Keys - connected' < g.items.Keys - connected || (connected' == connected && |queue'| < |queue|)
  {
    var currentItem, depth := queue[0].0, queue[0].1;
    queue', connected' := queue[1..], connected;
    ghost var added := [];
    if depth < maxDepth {
      connected', queue', added := SpreadBoth(g, currentItem, depth, connected, queue');
    }
    Advance(g, startItems, maxDepth, order, level, head, queue, connected, added, queue', connected');
    order', level' := order + added, Deeper(level, added, depth);
    if added != [] {
      assert added[0] in g.items.Keys - connected && added[0] !in g.items.Keys - connected';
    }
  }

  /** The start of find_connected_items: every start item connected and
      queued at depth 0. */
  method StartConnect(g: Graph, startItems: set<string>, maxDepth: int)
    returns (queue: seq<(string, nat)>, ghost order: seq<string>, ghost level: map<string, nat>)
    ensures Queued(order, level, 0, queue, startItems) && Layered(order, level, 0)
    ensures Sound(g, startItems, maxDepth, order, level) && Closed(g, maxDepth, order, level, 0)
  {
    queue, order := StartQueue(startItems);
    level := StartLevels(startItems);
    Start(g, startItems, maxDepth, order, queue);
  }

  /** When the queue has run dry, the connected items are those within the
      bound. */
  lemma ConnectDone(g: Graph, startItems: set<string>, maxDepth: int, order: seq<string>,
                    level: map<string, nat>, head: nat, connected: set<string>)
    requires Queued(order, level, head, [], connected)
    requires Sound(g, startItems, maxDepth, order, level) && Closed(g, maxDepth, order, level, head)
    ensures connected == Reach(g, startItems, Bound(maxDepth))
  {
    Covered(g, startItems, maxDepth, order, level);
    assert connected == set i | 0 <= i < |order| :: order[i];
  }

  /** find_connected_items: everything within maxDepth hops of a start item,
      in either direction, through known items. */
  method FindConnectedItems(g: Graph, startItems: set<string>, maxDepth: int) returns (connected: set<string>)
    ensures connected == Reach(g, startItems, Bound(maxDepth))
  {
    connected := startItems;
    ghost var order, level;
    var queue;
    queue, order, level := StartConnect(g, startItems, maxDepth);
    ghost var head: nat := 0;
    while queue != []
      invariant Queued(order, level, head, queue, connected)
      invariant Layered(order, level, head)
      invariant Sound(g, startItems, maxDepth, order, level)
      invariant Closed(g, maxDepth, order, level, head)
      decreases g.items.Keys - connected, |queue|
    {
      queue, connected, order, level := ConnectNext(g, startItems, maxDepth, order, level, head, queue, connected);
      head := head + 1;
    }
    ConnectDone(g, startItems, maxDepth, order, level, head, connected);
  }

  // ------------------------------------------------------------------ the cut

  /** The adjacency entries of kept items, narrowed to kept items, without
      the entries that become empty. */
  function RestrictEdges(m: map<string, set<string>>, keep: set<string>): (r: map<string, set<string>>)
    ensures forall a, b :: b in Get(r, a) <==> a in keep && b in keep && b in Get(m, a)
    ensures forall a :: a in r ==> r[a] != {}
  {
    map a | a in m && a in keep && m[a] * keep != {} :: m[a] * keep
  }

  /** The graph on the kept items, as the filter evidently intends it. */
  function Restrict(g: Graph, keep: set<string>): (r: Graph)
    ensures r.items.Keys == g.items.Keys * keep
    ensures forall k :: k in r.items ==> r.items[k] == g.items[k]
    ensures forall a, b :: b in Get(r.relationships, a) <==> a in keep && b in keep && b in Get(g.relationships, a)
    ensures forall a, b :: b in Get(r.reverse, a) <==> a in keep && b in keep && b in Get(g.reverse, a)
  {
    var items := map k | k in g.items && k in keep :: g.items[k];
    assert items.Keys == g.items.Keys * keep;
    Graph(RestrictEdges(g.relationships, keep), RestrictEdges(g.reverse, keep), items)
  }

  /** The cut as the code writes it: each "comprehension" is in doubled
      braces, so it is a set display holding a dict, and building it raises
      TypeError (a dict is unhashable) whatever the graph. */
  function RestrictAsWritten(g: Graph, keep: set<string>): (r: Result<Graph>)
    ensures r.Err?
  {
    Err("TypeError: unhashable type: 'dict'")
  }

  /** The code never reaches the cut's result; the intended cut keeps
      within the connected items. */
  lemma RestrictFails(g: Graph, keep: set<string>)
    ensures RestrictAsWritten(g, keep).Err?
    ensures Restrict(g, keep).items.Keys <= keep
  {
  }

  /** Cutting keeps the two maps each other's transpose. */
  lemma RestrictDual(g: Graph, keep: set<string>)
    requires Dual(g)
    ensures Dual(Restrict(g, keep))
  {
  }

  /** Cutting twice to the same items changes nothing more. */
  lemma RestrictIdempotent(g: Graph, keep: set<string>)
    ensures Restrict(Restrict(g, keep), keep) == Restrict(g, keep)
  {
    var r := Restrict(g, keep);
    var rr := Restrict(r, keep);
    assert rr.items == r.items;
    EdgesIdempotent(r.relationships, g.relationships, keep);
    EdgesIdempotent(r.reverse, g.reverse, keep);
  }

  lemma EdgesIdempotent(r: map<string, set<string>>, m: map<string, set<string>>, keep: set<string>)
    requires r == RestrictEdges(m, keep)
    ensures RestrictEdges(r, keep) == r
  {
    forall a | a in r
      ensures r[a] * keep == r[a]
    {
    }
  }

  /** The flag filter from the code's own first flag scan on: an error where
      the column search fails, the graph unchanged when nothing is flagged,
      and otherwise the graph cut to everything within ten hops of a flagged
      item (the intended cut, see RestrictAsWritten). */
  method FilterByFlags(g: Graph, rows: seq<Row>, width: nat) returns (r: Result<Graph>)
    ensures FlagColumnsUpTo(AllMarks(rows, width), width, width).Err? ==> r.Err?
    ensures FlagColumnsUpTo(AllMarks(rows, width), width, width).Ok? ==>
              var flagged := FlaggedUpTo(RowFlags(rows, FlagColumnsUpTo(AllMarks(rows, width), width, width).value, width),
                                         g.items.Keys, |rows|);
              && (flagged == {} ==> r == Ok(g))
              && (flagged != {} ==> r == Ok(Restrict(g, Reach(g, flagged, ConnectedDepth))))
  {
    var cols := FindFlagColumns(rows, width);
    if cols.Err? {
      return Err(cols.reason);
    }
    var flaggedItems := FindFlaggedItems(rows, cols.value, width, g.items.Keys);
    if flaggedItems != {} {
      var connectedItems := FindConnectedItems(g, flaggedItems, ConnectedDepth);
      r := Ok(Restrict(g, connectedItems));
    } else {
      r := Ok(g);
    }
  }

  /** The flag filter as the code writes it: the same column search and flag
      scan, but the cut of lines 460-466, which raises whenever an item is
      flagged. So it returns a graph only when nothing is flagged, and then
      the graph unchanged. */
  method FilterByFlagsAsWritten(g: Graph, rows: seq<Row>, width: nat) returns (r: Result<Graph>)
    ensures FlagColumnsUpTo(AllMarks(rows, width), width, width).Err? ==> r.Err?
    ensures FlagColumnsUpTo(AllMarks(rows, width), width, width).Ok? ==>
              var flagged := FlaggedUpTo(RowFlags(rows, FlagColumnsUpTo(AllMarks(rows, width), width, width).value, width),
                                         g.items.Keys, |rows|);
              && (flagged == {} ==> r == Ok(g))
              && (flagged != {} ==> r.Err?)
  {
    var cols := FindFlagColumns(rows, width);
    if cols.Err? {
      return Err(cols.reason);
    }
    var flaggedItems := FindFlaggedItems(rows, cols.value, width, g.items.Keys);
    if flaggedItems != {} {
      var connectedItems := FindConnectedItems(g, flaggedItems, ConnectedDepth);
      r := RestrictAsWritten(g, connectedItems);
    } else {
      r := Ok(g);
    }
  }

  /** What survives the cut: only known items, every flagged item, and with
      them every item within ten hops. */
  lemma FilterKeeps(g: Graph, flagged: set<string>)
    requires flagged <= g.items.Keys
    ensures Restrict(g, Reach(g, flagged, ConnectedDepth)).items.Keys == Reach(g, flagged, ConnectedDepth)
    ensures flagged <= Restrict(g, Reach(g, flagged, ConnectedDepth)).items.Keys
  {
    ReachWithinItems(g, flagged, ConnectedDepth);
    ReachMonotone(g, flagged, 0, ConnectedDepth);
  }

  /** The Ok result of the filter for a given flagged set: the graph itself
      when nothing is flagged, else the cut to ten hops. */
  ghost function Filtered(g: Graph, flagged: set<string>): Graph
  {
    if flagged == {} then g else Restrict(g, Reach(g, flagged, ConnectedDepth))
  }

  /** Filtering the filtered graph again with the same flag rows finds the
      same flagged items and gives the same graph back. */
  lemma FilterIdempotent(g: Graph, flags: seq<(string, bool)>, n: nat)
    requires n <= |flags|
    ensures var flagged := FlaggedUpTo(flags, g.items.Keys, n);
            && FlaggedUpTo(flags, Filtered(g, flagged).items.Keys, n) == flagged
            && Filtered(Filtered(g, flagged), flagged) == Filtered(g, flagged)
  {
    var flagged := FlaggedUpTo(flags, g.items.Keys, n);
    if flagged != {} {
      var reach := Reach(g, flagged, ConnectedDepth);
      var once := Restrict(g, reach);
      ReachMonotone(g, flagged, 0, ConnectedDepth);
      forall x
        ensures x in FlaggedUpTo(flags, once.items.Keys, n) <==> x in flagged
      {
        FlaggedSpec(flags, g.items.Keys, n, x);
        FlaggedSpec(flags, once.items.Keys, n, x);
      }
      ReachOnCut(g, flagged, ConnectedDepth, ConnectedDepth);
      RestrictIdempotent(g, reach);
    }
  }

  /** Within the cut to the items k hops from the start set, every hop bound
      up to k reaches what it reaches in the whole graph. */
  lemma {:induction false} ReachOnCut(g: Graph, starts: set<string>, k: nat, j: nat)
    requires j <= k
    ensures Reach(Restrict(g, Reach(g, starts, k)), starts, j) == Reach(g, starts, j)
  {
    if j > 0 {
      var prev := Reach(g, starts, j - 1);
      ReachOnCut(g, starts, k, j - 1);
      ReachMonotone(g, starts, j - 1, k);
      ReachMonotone(g, starts, j, k);
      assert Step(g, prev) <= Reach(g, starts, j);
      StepOnCut(g, Reach(g, starts, k), prev);
    }
  }

  /** One hop from kept items inside the cut is the same hop in the whole
      graph, when that hop stays among the kept items. */
  lemma StepOnCut(g: Graph, keep: set<string>, r: set<string>)
    requires r <= keep && Step(g, r) <= keep
    ensures Step(Restrict(g, keep), r) == Step(g, r)
  {
    var cut := Restrict(g, keep);
    forall y | y in Step(g, r)
      ensures y in Step(cut, r)
    {
      var x := StepSource(g, r, y);
      NeighboursOnCut(g, keep, x);
    }
    forall y | y in Step(cut, r)
      ensures y in Step(g, r)
    {
      var x := StepSource(cut, r, y);
      NeighboursOnCut(g, keep, x);
    }
  }

  /** A kept item's neighbours in the cut are its kept neighbours. */
  lemma NeighboursOnCut(g: Graph, keep: set<string>, x: string)
    requires x in keep
    ensures Neighbours(Restrict(g, keep), x) == Neighbours(g, x) * keep
  {
  }

  /** Flagged items are always known items. */
  lemma FlaggedAreItems(flags: seq<(string, bool)>, items: set<string>)
    ensures FlaggedUpTo(flags, items, |flags|) <= items
  {
    forall x | x in FlaggedUpTo(flags, items, |flags|)
      ensures x in items
    {
      FlaggedSpec(flags, items, |flags|, x);
    }
  }
}
