/** get_related_items: bounded breadth-first exploration from one item over
    both dependency directions. */
module NeighborhoodQuery {
  import opened Graphs
  import opened BreadthFirst

  /** A copy of an item's record with the depth at which it was reached. */
  datatype RelatedNode = RelatedNode(id: string, info: ItemInfo, depth: nat)

  /** The edge recorded when `child` is first reached from `parent`: a
      dependency of the parent is recorded as (child, parent), a dependent as
      (parent, child). */
  predicate TreeEdge(g: Graph, e: (string, string), parent: string, child: string)
  {
    || (e == (child, parent) && child in Get(g.reverse, parent))
    || (e == (parent, child) && child in Get(g.relationships, parent))
  }

  /** One of the two inner loops of get_related_items: every candidate that is
      a known item and not yet visited is marked visited, queued one level
      deeper and recorded with its edge. `added` lists them in the order the
      loop picked them. */
  method VisitNeighbours(g: Graph, current: string, depth: nat, dependents: bool,
                         visited: set<string>, queue: seq<(string, nat)>, edges: seq<(string, string)>)
    returns (visited': set<string>, queue': seq<(string, nat)>, edges': seq<(string, string)>,
             ghost added: seq<string>)
    ensures queue' == queue + Enqueued(added, depth)
    ensures edges' == edges + seq(|added|, i requires 0 <= i < |added| =>
                                    if dependents then (current, added[i]) else (added[i], current))
    ensures visited' == visited + set x | x in added
    ensures Distinct(added)
    ensures forall i :: 0 <= i < |added| ==>
              (added[i] in g.items && added[i] !in visited &&
               added[i] in (if dependents then Get(g.relationships, current) else Get(g.reverse, current)))
    ensures (if dependents then Get(g.relationships, current) else Get(g.reverse, current)) * g.items.Keys <= visited'
  {
    var candidates := if dependents then Get(g.relationships, current) else Get(g.reverse, current);
    var rest := candidates;
    visited', queue', edges', added := visited, queue, edges, [];
    while rest != {}
      invariant rest <= candidates
      invariant queue' == queue + Enqueued(added, depth)
      invariant edges' == edges + seq(|added|, i requires 0 <= i < |added| =>
                                        if dependents then (current, added[i]) else (added[i], current))
      invariant visited' == visited + set x | x in added
      invariant Distinct(added)
      invariant forall i :: 0 <= i < |added| ==>
                  (added[i] in g.items && added[i] !in visited && added[i] in candidates && added[i] !in rest)
      invariant (candidates - rest) * g.items.Keys <= visited'
      decreases rest
    {
      var next :| next in rest;
      rest := rest - {next};
      if next !in visited' && next in g.items {
        visited' := visited' + {next};
        queue' := queue' + [(next, depth + 1)];
        edges' := edges' + [if dependents then (current, next) else (next, current)];
        added := added + [next];
      }
    }
  }

  /** Both inner loops of get_related_items for the node just taken from
      the queue: first its dependencies, then its dependents. */
  method ExpandNode(g: Graph, current: string, depth: nat,
                    visited: set<string>, queue: seq<(string, nat)>, edges: seq<(string, string)>)
    returns (visited': set<string>, queue': seq<(string, nat)>, edges': seq<(string, string)>,
             ghost added: seq<string>)
    ensures queue' == queue + Enqueued(added, depth)
    ensures |edges'| == |edges| + |added| && edges'[..|edges|] == edges
    ensures forall i :: 0 <= i < |added| ==> TreeEdge(g, edges'[|edges| + i], current, added[i])
    ensures visited' == visited + set x | x in added
    ensures Distinct(added)
    ensures forall i :: 0 <= i < |added| ==> added[i] !in visited && added[i] in Neighbours(g, current)
    ensures Neighbours(g, current) <= visited'
  {
    ghost var added1, added2;
    var visited1, queue1, edges1;
    visited1, queue1, edges1, added1 := VisitNeighbours(g, current, depth, false, visited, queue, edges);
    visited', queue', edges', added2 := VisitNeighbours(g, current, depth, true, visited1, queue1, edges1);
    added := added1 + added2;
    assert queue' == queue + Enqueued(added, depth);
    forall i | 0 <= i < |added|
      ensures TreeEdge(g, edges'[|edges| + i], current, added[i])
    {
      if i < |added1| {
        assert edges'[|edges| + i] == edges1[|edges| + i];
      } else {
        assert edges'[|edges| + i] == edges'[|edges1| + (i - |added1|)];
      }
    }
    assert visited' == visited + set x | x in added;
  }

  /** n copies of p. */
  function Repeat(p: nat, n: nat): (r: seq<nat>)
    ensures |r| == n && forall i :: 0 <= i < n ==> r[i] == p
  {
    seq(n, i => p)
  }

  /** The items taken from the queue so far have been output, in discovery
      order and with their recorded depths; everything discovered is a known
      item. */
  ghost predicate Output(g: Graph, order: seq<string>, level: map<string, nat>, nodes: seq<RelatedNode>)
  {
    && |nodes| <= |order|
    && (forall i :: 0 <= i < |order| ==> order[i] in g.items)
    && (forall i {:trigger nodes[i]} :: 0 <= i < |nodes| ==>
          nodes[i] == RelatedNode(order[i], g.items[order[i]], LvAt(order, level, i)))
  }

  /** Edge k - 1 was recorded when item k of the discovery order was reached
      from its parent, an item already output one level higher. */
  ghost predicate TreeAt(g: Graph, order: seq<string>, level: map<string, nat>, parent: seq<nat>,
                         head: nat, edges: seq<(string, string)>, k: int)
  {
    && 1 <= k < |order| && |parent| == |order| && |edges| + 1 == |order|
    && parent[k] < k && parent[k] < head
    && LvAt(order, level, parent[k]) + 1 == LvAt(order, level, k)
    && TreeEdge(g, edges[k - 1], order[parent[k]], order[k])
  }

  ghost predicate Tree(g: Graph, order: seq<string>, level: map<string, nat>, parent: seq<nat>,
                       head: nat, edges: seq<(string, string)>)
  {
    && |parent| == |order| && |edges| + 1 == |order|
    && (forall k :: 1 <= k < |order| ==> TreeAt(g, order, level, parent, head, edges, k))
  }

  lemma StepOutput(g: Graph, order: seq<string>, level: map<string, nat>, nodes: seq<RelatedNode>,
                   d: nat, added: seq<string>, nodes': seq<RelatedNode>, order': seq<string>, level': map<string, nat>)
    requires Output(g, order, level, nodes) && |nodes| < |order| && LvAt(order, level, |nodes|) == d
    requires (forall x :: x in level <==> x in order)
    requires nodes' == nodes + [RelatedNode(order[|nodes|], g.items[order[|nodes|]], d)]
    requires forall i :: 0 <= i < |added| ==> added[i] in g.items && added[i] !in level
    requires order' == order + added && level' == Deeper(level, added, d)
    ensures Output(g, order', level', nodes')
  {
    ExtendLevels(order, level, d, added, order', level');
    forall i | 0 <= i < |order'|
      ensures order'[i] in g.items
    {
      if i >= |order| {
        assert order'[i] == added[i - |order|];
      }
    }
  }

  lemma StepTree(g: Graph, order: seq<string>, level: map<string, nat>, parent: seq<nat>, head: nat,
                 edges: seq<(string, string)>, current: string, d: nat, added: seq<string>,
                 edges': seq<(string, string)>, order': seq<string>, level': map<string, nat>, parent': seq<nat>)
    requires head < |order| && order[head] == current && LvAt(order, level, head) == d
    requires Tree(g, order, level, parent, head, edges)
    requires (forall x :: x in level <==> x in order) && forall i :: 0 <= i < |added| ==> added[i] !in level
    requires |edges'| == |edges| + |added| && edges'[..|edges|] == edges
    requires forall i :: 0 <= i < |added| ==> TreeEdge(g, edges'[|edges| + i], current, added[i])
    requires order' == order + added && level' == Deeper(level, added, d)
    requires parent' == parent + Repeat(head, |added|)
    ensures Tree(g, order', level', parent', head + 1, edges')
  {
    ExtendLevels(order, level, d, added, order', level');
    var head' := head + 1;
    forall k | 1 <= k < |order'|
      ensures TreeAt(g, order', level', parent', head', edges', k)
    {
      if k < |order| {
        assert TreeAt(g, order, level, parent, head, edges, k);
        assert parent'[k] == parent[k];
        assert edges'[k - 1] == edges[k - 1];
      } else {
        assert parent'[k] == head;
        assert edges'[k - 1] == edges'[|edges| + (k - |order|)];
      }
    }
  }

  /** One iteration of the main loop keeps the invariants about the output:
      the popped item is output, and the edges to the items it discovers are
      recorded. */
  lemma Step(g: Graph, order: seq<string>, level: map<string, nat>, parent: seq<nat>,
             nodes: seq<RelatedNode>, queue: seq<(string, nat)>, visited: set<string>, edges: seq<(string, string)>,
             added: seq<string>, maxDepth: int, nodes': seq<RelatedNode>, edges': seq<(string, string)>)
    requires Queued(order, level, |nodes|, queue, visited) && Output(g, order, level, nodes)
    requires Tree(g, order, level, parent, |nodes|, edges)
    requires queue != []
    requires nodes' == nodes + [RelatedNode(queue[0].0, g.items[queue[0].0], queue[0].1)]
    requires queue[0].1 >= maxDepth ==> added == [] && edges' == edges
    requires queue[0].1 < maxDepth ==>
      && |edges'| == |edges| + |added| && edges'[..|edges|] == edges
      && (forall i :: 0 <= i < |added| ==> TreeEdge(g, edges'[|edges| + i], queue[0].0, added[i]))
      && (forall i :: 0 <= i < |added| ==> added[i] !in visited && added[i] in Neighbours(g, queue[0].0))
    ensures Output(g, order + added, Deeper(level, added, queue[0].1), nodes')
    ensures Tree(g, order + added, Deeper(level, added, queue[0].1),
                 parent + Repeat(|nodes|, |added|), |nodes| + 1, edges')
  {
    assert queue[0] == (order[|nodes|], LvAt(order, level, |nodes|));
    if queue[0].1 >= maxDepth {
      assert edges'[..|edges|] == edges;
    }
    forall i | 0 <= i < |added|
      ensures added[i] in g.items && added[i] !in level
    {
    }
    StepOutput(g, order, level, nodes, queue[0].1, added, nodes', order + added, Deeper(level, added, queue[0].1));
    StepTree(g, order, level, parent, |nodes|, edges, queue[0].0, queue[0].1, added, edges',
             order + added, Deeper(level, added, queue[0].1), parent + Repeat(|nodes|, |added|));
  }

  /** Edge k enters node k + 1 from an earlier node one level higher. */
  predicate EdgeFromEarlier(g: Graph, nodes: seq<RelatedNode>, edges: seq<(string, string)>, k: int)
  {
    0 <= k < |edges| && k + 1 < |nodes| &&
    exists p :: 0 <= p <= k && nodes[p].depth + 1 == nodes[k + 1].depth && TreeEdge(g, edges[k], nodes[p].id, nodes[k + 1].id)
  }

  /** Once the queue is empty the output is the whole discovery order. */
  lemma ConcludeNodes(g: Graph, root: string, maxDepth: int, order: seq<string>, level: map<string, nat>,
                      nodes: seq<RelatedNode>)
    requires Output(g, order, level, nodes) && |nodes| == |order|
    requires Layered(order, level, |nodes|) && (forall x :: x in level <==> x in order)
    requires Sound(g, {root}, maxDepth, order, level)
    ensures |nodes| >= 1 && nodes[0] == RelatedNode(root, g.items[root], 0)
    ensures forall i :: 0 <= i < |nodes| ==>
              (nodes[i].id == order[i] && nodes[i].depth == LvAt(order, level, i) &&
               nodes[i].id in g.items && nodes[i].info == g.items[nodes[i].id])
    ensures forall i, j :: 0 <= i < j < |nodes| ==> nodes[i].id != nodes[j].id && nodes[i].depth <= nodes[j].depth
    ensures (set i | 0 <= i < |nodes| :: nodes[i].id) == (set i | 0 <= i < |order| :: order[i])
  {
    assert root in level;
    var r :| 0 <= r < |order| && order[r] == root;
    forall i | 0 <= i < |nodes|
      ensures nodes[i].id == order[i] && nodes[i].depth == LvAt(order, level, i)
      ensures nodes[i].id in g.items && nodes[i].info == g.items[nodes[i].id]
    {
      assert nodes[i] == RelatedNode(order[i], g.items[order[i]], LvAt(order, level, i));
    }
    assert LvAt(order, level, 0) <= LvAt(order, level, r);
    assert PlacedAt(g, {root}, maxDepth, order, level, 0);
    forall i, j | 0 <= i < j < |nodes|
      ensures nodes[i].id != nodes[j].id && nodes[i].depth <= nodes[j].depth
    {
      assert LvAt(order, level, i) <= LvAt(order, level, j);
    }
  }

  /** Each recorded edge enters a node from an earlier node one level higher. */
  lemma ConcludeEdges(g: Graph, order: seq<string>, level: map<string, nat>, parent: seq<nat>,
                      nodes: seq<RelatedNode>, edges: seq<(string, string)>)
    requires |nodes| == |order|
    requires forall i :: 0 <= i < |nodes| ==> nodes[i].id == order[i] && nodes[i].depth == LvAt(order, level, i)
    requires Tree(g, order, level, parent, |nodes|, edges)
    ensures |edges| == |nodes| - 1
    ensures forall k :: 0 <= k < |edges| ==> EdgeFromEarlier(g, nodes, edges, k)
  {
    forall k | 0 <= k < |edges|
      ensures EdgeFromEarlier(g, nodes, edges, k)
    {
      assert TreeAt(g, order, level, parent, |nodes|, edges, k + 1);
      var q := parent[k + 1];
      assert 0 <= q <= k && nodes[q].depth + 1 == nodes[k + 1].depth;
      assert TreeEdge(g, edges[k], nodes[q].id, nodes[k + 1].id);
    }
  }

  /** Every output node lies within the bound at its hop distance from the root. */
  lemma ConcludeReach(g: Graph, root: string, maxDepth: int, order: seq<string>, level: map<string, nat>,
                      nodes: seq<RelatedNode>)
    requires |nodes| == |order|
    requires forall i :: 0 <= i < |nodes| ==> nodes[i].id == order[i] && nodes[i].depth == LvAt(order, level, i)
    requires forall i :: 0 <= i < |order| ==>
               (&& LvAt(order, level, i) <= Bound(maxDepth)
                && order[i] in Reach(g, {root}, LvAt(order, level, i))
                && (LvAt(order, level, i) > 0 ==> order[i] !in Reach(g, {root}, LvAt(order, level, i) - 1)))
    ensures forall i :: 0 <= i < |nodes| ==>
              (&& nodes[i].depth <= Bound(maxDepth)
               && nodes[i].id in Reach(g, {root}, nodes[i].depth)
               && (nodes[i].depth > 0 ==> nodes[i].id !in Reach(g, {root}, nodes[i].depth - 1)))
  {
  }

  /** What the invariants say once the queue is empty. */
  lemma Conclude(g: Graph, root: string, maxDepth: int, order: seq<string>, level: map<string, nat>, parent: seq<nat>,
                 nodes: seq<RelatedNode>, visited: set<string>, edges: seq<(string, string)>)
    requires Queued(order, level, |nodes|, [], visited) && Output(g, order, level, nodes)
    requires Layered(order, level, |nodes|)
    requires Sound(g, {root}, maxDepth, order, level)
    requires Tree(g, order, level, parent, |nodes|, edges)
    requires Closed(g, maxDepth, order, level, |nodes|)
    ensures |nodes| >= 1 && nodes[0] == RelatedNode(root, g.items[root], 0)
    ensures forall i :: 0 <= i < |nodes| ==>
              (nodes[i].id in g.items && nodes[i].info == g.items[nodes[i].id] && nodes[i].depth <= Bound(maxDepth))
    ensures forall i, j :: 0 <= i < j < |nodes| ==> nodes[i].id != nodes[j].id && nodes[i].depth <= nodes[j].depth
    ensures |edges| == |nodes| - 1
    ensures forall k :: 0 <= k < |edges| ==> EdgeFromEarlier(g, nodes, edges, k)
    ensures (set i | 0 <= i < |nodes| :: nodes[i].id) == Reach(g, {root}, Bound(maxDepth))
    ensures forall i :: 0 <= i < |nodes| ==>
              (nodes[i].id in Reach(g, {root}, nodes[i].depth) &&
               (nodes[i].depth > 0 ==> nodes[i].id !in Reach(g, {root}, nodes[i].depth - 1)))
  {
    Covered(g, {root}, maxDepth, order, level);
    ConcludeNodes(g, root, maxDepth, order, level, nodes);
    ConcludeEdges(g, order, level, parent, nodes, edges);
    ConcludeReach(g, root, maxDepth, order, level, nodes);
  }

  /** get_related_items(item_id, relationships, reverse_relationships, all_items, max_depth). */
  method GetRelatedItems(itemId: string, g: Graph, maxDepth: int)
    returns (nodes: seq<RelatedNode>, edges: seq<(string, string)>)
    ensures itemId !in g.items ==> nodes == [] && edges == []
    ensures itemId in g.items ==> |nodes| >= 1 && nodes[0] == RelatedNode(itemId, g.items[itemId], 0)
    ensures forall i :: 0 <= i < |nodes| ==>
              (nodes[i].id in g.items && nodes[i].info == g.items[nodes[i].id] && nodes[i].depth <= Bound(maxDepth))
    ensures forall i, j :: 0 <= i < j < |nodes| ==> nodes[i].id != nodes[j].id && nodes[i].depth <= nodes[j].depth
    ensures itemId in g.items ==> |edges| == |nodes| - 1
    ensures forall k :: 0 <= k < |edges| ==> EdgeFromEarlier(g, nodes, edges, k)
    ensures itemId in g.items ==> (set i | 0 <= i < |nodes| :: nodes[i].id) == Reach(g, {itemId}, Bound(maxDepth))
    ensures forall i :: 0 <= i < |nodes| ==>
              (nodes[i].id in Reach(g, {itemId}, nodes[i].depth) &&
               (nodes[i].depth > 0 ==> nodes[i].id !in Reach(g, {itemId}, nodes[i].depth - 1)))
  {
    if itemId !in g.items {
      return [], [];
    }
    var visited := {itemId};
    var queue := [(itemId, 0)];
    nodes, edges := [], [];
    ghost var order := [itemId];
    ghost var level := StartLevels({itemId});
    ghost var parent: seq<nat> := [0];
    Start(g, {itemId}, maxDepth, order, queue);
    while queue != []
      invariant Queued(order, level, |nodes|, queue, visited) && Output(g, order, level, nodes)
      invariant Layered(order, level, |nodes|)
      invariant Sound(g, {itemId}, maxDepth, order, level)
      invariant Tree(g, order, level, parent, |nodes|, edges)
      invariant Closed(g, maxDepth, order, level, |nodes|)
      decreases g.items.Keys - visited, |queue|
    {
      ghost var nodes0, queue0, visited0, edges0 := nodes, queue, visited, edges;
      var currentId, depth := queue[0].0, queue[0].1;
      queue := queue[1..];
      if currentId in g.items {
        nodes := nodes + [RelatedNode(currentId, g.items[currentId], depth)];
      }
      ghost var added := [];
      if depth < maxDepth {
        visited, queue, edges, added := ExpandNode(g, currentId, depth, visited, queue, edges);
      }
      Advance(g, {itemId}, maxDepth, order, level, |nodes0|, queue0, visited0, added, queue, visited);
      Step(g, order, level, parent, nodes0, queue0, visited0, edges0, added, maxDepth, nodes, edges);
      order, level, parent := order + added, Deeper(level, added, depth), parent + Repeat(|nodes0|, |added|);
    }
    Conclude(g, itemId, maxDepth, order, level, parent, nodes, visited, edges);
  }

  /** On a graph whose two maps agree, every recorded edge runs from a
      dependency to its dependent and joins the parent to the child. */
  lemma TreeEdgeOrientation(g: Graph, e: (string, string), parent: string, child: string)
    requires Dual(g) && TreeEdge(g, e, parent, child)
    ensures e.1 in Get(g.relationships, e.0)
    ensures (e.0 == parent && e.1 == child) || (e.0 == child && e.1 == parent)
  {
  }

  /** A depth of zero returns the root alone; a larger depth never returns fewer items. */
  lemma QueryDepths(g: Graph, root: string, maxDepth: int)
    ensures Reach(g, {root}, Bound(0)) == {root}
    ensures Reach(g, {root}, Bound(maxDepth)) <= Reach(g, {root}, Bound(maxDepth + 1))
  {
    ReachMonotone(g, {root}, Bound(maxDepth), Bound(maxDepth + 1));
  }
}
