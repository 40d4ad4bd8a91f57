/** The bookkeeping shared by the two breadth-first traversals of the
    explorer (get_related_items and find_connected_items): a ghost record of
    the discovery order and the depth at which each item was discovered,
    the invariants that tie it to the real queue and visited set, and the
    proof that a traversal which keeps them discovers exactly the items
    within the hop bound, each at its hop distance. */
module BreadthFirst {
  import opened Graphs

  /** The deepest level that can be reached: nothing is expanded when the
      requested depth is zero or negative. */
  function Bound(maxDepth: int): nat
  {
    if maxDepth < 0 then 0 else maxDepth
  }

  ghost predicate Distinct(s: seq<string>)
  {
    forall i, j :: 0 <= i < j < |s| ==> s[i] != s[j]
  }

  /** The value of a recorded depth, 0 for an item not recorded. */
  function Lv(level: map<string, nat>, x: string): nat
  {
    if x in level then level[x] else 0
  }

  /** The depths after recording `added` one level below d. */
  function Deeper(level: map<string, nat>, added: seq<string>, d: nat): map<string, nat>
  {
    level + map x | x in added :: d + 1
  }

  /** The recorded depth of the i-th discovered item. */
  function LvAt(order: seq<string>, level: map<string, nat>, i: int): nat
  {
    if 0 <= i < |order| then Lv(level, order[i]) else 0
  }

  /** The entries appended to the queue when `added` is discovered from a
      node at depth d. */
  function Enqueued(added: seq<string>, d: nat): (q: seq<(string, nat)>)
    ensures |q| == |added| && forall i :: 0 <= i < |added| ==> q[i] == (added[i], d + 1)
  {
    seq(|added|, i requires 0 <= i < |added| => (added[i], d + 1))
  }

  /** The real queue and visited set are the discovery order split at
      `head`: the first `head` discovered items have been taken from the
      queue, the rest wait in it with their depths, and visited holds every
      item discovered so far. */
  ghost predicate Queued(order: seq<string>, level: map<string, nat>, head: nat,
                         queue: seq<(string, nat)>, visited: set<string>)
  {
    && head + |queue| == |order|
    && visited == level.Keys
    && (forall x :: x in level <==> x in order)
    && (forall i :: 0 <= i < |queue| ==> queue[i] == (order[head + i], LvAt(order, level, head + i)))
  }

  /** Breadth-first layering: nothing is discovered twice, depths never
      decrease along the discovery order, and the queue spans at most two
      consecutive depths. */
  ghost predicate Layered(order: seq<string>, level: map<string, nat>, head: nat)
  {
    && Distinct(order)
    && (forall i, j :: 0 <= i <= j < |order| ==> LvAt(order, level, i) <= LvAt(order, level, j))
    && (head < |order| ==> LvAt(order, level, |order| - 1) <= LvAt(order, level, head) + 1)
  }

  /** The i-th discovered item is recorded within the bound at a depth it is
      reachable in. */
  ghost predicate PlacedAt(g: Graph, roots: set<string>, maxDepth: int, order: seq<string>,
                           level: map<string, nat>, i: int)
  {
    && 0 <= i < |order| && order[i] in level
    && level[order[i]] <= Bound(maxDepth) && order[i] in Reach(g, roots, level[order[i]])
  }

  /** The start items are recorded at depth 0 and every recorded depth is
      reachable in that many hops and within the bound. */
  ghost predicate Sound(g: Graph, roots: set<string>, maxDepth: int, order: seq<string>, level: map<string, nat>)
  {
    && (forall x :: x in roots ==> x in level && level[x] == 0)
    && (forall i :: 0 <= i < |order| ==> PlacedAt(g, roots, maxDepth, order, level, i))
  }

  /** Item p, once taken from the queue, has had all its neighbours recorded,
      none more than one level deeper, unless it lay at the bound. */
  ghost predicate SettledAt(g: Graph, maxDepth: int, order: seq<string>, level: map<string, nat>, p: int)
  {
    && 0 <= p < |order|
    && (LvAt(order, level, p) < maxDepth ==>
          forall z {:trigger z in Neighbours(g, order[p])} :: z in Neighbours(g, order[p]) ==>
            z in level && level[z] <= LvAt(order, level, p) + 1)
  }

  ghost predicate Closed(g: Graph, maxDepth: int, order: seq<string>, level: map<string, nat>, head: nat)
  {
    forall p :: 0 <= p < head && p < |order| ==> SettledAt(g, maxDepth, order, level, p)
  }

  /** Every start item recorded at depth 0. */
  function StartLevels(roots: set<string>): map<string, nat>
  {
    map x | x in roots :: 0
  }

  /** The state before the first iteration: every start item queued at depth 0. */
  lemma Start(g: Graph, roots: set<string>, maxDepth: int, order: seq<string>, queue: seq<(string, nat)>)
    requires Distinct(order) && (forall x :: x in roots <==> x in order)
    requires |queue| == |order| && forall i :: 0 <= i < |order| ==> queue[i] == (order[i], 0)
    ensures Queued(order, StartLevels(roots), 0, queue, roots)
    ensures Layered(order, StartLevels(roots), 0)
    ensures Sound(g, roots, maxDepth, order, StartLevels(roots))
    ensures Closed(g, maxDepth, order, StartLevels(roots), 0)
  {
    var level := StartLevels(roots);
    forall i | 0 <= i < |order|
      ensures order[i] in roots && LvAt(order, level, i) == 0
      ensures PlacedAt(g, roots, maxDepth, order, level, i)
    {
      assert order[i] in order;
    }
  }

  /** Appending newly discovered items leaves the depths of the old ones alone. */
  lemma ExtendLevels(order: seq<string>, level: map<string, nat>, d: nat,
                     added: seq<string>, order': seq<string>, level': map<string, nat>)
    requires (forall x :: x in level <==> x in order) && forall i :: 0 <= i < |added| ==> added[i] !in level
    requires order' == order + added && level' == Deeper(level, added, d)
    ensures forall x :: x in level' <==> x in order'
    ensures forall i :: 0 <= i < |order| ==> LvAt(order', level', i) == LvAt(order, level, i) && order'[i] == order[i]
    ensures forall i :: |order| <= i < |order'| ==> LvAt(order', level', i) == d + 1 && order'[i] == added[i - |order|]
    ensures forall x :: x in level ==> level'[x] == level[x]
  {
    forall i | 0 <= i < |order|
      ensures LvAt(order', level', i) == LvAt(order, level, i) && order'[i] == order[i]
    {
      assert order[i] in level;
    }
    forall i | |order| <= i < |order'|
      ensures LvAt(order', level', i) == d + 1 && order'[i] == added[i - |order|]
    {
      assert order'[i] == added[i - |order|];
      assert added[i - |order|] in added;
    }
  }

  lemma StepQueued(order: seq<string>, level: map<string, nat>, head: nat,
                   queue: seq<(string, nat)>, visited: set<string>, d: nat, added: seq<string>,
                   queue': seq<(string, nat)>, visited': set<string>, order': seq<string>, level': map<string, nat>)
    requires Queued(order, level, head, queue, visited) && queue != [] && d == queue[0].1
    requires queue' == queue[1..] + Enqueued(added, d)
    requires visited' == visited + set x | x in added
    requires forall i :: 0 <= i < |added| ==> added[i] !in level
    requires order' == order + added && level' == Deeper(level, added, d)
    ensures Queued(order', level', head + 1, queue', visited')
  {
    ExtendLevels(order, level, d, added, order', level');
    forall i | 0 <= i < |queue'|
      ensures queue'[i] == (order'[head + 1 + i], LvAt(order', level', head + 1 + i))
    {
      if i < |queue| - 1 {
        assert queue'[i] == queue[i + 1];
      } else {
        assert queue'[i] == (added[i - (|queue| - 1)], d + 1);
      }
    }
  }

  lemma StepLayered(order: seq<string>, level: map<string, nat>, head: nat, d: nat,
                    added: seq<string>, order': seq<string>, level': map<string, nat>)
    requires head < |order| && Layered(order, level, head) && LvAt(order, level, head) == d
    requires (forall x :: x in level <==> x in order)
    requires Distinct(added) && forall i :: 0 <= i < |added| ==> added[i] !in level
    requires order' == order + added && level' == Deeper(level, added, d)
    ensures Layered(order', level', head + 1)
  {
    ExtendLevels(order, level, d, added, order', level');
    forall i, j | 0 <= i < j < |order'|
      ensures order'[i] != order'[j]
    {
      if j >= |order| && i < |order| {
        assert order[i] in level;
      }
    }
    forall i, j | 0 <= i <= j < |order'|
      ensures LvAt(order', level', i) <= LvAt(order', level', j)
    {
      if j < |order| {
        assert LvAt(order, level, i) <= LvAt(order, level, j);
      } else if i < |order| {
        assert LvAt(order, level, i) <= LvAt(order, level, |order| - 1);
        assert LvAt(order, level, |order| - 1) <= LvAt(order, level, head) + 1;
      }
    }
    if head + 1 < |order'| {
      if |order'| - 1 < |order| {
        assert LvAt(order, level, |order| - 1) <= LvAt(order, level, head) + 1;
        assert LvAt(order, level, head) <= LvAt(order, level, head + 1);
      } else if head + 1 < |order| {
        assert LvAt(order, level, head) <= LvAt(order, level, head + 1);
      }
    }
  }

  lemma StepClosed(g: Graph, maxDepth: int, order: seq<string>, level: map<string, nat>, head: nat,
                   current: string, d: nat, added: seq<string>, order': seq<string>, level': map<string, nat>)
    requires head < |order| && order[head] == current && LvAt(order, level, head) == d
    requires Closed(g, maxDepth, order, level, head) && Layered(order, level, head)
    requires (forall x :: x in level <==> x in order) && forall i :: 0 <= i < |added| ==> added[i] !in level
    requires d < maxDepth ==> Neighbours(g, current) <= level.Keys + set x | x in added
    requires order' == order + added && level' == Deeper(level, added, d)
    ensures Closed(g, maxDepth, order', level', head + 1)
  {
    ExtendLevels(order, level, d, added, order', level');
    forall p | 0 <= p < head + 1 && p < |order'|
      ensures SettledAt(g, maxDepth, order', level', p)
    {
      if p < head {
        assert SettledAt(g, maxDepth, order, level, p);
      } else if d < maxDepth {
        forall z | z in Neighbours(g, order'[p])
          ensures z in level' && level'[z] <= LvAt(order', level', p) + 1
        {
          if z in level {
            var q :| 0 <= q < |order| && order[q] == z;
            assert LvAt(order, level, q) <= LvAt(order, level, |order| - 1);
          }
        }
      }
    }
  }

  lemma StepSound(g: Graph, roots: set<string>, maxDepth: int, order: seq<string>, level: map<string, nat>,
                  head: nat, current: string, d: nat, added: seq<string>, order': seq<string>, level': map<string, nat>)
    requires Sound(g, roots, maxDepth, order, level) && head < |order| && order[head] == current
    requires LvAt(order, level, head) == d && d < maxDepth
    requires (forall x :: x in level <==> x in order)
    requires forall i :: 0 <= i < |added| ==> added[i] !in level && added[i] in Neighbours(g, current)
    requires order' == order + added && level' == Deeper(level, added, d)
    ensures Sound(g, roots, maxDepth, order', level')
  {
    ExtendLevels(order, level, d, added, order', level');
    assert PlacedAt(g, roots, maxDepth, order, level, head);
    forall i | 0 <= i < |order'|
      ensures PlacedAt(g, roots, maxDepth, order', level', i)
    {
      if i < |order| {
        assert PlacedAt(g, roots, maxDepth, order, level, i);
      } else {
        StepExtendsReach(g, roots, d, current, order'[i]);
      }
    }
  }

  /** One iteration of a traversal loop: the head of the queue is taken out
      and, when it lies above the bound, its unvisited neighbours `added`
      are visited and queued one level deeper. The four invariants hold
      again of the discovery order extended by `added`. */
  lemma Advance(g: Graph, roots: set<string>, maxDepth: int, order: seq<string>, level: map<string, nat>, head: nat,
                queue: seq<(string, nat)>, visited: set<string>, added: seq<string>,
                queue': seq<(string, nat)>, visited': set<string>)
    requires Queued(order, level, head, queue, visited)
    requires Layered(order, level, head)
    requires Sound(g, roots, maxDepth, order, level)
    requires Closed(g, maxDepth, order, level, head)
    requires queue != []
    requires queue[0].1 >= maxDepth ==> added == [] && queue' == queue[1..] && visited' == visited
    requires queue[0].1 < maxDepth ==>
      && queue' == queue[1..] + Enqueued(added, queue[0].1)
      && visited' == visited + (set x | x in added)
      && Distinct(added)
      && (forall i :: 0 <= i < |added| ==> added[i] !in visited && added[i] in Neighbours(g, queue[0].0))
      && Neighbours(g, queue[0].0) <= visited'
    ensures Queued(order + added, Deeper(level, added, queue[0].1), head + 1, queue', visited')
    ensures Layered(order + added, Deeper(level, added, queue[0].1), head + 1)
    ensures Sound(g, roots, maxDepth, order + added, Deeper(level, added, queue[0].1))
    ensures Closed(g, maxDepth, order + added, Deeper(level, added, queue[0].1), head + 1)
    ensures head < |order| && queue[0] == (order[head], LvAt(order, level, head))
  {
    var current, d := queue[0].0, queue[0].1;
    var order', level' := order + added, Deeper(level, added, d);
    assert current == order[head] && d == LvAt(order, level, head);
    if d >= maxDepth {
      assert level' == level && order' == order;
      assert queue' == queue[1..] + Enqueued(added, d);
    }
    StepQueued(order, level, head, queue, visited, d, added, queue', visited', order', level');
    StepLayered(order, level, head, d, added, order', level');
    StepClosed(g, maxDepth, order, level, head, current, d, added, order', level');
    if d < maxDepth {
      StepSound(g, roots, maxDepth, order, level, head, current, d, added, order', level');
    }
  }

  /** When the queue has run dry, the discovery order holds exactly the items
      within the bound, each recorded at its hop distance from the start set. */
  lemma Covered(g: Graph, roots: set<string>, maxDepth: int, order: seq<string>, level: map<string, nat>)
    requires (forall x :: x in level <==> x in order)
    requires Sound(g, roots, maxDepth, order, level)
    requires Closed(g, maxDepth, order, level, |order|)
    ensures (set i | 0 <= i < |order| :: order[i]) == Reach(g, roots, Bound(maxDepth))
    ensures forall i :: 0 <= i < |order| ==>
              (&& order[i] in level && level[order[i]] == LvAt(order, level, i)
               && LvAt(order, level, i) <= Bound(maxDepth)
               && order[i] in Reach(g, roots, LvAt(order, level, i))
               && (LvAt(order, level, i) > 0 ==> order[i] !in Reach(g, roots, LvAt(order, level, i) - 1)))
  {
    forall x, z | x in level && level[x] < Bound(maxDepth) && z in Neighbours(g, x)
      ensures z in level && level[z] <= level[x] + 1
    {
      var p :| 0 <= p < |order| && order[p] == x;
      assert SettledAt(g, maxDepth, order, level, p);
    }
    var ids := set i | 0 <= i < |order| :: order[i];
    forall y | y in Reach(g, roots, Bound(maxDepth))
      ensures y in ids
    {
      ClosedCoversReach(g, roots, level, Bound(maxDepth), Bound(maxDepth), y);
      var i :| 0 <= i < |order| && order[i] == y;
    }
    forall y | y in ids
      ensures y in Reach(g, roots, Bound(maxDepth))
    {
      var i :| 0 <= i < |order| && order[i] == y;
      assert PlacedAt(g, roots, maxDepth, order, level, i);
      ReachMonotone(g, roots, level[y], Bound(maxDepth));
    }
    forall i | 0 <= i < |order|
      ensures && order[i] in level && level[order[i]] == LvAt(order, level, i)
              && LvAt(order, level, i) <= Bound(maxDepth)
              && order[i] in Reach(g, roots, LvAt(order, level, i))
              && (LvAt(order, level, i) > 0 ==> order[i] !in Reach(g, roots, LvAt(order, level, i) - 1))
    {
      assert PlacedAt(g, roots, maxDepth, order, level, i);
      if LvAt(order, level, i) > 0 && order[i] in Reach(g, roots, LvAt(order, level, i) - 1) {
        ClosedCoversReach(g, roots, level, Bound(maxDepth), LvAt(order, level, i) - 1, order[i]);
      }
    }
  }
}
