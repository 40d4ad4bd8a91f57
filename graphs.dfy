/** The dependency graph the explorer builds: the item table and the two
    adjacency maps, with hop-bounded reachability over both directions. */
module Graphs {

  /** One entry of all_items: the " - "-joined display name, the node label,
      the type text and the colour. The source also repeats the key in an
      'id' field; here the key alone carries the id. */
  datatype ItemInfo = ItemInfo(name: string, nodeName: string, itemType: string, color: string)

  /** relationships maps a dependency to the items that depend on it;
      reverse maps an item to the items it depends on (reverse_relationships);
      items is all_items. */
  datatype Graph = Graph(
    relationships: map<string, set<string>>,
    reverse: map<string, set<string>>,
    items: map<string, ItemInfo>)

  /** m.get(k, []) read as a set. */
  function Get(m: map<string, set<string>>, k: string): set<string>
  {
    if k in m then m[k] else {}
  }

  /** b is a dependent of a exactly when a is a dependency of b. */
  ghost predicate Dual(g: Graph)
  {
    forall a, b :: b in Get(g.relationships, a) <==> a in Get(g.reverse, b)
  }

  /** The items one hop from x in either direction that the traversals are
      willing to visit (both loops test membership in all_items). */
  function Neighbours(g: Graph, x: string): (n: set<string>)
    ensures n <= g.items.Keys
    ensures forall y :: y in n <==> y in g.items && (y in Get(g.reverse, x) || y in Get(g.relationships, x))
  {
    (Get(g.reverse, x) + Get(g.relationships, x)) * g.items.Keys
  }

  /** Everything one hop from some member of r. */
  function Step(g: Graph, r: set<string>): set<string>
  {
    set x, y | x in r && y in Neighbours(g, x) :: y
  }

  /** The items at most k hops from the start set. */
  ghost function Reach(g: Graph, starts: set<string>, k: nat): set<string>
  {
    if k == 0 then starts else Reach(g, starts, k - 1) + Step(g, Reach(g, starts, k - 1))
  }

  lemma {:induction false} ReachMonotone(g: Graph, starts: set<string>, k: nat, k': nat)
    requires k <= k'
    ensures Reach(g, starts, k) <= Reach(g, starts, k')
  {
    if k < k' {
      ReachMonotone(g, starts, k, k' - 1);
    }
  }

  /** Only the start set and known items are ever reached. */
  lemma {:induction false} ReachWithinItems(g: Graph, starts: set<string>, k: nat)
    ensures Reach(g, starts, k) <= starts + g.items.Keys
  {
    if k > 0 {
      ReachWithinItems(g, starts, k - 1);
    }
  }

  /** A traversal whose recorded depths start the sources at 0 and which,
      at every depth below the bound, has recorded each neighbour at most one
      level deeper, has recorded everything within the bound no deeper than
      its hop count. */
  ghost predicate ClosedBelow(g: Graph, depth: map<string, nat>, bound: nat)
  {
    forall x, z :: x in depth && depth[x] < bound && z in Neighbours(g, x) ==>
               z in depth && depth[z] <= depth[x] + 1
  }

  lemma NeighbourDepth(g: Graph, depth: map<string, nat>, bound: nat, x: string, z: string)
    requires ClosedBelow(g, depth, bound)
    requires x in depth && depth[x] < bound && z in Neighbours(g, x)
    ensures z in depth && depth[z] <= depth[x] + 1
  {
  }

  lemma {:induction false} ClosedCoversReach(g: Graph, starts: set<string>, depth: map<string, nat>,
                                             bound: nat, k: nat, y: string)
    requires forall s :: s in starts ==> s in depth && depth[s] == 0
    requires ClosedBelow(g, depth, bound)
    requires k <= bound && y in Reach(g, starts, k)
    ensures y in depth && depth[y] <= k
  {
    if k > 0 {
      var r := Reach(g, starts, k - 1);
      if y in r {
        ClosedCoversReach(g, starts, depth, bound, k - 1, y);
      } else {
        var x := StepSource(g, r, y);
        ClosedCoversReach(g, starts, depth, bound, k - 1, x);
        NeighbourDepth(g, depth, bound, x, y);
      }
    }
  }

  /** A member of Step(g, r) has a neighbour in r. */
  lemma StepSource(g: Graph, r: set<string>, y: string) returns (x: string)
    requires y in Step(g, r)
    ensures x in r && y in Neighbours(g, x)
  {
    x :| x in r && y in Neighbours(g, x);
  }

  /** One hop further reaches one level further. */
  lemma StepExtendsReach(g: Graph, starts: set<string>, k: nat, x: string, y: string)
    requires x in Reach(g, starts, k) && y in Neighbours(g, x)
    ensures y in Reach(g, starts, k + 1)
  {
    assert y in Step(g, Reach(g, starts, k));
  }
}
