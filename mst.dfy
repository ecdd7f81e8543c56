/** Corridor selection (src/mst.rs): a union-find structure, Kruskal's algorithm over the
    triangulation sorted by squared doorway distance, and the reintroduction of some of the
    non-tree edges. */
module Mst {
  import opened Collections
  import opened Geometry
  import opened Config
  import opened Rng
  import opened Mock

  type Edge = (nat, nat)

  /** A doorway of the newer room graph: its position and the index of the room owning it. */
  datatype Doorway = Doorway(roomIndex: nat, position: Vector2)

  /** `RoomGraph`: the rooms (passed through untouched), the doorways and the edges between
      doorways. */
  datatype RoomGraph<R> = RoomGraph(rooms: seq<R>, doorways: seq<Doorway>, edges: seq<Edge>)

  // ---------------------------------------------------------------------------------------
  // Union-find

  /** Every parent link stays in range and climbs to a strictly higher rank: the invariant that
      union by rank keeps and that makes the parent chains finite. */
  predicate RankOrdered(parent: seq<nat>, rank: seq<nat>) {
    |parent| == |rank| &&
    forall i :: 0 <= i < |parent| ==> parent[i] < |parent| && (parent[i] != i ==> rank[i] < rank[parent[i]])
  }

  /** The largest rank, bounding every chain of strictly increasing ranks. */
  function MaxOf(s: seq<nat>): (m: nat)
    ensures forall i :: 0 <= i < |s| ==> s[i] <= m
  {
    if s == [] then 0 else
      var t := MaxOf(s[1..]);
      assert forall i :: 1 <= i < |s| ==> s[i] == s[1..][i - 1];
      if s[0] > t then s[0] else t
  }

  /** The representative `find_set` climbs to. */
  ghost function Root(parent: seq<nat>, rank: seq<nat>, e: nat): (r: nat)
    requires RankOrdered(parent, rank) && e < |parent|
    ensures r < |parent| && parent[r] == r
    ensures r == e || rank[e] < rank[r]
    decreases MaxOf(rank) - rank[e]
  {
    if parent[e] == e then e else Root(parent, rank, parent[e])
  }

  /** Which root an element reaches depends on the parent links only. */
  lemma {:induction false} RootIgnoresRank(parent: seq<nat>, r1: seq<nat>, r2: seq<nat>, e: nat)
    requires RankOrdered(parent, r1) && RankOrdered(parent, r2) && e < |parent|
    ensures Root(parent, r1, e) == Root(parent, r2, e)
    decreases MaxOf(r1) - r1[e]
  {
    if parent[e] != e {
      RootIgnoresRank(parent, r1, r2, parent[e]);
    }
  }

  /** Path compression: pointing `x` straight at its root changes no element's root. */
  lemma {:induction false} CompressKeepsRoots(parent: seq<nat>, rank: seq<nat>, x: nat, e: nat)
    requires RankOrdered(parent, rank) && x < |parent| && e < |parent|
    ensures RankOrdered(parent[x := Root(parent, rank, x)], rank)
    ensures Root(parent[x := Root(parent, rank, x)], rank, e) == Root(parent, rank, e)
    decreases MaxOf(rank) - rank[e]
  {
    var p' := parent[x := Root(parent, rank, x)];
    assert RankOrdered(p', rank);
    if parent[e] != e && e != x {
      CompressKeepsRoots(parent, rank, x, parent[e]);
    }
  }

  /** Union by rank: hanging root `b` under root `a` (never of lower rank) sends exactly the
      elements of `b`'s tree to `a`. */
  lemma {:induction false} LinkRoots(parent: seq<nat>, rank: seq<nat>, a: nat, b: nat, e: nat)
    requires RankOrdered(parent, rank) && a < |parent| && b < |parent| && e < |parent|
    requires parent[a] == a && parent[b] == b && a != b && rank[b] <= rank[a]
    ensures RankOrdered(parent[b := a], Linked(rank, a, b))
    ensures Root(parent[b := a], Linked(rank, a, b), e) ==
            if Root(parent, rank, e) == b then a else Root(parent, rank, e)
    decreases MaxOf(rank) - rank[e]
  {
    var p' := parent[b := a];
    var r' := Linked(rank, a, b);
    assert RankOrdered(p', r') by {
      forall i | 0 <= i < |p'| && p'[i] != i
        ensures r'[i] < r'[p'[i]]
      {
        if i != b {
          assert rank[parent[i]] <= r'[parent[i]];
        }
      }
    }
    if parent[e] != e {
      LinkRoots(parent, rank, a, b, parent[e]);
    }
  }

  /** The ranks after linking root `b` under root `a`: `a` gains one only on a tie. */
  function Linked(rank: seq<nat>, a: nat, b: nat): (r: seq<nat>)
    requires a < |rank| && b < |rank|
    ensures |r| == |rank|
  {
    if rank[a] == rank[b] then rank[a := rank[a] + 1] else rank
  }

  /** `DisjointSet`: union-find with path compression and union by rank. */
  class DisjointSet {
    var parent: seq<nat>
    var rank: seq<nat>

    ghost predicate Valid()
      reads this
    {
      RankOrdered(parent, rank)
    }

    /** `DisjointSet::new`: every entity is alone in its set. */
    constructor (entityCount: nat)
      ensures Valid() && |parent| == entityCount
      ensures forall e :: 0 <= e < entityCount ==> parent[e] == e && rank[e] == 0
      ensures forall e :: 0 <= e < entityCount ==> Root(parent, rank, e) == e
    {
      parent := seq(entityCount, i => i);
      rank := seq(entityCount, i => 0);
    }

    /** `DisjointSet::find_set`, recursive path compression. */
    method FindSet(entity: nat) returns (r: nat)
      requires Valid() && entity < |parent|
      modifies this`parent
      ensures Valid() && |parent| == |old(parent)|
      ensures r == Root(old(parent), rank, entity) && parent[r] == r && parent[entity] == r
      ensures forall x :: 0 <= x < |parent| ==> Root(parent, rank, x) == Root(old(parent), rank, x)
      decreases MaxOf(rank) - rank[entity]
    {
      if parent[entity] == entity {
        return entity;
      }
      ghost var p0 := parent;
      var p := FindSet(parent[entity]);
      ghost var p1 := parent;
      assert p == Root(p1, rank, entity);
      parent := parent[entity := p];
      forall x | 0 <= x < |parent|
        ensures Root(parent, rank, x) == Root(p0, rank, x)
      {
        CompressKeepsRoots(p1, rank, entity, x);
      }
      r := parent[entity];
    }

    /** `DisjointSet::union_sets`: joins the sets of `a` and `b`, hanging the root of lower rank
        under the other; a tie goes to `a`'s root, whose rank then grows by one. */
    method UnionSets(a: nat, b: nat)
      requires Valid() && a < |parent| && b < |parent|
      modifies this
      ensures Valid() && |parent| == |old(parent)|
      ensures Root(parent, rank, a) == Root(parent, rank, b)
      ensures forall x :: 0 <= x < |parent| ==>
        Root(parent, rank, x) == Merged(old(parent), old(rank), a, b, Root(old(parent), old(rank), x))
      ensures Root(old(parent), old(rank), a) == Root(old(parent), old(rank), b) ==> rank == old(rank)
      ensures Root(old(parent), old(rank), a) != Root(old(parent), old(rank), b) ==>
        var w, l := Winner(old(parent), old(rank), a, b), Loser(old(parent), old(rank), a, b);
        parent[l] == w && rank == Linked(old(rank), w, l)
    {
      ghost var p0, r0 := parent, rank;
      var entityA := FindSet(a);
      ghost var pa := parent;
      var entityB := FindSet(b);
      assert forall x :: 0 <= x < |parent| ==> Root(parent, rank, x) == Root(p0, rank, x) by {
        forall x | 0 <= x < |parent|
          ensures Root(parent, rank, x) == Root(p0, rank, x)
        {
          assert Root(parent, rank, x) == Root(pa, rank, x);
        }
      }
      if entityA == entityB {
        assert forall x :: 0 <= x < |parent| ==> Merged(p0, r0, a, b, Root(p0, r0, x)) == Root(p0, r0, x);
        return;
      }
      if rank[entityA] < rank[entityB] {
        entityA, entityB := entityB, entityA;
      }
      ghost var w, l := Winner(p0, r0, a, b), Loser(p0, r0, a, b);
      assert entityA == w && entityB == l;
      LinkMerged(p0, r0, parent, a, b);
      parent := parent[entityB := entityA];
      if rank[entityA] == rank[entityB] {
        rank := rank[entityA := rank[entityA] + 1];
      }
      assert rank == Linked(r0, w, l);
      assert Root(parent, rank, a) == w && Root(parent, rank, b) == w;
    }
  }

  /** The step of `union_sets` after both finds: linking the loser under the winner merges
      exactly the two sets, whatever compression the finds did. */
  lemma LinkMerged(p0: seq<nat>, rank: seq<nat>, p1: seq<nat>, a: nat, b: nat)
    requires RankOrdered(p0, rank) && RankOrdered(p1, rank) && |p1| == |p0|
    requires a < |p0| && b < |p0|
    requires forall x :: 0 <= x < |p1| ==> Root(p1, rank, x) == Root(p0, rank, x)
    requires Root(p0, rank, a) != Root(p0, rank, b)
    ensures var w, l := Winner(p0, rank, a, b), Loser(p0, rank, a, b);
      && w < |p1| && l < |p1| && p1[w] == w && p1[l] == l && w != l
      && {w, l} == {Root(p0, rank, a), Root(p0, rank, b)}
      && RankOrdered(p1[l := w], Linked(rank, w, l))
      && forall x :: 0 <= x < |p1| ==>
           Root(p1[l := w], Linked(rank, w, l), x) == Merged(p0, rank, a, b, Root(p0, rank, x))
  {
    var w, l := Winner(p0, rank, a, b), Loser(p0, rank, a, b);
    assert Root(p1, rank, w) == w && Root(p1, rank, l) == l;
    forall x | 0 <= x < |p1|
      ensures Root(p1[l := w], Linked(rank, w, l), x) == Merged(p0, rank, a, b, Root(p0, rank, x))
    {
      LinkRoots(p1, rank, w, l, x);
    }
    LinkRoots(p1, rank, w, l, 0);
  }

  /** The root that survives `union_sets(a, b)`: the one of higher rank, `a`'s on a tie. */
  ghost function Winner(parent: seq<nat>, rank: seq<nat>, a: nat, b: nat): nat
    requires RankOrdered(parent, rank) && a < |parent| && b < |parent|
  {
    var ra, rb := Root(parent, rank, a), Root(parent, rank, b);
    if rank[ra] < rank[rb] then rb else ra
  }

  /** The root that `union_sets(a, b)` hangs under the other. */
  ghost function Loser(parent: seq<nat>, rank: seq<nat>, a: nat, b: nat): nat
    requires RankOrdered(parent, rank) && a < |parent| && b < |parent|
  {
    var ra, rb := Root(parent, rank, a), Root(parent, rank, b);
    if rank[ra] < rank[rb] then ra else rb
  }

  /** The root an element with old root `r` has after `union_sets(a, b)`. */
  ghost function Merged(parent: seq<nat>, rank: seq<nat>, a: nat, b: nat, r: nat): nat
    requires RankOrdered(parent, rank) && a < |parent| && b < |parent|
  {
    if r == Root(parent, rank, a) || r == Root(parent, rank, b) then Winner(parent, rank, a, b) else r
  }

  /** Labels that name the same sets as the union-find roots: the partition both describe. */
  ghost predicate SamePartition(parent: seq<nat>, rank: seq<nat>, labels: seq<nat>)
    requires RankOrdered(parent, rank)
  {
    |labels| == |parent| &&
    forall x, y :: 0 <= x < |parent| && 0 <= y < |parent| ==>
      (Root(parent, rank, x) == Root(parent, rank, y) <==> labels[x] == labels[y])
  }

  /** Merging the class labelled `from` into the class labelled `to`. */
  function Relabel(labels: seq<nat>, from: nat, to: nat): (r: seq<nat>)
    ensures |r| == |labels|
    ensures forall i :: 0 <= i < |labels| ==> r[i] == if labels[i] == from then to else labels[i]
  {
    seq(|labels|, i requires 0 <= i < |labels| => if labels[i] == from then to else labels[i])
  }

  /** Each element in a class of its own. */
  function Identity(n: nat): (r: seq<nat>)
    ensures |r| == n && forall i :: 0 <= i < n ==> r[i] == i
  {
    seq(n, i => i)
  }

  /** `union_sets(a, b)` does to the partition what relabelling `b`'s class as `a`'s does. */
  lemma UnionRelabels(p0: seq<nat>, r0: seq<nat>, p: seq<nat>, r: seq<nat>, labels: seq<nat>, a: nat, b: nat)
    requires RankOrdered(p0, r0) && RankOrdered(p, r) && |p| == |p0|
    requires a < |p0| && b < |p0| && SamePartition(p0, r0, labels)
    requires forall x :: 0 <= x < |p| ==> Root(p, r, x) == Merged(p0, r0, a, b, Root(p0, r0, x))
    ensures SamePartition(p, r, Relabel(labels, labels[b], labels[a]))
  {
    var l := Relabel(labels, labels[b], labels[a]);
    forall x, y | 0 <= x < |p| && 0 <= y < |p|
      ensures Root(p, r, x) == Root(p, r, y) <==> l[x] == l[y]
    {
      var rx, ry := Root(p0, r0, x), Root(p0, r0, y);
      var ra, rb := Root(p0, r0, a), Root(p0, r0, b);
      assert rx == ra <==> labels[x] == labels[a];
      assert rx == rb <==> labels[x] == labels[b];
      assert ry == ra <==> labels[y] == labels[a];
      assert ry == rb <==> labels[y] == labels[b];
      assert rx == ry <==> labels[x] == labels[y];
      var w := Winner(p0, r0, a, b);
      assert w == ra || w == rb;
    }
  }

  /** Path compression leaves the partition as it was. */
  lemma FindKeepsPartition(p0: seq<nat>, p: seq<nat>, r: seq<nat>, labels: seq<nat>)
    requires RankOrdered(p0, r) && RankOrdered(p, r) && |p| == |p0| && SamePartition(p0, r, labels)
    requires forall x :: 0 <= x < |p| ==> Root(p, r, x) == Root(p0, r, x)
    ensures SamePartition(p, r, labels)
  {
  }

  /** `union_sets` together with the relabelling it corresponds to. */
  method UnionTracked(ds: DisjointSet, ghost labels: seq<nat>, a: nat, b: nat) returns (ghost next: seq<nat>)
    requires ds.Valid() && a < |ds.parent| && b < |ds.parent| && SamePartition(ds.parent, ds.rank, labels)
    modifies ds
    ensures ds.Valid() && |ds.parent| == old(|ds.parent|)
    ensures next == Relabel(labels, labels[b], labels[a]) && SamePartition(ds.parent, ds.rank, next)
  {
    ghost var p0, r0 := ds.parent, ds.rank;
    ds.UnionSets(a, b);
    UnionRelabels(p0, r0, ds.parent, ds.rank, labels, a, b);
    next := Relabel(labels, labels[b], labels[a]);
  }

  /** The labelling of eight elements while the source's `set_unification` test runs: the
      first set joined up to `firstEnd`, the second (from 3) up to `secondEnd`. */
  function TestLabels(firstEnd: nat, secondEnd: nat): (l: seq<nat>)
    ensures |l| == 8
  {
    seq(8, i => if i <= firstEnd then 0 else if 3 <= i <= secondEnd then 3 else i)
  }

  /** A union of an element with itself changes no class. */
  lemma SelfRelabel(labels: seq<nat>, a: nat)
    requires a < |labels|
    ensures Relabel(labels, labels[a], labels[a]) == labels
  {
  }

  /** `union_sets(f, f + 1)` extends the first set by one element. */
  lemma GrowFirstSet(firstEnd: nat, secondEnd: nat)
    requires firstEnd < 2 && 3 <= secondEnd <= 6
    ensures var l := TestLabels(firstEnd, secondEnd);
      Relabel(l, l[firstEnd + 1], l[firstEnd]) == TestLabels(firstEnd + 1, secondEnd)
  {
  }

  /** `union_sets(s, s + 1)` extends the second set by one element. */
  lemma GrowSecondSet(secondEnd: nat)
    requires 3 <= secondEnd < 6
    ensures var l := TestLabels(2, secondEnd);
      Relabel(l, l[secondEnd + 1], l[secondEnd]) == TestLabels(2, secondEnd + 1)
  {
  }

  /** Joins {0,1,2} and {3,4,5,6} of eight singletons by the chains of unions the source's
      `set_unification` test performs. */
  method JoinTestSets() returns (ds: DisjointSet, ghost l: seq<nat>)
    ensures fresh(ds) && ds.Valid() && |ds.parent| == 8 && SamePartition(ds.parent, ds.rank, l)
    ensures l == TestLabels(2, 6)
  {
    ds := new DisjointSet(8);
    l := Identity(8);
    assert SamePartition(ds.parent, ds.rank, l);
    assert l == TestLabels(0, 3);
    SelfRelabel(l, 0);
    l := UnionTracked(ds, l, 0, 0);
    assert l == TestLabels(0, 3);
    GrowFirstSet(0, 3);
    l := UnionTracked(ds, l, 0, 1);
    assert l == TestLabels(1, 3);
    GrowFirstSet(1, 3);
    l := UnionTracked(ds, l, 1, 2);
    assert l == TestLabels(2, 3);
    SelfRelabel(l, 3);
    l := UnionTracked(ds, l, 3, 3);
    assert l == TestLabels(2, 3);
    GrowSecondSet(3);
    l := UnionTracked(ds, l, 3, 4);
    assert l == TestLabels(2, 4);
    GrowSecondSet(4);
    l := UnionTracked(ds, l, 4, 5);
    assert l == TestLabels(2, 5);
    GrowSecondSet(5);
    l := UnionTracked(ds, l, 5, 6);
    assert l == TestLabels(2, 6);
    SelfRelabel(l, 7);
    l := UnionTracked(ds, l, 7, 7);
  }

  /** `find_set` of every element in turn; no element's root changes. */
  method AllRoots(ds: DisjointSet) returns (roots: seq<nat>)
    requires ds.Valid()
    modifies ds`parent
    ensures ds.Valid() && |ds.parent| == old(|ds.parent|)
    ensures forall i :: 0 <= i < |ds.parent| ==> Root(ds.parent, ds.rank, i) == Root(old(ds.parent), ds.rank, i)
    ensures |roots| == |ds.parent| && forall i {:trigger roots[i]} :: 0 <= i < |roots| ==> roots[i] == Root(old(ds.parent), ds.rank, i)
  {
    ghost var p0 := ds.parent;
    roots := [];
    for e := 0 to |ds.parent|
      invariant ds.Valid() && |ds.parent| == |p0|
      invariant forall i :: 0 <= i < |p0| ==> Root(ds.parent, ds.rank, i) == Root(p0, ds.rank, i)
      invariant |roots| == e && forall i {:trigger roots[i]} :: 0 <= i < e ==> roots[i] == Root(p0, ds.rank, i)
    {
      var r := ds.FindSet(e);
      roots := roots + [r];
    }
  }

  /** The source's `new_disjoint_set` test: in a fresh set of five, every element is its own
      root. */
  method NewDisjointSet() returns (roots: seq<nat>)
    ensures roots == [0, 1, 2, 3, 4]
  {
    var ds := new DisjointSet(5);
    roots := AllRoots(ds);
    assert roots[0] == 0 && roots[1] == 1 && roots[2] == 2 && roots[3] == 3 && roots[4] == 4;
  }

  /** The source's `set_unification` test: members of one joined set
      share a root and the three sets {0,1,2}, {3,4,5,6}, {7} keep three different roots. */
  method SetUnification() returns (same: bool, apart: bool)
    ensures same && apart
  {
    var ds, l := JoinTestSets();
    ghost var p, r := ds.parent, ds.rank;
    TestSetsRoots(p, r);
    var roots := AllRoots(ds);
    same := roots[0] == roots[1] == roots[2] && roots[3] == roots[4] == roots[5] == roots[6];
    apart := roots[0] != roots[3] && roots[0] != roots[7] && roots[3] != roots[7];
  }

  /** What the joined test sets mean for the roots: one root per set, three different roots. */
  lemma TestSetsRoots(parent: seq<nat>, rank: seq<nat>)
    requires RankOrdered(parent, rank) && |parent| == 8 && SamePartition(parent, rank, TestLabels(2, 6))
    ensures var root := (x: nat) requires x < 8 => Root(parent, rank, x);
      && root(0) == root(1) == root(2)
      && root(3) == root(4) == root(5) == root(6)
      && root(0) != root(3) && root(0) != root(7) && root(3) != root(7)
  {
    var l := TestLabels(2, 6);
    assert l[0] == l[1] == l[2] == 0 && l[3] == l[4] == l[5] == l[6] == 3 && l[7] == 7;
  }

  // ---------------------------------------------------------------------------------------
  // Sorting the edges by squared doorway distance

  /** Both endpoints of every edge name a doorway. */
  predicate EdgesWithin(doorways: seq<Doorway>, edges: seq<Edge>) {
    forall i :: 0 <= i < |edges| ==> edges[i].0 < |doorways| && edges[i].1 < |doorways|
  }

  /** The sort key of `minimum_spanning_tree`: the squared distance between the two doorways
      (an edge naming a missing doorway never reaches it, see `MinimumSpanningTree`). */
  function Key(doorways: seq<Doorway>, e: Edge): nat {
    if e.0 < |doorways| && e.1 < |doorways| then
      doorways[e.0].position.Minus(doorways[e.1].position).LengthSqr()
    else 0
  }

  predicate SortedByKey(doorways: seq<Doorway>, edges: seq<Edge>) {
    forall i, j :: 0 <= i < j < |edges| ==> Key(doorways, edges[i]) <= Key(doorways, edges[j])
  }

  /** The edges of key `k`, in their order of occurrence: a stable sort keeps this sequence for
      every key. */
  function WithKey(doorways: seq<Doorway>, edges: seq<Edge>, k: nat): (r: seq<Edge>)
    ensures |r| <= |edges|
  {
    if edges == [] then []
    else
      var init, last := edges[..|edges| - 1], edges[|edges| - 1];
      WithKey(doorways, init, k) + (if Key(doorways, last) == k then [last] else [])
  }

  /** How many leading elements `InsertByKey` leaves in front of `x`: all but the run of larger
      keys at the end. */
  function InsertionPoint(doorways: seq<Doorway>, sorted: seq<Edge>, x: Edge): (p: nat)
    ensures p <= |sorted|
  {
    if sorted == [] || Key(doorways, sorted[|sorted| - 1]) <= Key(doorways, x) then |sorted|
    else InsertionPoint(doorways, sorted[..|sorted| - 1], x)
  }

  /** Inserting `x` behind every element whose key is not larger: one step of a stable
      insertion sort. */
  function InsertByKey(doorways: seq<Doorway>, sorted: seq<Edge>, x: Edge): (r: seq<Edge>)
    ensures |r| == |sorted| + 1
  {
    var p := InsertionPoint(doorways, sorted, x);
    sorted[..p] + [x] + sorted[p..]
  }

  lemma InsertIsPermutation(doorways: seq<Doorway>, sorted: seq<Edge>, x: Edge)
    ensures multiset(InsertByKey(doorways, sorted, x)) == multiset(sorted) + multiset{x}
  {
    var p := InsertionPoint(doorways, sorted, x);
    assert sorted == sorted[..p] + sorted[p..];
  }

  /** `InsertByKey` read as a recursion over the sorted sequence from its end. */
  lemma InsertUnfold(doorways: seq<Doorway>, sorted: seq<Edge>, x: Edge)
    ensures sorted == [] || Key(doorways, sorted[|sorted| - 1]) <= Key(doorways, x) ==>
      InsertByKey(doorways, sorted, x) == sorted + [x]
    ensures sorted != [] && Key(doorways, sorted[|sorted| - 1]) > Key(doorways, x) ==>
      InsertByKey(doorways, sorted, x) ==
        InsertByKey(doorways, sorted[..|sorted| - 1], x) + [sorted[|sorted| - 1]]
  {
    if sorted != [] && Key(doorways, sorted[|sorted| - 1]) > Key(doorways, x) {
      var init := sorted[..|sorted| - 1];
      var p := InsertionPoint(doorways, init, x);
      assert InsertionPoint(doorways, sorted, x) == p;
      assert sorted[..p] == init[..p];
      assert sorted[p..] == init[p..] + [sorted[|sorted| - 1]];
    }
  }

  /** The stable sort by `Key` that `sort_by_key` performs, as a reference definition. */
  function SortByKey(doorways: seq<Doorway>, edges: seq<Edge>): (r: seq<Edge>)
    ensures |r| == |edges|
  {
    if edges == [] then []
    else
      var init, last := edges[..|edges| - 1], edges[|edges| - 1];
      InsertByKey(doorways, SortByKey(doorways, init), last)
  }

  /** `sort_by_key` only reorders the edges. */
  lemma {:induction false} SortIsPermutation(doorways: seq<Doorway>, edges: seq<Edge>)
    ensures multiset(SortByKey(doorways, edges)) == multiset(edges)
    decreases |edges|
  {
    if edges != [] {
      var init, last := edges[..|edges| - 1], edges[|edges| - 1];
      assert edges == init + [last];
      SortIsPermutation(doorways, init);
      InsertIsPermutation(doorways, SortByKey(doorways, init), last);
    }
  }

  /** A permutation names the same doorways. */
  lemma PermutationWithin(doorways: seq<Doorway>, a: seq<Edge>, b: seq<Edge>)
    requires multiset(a) == multiset(b) && EdgesWithin(doorways, a)
    ensures EdgesWithin(doorways, b)
  {
    forall i | 0 <= i < |b| ensures b[i].0 < |doorways| && b[i].1 < |doorways| {
      assert b[i] in multiset(a);
      var j :| 0 <= j < |a| && a[j] == b[i];
    }
  }

  lemma {:induction false} InsertKeepsSorted(doorways: seq<Doorway>, sorted: seq<Edge>, x: Edge)
    requires SortedByKey(doorways, sorted)
    ensures SortedByKey(doorways, InsertByKey(doorways, sorted, x))
    decreases |sorted|
  {
    InsertUnfold(doorways, sorted, x);
    if sorted == [] || Key(doorways, sorted[|sorted| - 1]) <= Key(doorways, x) {
    } else {
      var init, last := sorted[..|sorted| - 1], sorted[|sorted| - 1];
      InsertKeepsSorted(doorways, init, x);
      var r := InsertByKey(doorways, init, x);
      InsertIsPermutation(doorways, init, x);
      forall i | 0 <= i < |r| ensures Key(doorways, r[i]) <= Key(doorways, last) {
        assert r[i] in multiset(init) + multiset{x};
        if r[i] != x {
          var j :| 0 <= j < |init| && init[j] == r[i];
          assert sorted[j] == r[i];
        }
      }
      SortedAppend(doorways, r, last);
    }
  }

  /** A sorted sequence stays sorted when an element no smaller than all of it is appended. */
  lemma SortedAppend(doorways: seq<Doorway>, r: seq<Edge>, last: Edge)
    requires SortedByKey(doorways, r)
    requires forall i :: 0 <= i < |r| ==> Key(doorways, r[i]) <= Key(doorways, last)
    ensures SortedByKey(doorways, r + [last])
  {
    var s := r + [last];
    forall i, j | 0 <= i < j < |s| ensures Key(doorways, s[i]) <= Key(doorways, s[j]) {
      assert s[i] == r[i];
      if j < |r| { assert s[j] == r[j]; }
    }
  }

  /** `sort_by_key` leaves the edges in non-decreasing order of squared length. */
  lemma {:induction false} SortIsSorted(doorways: seq<Doorway>, edges: seq<Edge>)
    ensures SortedByKey(doorways, SortByKey(doorways, edges))
    decreases |edges|
  {
    if edges != [] {
      var init := edges[..|edges| - 1];
      SortIsSorted(doorways, init);
      InsertKeepsSorted(doorways, SortByKey(doorways, init), edges[|edges| - 1]);
    }
  }

  lemma {:induction false} WithKeyAppend(doorways: seq<Doorway>, a: seq<Edge>, b: seq<Edge>, k: nat)
    ensures WithKey(doorways, a + b, k) == WithKey(doorways, a, k) + WithKey(doorways, b, k)
    decreases |b|
  {
    if b == [] {
      assert a + b == a;
    } else {
      var init := b[..|b| - 1];
      assert (a + b)[..|a + b| - 1] == a + init;
      WithKeyAppend(doorways, a, init, k);
    }
  }

  lemma WithKeySingle(doorways: seq<Doorway>, x: Edge, k: nat)
    ensures WithKey(doorways, [x], k) == if Key(doorways, x) == k then [x] else []
  {
    assert [x][..0] == [];
  }

  lemma {:induction false} InsertIsStable(doorways: seq<Doorway>, sorted: seq<Edge>, x: Edge, k: nat)
    ensures WithKey(doorways, InsertByKey(doorways, sorted, x), k) ==
            WithKey(doorways, sorted, k) + WithKey(doorways, [x], k)
    decreases |sorted|
  {
    InsertUnfold(doorways, sorted, x);
    if sorted == [] || Key(doorways, sorted[|sorted| - 1]) <= Key(doorways, x) {
      WithKeyAppend(doorways, sorted, [x], k);
    } else {
      var init, last := sorted[..|sorted| - 1], sorted[|sorted| - 1];
      assert sorted == init + [last];
      InsertIsStable(doorways, init, x, k);
      InsertStepStable(doorways, init, last, x, k);
    }
  }

  /** The step of `InsertIsStable` past an element of larger key. */
  lemma InsertStepStable(doorways: seq<Doorway>, init: seq<Edge>, last: Edge, x: Edge, k: nat)
    requires Key(doorways, x) < Key(doorways, last)
    requires WithKey(doorways, InsertByKey(doorways, init, x), k) ==
             WithKey(doorways, init, k) + WithKey(doorways, [x], k)
    ensures WithKey(doorways, InsertByKey(doorways, init, x) + [last], k) ==
            WithKey(doorways, init + [last], k) + WithKey(doorways, [x], k)
  {
    var inserted := InsertByKey(doorways, init, x);
    WithKeyAppend(doorways, inserted, [last], k);
    WithKeyAppend(doorways, init, [last], k);
    WithKeySingle(doorways, x, k);
    WithKeySingle(doorways, last, k);
    var wi, wx, wl := WithKey(doorways, init, k), WithKey(doorways, [x], k), WithKey(doorways, [last], k);
    if wx == [] {
      assert wi + wx == wi && wi + wl + wx == wi + wl;
    } else {
      assert wl == [];
      assert wi + wl == wi && wi + wx + wl == wi + wx;
    }
  }

  /** `sort_by_key` is stable: the edges of any one length keep their relative order. */
  lemma {:induction false} SortIsStable(doorways: seq<Doorway>, edges: seq<Edge>, k: nat)
    ensures WithKey(doorways, SortByKey(doorways, edges), k) == WithKey(doorways, edges, k)
    decreases |edges|
  {
    if edges != [] {
      var init, last := edges[..|edges| - 1], edges[|edges| - 1];
      assert edges == init + [last];
      SortIsStable(doorways, init, k);
      InsertIsStable(doorways, SortByKey(doorways, init), last, k);
      WithKeyAppend(doorways, init, [last], k);
    }
  }

  /** `edges.sort_by_key(...)` in place, as a stable insertion sort; the result is the unique
      stable ordering by `Key`, whatever algorithm produces it. */
  method SortEdges(doorways: seq<Doorway>, edges: array<Edge>)
    modifies edges
    ensures edges[..] == SortByKey(doorways, old(edges[..]))
  {
    ghost var input := edges[..];
    for i := 0 to edges.Length
      invariant edges[i..] == input[i..]
      invariant edges[..i] == SortByKey(doorways, input[..i])
    {
      ghost var prefix := input[..i + 1];
      assert prefix[..i] == input[..i] && prefix[i] == input[i] == edges[i];
      assert SortByKey(doorways, prefix) == InsertByKey(doorways, edges[..i], edges[i]);
      ghost var before := edges[..];
      InsertLast(doorways, edges, i);
      assert edges[i + 1..] == before[i + 1..] == input[i + 1..];
    }
    assert edges[..] == edges[..edges.Length] && input == input[..edges.Length];
  }

  /** Where `InsertByKey` puts `x`: behind the prefix up to the first of a run of larger keys
      that reaches the end. */
  lemma {:induction false} InsertAt(doorways: seq<Doorway>, sorted: seq<Edge>, j: nat, x: Edge)
    requires j <= |sorted|
    requires forall k :: j <= k < |sorted| ==> Key(doorways, sorted[k]) > Key(doorways, x)
    requires j == 0 || Key(doorways, sorted[j - 1]) <= Key(doorways, x)
    ensures InsertionPoint(doorways, sorted, x) == j
    ensures InsertByKey(doorways, sorted, x) == sorted[..j] + [x] + sorted[j..]
    decreases |sorted|
  {
    if j < |sorted| {
      var init := sorted[..|sorted| - 1];
      assert Key(doorways, sorted[|sorted| - 1]) > Key(doorways, x);
      InsertAt(doorways, init, j, x);
    }
  }

  /** The array contents the shifting loop leaves: the prefix, the inserted element, then the
      shifted rest. */
  lemma ShiftedInsert(a: seq<Edge>, sorted: seq<Edge>, j: nat, x: Edge)
    requires |a| == |sorted| + 1 && j <= |sorted| && a[j] == x
    requires forall k :: 0 <= k < j ==> a[k] == sorted[k]
    requires forall k :: j < k < |a| ==> a[k] == sorted[k - 1]
    ensures a == sorted[..j] + [x] + sorted[j..]
  {
    var inserted := sorted[..j] + [x] + sorted[j..];
    forall k | 0 <= k < |a| ensures a[k] == inserted[k] {
      if k < j {
        assert inserted[k] == sorted[..j][k];
      } else if k > j {
        assert inserted[k] == sorted[j..][k - j - 1];
      }
    }
  }

  /** One pass of the insertion sort: shifts the larger elements of the prefix `edges[..i]`
      one place right and drops `edges[i]` into the gap. */
  method InsertLast(doorways: seq<Doorway>, edges: array<Edge>, i: nat)
    requires i < edges.Length
    modifies edges
    ensures edges[..i + 1] == InsertByKey(doorways, old(edges[..i]), old(edges[i]))
    ensures edges[i + 1..] == old(edges[i + 1..])
  {
    ghost var input := edges[..];
    ghost var sorted := input[..i];
    var x := edges[i];
    var j := i;
    while j > 0 && Key(doorways, edges[j - 1]) > Key(doorways, x)
      invariant 0 <= j <= i
      invariant forall k :: 0 <= k < j ==> edges[k] == sorted[k]
      invariant forall k :: j < k <= i ==> edges[k] == sorted[k - 1]
      invariant forall k :: i < k < edges.Length ==> edges[k] == input[k]
      invariant forall k :: j <= k < i ==> Key(doorways, sorted[k]) > Key(doorways, x)
    {
      edges[j] := edges[j - 1];
      j := j - 1;
    }
    edges[j] := x;
    InsertAt(doorways, sorted, j, x);
    ShiftedInsert(edges[..i + 1], sorted, j, x);
    assert edges[i + 1..] == input[i + 1..];
  }


  // ---------------------------------------------------------------------------------------
  // Kruskal's algorithm

  /** The classes a labelling distinguishes. */
  function Classes(labels: seq<nat>): set<nat> {
    set i | 0 <= i < |labels| :: labels[i]
  }

  /** The indices Kruskal's loop keeps, over the edges already in sorted order, the first of them
      at position `first`: an edge is kept exactly when its endpoints are still in different
      classes, and keeping it merges them (as `union_sets(edge.0, edge.1)` does). */
  function Kruskal(labels: seq<nat>, edges: seq<Edge>, first: nat): (r: seq<nat>)
    requires forall i :: 0 <= i < |edges| ==> edges[i].0 < |labels| && edges[i].1 < |labels|
    ensures forall k :: 0 <= k < |r| ==> first <= r[k] < first + |edges|
    ensures StrictlyIncreasing(r)
    decreases |edges|
  {
    if edges == [] then []
    else
      var e := edges[0];
      if labels[e.0] == labels[e.1] then Kruskal(labels, edges[1..], first + 1)
      else [first] + Kruskal(Relabel(labels, labels[e.1], labels[e.0]), edges[1..], first + 1)
  }

  /** The labelling once Kruskal's loop has run over `edges`. */
  function KruskalLabels(labels: seq<nat>, edges: seq<Edge>): (r: seq<nat>)
    requires forall i :: 0 <= i < |edges| ==> edges[i].0 < |labels| && edges[i].1 < |labels|
    ensures |r| == |labels|
    decreases |edges|
  {
    if edges == [] then labels
    else
      var e := edges[0];
      if labels[e.0] == labels[e.1] then KruskalLabels(labels, edges[1..])
      else KruskalLabels(Relabel(labels, labels[e.1], labels[e.0]), edges[1..])
  }

  /** Merging two different classes removes exactly one of them. */
  lemma RelabelMerges(labels: seq<nat>, a: nat, b: nat)
    requires a < |labels| && b < |labels| && labels[a] != labels[b]
    ensures Classes(Relabel(labels, labels[b], labels[a])) == Classes(labels) - {labels[b]}
    ensures |Classes(Relabel(labels, labels[b], labels[a]))| == |Classes(labels)| - 1
  {
    var l := Relabel(labels, labels[b], labels[a]);
    forall c | c in Classes(labels) - {labels[b]} ensures c in Classes(l) {
      var i :| 0 <= i < |labels| && labels[i] == c;
      assert l[i] == c;
    }
    assert labels[b] in Classes(labels);
  }

  /** The identity labelling has one class per element. */
  lemma {:induction false} IdentityClasses(n: nat)
    ensures forall c :: c in Classes(Identity(n)) <==> 0 <= c < n
    ensures |Classes(Identity(n))| == n
  {
    forall c | 0 <= c < n ensures c in Classes(Identity(n)) {
      assert Identity(n)[c] == c;
    }
    if n > 0 {
      IdentityClasses(n - 1);
      assert Classes(Identity(n)) == Classes(Identity(n - 1)) + {n - 1};
    }
  }

  /** Every kept edge merges two classes, so fewer edges are kept than there are classes: at
      most `doorways.len() - 1` from singletons. */
  lemma {:induction false} KruskalCount(labels: seq<nat>, edges: seq<Edge>, first: nat)
    requires forall i :: 0 <= i < |edges| ==> edges[i].0 < |labels| && edges[i].1 < |labels|
    requires |labels| > 0
    ensures |Kruskal(labels, edges, first)| < |Classes(labels)|
    decreases |edges|
  {
    if edges == [] {
      assert labels[0] in Classes(labels);
    } else {
      var e := edges[0];
      if labels[e.0] == labels[e.1] {
        KruskalCount(labels, edges[1..], first + 1);
      } else {
        RelabelMerges(labels, e.0, e.1);
        KruskalCount(Relabel(labels, labels[e.1], labels[e.0]), edges[1..], first + 1);
      }
    }
  }

  /** Elements in one class stay together for the rest of the loop. */
  lemma {:induction false} KruskalKeepsTogether(labels: seq<nat>, edges: seq<Edge>, x: nat, y: nat)
    requires forall i :: 0 <= i < |edges| ==> edges[i].0 < |labels| && edges[i].1 < |labels|
    requires x < |labels| && y < |labels| && labels[x] == labels[y]
    ensures KruskalLabels(labels, edges)[x] == KruskalLabels(labels, edges)[y]
    decreases |edges|
  {
    if edges != [] {
      var e := edges[0];
      if labels[e.0] == labels[e.1] {
        KruskalKeepsTogether(labels, edges[1..], x, y);
      } else {
        KruskalKeepsTogether(Relabel(labels, labels[e.1], labels[e.0]), edges[1..], x, y);
      }
    }
  }

  /** The kept edges span: once the loop is over, the two ends of every edge, kept or not, are
      in one class. */
  lemma {:induction false} KruskalSpans(labels: seq<nat>, edges: seq<Edge>, i: nat)
    requires forall i :: 0 <= i < |edges| ==> edges[i].0 < |labels| && edges[i].1 < |labels|
    requires i < |edges|
    ensures KruskalLabels(labels, edges)[edges[i].0] == KruskalLabels(labels, edges)[edges[i].1]
    decreases |edges|
  {
    var e := edges[0];
    var next := if labels[e.0] == labels[e.1] then labels else Relabel(labels, labels[e.1], labels[e.0]);
    assert KruskalLabels(labels, edges) == KruskalLabels(next, edges[1..]);
    if i == 0 {
      KruskalKeepsTogether(next, edges[1..], e.0, e.1);
    } else {
      assert edges[i] == edges[1..][i - 1];
      KruskalSpans(next, edges[1..], i - 1);
    }
  }

  /** One step of `Kruskal`, the shape of one pass of the loop: `kept` says whether the first
      edge is kept and `next` is the labelling after it. */
  lemma KruskalStep(labels: seq<nat>, edges: seq<Edge>, first: nat, kept: bool, next: seq<nat>)
    requires forall i :: 0 <= i < |edges| ==> edges[i].0 < |labels| && edges[i].1 < |labels|
    requires edges != [] && (kept <==> labels[edges[0].0] != labels[edges[0].1])
    requires next == if kept then Relabel(labels, labels[edges[0].1], labels[edges[0].0]) else labels
    ensures forall i :: 0 <= i < |edges| - 1 ==> edges[1..][i].0 < |next| && edges[1..][i].1 < |next|
    ensures Kruskal(labels, edges, first) == (if kept then [first] else []) + Kruskal(next, edges[1..], first + 1)
  {
  }

  /** The body of Kruskal's loop for one edge: compares the two roots and, when they differ,
      joins the sets; the labels follow the partition. */
  method JoinIfApart(disjointSet: DisjointSet, ghost labels: seq<nat>, edge: Edge) returns (joined: bool, ghost next: seq<nat>)
    requires disjointSet.Valid() && edge.0 < |disjointSet.parent| && edge.1 < |disjointSet.parent|
    requires SamePartition(disjointSet.parent, disjointSet.rank, labels)
    modifies disjointSet
    ensures disjointSet.Valid() && |disjointSet.parent| == old(|disjointSet.parent|)
    ensures joined <==> labels[edge.0] != labels[edge.1]
    ensures next == if joined then Relabel(labels, labels[edge.1], labels[edge.0]) else labels
    ensures SamePartition(disjointSet.parent, disjointSet.rank, next)
  {
    ghost var p0 := disjointSet.parent;
    var rootA := disjointSet.FindSet(edge.0);
    FindKeepsPartition(p0, disjointSet.parent, disjointSet.rank, labels);
    ghost var p1 := disjointSet.parent;
    var rootB := disjointSet.FindSet(edge.1);
    FindKeepsPartition(p1, disjointSet.parent, disjointSet.rank, labels);
    assert rootA == Root(disjointSet.parent, disjointSet.rank, edge.0);
    joined := rootA != rootB;
    if joined {
      next := UnionTracked(disjointSet, labels, edge.0, edge.1);
    } else {
      next := labels;
    }
  }

  /** `minimum_spanning_tree`: sorts `edges` in place by squared length, then runs Kruskal's
      loop over them with a fresh `DisjointSet`, returning the indices (into the sorted edges) of
      the kept ones. */
  method MinimumSpanningTree(doorways: seq<Doorway>, edges: array<Edge>) returns (edgeIndices: seq<nat>)
    requires EdgesWithin(doorways, edges[..])
    modifies edges
    ensures edges[..] == SortByKey(doorways, old(edges[..]))
    ensures EdgesWithin(doorways, edges[..])
    ensures edgeIndices == Kruskal(Identity(|doorways|), edges[..], 0)
  {
    SortEdges(doorways, edges);
    SortIsPermutation(doorways, old(edges[..]));
    PermutationWithin(doorways, old(edges[..]), edges[..]);
    edgeIndices := KruskalLoop(doorways, edges);
  }

  /** The loop of `minimum_spanning_tree` over the sorted edges, with a fresh `DisjointSet`. */
  method KruskalLoop(doorways: seq<Doorway>, edges: array<Edge>) returns (edgeIndices: seq<nat>)
    requires EdgesWithin(doorways, edges[..])
    ensures edgeIndices == Kruskal(Identity(|doorways|), edges[..], 0)
  {
    ghost var sorted := edges[..];
    ghost var total := Kruskal(Identity(|doorways|), sorted, 0);
    var disjointSet := new DisjointSet(|doorways|);
    ghost var labels := Identity(|doorways|);
    edgeIndices := [];
    assert sorted[0..] == sorted;
    for edgeIndex := 0 to edges.Length
      invariant disjointSet.Valid() && |disjointSet.parent| == |doorways| && |labels| == |doorways|
      invariant SamePartition(disjointSet.parent, disjointSet.rank, labels)
      invariant edgeIndices + Kruskal(labels, sorted[edgeIndex..], edgeIndex) == total
    {
      edgeIndices, labels := KruskalTurn(disjointSet, labels, sorted, edgeIndex, edges[edgeIndex], edgeIndices, total);
    }
  }

  /** The body of the loop of `minimum_spanning_tree` for the edge at `edgeIndex`: its index is
      pushed exactly when `JoinIfApart` joins two sets. */
  method KruskalTurn(disjointSet: DisjointSet, ghost labels: seq<nat>, ghost sorted: seq<Edge>, edgeIndex: nat, edge: Edge,
                     edgeIndices: seq<nat>, ghost total: seq<nat>)
    returns (indices: seq<nat>, ghost next: seq<nat>)
    requires disjointSet.Valid() && |disjointSet.parent| == |labels|
    requires edgeIndex < |sorted| && sorted[edgeIndex] == edge
    requires forall k :: 0 <= k < |sorted| ==> sorted[k].0 < |labels| && sorted[k].1 < |labels|
    requires SamePartition(disjointSet.parent, disjointSet.rank, labels)
    requires edgeIndices + Kruskal(labels, sorted[edgeIndex..], edgeIndex) == total
    modifies disjointSet
    ensures disjointSet.Valid() && |disjointSet.parent| == |labels| == |next|
    ensures SamePartition(disjointSet.parent, disjointSet.rank, next)
    ensures indices + Kruskal(next, sorted[edgeIndex + 1..], edgeIndex + 1) == total
  {
    var joined;
    joined, next := JoinIfApart(disjointSet, labels, edge);
    KruskalAdvance(sorted, edgeIndex, edgeIndices, labels, joined, next, total);
    indices := edgeIndices;
    if joined {
      indices := indices + [edgeIndex];
    }
  }

  /** One turn of Kruskal's loop keeps the invariant that the indices kept so far, followed by
      those the rest of the edges will yield, are those of the whole run. */
  lemma KruskalAdvance(sorted: seq<Edge>, i: nat, before: seq<nat>, labels: seq<nat>, kept: bool, next: seq<nat>,
                       total: seq<nat>)
    requires i < |sorted|
    requires forall k :: 0 <= k < |sorted| ==> sorted[k].0 < |labels| && sorted[k].1 < |labels|
    requires before + Kruskal(labels, sorted[i..], i) == total
    requires kept <==> labels[sorted[i].0] != labels[sorted[i].1]
    requires next == if kept then Relabel(labels, labels[sorted[i].1], labels[sorted[i].0]) else labels
    ensures (if kept then before + [i] else before) + Kruskal(next, sorted[i + 1..], i + 1) == total
  {
    assert sorted[i..][0] == sorted[i] && sorted[i..][1..] == sorted[i + 1..];
    KruskalStep(labels, sorted[i..], i, kept, next);
    var rest := Kruskal(next, sorted[i + 1..], i + 1);
    if kept {
      AppendAssociates(before, [i], rest);
    } else {
      assert [] + rest == rest;
    }
  }

  // ---------------------------------------------------------------------------------------
  // The source's `correct_minimum_spanning_tree` test

  /** Three doorways of one room on a right triangle with legs 3 and 2. */
  function RightTriangle(): (d: seq<Doorway>)
    ensures |d| == 3
  {
    [Doorway(0, Vector2(1, 1)), Doorway(0, Vector2(4, 1)), Doorway(0, Vector2(1, 3))]
  }

  lemma RightTriangleKeys()
    ensures Key(RightTriangle(), (0, 1)) == 9 && Key(RightTriangle(), (1, 2)) == 13
    ensures Key(RightTriangle(), (0, 2)) == 4
  {
  }

  /** Sorting a three-element sequence, spelled out step by step. */
  lemma SortThree(d: seq<Doorway>, a: Edge, b: Edge, c: Edge)
    ensures SortByKey(d, [a, b, c]) == InsertByKey(d, InsertByKey(d, [a], b), c)
  {
    var s: seq<Edge> := [a, b, c];
    assert s[..2] == [a, b] && s[..2][..1] == [a] && s[..2][..1][..0] == [];
    assert SortByKey(d, [a]) == InsertByKey(d, [], a);
    InsertUnfold(d, [], a);
    assert SortByKey(d, [a, b]) == InsertByKey(d, [a], b);
  }

  /** The triangle's edges in the order of the source's first call, and in sorted order. */
  function TriangleEdges(): (e: seq<Edge>)
    ensures EdgesWithin(RightTriangle(), e)
  {
    [(0, 1), (1, 2), (0, 2)]
  }

  function TriangleSortedEdges(): (e: seq<Edge>)
    ensures EdgesWithin(RightTriangle(), e)
  {
    [(0, 2), (0, 1), (1, 2)]
  }

  lemma RightTriangleSorted()
    ensures SortByKey(RightTriangle(), TriangleEdges()) == TriangleSortedEdges()
  {
    var d := RightTriangle();
    RightTriangleKeys();
    SortThree(d, (0, 1), (1, 2), (0, 2));
    InsertUnfold(d, [(0, 1)], (1, 2));
    assert InsertByKey(d, [(0, 1)], (1, 2)) == [(0, 1)] + [(1, 2)] == [(0, 1), (1, 2)];
    InsertUnfold(d, [], (0, 2));
    InsertUnfold(d, [(0, 1)], (0, 2));
    assert [(0, 1)][..0] == [];
    assert InsertByKey(d, [(0, 1)], (0, 2)) == [(0, 2)] + [(0, 1)];
    InsertUnfold(d, [(0, 1), (1, 2)], (0, 2));
    assert [(0, 1), (1, 2)][..1] == [(0, 1)];
    assert InsertByKey(d, [(0, 1), (1, 2)], (0, 2)) == [(0, 2), (0, 1)] + [(1, 2)];
  }

  lemma RightTriangleSortedAgain()
    ensures SortByKey(RightTriangle(), TriangleSortedEdges()) == TriangleSortedEdges()
  {
    var d := RightTriangle();
    RightTriangleKeys();
    SortThree(d, (0, 2), (0, 1), (1, 2));
    InsertUnfold(d, [(0, 2)], (0, 1));
    assert InsertByKey(d, [(0, 2)], (0, 1)) == [(0, 2)] + [(0, 1)] == [(0, 2), (0, 1)];
    InsertUnfold(d, [(0, 2), (0, 1)], (1, 2));
    assert InsertByKey(d, [(0, 2), (0, 1)], (1, 2)) == [(0, 2), (0, 1)] + [(1, 2)];
  }

  lemma RightTriangleTree()
    ensures Kruskal(Identity(3), TriangleSortedEdges(), 0) == [0, 1]
  {
    var edges: seq<Edge> := [(0, 2), (0, 1), (1, 2)];
    assert Identity(3) == [0, 1, 2];
    assert edges[1..] == [(0, 1), (1, 2)] && edges[1..][1..] == [(1, 2)] && edges[1..][1..][1..] == [];
    assert Relabel([0, 1, 2], 2, 0) == [0, 1, 0];
    assert Relabel([0, 1, 0], 1, 0) == [0, 0, 0];
  }

  /** `correct_minimum_spanning_tree`: both orderings of the triangle's edges are sorted to
      `[(0, 2), (0, 1), (1, 2)]` and the tree is the two shorter edges, `[0, 1]`. */
  method CorrectMinimumSpanningTree() returns (tree: seq<nat>, sorted: seq<Edge>, tree2: seq<nat>, sorted2: seq<Edge>)
    ensures tree == tree2 == [0, 1]
    ensures sorted == sorted2 == [(0, 2), (0, 1), (1, 2)]
  {
    RightTriangleSorted();
    tree, sorted := TriangleTree(TriangleEdges());
    RightTriangleSortedAgain();
    tree2, sorted2 := TriangleTree(TriangleSortedEdges());
  }

  /** `minimum_spanning_tree` over the triangle, for an order of its edges that sorts to
      `[(0, 2), (0, 1), (1, 2)]`. */
  method TriangleTree(input: seq<Edge>) returns (tree: seq<nat>, sorted: seq<Edge>)
    requires EdgesWithin(RightTriangle(), input)
    requires SortByKey(RightTriangle(), input) == TriangleSortedEdges()
    ensures tree == [0, 1] && sorted == TriangleSortedEdges()
  {
    var edges := new Edge[|input|](i requires 0 <= i < |input| => input[i]);
    assert edges[..] == input;
    RightTriangleTree();
    tree := MinimumSpanningTree(RightTriangle(), edges);
    sorted := edges[..];
  }

  // ---------------------------------------------------------------------------------------
  // Corridor selection

  /** The indices below `n` that are not in `tree`, in increasing order: `residual_edges`. */
  function Complement(tree: seq<nat>, n: nat): (r: seq<nat>)
    ensures forall i :: i in r <==> 0 <= i < n && i !in tree
    ensures forall k :: 0 <= k < |r| ==> r[k] < n
    ensures StrictlyIncreasing(r)
  {
    if n == 0 then []
    else
      var prev := Complement(tree, n - 1);
      if n - 1 in tree then prev else prev + [n - 1]
  }

  /** The partition loop of `pick_corridors`: a cursor into the sorted `tree` skips the tree's
      indices and every other index is pushed onto the residual list. Each index below `count`
      lands in exactly one of the two lists. */
  method ResidualEdges(tree: seq<nat>, count: nat) returns (residual: seq<nat>)
    requires StrictlyIncreasing(tree)
    ensures residual == Complement(tree, count)
    ensures (forall k :: 0 <= k < |tree| ==> tree[k] < count) ==> |tree| + |residual| == count
  {
    residual := [];
    var treeEdgeIndex := 0;
    for edgeIndex := 0 to count
      invariant treeEdgeIndex <= |tree|
      invariant residual == Complement(tree, edgeIndex)
      invariant forall k :: 0 <= k < treeEdgeIndex ==> tree[k] < edgeIndex
      invariant treeEdgeIndex < |tree| ==> tree[treeEdgeIndex] >= edgeIndex
      invariant treeEdgeIndex + |residual| == edgeIndex
    {
      if treeEdgeIndex < |tree| && edgeIndex == tree[treeEdgeIndex] {
        treeEdgeIndex := treeEdgeIndex + 1;
        continue;
      }
      residual := residual + [edgeIndex];
    }
  }

  /** Whether an edge joins doorways of two different rooms. */
  predicate CrossesRooms(doorways: seq<Doorway>, e: Edge) {
    e.0 < |doorways| && e.1 < |doorways| && doorways[e.0].roomIndex != doorways[e.1].roomIndex
  }

  /** The edges `edges[i]`, for the indices `i` of `indices` in their order, that join two
      rooms. */
  function CrossRoom(doorways: seq<Doorway>, edges: seq<Edge>, indices: seq<nat>): (r: seq<Edge>)
    requires forall k :: 0 <= k < |indices| ==> indices[k] < |edges|
    ensures forall e :: e in r ==> e in edges && CrossesRooms(doorways, e)
    ensures |r| <= |indices|
  {
    if indices == [] then []
    else
      var init := indices[..|indices| - 1];
      var e := edges[indices[|indices| - 1]];
      assert forall k :: 0 <= k < |init| ==> init[k] == indices[k];
      CrossRoom(doorways, edges, init) + (if CrossesRooms(doorways, e) then [e] else [])
  }

  /** `CrossRoom` keeps exactly the listed edges that join two rooms. */
  lemma {:induction false} CrossRoomMembers(doorways: seq<Doorway>, edges: seq<Edge>, indices: seq<nat>)
    requires forall k :: 0 <= k < |indices| ==> indices[k] < |edges|
    ensures forall e :: e in CrossRoom(doorways, edges, indices) <==>
      exists k :: 0 <= k < |indices| && edges[indices[k]] == e && CrossesRooms(doorways, e)
    decreases |indices|
  {
    if indices != [] {
      var init := indices[..|indices| - 1];
      assert forall k :: 0 <= k < |init| ==> init[k] == indices[k];
      CrossRoomMembers(doorways, edges, init);
    }
  }

  /** The residual edges the last loop of `pick_corridors` reintroduces, and the number of draws
      made so far: each residual edge that joins two rooms costs one draw in `1..=den`, and it is
      kept when the draw is at most `num`. Edges within one room cost no draw. */
  function Reintroduce(density: (nat, nat), doorways: seq<Doorway>, edges: seq<Edge>, indices: seq<nat>, rng: Source, calls: nat): (r: (seq<Edge>, nat))
    requires forall k :: 0 <= k < |indices| ==> indices[k] < |edges|
    ensures r.1 == calls + |CrossRoom(doorways, edges, indices)|
    ensures forall e :: e in r.0 ==> e in CrossRoom(doorways, edges, indices)
  {
    if indices == [] then ([], calls)
    else
      var init := indices[..|indices| - 1];
      var e := edges[indices[|indices| - 1]];
      assert forall k :: 0 <= k < |init| ==> init[k] == indices[k];
      var prev := Reintroduce(density, doorways, edges, init, rng, calls);
      if !CrossesRooms(doorways, e) then prev
      else
        var draw := rng(prev.1, 1, density.1);
        (if draw <= density.0 then prev.0 + [e] else prev.0, prev.1 + 1)
  }

  /** When every draw exceeds `num`, nothing is reintroduced. */
  lemma {:induction false} ReintroduceNone(density: (nat, nat), doorways: seq<Doorway>, edges: seq<Edge>, indices: seq<nat>, rng: Source, calls: nat)
    requires forall k :: 0 <= k < |indices| ==> indices[k] < |edges|
    requires forall c: nat :: rng(c, 1, density.1) > density.0
    ensures Reintroduce(density, doorways, edges, indices, rng, calls).0 == []
    decreases |indices|
  {
    if indices != [] {
      ReintroduceNone(density, doorways, edges, indices[..|indices| - 1], rng, calls);
    }
  }

  /** When no draw exceeds `num`, every residual edge joining two rooms is reintroduced. */
  lemma {:induction false} ReintroduceAll(density: (nat, nat), doorways: seq<Doorway>, edges: seq<Edge>, indices: seq<nat>, rng: Source, calls: nat)
    requires forall k :: 0 <= k < |indices| ==> indices[k] < |edges|
    requires forall c: nat :: rng(c, 1, density.1) <= density.0
    ensures Reintroduce(density, doorways, edges, indices, rng, calls).0 == CrossRoom(doorways, edges, indices)
    decreases |indices|
  {
    if indices != [] {
      ReintroduceAll(density, doorways, edges, indices[..|indices| - 1], rng, calls);
    }
  }

  /** Sorting keeps the set of edges, so the sorted edges stay within the doorways. */
  lemma SortKeepsEdges(doorways: seq<Doorway>, edges: seq<Edge>)
    requires EdgesWithin(doorways, edges)
    ensures EdgesWithin(doorways, SortByKey(doorways, edges))
    ensures forall e :: e in SortByKey(doorways, edges) <==> e in edges
  {
    var sorted := SortByKey(doorways, edges);
    SortIsPermutation(doorways, edges);
    PermutationWithin(doorways, edges, sorted);
    forall e ensures e in sorted <==> e in edges {
      assert e in sorted <==> e in multiset(sorted);
      assert e in edges <==> e in multiset(edges);
    }
  }

  /** The tree `minimum_spanning_tree` returns for these edges: indices into the sorted edges. */
  function TreeOf(doorways: seq<Doorway>, edges: seq<Edge>): (tree: seq<nat>)
    requires EdgesWithin(doorways, edges)
    ensures forall k :: 0 <= k < |tree| ==> tree[k] < |edges|
    ensures StrictlyIncreasing(tree)
  {
    SortKeepsEdges(doorways, edges);
    Kruskal(Identity(|doorways|), SortByKey(doorways, edges), 0)
  }

  /** The tree over `n` doorways keeps at most `n - 1` edges, and none when there are none. */
  lemma TreeSize(doorways: seq<Doorway>, edges: seq<Edge>)
    requires EdgesWithin(doorways, edges)
    ensures |doorways| > 0 ==> |TreeOf(doorways, edges)| <= |doorways| - 1
    ensures |doorways| == 0 ==> TreeOf(doorways, edges) == []
  {
    SortKeepsEdges(doorways, edges);
    if |doorways| > 0 {
      IdentityClasses(|doorways|);
      KruskalCount(Identity(|doorways|), SortByKey(doorways, edges), 0);
    }
  }

  /** What `pick_corridors` makes of the triangulation's edges, and the number of draws made:
      after sorting, the tree edges that join two rooms, in tree order, followed by the
      reintroduced residual edges. */
  function PickedCorridors(density: (nat, nat), doorways: seq<Doorway>, edges: seq<Edge>, rng: Source, calls: nat): (r: (seq<Edge>, nat))
    requires EdgesWithin(doorways, edges)
    ensures forall e :: e in r.0 ==> e in edges && CrossesRooms(doorways, e)
    ensures r.1 >= calls
  {
    var sorted := SortByKey(doorways, edges);
    SortKeepsEdges(doorways, edges);
    var tree := TreeOf(doorways, edges);
    var rest := Reintroduce(density, doorways, sorted, Complement(tree, |sorted|), rng, calls);
    (CrossRoom(doorways, sorted, tree) + rest.0, rest.1)
  }

  /** Doorways that all belong to one room are never joined by a corridor. */
  lemma OneRoomNoCorridors(density: (nat, nat), doorways: seq<Doorway>, edges: seq<Edge>, rng: Source, calls: nat)
    requires EdgesWithin(doorways, edges)
    requires forall i :: 0 <= i < |doorways| ==> doorways[i].roomIndex == doorways[0].roomIndex
    ensures PickedCorridors(density, doorways, edges, rng, calls).0 == []
  {
    var r := PickedCorridors(density, doorways, edges, rng, calls).0;
    if r != [] {
      HeadIsMember(r);
      assert false;
    }
  }

  /** With a range-honouring source and density `(0, d)`, only the tree edges joining two rooms
      are picked. */
  lemma PickTreeOnly(d: nat, doorways: seq<Doorway>, edges: seq<Edge>, rng: Source, calls: nat)
    requires EdgesWithin(doorways, edges) && HonoursRanges(rng) && d >= 1
    ensures PickedCorridors((0, d), doorways, edges, rng, calls).0 ==
      CrossRoom(doorways, SortByKey(doorways, edges), TreeOf(doorways, edges))
  {
    var sorted := SortByKey(doorways, edges);
    var tree := TreeOf(doorways, edges);
    ReintroduceNone((0, d), doorways, sorted, Complement(tree, |sorted|), rng, calls);
    assert CrossRoom(doorways, sorted, tree) + [] == CrossRoom(doorways, sorted, tree);
  }

  /** With a range-honouring source and density `(d, d)`, every edge joining two rooms is
      picked, and no other. */
  lemma PickEverything(d: nat, doorways: seq<Doorway>, edges: seq<Edge>, rng: Source, calls: nat)
    requires EdgesWithin(doorways, edges) && HonoursRanges(rng) && d >= 1
    ensures forall e :: e in PickedCorridors((d, d), doorways, edges, rng, calls).0 <==> e in edges && CrossesRooms(doorways, e)
  {
    var sorted := SortByKey(doorways, edges);
    SortKeepsEdges(doorways, edges);
    var tree := TreeOf(doorways, edges);
    var residual := Complement(tree, |sorted|);
    ReintroduceAll((d, d), doorways, sorted, residual, rng, calls);
    var r := PickedCorridors((d, d), doorways, edges, rng, calls).0;
    CrossRoomMembers(doorways, sorted, tree);
    CrossRoomMembers(doorways, sorted, residual);
    assert r == CrossRoom(doorways, sorted, tree) + CrossRoom(doorways, sorted, residual);
    forall e | e in edges && CrossesRooms(doorways, e) ensures e in r {
      var i :| 0 <= i < |sorted| && sorted[i] == e;
      if i in tree {
        var k :| 0 <= k < |tree| && tree[k] == i;
        assert e in CrossRoom(doorways, sorted, tree);
      } else {
        assert i in residual;
        var k :| 0 <= k < |residual| && residual[k] == i;
        assert e in CrossRoom(doorways, sorted, residual);
      }
    }
  }

  /** The second loop of `pick_corridors`: the tree edges that join two rooms, in tree order. */
  method TreeCorridors(doorways: seq<Doorway>, edges: seq<Edge>, tree: seq<nat>) returns (corridors: seq<Edge>)
    requires EdgesWithin(doorways, edges)
    requires forall k :: 0 <= k < |tree| ==> tree[k] < |edges|
    ensures corridors == CrossRoom(doorways, edges, tree)
  {
    corridors := [];
    for k := 0 to |tree|
      invariant corridors == CrossRoom(doorways, edges, tree[..k])
    {
      var edge := edges[tree[k]];
      assert tree[..k + 1][..k] == tree[..k];
      if doorways[edge.0].roomIndex != doorways[edge.1].roomIndex {
        corridors := corridors + [edge];
      }
    }
    assert tree[..|tree|] == tree;
  }

  /** The last loop of `pick_corridors`: one draw in `1..=den` per residual edge joining two
      rooms, pushing the edge onto `corridors` when the draw is at most `num`. A draw from the
      empty range `1..=0` panics, so a zero denominator is allowed only when no draw is made. */
  method ReintroduceEdges(density: (nat, nat), doorways: seq<Doorway>, edges: seq<Edge>, residual: seq<nat>, rng: Source, calls: nat, picked: seq<Edge>)
    returns (corridors: seq<Edge>, callsAfter: nat)
    requires EdgesWithin(doorways, edges)
    requires forall k :: 0 <= k < |residual| ==> residual[k] < |edges|
    requires density.1 >= 1 || CrossRoom(doorways, edges, residual) == []
    ensures corridors == picked + Reintroduce(density, doorways, edges, residual, rng, calls).0
    ensures callsAfter == Reintroduce(density, doorways, edges, residual, rng, calls).1
  {
    corridors, callsAfter := picked, calls;
    assert picked + [] == picked;
    for k := 0 to |residual|
      invariant corridors == picked + Reintroduce(density, doorways, edges, residual[..k], rng, calls).0
      invariant callsAfter == Reintroduce(density, doorways, edges, residual[..k], rng, calls).1
    {
      var edge := edges[residual[k]];
      assert residual[..k + 1][..k] == residual[..k];
      ghost var before := Reintroduce(density, doorways, edges, residual[..k], rng, calls).0;
      if doorways[edge.0].roomIndex == doorways[edge.1].roomIndex {
        continue;
      }
      var filterNumber := rng(callsAfter, 1, density.1);
      callsAfter := callsAfter + 1;
      if filterNumber <= density.0 {
        corridors := corridors + [edge];
        AppendAssociates(picked, before, [edge]);
      }
    }
    assert residual[..|residual|] == residual;
  }

  /** `pick_corridors`: the minimum spanning tree of the triangulation, less the edges inside one
      room, plus some residual edges joining two rooms. The rooms and doorways pass through.
      The density denominator may be 0 only when no residual edge joins two rooms, since the
      draw in `1..=0` panics. */
  method PickCorridors<R>(configuration: Configuration, triangulation: RoomGraph<R>, rng: Source, calls: nat)
    returns (result: RoomGraph<R>, callsAfter: nat)
    requires EdgesWithin(triangulation.doorways, triangulation.edges)
    requires configuration.reintroducedCorridorDensity.1 >= 1 ||
      PickedCorridors(configuration.reintroducedCorridorDensity, triangulation.doorways, triangulation.edges, rng, calls).1 == calls
    ensures result.rooms == triangulation.rooms && result.doorways == triangulation.doorways
    ensures (result.edges, callsAfter) ==
      PickedCorridors(configuration.reintroducedCorridorDensity, triangulation.doorways, triangulation.edges, rng, calls)
  {
    var RoomGraph(rooms, doorways, input) := triangulation;
    var edges := new Edge[|input|](i requires 0 <= i < |input| => input[i]);
    assert edges[..] == input;
    var tree := MinimumSpanningTree(doorways, edges);
    var sorted := edges[..];
    var residual := ResidualEdges(tree, edges.Length);
    var corridors := TreeCorridors(doorways, sorted, tree);
    corridors, callsAfter := ReintroduceEdges(configuration.reintroducedCorridorDensity, doorways, sorted, residual, rng, calls, corridors);
    result := RoomGraph(rooms, doorways, corridors);
  }

  // ---------------------------------------------------------------------------------------
  // The source's `pick_corridors` tests: four doorways on a 3 by 2 rectangle, five edges, and
  // a mock that always answers 1. The lemmas take the doorways as a parameter described by
  // `SquareShaped`, which keeps the verifier from evaluating the whole pipeline on literals.

  /** The rectangle's doorways, each in a room of its own. */
  function Square(): (d: seq<Doorway>)
    ensures |d| == 4
  {
    [Doorway(1, Vector2(1, 1)), Doorway(2, Vector2(4, 1)), Doorway(3, Vector2(1, 3)), Doorway(4, Vector2(4, 3))]
  }

  /** The same doorways, all in room 0. */
  function SingleRoomSquare(): (d: seq<Doorway>)
    ensures |d| == 4
  {
    [Doorway(0, Vector2(1, 1)), Doorway(0, Vector2(4, 1)), Doorway(0, Vector2(1, 3)), Doorway(0, Vector2(4, 3))]
  }

  function SquareEdges(): (e: seq<Edge>)
    ensures EdgesWithin(Square(), e) && EdgesWithin(SingleRoomSquare(), e)
  {
    [(0, 1), (0, 2), (1, 2), (1, 3), (2, 3)]
  }

  /** What the tests need of the rectangle: four doorways in rooms 1 to 4 and the squared
      lengths of its short sides (4), long sides (9) and diagonal (13). */
  predicate SquareShaped(d: seq<Doorway>) {
    && |d| == 4
    && d[0].roomIndex == 1 && d[1].roomIndex == 2 && d[2].roomIndex == 3 && d[3].roomIndex == 4
    && Key(d, (0, 1)) == 9 && Key(d, (0, 2)) == 4 && Key(d, (1, 2)) == 13 && Key(d, (1, 3)) == 4 && Key(d, (2, 3)) == 9
  }

  lemma SquareIsShaped()
    ensures SquareShaped(Square())
  {
  }

  /** Sorting a five-element sequence, spelled out step by step. */
  lemma SortFive(d: seq<Doorway>, a: Edge, b: Edge, c: Edge, e: Edge, f: Edge)
    ensures SortByKey(d, [a, b, c, e, f]) == InsertByKey(d, InsertByKey(d, InsertByKey(d, InsertByKey(d, [a], b), c), e), f)
  {
    var s: seq<Edge> := [a, b, c, e, f];
    assert s[..4] == [a, b, c, e] && s[..4][..3] == [a, b, c];
    SortThree(d, a, b, c);
  }

  lemma SquareFirstInserts(d: seq<Doorway>)
    requires SquareShaped(d)
    ensures InsertByKey(d, [(0, 1)], (0, 2)) == [(0, 2), (0, 1)]
    ensures InsertByKey(d, [(0, 2), (0, 1)], (1, 2)) == [(0, 2), (0, 1), (1, 2)]
  {
    InsertUnfold(d, [(0, 1)], (0, 2));
    InsertUnfold(d, [], (0, 2));
    assert [(0, 1)][..0] == [];
    assert InsertByKey(d, [(0, 1)], (0, 2)) == [(0, 2)] + [(0, 1)];
    InsertUnfold(d, [(0, 2), (0, 1)], (1, 2));
    assert InsertByKey(d, [(0, 2), (0, 1)], (1, 2)) == [(0, 2), (0, 1)] + [(1, 2)];
  }

  lemma SquareThirdInsert(d: seq<Doorway>)
    requires SquareShaped(d)
    ensures InsertByKey(d, [(0, 2), (0, 1), (1, 2)], (1, 3)) == [(0, 2), (1, 3), (0, 1), (1, 2)]
  {
    var s1: seq<Edge> := [(0, 2), (0, 1)];
    var s2: seq<Edge> := [(0, 2), (0, 1), (1, 2)];
    InsertUnfold(d, s2, (1, 3));
    assert s2[..2] == s1;
    InsertUnfold(d, s1, (1, 3));
    assert s1[..1] == [(0, 2)];
    InsertUnfold(d, [(0, 2)], (1, 3));
    assert InsertByKey(d, [(0, 2)], (1, 3)) == [(0, 2), (1, 3)];
    assert InsertByKey(d, s1, (1, 3)) == [(0, 2), (1, 3)] + [(0, 1)];
    assert InsertByKey(d, s2, (1, 3)) == [(0, 2), (1, 3), (0, 1)] + [(1, 2)];
  }

  lemma SquareLastInsert(d: seq<Doorway>)
    requires SquareShaped(d)
    ensures InsertByKey(d, [(0, 2), (1, 3), (0, 1), (1, 2)], (2, 3)) == [(0, 2), (1, 3), (0, 1), (2, 3), (1, 2)]
  {
    var s3: seq<Edge> := [(0, 2), (1, 3), (0, 1), (1, 2)];
    InsertUnfold(d, s3, (2, 3));
    assert s3[..3] == [(0, 2), (1, 3), (0, 1)];
    InsertUnfold(d, [(0, 2), (1, 3), (0, 1)], (2, 3));
    assert InsertByKey(d, s3, (2, 3)) == [(0, 2), (1, 3), (0, 1)] + [(2, 3)] + [(1, 2)];
  }

  /** The rectangle's edges in the order `sort_by_key` leaves them. */
  function SquareSortedEdges(): (e: seq<Edge>)
    ensures |e| == 5
  {
    [(0, 2), (1, 3), (0, 1), (2, 3), (1, 2)]
  }

  lemma SquareSorted(d: seq<Doorway>)
    requires SquareShaped(d)
    ensures SortByKey(d, SquareEdges()) == SquareSortedEdges()
  {
    SortFive(d, (0, 1), (0, 2), (1, 2), (1, 3), (2, 3));
    SquareFirstInserts(d);
    SquareThirdInsert(d);
    SquareLastInsert(d);
  }

  lemma SquareTree()
    ensures Kruskal(Identity(4), SquareSortedEdges(), 0) == [0, 1, 2]
  {
    var edges := SquareSortedEdges();
    assert Identity(4) == [0, 1, 2, 3];
    assert edges[1..] == [(1, 3), (0, 1), (2, 3), (1, 2)];
    assert edges[1..][1..] == [(0, 1), (2, 3), (1, 2)];
    assert edges[1..][1..][1..] == [(2, 3), (1, 2)];
    assert edges[1..][1..][1..][1..] == [(1, 2)];
    assert Relabel([0, 1, 2, 3], 2, 0) == [0, 1, 0, 3];
    assert Relabel([0, 1, 0, 3], 3, 1) == [0, 1, 0, 1];
    assert Relabel([0, 1, 0, 1], 1, 0) == [0, 0, 0, 0];
  }

  lemma SquareResidual()
    ensures Complement([0, 1, 2], 5) == [3, 4]
  {
    var tree := [0, 1, 2];
    assert tree[0] == 0 && tree[1] == 1 && tree[2] == 2;
    assert Complement(tree, 1) == Complement(tree, 0) == [];
    assert Complement(tree, 2) == Complement(tree, 1);
    assert Complement(tree, 3) == Complement(tree, 2);
    assert 3 !in tree && 4 !in tree;
    assert Complement(tree, 4) == Complement(tree, 3) + [3];
    assert Complement(tree, 5) == Complement(tree, 4) + [4];
  }

  lemma SquareCrossRoom(d: seq<Doorway>)
    requires SquareShaped(d)
    ensures CrossRoom(d, SquareSortedEdges(), [0, 1, 2]) == [(0, 2), (1, 3), (0, 1)]
    ensures CrossRoom(d, SquareSortedEdges(), [3, 4]) == [(2, 3), (1, 2)]
  {
    var e := SquareSortedEdges();
    assert CrossesRooms(d, (0, 2)) && CrossesRooms(d, (1, 3)) && CrossesRooms(d, (0, 1));
    assert CrossesRooms(d, (2, 3)) && CrossesRooms(d, (1, 2));
    assert [0, 1, 2][..2] == [0, 1] && [0, 1][..1] == [0] && [0][..0] == [];
    assert CrossRoom(d, e, [0]) == [(0, 2)];
    assert CrossRoom(d, e, [0, 1]) == [(0, 2), (1, 3)];
    assert [3, 4][..1] == [3] && [3][..0] == [];
    assert CrossRoom(d, e, [3]) == [(2, 3)];
  }

  /** `PickedCorridors` assembled from its parts. */
  lemma PickedFrom(density: (nat, nat), d: seq<Doorway>, edges: seq<Edge>, rng: Source, calls: nat,
                   sorted: seq<Edge>, tree: seq<nat>, residual: seq<nat>, kept: seq<Edge>, extra: seq<Edge>)
    requires EdgesWithin(d, edges)
    requires SortByKey(d, edges) == sorted && TreeOf(d, edges) == tree && Complement(tree, |edges|) == residual
    requires forall k :: 0 <= k < |residual| ==> residual[k] < |sorted|
    requires CrossRoom(d, sorted, tree) == kept && Reintroduce(density, d, sorted, residual, rng, calls).0 == extra
    ensures PickedCorridors(density, d, edges, rng, calls).0 == kept + extra
  {
  }

  /** A fresh mock over `[1]` answers 1 to every request. */
  lemma AlwaysOne()
    ensures forall call: nat, lo: nat, hi: nat :: ScriptedSource([1])(call, lo, hi) == 1
  {
  }

  lemma SquareReintroducesNone(d: seq<Doorway>)
    requires SquareShaped(d)
    ensures Reintroduce((0, 1), d, SquareSortedEdges(), [3, 4], ScriptedSource([1]), 0).0 == []
  {
    AlwaysOne();
    ReintroduceNone((0, 1), d, SquareSortedEdges(), [3, 4], ScriptedSource([1]), 0);
  }

  lemma SquareReintroducesAll(d: seq<Doorway>)
    requires SquareShaped(d)
    ensures Reintroduce((1, 1), d, SquareSortedEdges(), [3, 4], ScriptedSource([1]), 0).0 == [(2, 3), (1, 2)]
  {
    AlwaysOne();
    ReintroduceAll((1, 1), d, SquareSortedEdges(), [3, 4], ScriptedSource([1]), 0);
    SquareCrossRoom(d);
  }

  lemma SquarePicksTree(d: seq<Doorway>)
    requires SquareShaped(d)
    ensures PickedCorridors((0, 1), d, SquareEdges(), ScriptedSource([1]), 0).0 == [(0, 2), (1, 3), (0, 1)]
  {
    SquareSorted(d);
    SquareTree();
    SquareResidual();
    SquareCrossRoom(d);
    SquareReintroducesNone(d);
    PickedFrom((0, 1), d, SquareEdges(), ScriptedSource([1]), 0, SquareSortedEdges(), [0, 1, 2], [3, 4], [(0, 2), (1, 3), (0, 1)], []);
    assert [(0, 2), (1, 3), (0, 1)] + [] == [(0, 2), (1, 3), (0, 1)];
  }

  lemma SquareSortedSplits()
    ensures [(0, 2), (1, 3), (0, 1)] + [(2, 3), (1, 2)] == SquareSortedEdges()
  {
  }

  lemma SquarePicksAll(d: seq<Doorway>)
    requires SquareShaped(d)
    ensures PickedCorridors((1, 1), d, SquareEdges(), ScriptedSource([1]), 0).0 == SquareSortedEdges()
  {
    SquareSorted(d);
    SquareTree();
    SquareResidual();
    SquareCrossRoom(d);
    SquareReintroducesAll(d);
    SquareSortedSplits();
    var kept: seq<Edge>, extra: seq<Edge> := [(0, 2), (1, 3), (0, 1)], [(2, 3), (1, 2)];
    PickedFrom((1, 1), d, SquareEdges(), ScriptedSource([1]), 0, SquareSortedEdges(), [0, 1, 2], [3, 4], kept, extra);
  }

  /** `corridors_belong_to_different_rooms`: with every doorway in one room no corridor is
      picked, even at density `(2, 2)`. */
  method CorridorsBelongToDifferentRooms() returns (count: nat)
    ensures count == 0
  {
    var configuration := Default().(reintroducedCorridorDensity := (2, 2));
    var triangulation: RoomGraph<nat> := RoomGraph([], SingleRoomSquare(), SquareEdges());
    OneRoomNoCorridors((2, 2), SingleRoomSquare(), SquareEdges(), ScriptedSource([1]), 0);
    var result, _ := PickCorridors(configuration, triangulation, ScriptedSource([1]), 0);
    count := |result.edges|;
  }

  /** `only_minimum_spanning_tree_corridors`: at density `(0, 1)` the picked corridors are the
      three tree edges `(0, 2)`, `(1, 3)` and `(0, 1)`. Stated for every doorway layout shaped like
      the test's rectangle, which `SquareIsShaped` shows the test's layout to be. */
  method OnlyMinimumSpanningTreeCorridors(doorways: seq<Doorway>) returns (corridors: seq<Edge>)
    requires SquareShaped(doorways)
    ensures |corridors| == 3 && (0, 2) in corridors && (0, 1) in corridors && (1, 3) in corridors
  {
    var configuration := Default().(reintroducedCorridorDensity := (0, 1));
    var triangulation: RoomGraph<nat> := RoomGraph([], doorways, SquareEdges());
    SquarePicksTree(doorways);
    var result, _ := PickCorridors(configuration, triangulation, ScriptedSource([1]), 0);
    corridors := result.edges;
  }

  /** `all_valid_corridors`: at density `(1, 1)` all five edges are picked (on the same
      layouts). */
  method AllValidCorridors(doorways: seq<Doorway>) returns (count: nat)
    requires SquareShaped(doorways)
    ensures count == 5
  {
    var configuration := Default().(reintroducedCorridorDensity := (1, 1));
    var triangulation: RoomGraph<nat> := RoomGraph([], doorways, SquareEdges());
    SquarePicksAll(doorways);
    var result, _ := PickCorridors(configuration, triangulation, ScriptedSource([1]), 0);
    count := |result.edges|;
  }
}
