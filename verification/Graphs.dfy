/** Finite directed graphs given by their edge set, with cycles and the ways to show or refute one. */
module Graphs {
  import opened Collections

  /** Every entry leads to the next. */
  ghost predicate IsWalk<T>(edges: set<(T, T)>, walk: seq<T>) {
    forall i, j :: 0 <= i && j == i + 1 < |walk| ==> (walk[i], walk[j]) in edges
  }

  /** Consecutive entries, and the last and the first, are joined by an edge. */
  ghost predicate IsCycle<T>(edges: set<(T, T)>, cycle: seq<T>) {
    cycle != [] && IsWalk(edges, cycle) && (cycle[|cycle| - 1], cycle[0]) in edges
  }

  ghost predicate Acyclic<T(!new)>(edges: set<(T, T)>) {
    forall cycle :: !IsCycle(edges, cycle)
  }

  /** `rank` strictly falls along every edge. */
  ghost predicate Ranked<T>(edges: set<(T, T)>, rank: map<T, int>) {
    forall e :: e in edges ==> e.0 in rank && e.1 in rank && rank[e.0] > rank[e.1]
  }

  lemma {:induction false} WalkDescends<T>(edges: set<(T, T)>, rank: map<T, int>, walk: seq<T>)
    requires Ranked(edges, rank) && IsWalk(edges, walk) && |walk| >= 2
    ensures walk[0] in rank && walk[|walk| - 1] in rank
    ensures rank[walk[0]] >= rank[walk[|walk| - 1]] + |walk| - 1
  {
    assert (walk[0], walk[1]) in edges;
    if |walk| > 2 {
      WalkDescends(edges, rank, walk[1..]);
    }
  }

  /** A graph whose edges descend in some ranking has no cycle. */
  lemma RankedIsAcyclic<T(!new)>(edges: set<(T, T)>, rank: map<T, int>)
    requires Ranked(edges, rank)
    ensures Acyclic(edges)
  {
    forall cycle ensures !IsCycle(edges, cycle) {
      if IsCycle(edges, cycle) {
        if |cycle| >= 2 {
          WalkDescends(edges, rank, cycle);
        }
        assert false;
      }
    }
  }

  ghost predicate HasPredecessor<T>(edges: set<(T, T)>, nodes: set<T>, x: T) {
    exists d :: d in nodes && (d, x) in edges
  }

  /** Everyone has a predecessor among them. */
  ghost predicate IsSelfFed<T(!new)>(edges: set<(T, T)>, nodes: set<T>) {
    forall x {:trigger HasPredecessor(edges, nodes, x)} :: x in nodes ==> HasPredecessor(edges, nodes, x)
  }

  lemma {:induction false} ExtendToCycle<T(!new)>(edges: set<(T, T)>, nodes: set<T>, walk: seq<T>)
    returns (cycle: seq<T>)
    requires forall x {:trigger HasPredecessor(edges, nodes, x)} :: x in nodes ==> HasPredecessor(edges, nodes, x)
    requires walk != [] && IsWalk(edges, walk) && Elements(walk) <= nodes
    ensures IsCycle(edges, cycle) && Elements(cycle) <= nodes
    decreases nodes - Elements(walk)
  {
    assert walk[0] in nodes && HasPredecessor(edges, nodes, walk[0]);
    var d :| d in nodes && (d, walk[0]) in edges;
    if d in walk {
      var i :| 0 <= i < |walk| && walk[i] == d;
      cycle := walk[..i + 1];
    } else {
      var longer := [d] + walk;
      assert forall x :: x in longer <==> x == d || x in walk;
      assert d in nodes - Elements(walk) && d !in nodes - Elements(longer);
      cycle := ExtendToCycle(edges, nodes, longer);
    }
  }

  /** A nonempty finite set in which everyone has a predecessor holds a cycle. */
  lemma PredecessorsMakeCycle<T(!new)>(edges: set<(T, T)>, nodes: set<T>)
    requires nodes != {} && IsSelfFed(edges, nodes)
    ensures exists cycle :: IsCycle(edges, cycle) && Elements(cycle) <= nodes
  {
    var x :| x in nodes;
    var cycle := ExtendToCycle(edges, nodes, [x]);
  }

  ghost function Layer<T>(rank: map<T, int>, k: int): set<T> {
    set x | x in rank && rank[x] == k
  }

  /** Every edge into a placed node comes from an earlier layer. */
  ghost predicate EdgesRise<T(!new)>(rank: map<T, int>, edges: set<(T, T)>) {
    forall e :: e in edges && e.1 in rank ==> e.0 in rank && rank[e.0] < rank[e.1]
  }

  /** Whoever is not in the first layer has a predecessor in the layer before. */
  ghost predicate PlacementForced<T(!new)>(rank: map<T, int>, edges: set<(T, T)>) {
    forall x {:trigger HasPredecessor(edges, Layer(rank, rank[x] - 1), x)} ::
      x in rank && rank[x] > 0 ==> HasPredecessor(edges, Layer(rank, rank[x] - 1), x)
  }

  /** Whoever is still unplaced has a predecessor in the last layer or unplaced. */
  ghost predicate WaitingForced<T(!new)>(rank: map<T, int>, n: nat, left: set<T>, edges: set<(T, T)>) {
    forall x {:trigger HasPredecessor(edges, Layer(rank, n - 1) + left, x)} ::
      n > 0 && x in left ==> HasPredecessor(edges, Layer(rank, n - 1) + left, x)
  }

  /** Such a set has nobody placed. */
  lemma {:induction false} SelfFedIsUnplaced<T(!new)>(
    rank: map<T, int>, edges: set<(T, T)>, nodes: set<T>, x: T)
    requires EdgesRise(rank, edges) && (forall y :: y in rank ==> rank[y] >= 0) && IsSelfFed(edges, nodes) && x in nodes
    ensures x !in rank
    decreases if x in rank then rank[x] else 0
  {
    if x in rank {
      assert HasPredecessor(edges, nodes, x);
      var d :| d in nodes && (d, x) in edges;
      SelfFedIsUnplaced(rank, edges, nodes, d);
    }
  }

  /** `rank` places the nodes other than `left` in the first `n` layers: no layer is empty, every edge leads to a
      strictly later layer or to `left`, and nobody is in a later layer than a predecessor forces. */
  ghost predicate PartlyLayered<T(!new)>(rank: map<T, int>, n: nat, left: set<T>, nodes: set<T>, edges: set<(T, T)>) {
    && rank.Keys !! left && rank.Keys + left == nodes
    && (forall x :: x in rank ==> 0 <= rank[x] < n)
    && (forall k :: 0 <= k < n ==> Layer(rank, k) != {})
    && EdgesRise(rank, edges) && PlacementForced(rank, edges) && WaitingForced(rank, n, left, edges)
  }

  ghost predicate IsLayering<T(!new)>(rank: map<T, int>, n: nat, nodes: set<T>, edges: set<(T, T)>) {
    PartlyLayered(rank, n, {}, nodes, edges)
  }

  ghost function Place<T>(rank: map<T, int>, n: nat, ready: set<T>): (rank': map<T, int>)
    requires rank.Keys !! ready && forall x :: x in rank ==> rank[x] < n
    ensures rank'.Keys == rank.Keys + ready
    ensures forall x :: x in rank ==> rank'[x] == rank[x]
    ensures forall x :: x in ready ==> rank'[x] == n
    ensures Layer(rank', n) == ready
    ensures forall k :: k < n ==> Layer(rank', k) == Layer(rank, k)
  {
    var rank' := rank + map x | x in ready :: n;
    assert Layer(rank', n) == ready;
    assert forall k :: k < n ==> Layer(rank', k) == Layer(rank, k);
    rank'
  }

  /** Exactly those of `left` with no predecessor left. */
  ghost predicate AreReady<T(!new)>(ready: set<T>, left: set<T>, edges: set<(T, T)>) {
    && ready != {} && ready <= left
    && (forall x {:trigger HasPredecessor(edges, left, x)} :: x in left ==>
          (x in ready <==> !HasPredecessor(edges, left, x)))
  }

  lemma PlacedEdgesRise<T(!new)>(
    rank: map<T, int>, n: nat, ready: set<T>, left: set<T>, nodes: set<T>, edges: set<(T, T)>)
    requires PartlyLayered(rank, n, left, nodes, edges) && AreReady(ready, left, edges)
    requires forall e :: e in edges ==> e.0 in nodes && e.1 in nodes
    ensures EdgesRise(Place(rank, n, ready), edges)
  {
    forall e | e in edges && e.1 in ready ensures e.0 in rank {
      assert !HasPredecessor(edges, left, e.1);
      assert (e.0, e.1) in edges;
    }
  }

  lemma PlacedAreForced<T(!new)>(
    rank: map<T, int>, n: nat, ready: set<T>, left: set<T>, nodes: set<T>, edges: set<(T, T)>)
    requires PartlyLayered(rank, n, left, nodes, edges) && AreReady(ready, left, edges)
    ensures PlacementForced(Place(rank, n, ready), edges)
  {
    var rank' := Place(rank, n, ready);
    forall x | x in rank' && rank'[x] > 0 ensures HasPredecessor(edges, Layer(rank', rank'[x] - 1), x) {
      if x in ready {
        assert HasPredecessor(edges, Layer(rank, n - 1) + left, x);
        assert !HasPredecessor(edges, left, x);
        var d :| d in Layer(rank, n - 1) + left && (d, x) in edges;
        assert d in Layer(rank, n - 1);
      } else {
        assert HasPredecessor(edges, Layer(rank, rank[x] - 1), x);
      }
    }
  }

  lemma LeftAreForced<T(!new)>(
    rank: map<T, int>, n: nat, ready: set<T>, left: set<T>, nodes: set<T>, edges: set<(T, T)>)
    requires PartlyLayered(rank, n, left, nodes, edges) && AreReady(ready, left, edges)
    ensures WaitingForced(Place(rank, n, ready), n + 1, left - ready, edges)
  {
    var rank' := Place(rank, n, ready);
    assert Layer(rank', n) + (left - ready) == left;
    forall x | x in left - ready ensures HasPredecessor(edges, left, x) {
    }
  }

  /** Placing the ready ones adds one layer. */
  lemma PeelLayer<T(!new)>(rank: map<T, int>, n: nat, ready: set<T>, left: set<T>, nodes: set<T>, edges: set<(T, T)>)
    requires PartlyLayered(rank, n, left, nodes, edges) && AreReady(ready, left, edges)
    requires forall e :: e in edges ==> e.0 in nodes && e.1 in nodes
    ensures PartlyLayered(Place(rank, n, ready), n + 1, left - ready, nodes, edges)
  {
    PlacedEdgesRise(rank, n, ready, left, nodes, edges);
    PlacedAreForced(rank, n, ready, left, nodes, edges);
    LeftAreForced(rank, n, ready, left, nodes, edges);
  }

  /** A graph that can be layered has no cycle. */
  lemma LayeredIsAcyclic<T(!new)>(rank: map<T, int>, n: nat, nodes: set<T>, edges: set<(T, T)>)
    requires IsLayering(rank, n, nodes, edges)
    requires forall e :: e in edges ==> e.0 in nodes && e.1 in nodes
    ensures Acyclic(edges)
  {
    var descending: map<T, int> := map x | x in nodes :: 0 - rank[x];
    RankedIsAcyclic(edges, descending);
  }

  /** A walk that ends in `x`. */
  ghost predicate WalkTo<T>(edges: set<(T, T)>, walk: seq<T>, x: T) {
    walk != [] && IsWalk(edges, walk) && walk[|walk| - 1] == x
  }

  lemma RestOfWalk<T>(edges: set<(T, T)>, walk: seq<T>, x: T)
    requires WalkTo(edges, walk, x) && |walk| > 1
    ensures (walk[0], walk[1]) in edges && WalkTo(edges, walk[1..], x)
  {
  }

  lemma AppendToWalk<T>(edges: set<(T, T)>, walk: seq<T>, x: T, next: T)
    requires WalkTo(edges, walk, x) && (x, next) in edges
    ensures WalkTo(edges, walk + [next], next)
  {
    var longer := walk + [next];
    forall i, j | 0 <= i && j == i + 1 < |longer| ensures (longer[i], longer[j]) in edges {
      assert longer[i] == walk[i] && (j < |walk| ==> longer[j] == walk[j]);
    }
  }

  lemma PrependToWalk<T>(edges: set<(T, T)>, a: T, walk: seq<T>, x: T)
    requires WalkTo(edges, walk, x) && (a, walk[0]) in edges
    ensures WalkTo(edges, [a] + walk, x)
  {
    var longer := [a] + walk;
    forall i, j | 0 <= i && j == i + 1 < |longer| ensures (longer[i], longer[j]) in edges {
      if i > 0 {
        assert longer[i] == walk[i - 1] && longer[j] == walk[j - 1];
      }
    }
  }

  /** A node's layer is the length of the longest walk that leads to it. */
  lemma LayerIsLongestWalk<T(!new)>(rank: map<T, int>, n: nat, nodes: set<T>, edges: set<(T, T)>, x: T)
    requires IsLayering(rank, n, nodes, edges) && x in nodes
    ensures exists walk :: WalkTo(edges, walk, x) && |walk| == rank[x] + 1
    ensures forall walk :: WalkTo(edges, walk, x) ==> |walk| <= rank[x] + 1
  {
    var walk := LongWalk(rank, n, nodes, edges, x);
    forall walk | WalkTo(edges, walk, x) ensures |walk| <= rank[x] + 1 {
      WalksAreShort(rank, n, nodes, edges, walk, x);
    }
  }

  lemma {:induction false} LongWalk<T(!new)>(rank: map<T, int>, n: nat, nodes: set<T>, edges: set<(T, T)>, x: T)
    returns (walk: seq<T>)
    requires IsLayering(rank, n, nodes, edges) && x in nodes
    ensures WalkTo(edges, walk, x) && |walk| == rank[x] + 1
    decreases rank[x]
  {
    if rank[x] == 0 {
      walk := [x];
    } else {
      assert HasPredecessor(edges, Layer(rank, rank[x] - 1), x);
      var d :| d in Layer(rank, rank[x] - 1) && (d, x) in edges;
      var before := LongWalk(rank, n, nodes, edges, d);
      walk := before + [x];
    }
  }

  lemma {:induction false} WalksAreShort<T(!new)>(
    rank: map<T, int>, n: nat, nodes: set<T>, edges: set<(T, T)>, walk: seq<T>, x: T)
    requires IsLayering(rank, n, nodes, edges) && x in nodes && WalkTo(edges, walk, x)
    ensures |walk| <= rank[x] + 1
  {
    if |walk| > 1 {
      var d := walk[|walk| - 2];
      assert (d, x) in edges;
      WalksAreShort(rank, n, nodes, edges, walk[..|walk| - 1], d);
    }
  }
}
