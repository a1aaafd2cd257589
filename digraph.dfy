/**
 The abstract graph the container stores: each identifier that is a key maps
 to its ordered list of successors (edges may repeat). Paths, cycles,
 in-degrees and topological orders are defined on this value, and the facts
 about them that the topological sort needs are proved here.
 */
module Digraph {
  import opened Collections

  type Adjacency = map<string, seq<string>>

  /** Every edge target is itself a node. */
  ghost predicate Closed(g: Adjacency) {
    forall u, v :: u in g && v in g[u] ==> v in g
  }

  /** A walk through nodes of `g` along its edges (nodes may repeat). */
  ghost predicate IsPath(g: Adjacency, p: seq<string>) {
    && |p| >= 1
    && (forall k :: 0 <= k < |p| ==> p[k] in g)
    && (forall k :: 1 <= k < |p| ==> p[k] in g[p[k - 1]])
  }

  /** A walk of at least one edge that returns to where it started. */
  ghost predicate IsCycle(g: Adjacency, c: seq<string>) {
    IsPath(g, c) && |c| >= 2 && c[0] == c[|c| - 1]
  }

  ghost predicate Acyclic(g: Adjacency) {
    forall c :: !IsCycle(g, c)
  }

  /** `v` lies on a cycle or can be reached from one. */
  ghost predicate BelowCycle(g: Adjacency, v: string) {
    exists c, p :: IsCycle(g, c) && IsPath(g, p) && p[0] == c[0] && p[|p| - 1] == v
  }

  /** Every node once, and every edge u -> v has u strictly before v. */
  ghost predicate IsTopologicalOrder(g: Adjacency, order: seq<string>) {
    && Distinct(order)
    && (forall v :: v in order <==> v in g)
    && NoBackEdge(g, order)
  }

  /** No edge runs from an element of `order` to the same or an earlier element. */
  ghost predicate NoBackEdge(g: Adjacency, order: seq<string>) {
    forall i, j :: 0 <= i < |order| && 0 <= j < |order| && order[i] in g && order[j] in g[order[i]] ==> i < j
  }

  /** Every edge that ends in `targets` starts in `sources`. */
  ghost predicate PredecessorsIn(g: Adjacency, targets: set<string>, sources: set<string>) {
    forall u, v :: u in g && v in g[u] && v in targets ==> u in sources
  }

  /** Number of occurrences of `v` in the edge lists of the nodes in `s`. */
  ghost function InDegreeFrom(g: Adjacency, s: set<string>, v: string): nat
    requires s <= g.Keys
    decreases s
  {
    if s == {} then 0
    else
      var u :| u in s;
      multiset(g[u])[v] + InDegreeFrom(g, s - {u}, v)
  }

  /** Number of occurrences of `v` across all edge lists: its in-degree. */
  ghost function InDegree(g: Adjacency, v: string): nat {
    InDegreeFrom(g, g.Keys, v)
  }

  /** The sum does not depend on which node is taken out first. */
  lemma {:induction false} InDegreeFromRemove(g: Adjacency, s: set<string>, u: string, v: string)
    requires s <= g.Keys && u in s
    ensures InDegreeFrom(g, s, v) == multiset(g[u])[v] + InDegreeFrom(g, s - {u}, v)
    decreases s
  {
    var w :| w in s && InDegreeFrom(g, s, v) == multiset(g[w])[v] + InDegreeFrom(g, s - {w}, v);
    if w != u {
      InDegreeFromRemove(g, s - {w}, u, v);
      InDegreeFromRemove(g, s - {u}, w, v);
      assert s - {w} - {u} == s - {u} - {w};
    }
  }

  /** The in-degree from `s` is zero exactly when no node of `s` has an edge to `v`. */
  lemma {:induction false} InDegreeFromZero(g: Adjacency, s: set<string>, v: string)
    requires s <= g.Keys
    ensures InDegreeFrom(g, s, v) == 0 <==> forall u :: u in s ==> v !in g[u]
    decreases s
  {
    if s != {} {
      var u :| u in s;
      InDegreeFromRemove(g, s, u, v);
      InDegreeFromZero(g, s - {u}, v);
      assert v in g[u] <==> multiset(g[u])[v] > 0;
    }
  }

  /** A node of `s` with an edge to `v` contributes all its edges to `v`. */
  lemma InDegreeFromAtLeast(g: Adjacency, s: set<string>, u: string, v: string)
    requires s <= g.Keys && u in s
    ensures InDegreeFrom(g, s, v) >= multiset(g[u])[v]
  {
    InDegreeFromRemove(g, s, u, v);
  }

  /** Position of `x` in `s`. */
  ghost function IndexOf(s: seq<string>, x: string): (k: nat)
    requires x in s
    ensures k < |s| && s[k] == x
  {
    if s[0] == x then 0 else 1 + IndexOf(s[1..], x)
  }

  lemma IndexOfDistinct(s: seq<string>, k: nat)
    requires Distinct(s) && k < |s|
    ensures IndexOf(s, s[k]) == k
  {
  }

  /** Along a path whose nodes all occur in `order`, the positions strictly increase. */
  lemma {:induction false} PathIndicesIncrease(g: Adjacency, order: seq<string>, p: seq<string>, k: nat)
    requires Distinct(order) && NoBackEdge(g, order) && IsPath(g, p)
    requires forall m :: 0 <= m < |p| ==> p[m] in order
    requires 0 < k < |p|
    ensures IndexOf(order, p[0]) < IndexOf(order, p[k])
  {
    var i, j := IndexOf(order, p[k - 1]), IndexOf(order, p[k]);
    assert order[j] in g[order[i]];
    assert i < j;
    if k > 1 {
      PathIndicesIncrease(g, order, p, k - 1);
    }
  }

  /** No cycle lies wholly inside an order without back edges. */
  lemma CycleLeavesOrder(g: Adjacency, order: seq<string>, c: seq<string>)
    requires Distinct(order) && NoBackEdge(g, order) && IsCycle(g, c)
    ensures exists m :: 0 <= m < |c| && c[m] !in order
  {
    if forall m :: 0 <= m < |c| ==> c[m] in order {
      PathIndicesIncrease(g, order, c, |c| - 1);
    }
  }

  /** A graph that has a topological order has no cycle. */
  lemma TopologicalOrderAcyclic(g: Adjacency, order: seq<string>)
    requires IsTopologicalOrder(g, order)
    ensures Acyclic(g)
  {
    forall c
      ensures !IsCycle(g, c)
    {
      if IsCycle(g, c) {
        CycleLeavesOrder(g, order, c);
      }
    }
  }

  /** A path that ends in a set closed under predecessors runs inside it. */
  lemma {:induction false} PathEndsInside(g: Adjacency, inside: set<string>, p: seq<string>)
    requires PredecessorsIn(g, inside, inside) && IsPath(g, p) && p[|p| - 1] in inside
    ensures forall m :: 0 <= m < |p| ==> p[m] in inside
  {
    if |p| > 1 {
      var q := p[1..];
      assert IsPath(g, q) by {
        forall k | 1 <= k < |q|
          ensures q[k] in g[q[k - 1]]
        {
          assert q[k] == p[k + 1] && q[k - 1] == p[k];
        }
      }
      PathEndsInside(g, inside, q);
      assert p[1] in g[p[0]];
      forall m | 0 <= m < |p|
        ensures p[m] in inside
      {
        if m > 0 {
          assert p[m] == q[m - 1];
        }
      }
    }
  }

  /** Nodes that only cycle-free nodes can reach are not below a cycle. */
  lemma NotBelowCycle(g: Adjacency, order: seq<string>, v: string)
    requires Distinct(order) && NoBackEdge(g, order)
    requires PredecessorsIn(g, Elems(order), Elems(order))
    requires v in order
    ensures !BelowCycle(g, v)
  {
    if BelowCycle(g, v) {
      var c, p :| IsCycle(g, c) && IsPath(g, p) && p[0] == c[0] && p[|p| - 1] == v;
      PathEndsInside(g, Elems(order), p);
      assert c[|c| - 1] in Elems(order);
      PathEndsInside(g, Elems(order), c);
      CycleLeavesOrder(g, order, c);
    }
  }

  /** Some node of `r` has an edge to `x`. */
  ghost predicate HasPredecessorIn(g: Adjacency, r: set<string>, x: string) {
    exists w :: w in r && w in g && x in g[w]
  }

  /** A walk of n edges, inside `r`, that ends at `v`. */
  lemma {:induction false} WalkBack(g: Adjacency, r: set<string>, v: string, n: nat) returns (p: seq<string>)
    requires r <= g.Keys && v in r
    requires forall x {:trigger HasPredecessorIn(g, r, x)} :: x in r ==> HasPredecessorIn(g, r, x)
    ensures |p| == n + 1 && IsPath(g, p) && p[n] == v
    ensures forall m :: 0 <= m < |p| ==> p[m] in r
  {
    if n == 0 {
      p := [v];
    } else {
      var q := WalkBack(g, r, v, n - 1);
      assert HasPredecessorIn(g, r, q[0]);
      var w :| w in r && q[0] in g[w];
      p := [w] + q;
      forall k | 1 <= k < |p|
        ensures p[k] in g[p[k - 1]]
      {
        if k > 1 {
          assert p[k] == q[k - 1] && p[k - 1] == q[k - 2];
        }
      }
    }
  }

  /** A stretch of a path is a path. */
  lemma SubPath(g: Adjacency, p: seq<string>, i: nat, j: nat)
    requires IsPath(g, p) && i < j <= |p|
    ensures IsPath(g, p[i..j])
  {
    var q := p[i..j];
    forall k | 1 <= k < |q|
      ensures q[k] in g[q[k - 1]]
    {
      assert q[k] == p[i + k] && q[k - 1] == p[i + k - 1];
    }
  }

  /** If every node of a non-empty finite set has a predecessor in it, each of them is below a cycle. */
  lemma EveryPredecessorInside(g: Adjacency, r: set<string>, v: string)
    requires r <= g.Keys && v in r
    requires forall x {:trigger HasPredecessorIn(g, r, x)} :: x in r ==> HasPredecessorIn(g, r, x)
    ensures BelowCycle(g, v)
  {
    var p := WalkBack(g, r, v, |r|);
    assert Elems(p) <= r;
    Pigeonhole(p, r);
    var i, j :| 0 <= i < j < |p| && p[i] == p[j];
    SubPath(g, p, i, j + 1);
    SubPath(g, p, j, |p|);
    CycleAbove(g, p[i..j + 1], p[j..], v);
  }

  /** A path from a node of a cycle to `v` puts `v` below that cycle. */
  lemma CycleAbove(g: Adjacency, c: seq<string>, p: seq<string>, v: string)
    requires IsCycle(g, c) && IsPath(g, p) && p[0] == c[0] && p[|p| - 1] == v
    ensures BelowCycle(g, v)
  {
  }
}
