/**
 The invariant of the worklist loop in `Graph.Sort` (Kahn's algorithm
 driven by a stack) and the lemmas that carry it from one step to the next.
 The state is: the in-degree map the loop decrements, the nodes emitted so
 far (`sorted`) and the stack. A node that has been on the stack holds the
 sentinel -1; every other node holds the number of its incoming edges from
 nodes not yet emitted, which is then positive.
 */
module Kahn {
  import opened Collections
  import opened Digraph

  /** The nodes not yet emitted. */
  ghost function Remaining(g: Adjacency, sorted: seq<string>): set<string> {
    g.Keys - Elems(sorted)
  }

  /** The invariant between two pops. */
  ghost predicate Inv(g: Adjacency, inbound: map<string, int>, sorted: seq<string>, stack: seq<string>) {
    && Closed(g)
    && inbound.Keys == g.Keys
    && Distinct(sorted) && Distinct(stack)
    && (forall v :: v in sorted ==> v !in stack)
    && (forall v :: v in sorted || v in stack ==> v in g && inbound[v] == -1)
    && (forall v :: v in g && v !in sorted && v !in stack ==>
          inbound[v] == InDegreeFrom(g, Remaining(g, sorted), v) > 0)
    && PredecessorsIn(g, Elems(sorted) + Elems(stack), Elems(sorted))
    && NoBackEdge(g, sorted)
  }

  /**
   The invariant while the successors of the popped node `u` are being
   decremented: `base` is what is left of the stack below `u`, `newly` the
   nodes pushed so far, and `i` the number of successors visited.
   */
  ghost predicate InnerInv(g: Adjacency, inbound: map<string, int>, sorted: seq<string>,
                           base: seq<string>, u: string, newly: seq<string>, i: nat) {
    && Closed(g)
    && inbound.Keys == g.Keys
    && u in g && u !in sorted && u !in base && u !in newly
    && i <= |g[u]|
    && Distinct(sorted) && Distinct(base) && Distinct(newly)
    && (forall v :: v in sorted ==> v !in base && v !in newly)
    && (forall v :: v in base ==> v !in newly)
    && (forall v :: v in sorted || v in base || v in newly || v == u ==> v in g && inbound[v] == -1)
    && (forall v :: v in newly ==> InDegreeFrom(g, Remaining(g, sorted), v) == multiset(g[u][..i])[v])
    && (forall v :: v in g && v !in sorted && v !in base && v !in newly && v != u ==>
          inbound[v] == InDegreeFrom(g, Remaining(g, sorted), v) - multiset(g[u][..i])[v] > 0)
    && PredecessorsIn(g, Elems(sorted) + Elems(base) + {u}, Elems(sorted))
    && NoBackEdge(g, sorted)
  }

  /** After seeding: the stack holds exactly the nodes without incoming edges. */
  lemma Seeded(g: Adjacency, inbound: map<string, int>, stack: seq<string>)
    requires Closed(g) && inbound.Keys == g.Keys && Distinct(stack)
    requires forall v :: v in stack <==> v in g && InDegree(g, v) == 0
    requires forall v :: v in g ==> inbound[v] == if v in stack then -1 else InDegree(g, v)
    ensures Inv(g, inbound, [], stack)
  {
    assert Remaining(g, []) == g.Keys;
    forall u, v | u in g && v in g[u] && v in Elems(stack)
      ensures false
    {
      InDegreeFromZero(g, g.Keys, v);
    }
  }

  /** Popping the top of the stack starts the visit of its successors. */
  lemma Popped(g: Adjacency, inbound: map<string, int>, sorted: seq<string>, stack: seq<string>)
    requires Inv(g, inbound, sorted, stack) && stack != []
    ensures InnerInv(g, inbound, sorted, stack[..|stack| - 1], stack[|stack| - 1], [], 0)
  {
    var base, u := stack[..|stack| - 1], stack[|stack| - 1];
    assert stack == base + [u];
    assert Elems(stack) == Elems(base) + {u};
    assert forall v :: v in stack <==> v in base || v == u;
    assert Distinct(base) && u !in base;
    assert multiset(g[u][..0]) == multiset{};
    var none: seq<string> := [];
    assert forall v :: v in sorted ==> v !in base && v !in none;
    assert forall v :: v in sorted || v in base || v in none || v == u ==> v in g && inbound[v] == -1;
    assert forall v :: v in g && v !in sorted && v !in base && v !in none && v != u ==>
             inbound[v] == InDegreeFrom(g, Remaining(g, sorted), v) - multiset(g[u][..0])[v] > 0;
    assert Elems(sorted) + Elems(base) + {u} == Elems(sorted) + Elems(stack);
  }

  /** The successor being visited is not yet resolved and still has a positive count. */
  lemma VisitedTarget(g: Adjacency, inbound: map<string, int>, sorted: seq<string>,
                      base: seq<string>, u: string, newly: seq<string>, i: nat)
    requires InnerInv(g, inbound, sorted, base, u, newly, i) && i < |g[u]|
    ensures var c := g[u][i];
            c in g && c !in sorted && c !in base && c !in newly && c != u && inbound[c] >= 1
  {
    var c := g[u][i];
    EdgeLeavesResolved(g, Elems(sorted) + Elems(base) + {u}, Elems(sorted), u, c);
    // the nodes pushed so far count no more edges than were visited, while c has an edge still to visit
    UnvisitedEdgeCounts(g, Remaining(g, sorted), u, i);
  }

  /** The edges into `c = g[u][i]` from `r` outnumber those among the first `i` of `u`'s list. */
  lemma UnvisitedEdgeCounts(g: Adjacency, r: set<string>, u: string, i: nat)
    requires r <= g.Keys && u in r && i < |g[u]|
    ensures InDegreeFrom(g, r, g[u][i]) > multiset(g[u][..i])[g[u][i]]
  {
    var c := g[u][i];
    assert g[u] == g[u][..i] + [c] + g[u][i + 1..];
    InDegreeFromAtLeast(g, r, u, c);
  }

  /** An edge from a node outside `sources` cannot end in `targets` when every edge into `targets` starts in `sources`. */
  lemma EdgeLeavesResolved(g: Adjacency, targets: set<string>, sources: set<string>, u: string, c: string)
    requires PredecessorsIn(g, targets, sources) && u in g && u !in sources && c in g[u]
    ensures c !in targets
  {
  }

  /** Visiting a successor `c` whose count drops to 0 pushes it and keeps the invariant. */
  lemma VisitedPush(g: Adjacency, inbound: map<string, int>, sorted: seq<string>,
                    base: seq<string>, u: string, newly: seq<string>, i: nat)
    requires InnerInv(g, inbound, sorted, base, u, newly, i) && i < |g[u]|
    requires var c := g[u][i];
             c in g && c !in sorted && c !in base && c !in newly && c != u && inbound[c] == 1
    ensures var c := g[u][i];
            InnerInv(g, inbound[c := -1], sorted, base, u, newly + [c], i + 1)
  {
    var c := g[u][i];
    var r := Remaining(g, sorted);
    assert g[u][..i + 1] == g[u][..i] + [c];
    assert multiset(g[u][..i + 1]) == multiset(g[u][..i]) + multiset{c};
    var nw := newly + [c];
    forall v | v in nw
      ensures InDegreeFrom(g, r, v) == multiset(g[u][..i + 1])[v]
    {
      if v != c {
        assert v in newly;
      }
    }
    assert Distinct(nw);
  }

  /** Visiting a successor `c` whose count stays positive keeps the invariant. */
  lemma VisitedKeep(g: Adjacency, inbound: map<string, int>, sorted: seq<string>,
                    base: seq<string>, u: string, newly: seq<string>, i: nat)
    requires InnerInv(g, inbound, sorted, base, u, newly, i) && i < |g[u]|
    requires var c := g[u][i];
             c in g && c !in sorted && c !in base && c !in newly && c != u && inbound[c] > 1
    ensures var c := g[u][i];
            InnerInv(g, inbound[c := inbound[c] - 1], sorted, base, u, newly, i + 1)
  {
    var c := g[u][i];
    assert g[u][..i + 1] == g[u][..i] + [c];
    assert multiset(g[u][..i + 1]) == multiset(g[u][..i]) + multiset{c};
  }

  /** Once all successors are visited, emitting `u` restores the loop invariant. */
  lemma Emitted(g: Adjacency, inbound: map<string, int>, sorted: seq<string>,
                base: seq<string>, u: string, newly: seq<string>)
    requires u in g && InnerInv(g, inbound, sorted, base, u, newly, |g[u]|)
    ensures Inv(g, inbound, sorted + [u], base + newly)
    ensures Remaining(g, sorted + [u]) < Remaining(g, sorted)
  {
    var sorted', stack' := sorted + [u], base + newly;
    assert Elems(sorted') == Elems(sorted) + {u};
    assert Elems(stack') == Elems(base) + Elems(newly);
    EmittedCounts(g, inbound, sorted, base, u, newly);
    EmittedPredecessors(g, inbound, sorted, base, u, newly);
    EmittedOrder(g, inbound, sorted, base, u, newly);
    DistinctConcat(sorted, [u]);
    DistinctConcat(base, newly);
  }

  /** The nodes still waiting count exactly their edges from the nodes not emitted, `u` now excluded. */
  lemma EmittedCounts(g: Adjacency, inbound: map<string, int>, sorted: seq<string>,
                      base: seq<string>, u: string, newly: seq<string>)
    requires u in g && InnerInv(g, inbound, sorted, base, u, newly, |g[u]|)
    ensures forall v :: v in g && v !in sorted + [u] && v !in base + newly ==>
              inbound[v] == InDegreeFrom(g, Remaining(g, sorted + [u]), v) > 0
    ensures forall v :: v in newly ==> InDegreeFrom(g, Remaining(g, sorted + [u]), v) == 0
  {
    var r := Remaining(g, sorted);
    assert g[u][..|g[u]|] == g[u];
    assert Elems(sorted + [u]) == Elems(sorted) + {u};
    assert Remaining(g, sorted + [u]) == r - {u};
    forall v | v in g
      ensures InDegreeFrom(g, r, v) == multiset(g[u])[v] + InDegreeFrom(g, r - {u}, v)
    {
      InDegreeFromRemove(g, r, u, v);
    }
  }

  /** Every node that is emitted or on the stack has all its predecessors emitted. */
  lemma EmittedPredecessors(g: Adjacency, inbound: map<string, int>, sorted: seq<string>,
                            base: seq<string>, u: string, newly: seq<string>)
    requires u in g && InnerInv(g, inbound, sorted, base, u, newly, |g[u]|)
    ensures PredecessorsIn(g, Elems(sorted + [u]) + Elems(base + newly), Elems(sorted + [u]))
  {
    var r' := Remaining(g, sorted + [u]);
    EmittedCounts(g, inbound, sorted, base, u, newly);
    assert Elems(sorted + [u]) == Elems(sorted) + {u};
    assert Elems(base + newly) == Elems(base) + Elems(newly);
    forall w, v | w in g && v in g[w] && v in Elems(newly)
      ensures w in Elems(sorted + [u])
    {
      InDegreeFromZero(g, r', v);
    }
  }

  /** `u` has no edge back to an emitted node, nor to itself. */
  lemma EmittedOrder(g: Adjacency, inbound: map<string, int>, sorted: seq<string>,
                     base: seq<string>, u: string, newly: seq<string>)
    requires u in g && InnerInv(g, inbound, sorted, base, u, newly, |g[u]|)
    ensures NoBackEdge(g, sorted + [u])
  {
    var sorted' := sorted + [u];
    assert Elems(sorted') == Elems(sorted) + {u};
    forall j | 0 <= j < |sorted'|
      ensures sorted'[j] !in g[u]
    {
      assert sorted'[j] in Elems(sorted) + {u};
    }
  }

  /** With the stack empty, a node is left with a positive count exactly when it was not emitted. */
  lemma DrainedCounts(g: Adjacency, inbound: map<string, int>, sorted: seq<string>)
    requires Inv(g, inbound, sorted, [])
    ensures forall v :: v in g ==> (inbound[v] > 0 <==> v !in sorted)
  {
  }

  /** With the stack empty, the nodes not emitted are exactly the nodes on or below a cycle. */
  lemma DrainedBelowCycle(g: Adjacency, inbound: map<string, int>, sorted: seq<string>)
    requires Inv(g, inbound, sorted, [])
    ensures forall v :: v in g ==> (v !in sorted <==> BelowCycle(g, v))
  {
    var r := Remaining(g, sorted);
    var empty: seq<string> := [];
    assert Elems(sorted) + Elems(empty) == Elems(sorted);
    assert PredecessorsIn(g, Elems(sorted), Elems(sorted));
    forall v | v in g && v in sorted
      ensures !BelowCycle(g, v)
    {
      NotBelowCycle(g, sorted, v);
    }
    forall x | x in r
      ensures HasPredecessorIn(g, r, x)
    {
      InDegreeFromZero(g, r, x);
    }
    forall v | v in r
      ensures BelowCycle(g, v)
    {
      EveryPredecessorInside(g, r, v);
    }
  }

  /**
   When the stack runs empty: the emitted nodes are a topological order
   exactly when all nodes were emitted, which happens exactly when the graph
   is acyclic; and the nodes left with a positive in-degree are exactly the
   nodes on or below a cycle.
   */
  lemma Drained(g: Adjacency, inbound: map<string, int>, sorted: seq<string>)
    requires Inv(g, inbound, sorted, [])
    ensures |sorted| == |g| ==> IsTopologicalOrder(g, sorted)
    ensures |sorted| == |g| <==> Acyclic(g)
    ensures forall v :: v in g ==> (inbound[v] > 0 <==> BelowCycle(g, v))
    ensures |sorted| != |g| ==> exists v :: v in g && inbound[v] > 0
  {
    DrainedCounts(g, inbound, sorted);
    DrainedBelowCycle(g, inbound, sorted);
    if |sorted| == |g| {
      Complete(g, sorted);
    } else {
      Incomplete(g, sorted);
    }
  }

  /** An emitted order without back edges that lists as many nodes as the graph has is a topological order. */
  lemma Complete(g: Adjacency, sorted: seq<string>)
    requires Distinct(sorted) && NoBackEdge(g, sorted) && (forall v :: v in sorted ==> v in g)
    requires |sorted| == |g|
    ensures IsTopologicalOrder(g, sorted) && Acyclic(g)
  {
    assert |g| == |g.Keys|;
    DistinctCovers(sorted, g.Keys);
    TopologicalOrderAcyclic(g, sorted);
  }

  /** If fewer nodes were emitted than the graph has, a node below a cycle was left out. */
  lemma Incomplete(g: Adjacency, sorted: seq<string>)
    requires Distinct(sorted) && (forall v :: v in sorted ==> v in g)
    requires forall v :: v in g ==> (v !in sorted <==> BelowCycle(g, v))
    requires |sorted| != |g|
    ensures !Acyclic(g) && exists v :: v in g && v !in sorted
  {
    assert |g| == |g.Keys|;
    DistinctMisses(sorted, g.Keys);
    var v :| v in g.Keys && v !in sorted;
    assert BelowCycle(g, v);
    var c, p :| IsCycle(g, c) && IsPath(g, p) && p[0] == c[0] && p[|p| - 1] == v;
  }
}
