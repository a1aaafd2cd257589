/**
 The two graphs of the package's own test file and what the container and
 the sort do with them: the membership walk-through of `TestGraph`, the
 ordered result of `TestGraph_Sort` and its cycle report.
 */
module Scenarios {
  import opened Collections
  import opened Strings
  import opened Digraph
  import opened Topo

  /** The graph that sorts: a -> b, a -> c, c -> b. */
  function Chain(): Adjacency {
    map["a" := ["b", "c"], "b" := [], "c" := ["b"]]
  }

  /** The graph with a cycle a -> c -> d -> a, and b hanging below a and c. */
  function Looped(): Adjacency {
    map["a" := ["b", "c"], "b" := [], "c" := ["b", "d"], "d" := ["a"]]
  }

  lemma ChainClosed()
    ensures Closed(Chain())
  {
  }

  lemma LoopedClosed()
    ensures Closed(Looped())
  {
  }

  /** a, c, b is the one and only topological order of `Chain()`. */
  lemma ChainOrder(order: seq<string>)
    ensures IsTopologicalOrder(Chain(), order) <==> order == ["a", "c", "b"]
  {
    var g := Chain();
    if order == ["a", "c", "b"] {
      assert forall v :: v in order <==> v in g;
      assert NoBackEdge(g, order) by {
        forall i, j | 0 <= i < |order| && 0 <= j < |order| && order[i] in g && order[j] in g[order[i]]
          ensures i < j
        {
        }
      }
    }
    if IsTopologicalOrder(g, order) {
      assert Elems(order) == {"a", "b", "c"};
      DistinctCardinality(order);
      assert |order| == 3;
      var ia, ib, ic := IndexOf(order, "a"), IndexOf(order, "b"), IndexOf(order, "c");
      assert order[ic] in g[order[ia]];
      assert order[ib] in g[order[ic]];
      assert ia < ic < ib;
      assert order == [order[0], order[1], order[2]];
    }
  }

  /** a -> c -> d -> a is a cycle of `Looped()`. */
  lemma LoopedCycle()
    ensures IsCycle(Looped(), ["a", "c", "d", "a"])
  {
  }

  lemma LoopedCyclic()
    ensures !Acyclic(Looped())
  {
    LoopedCycle();
  }

  /** Each node of `Looped()` is reached from the start of that cycle. */
  lemma LoopedReached(v: string)
    requires v in Looped()
    ensures BelowCycle(Looped(), v)
  {
    var p := if v == "a" then ["a"] else if v == "b" then ["a", "b"] else if v == "c" then ["a", "c"] else ["a", "c", "d"];
    assert IsPath(Looped(), p);
    LoopedCycle();
    CycleAbove(Looped(), ["a", "c", "d", "a"], p, v);
  }

  /** Every node of `Looped()` lies on a cycle or below one. */
  lemma LoopedBelowCycle()
    ensures forall v :: v in Looped() ==> BelowCycle(Looped(), v)
  {
    forall v | v in Looped()
      ensures BelowCycle(Looped(), v)
    {
      LoopedReached(v);
    }
  }

  lemma LettersSorted()
    ensures StrictlySorted(["a", "b", "c", "d", "e", "f"])
    ensures StrictlySorted(["a", "b", "d", "e", "f"])
    ensures StrictlySorted(["a", "b", "c", "d"])
  {
  }

  /** The container of `TestGraph` once its six nodes are put. */
  method Populated() returns (g: Graph)
    ensures g.Valid() && fresh(g.Repr)
    ensures forall k :: k in g.Edges <==> k in ["a", "b", "c", "d", "e", "f"]
  {
    g := new Graph();
    g.PutNode("a");
    g.PutNode("b");
    g.PutNodes(["c", "d", "e", "f"]);
  }

  /** The two removals of "c" in `TestGraph`: the first finds it, the second does not. */
  method RemovedTwice(g: Graph) returns (first: bool, second: bool)
    requires g.Valid()
    requires forall k :: k in g.Edges <==> k in ["a", "b", "c", "d", "e", "f"]
    modifies g.Repr
    ensures g.Valid() && g.Repr == old(g.Repr)
    ensures first && !second && !g.Contains("c")
    ensures forall k :: k in g.Edges <==> k in ["a", "b", "d", "e", "f"]
  {
    RemovingC(g.Edges);
    first := g.RemoveNode("c");
    second := g.RemoveNode("c");
  }

  /** Removing c from a graph on the nodes a to f leaves the nodes a, b, d, e, f. */
  lemma RemovingC(g: Adjacency)
    requires forall k :: k in g <==> k in ["a", "b", "c", "d", "e", "f"]
    ensures "c" in g && "c" !in RemovedEdges(g, "c")
    ensures forall k :: k in RemovedEdges(g, "c") <==> k in ["a", "b", "d", "e", "f"]
  {
  }

  /** `TestGraph`: the listing is sorted, and removing a node succeeds once. */
  method Membership() returns (listed: seq<string>, first: bool, second: bool, left: seq<string>)
    ensures listed == ["a", "b", "c", "d", "e", "f"]
    ensures first && !second
    ensures left == ["a", "b", "d", "e", "f"]
  {
    var g := Populated();
    listed := g.Nodes();
    assert g.Contains("c") && !g.Contains("z");
    LettersSorted();
    forall x
      ensures x in listed <==> x in ["a", "b", "c", "d", "e", "f"]
    {
    }
    StrictlySortedUnique(listed, ["a", "b", "c", "d", "e", "f"]);
    first, second := RemovedTwice(g);
    left := g.Nodes();
    forall x
      ensures x in left <==> x in ["a", "b", "d", "e", "f"]
    {
    }
    StrictlySortedUnique(left, ["a", "b", "d", "e", "f"]);
  }

  /** `TestGraph_Sort`: the graph `Chain()` sorts to a, c, b. */
  method SortChain() returns (r: SortResult)
    ensures r == Ordered(["a", "c", "b"])
  {
    var g := new Graph.FromMap(Chain());
    ChainClosed();
    ChainOrder(["a", "c", "b"]);
    TopologicalOrderAcyclic(Chain(), ["a", "c", "b"]);
    r := g.Sort();
    ChainOrder(r.order);
  }

  /** The nodes of `Looped()` are a, b, c and d. */
  lemma LoopedKeys(x: string)
    ensures x in Looped() <==> x in ["a", "b", "c", "d"]
  {
  }

  /** A sorted report of the nodes of `Looped()` below a cycle lists all four, in order. */
  lemma LoopedReport(ids: seq<string>)
    requires StrictlySorted(ids)
    requires forall v :: v in ids <==> v in Looped() && BelowCycle(Looped(), v)
    ensures ids == ["a", "b", "c", "d"]
  {
    LoopedBelowCycle();
    LettersSorted();
    forall x
      ensures x in ids <==> x in ["a", "b", "c", "d"]
    {
      LoopedKeys(x);
    }
    StrictlySortedUnique(ids, ["a", "b", "c", "d"]);
  }

  /** The cycle case of `TestGraph_Sort`: all four nodes of `Looped()` are reported, in order. */
  method SortLooped() returns (r: SortResult)
    ensures r == CycleDetected(["a", "b", "c", "d"])
  {
    var g := new Graph.FromMap(Looped());
    LoopedClosed();
    LoopedCyclic();
    r := g.Sort();
    LoopedReport(r.ids);
  }
}
