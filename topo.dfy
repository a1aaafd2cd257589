/**
 The directed-graph container of package topo: nodes identified by strings,
 each owning an ordered list of successor identifiers (duplicates allowed),
 kept in a map from identifier to node, and a topological sort with cycle
 detection. The ghost field `Graph.Edges` is the abstract value the
 contracts speak of: the map from each identifier to its successor list.
 */
module Topo {
  import opened Collections
  import opened Strings
  import opened Digraph
  import Kahn

  /** `s` with every occurrence of `x` left out, the other elements kept in order. */
  ghost function Without(s: seq<string>, x: string): seq<string> {
    if s == [] then []
    else Without(s[..|s| - 1], x) + (if s[|s| - 1] == x then [] else [s[|s| - 1]])
  }

  /** Filtering removes exactly the occurrences of `x` and keeps every other element as often as before. */
  lemma {:induction false} WithoutCounts(s: seq<string>, x: string)
    ensures multiset(Without(s, x)) == multiset(s)[x := 0]
  {
    if s != [] {
      var t := s[..|s| - 1];
      assert s == t + [s[|s| - 1]];
      WithoutCounts(t, x);
    }
  }

  /** After filtering, `y` is still there exactly when it was there and is not `x`. */
  lemma WithoutMembership(s: seq<string>, x: string)
    ensures x !in Without(s, x)
    ensures forall y :: y in Without(s, x) <==> y in s && y != x
  {
    WithoutCounts(s, x);
    assert x !in multiset(Without(s, x));
    forall y
      ensures y in Without(s, x) <==> y in s && y != x
    {
      assert y in Without(s, x) <==> y in multiset(Without(s, x));
      assert y in s <==> y in multiset(s);
    }
  }

  /** Filtering a list that does not hold `x` changes nothing; so filtering twice is filtering once. */
  lemma {:induction false} WithoutAbsent(s: seq<string>, x: string)
    requires x !in s
    ensures Without(s, x) == s
  {
    if s != [] {
      var t := s[..|s| - 1];
      assert s == t + [s[|s| - 1]];
      WithoutAbsent(t, x);
    }
  }

  lemma WithoutIdempotent(s: seq<string>, x: string)
    ensures Without(Without(s, x), x) == Without(s, x)
  {
    WithoutMembership(s, x);
    WithoutAbsent(Without(s, x), x);
  }

  /** `removeIfContains`: a new list with every occurrence of `needle` dropped. */
  method RemoveIfContains(needle: string, haystack: seq<string>) returns (res: seq<string>)
    ensures res == Without(haystack, needle)
  {
    res := [];
    for i := 0 to |haystack|
      invariant res == Without(haystack[..i], needle)
    {
      var v := haystack[i];
      assert haystack[..i + 1] == haystack[..i] + [v];
      if v == needle {
        continue;
      }
      res := res + [v];
    }
    assert haystack[..|haystack|] == haystack;
  }

  /** What the graph's edge lists become when node `id` is removed. */
  ghost function RemovedEdges(g: Adjacency, id: string): (r: Adjacency)
    ensures r.Keys == g.Keys - {id}
    ensures forall k :: k in r ==> id !in r[k] && multiset(r[k]) == multiset(g[k])[id := 0]
    ensures forall k :: k in r ==> r[k] == Without(g[k], id)
  {
    var r := map k | k in g && k != id :: Without(g[k], id);
    forall k | k in r
      ensures id !in r[k] && multiset(r[k]) == multiset(g[k])[id := 0]
    {
      WithoutMembership(g[k], id);
      WithoutCounts(g[k], id);
    }
    r
  }

  /** Removing a node leaves no edge to it, so a closed graph stays closed. */
  lemma RemovedEdgesClosed(g: Adjacency, id: string)
    requires Closed(g)
    ensures Closed(RemovedEdges(g, id))
  {
    var r := RemovedEdges(g, id);
    forall u, v | u in r && v in r[u]
      ensures v in r
    {
      WithoutMembership(g[u], id);
    }
  }

  /** What the graph's edge lists become after `Connect(src, dst)` with `src != dst`. */
  ghost function ConnectedEdges(g: Adjacency, src: string, dst: string): (r: Adjacency)
    requires src != dst
    ensures r.Keys == g.Keys + {src, dst}
    ensures r[src] == (if src in g then g[src] else []) + [dst]
    ensures dst !in g ==> r[dst] == []
    ensures forall k :: k in g && k != src ==> r[k] == g[k]
  {
    var withSrc := if src in g then g else g[src := []];
    var withBoth := if dst in withSrc then withSrc else withSrc[dst := []];
    withBoth[src := withBoth[src] + [dst]]
  }

  /** The edge lists of `g` once both endpoints exist, with the new edge appended. */
  lemma ConnectingAfterPut(g: Adjacency, mid: Adjacency, src: string, dst: string)
    requires src != dst
    requires mid.Keys == g.Keys + {src, dst}
    requires forall k :: k in mid ==> mid[k] == if k in g then g[k] else []
    ensures ConnectedEdges(g, src, dst) == mid[src := mid[src] + [dst]]
  {
  }

  /** Connecting creates both endpoints, so a closed graph stays closed. */
  lemma ConnectedEdgesClosed(g: Adjacency, src: string, dst: string)
    requires src != dst && Closed(g)
    ensures Closed(ConnectedEdges(g, src, dst))
  {
    var r := ConnectedEdges(g, src, dst);
    forall u, v | u in r && v in r[u]
      ensures v in r
    {
      if u == src {
        assert v in (if src in g then g[src] else []) || v == dst;
      }
    }
  }

  /** Go's read of a missing map key: the zero value. */
  function Get(m: map<string, int>, k: string): int {
    if k in m then m[k] else 0
  }

  /** The outcome of `Sort`: an order, or the sorted identifiers that a cycle kept from being ordered. */
  datatype SortResult = Ordered(order: seq<string>) | CycleDetected(ids: seq<string>)

  /** A node: its identifier and its outgoing edges in insertion order. */
  class Node {
    const id: string
    var connections: seq<string>

    constructor (id: string, connections: seq<string>)
      ensures this.id == id && this.connections == connections
    {
      this.id := id;
      this.connections := connections;
    }

    /** Appends an edge; repeated targets are kept. */
    method Connect(target: string)
      modifies this
      ensures connections == old(connections) + [target]
    {
      connections := connections + [target];
    }

    /** The node's own edge list, as `Connect` and `Disconnect` leave it. */
    function Connections(): (r: seq<string>)
      reads this
      ensures r == connections
    {
      connections
    }

    /** Drops every edge to `target`. */
    method Disconnect(target: string)
      modifies this
      ensures connections == Without(old(connections), target)
      ensures target !in connections
      ensures forall y :: y in connections <==> y in old(connections) && y != target
    {
      connections := RemoveIfContains(target, connections);
      WithoutMembership(old(connections), target);
    }

    method Connected(target: string) returns (found: bool)
      ensures found <==> target in connections
    {
      var conns := Connections();
      for i := 0 to |conns|
        invariant forall k :: 0 <= k < i ==> conns[k] != target
      {
        if target == conns[i] {
          return true;
        }
      }
      return false;
    }
  }

  /** The graph: a map from identifier to node. */
  class Graph {
    var nodes: map<string, Node>
    /** The abstract value: each identifier with its successor list. */
    ghost var Edges: Adjacency
    ghost var Repr: set<object>

    /** Every node is owned by the graph, filed under its own identifier, and holds the list `Edges` gives it. */
    ghost predicate Valid()
      reads this, Repr
    {
      && this in Repr
      && nodes.Keys == Edges.Keys
      && forall k :: k in nodes ==> nodes[k] in Repr && nodes[k].id == k && nodes[k].connections == Edges[k]
    }

    /** `NewGraph`: no nodes. */
    constructor ()
      ensures Valid() && fresh(Repr)
      ensures Edges == map[]
    {
      nodes := map[];
      Edges := map[];
      Repr := {this};
    }

    /** `GraphFromMap`: one node per key of `m`, holding the list `m` gives it. */
    constructor FromMap(m: Adjacency)
      ensures Valid() && fresh(Repr)
      ensures Edges == m
    {
      var built: map<string, Node> := map[];
      ghost var owned: set<object> := {};
      var rest := m.Keys;
      while rest != {}
        invariant rest <= m.Keys
        invariant built.Keys == m.Keys - rest
        invariant forall k :: k in built ==> built[k] in owned && built[k].id == k && built[k].connections == m[k]
        invariant fresh(owned)
        decreases rest
      {
        var k :| k in rest;
        var n := new Node(k, m[k]);
        built := built[k := n];
        owned := owned + {n};
        rest := rest - {k};
      }
      nodes := built;
      Edges := m;
      Repr := {this} + owned;
    }

    /** The successor list of `id`, and whether `id` is a node. */
    function GetNode(id: string): (r: (seq<string>, bool))
      reads this, Repr
      requires Valid()
      ensures r.1 <==> id in Edges
      ensures r.0 == if id in Edges then Edges[id] else []
    {
      if id !in nodes then ([], false) else (nodes[id].connections, true)
    }

    function Contains(id: string): (b: bool)
      reads this, Repr
      requires Valid()
      ensures b <==> id in Edges
    {
      id in nodes
    }

    /** All identifiers, each once, in ascending order. */
    method Nodes() returns (ids: seq<string>)
      requires Valid()
      ensures StrictlySorted(ids)
      ensures forall k :: k in ids <==> k in Edges
    {
      var res: seq<string> := [];
      var rest := nodes.Keys;
      while rest != {}
        invariant rest <= nodes.Keys
        invariant Distinct(res)
        invariant forall k :: k in res <==> k in nodes && k !in rest
        decreases rest
      {
        var k :| k in rest;
        res := res + [k];
        rest := rest - {k};
      }
      SortStringsDistinct(res);
      ids := SortStrings(res);
    }

    /** Creates `id`, or resets an existing `id` to no outgoing edges. */
    method PutNode(id: string)
      requires Valid()
      modifies this
      ensures Valid() && fresh(Repr - old(Repr))
      ensures Edges == old(Edges)[id := []]
    {
      var n := new Node(id, []);
      nodes := nodes[id := n];
      Edges := Edges[id := []];
      Repr := Repr + {n};
    }

    /** `PutNode` for each identifier in turn. */
    method PutNodes(ids: seq<string>)
      requires Valid()
      modifies this
      ensures Valid() && fresh(Repr - old(Repr))
      ensures forall k :: k in Edges <==> k in old(Edges) || k in ids
      ensures forall k :: k in ids ==> Edges[k] == []
      ensures forall k :: k in old(Edges) && k !in ids ==> Edges[k] == old(Edges)[k]
    {
      for i := 0 to |ids|
        invariant Valid() && fresh(Repr - old(Repr))
        invariant forall k :: k in Edges <==> k in old(Edges) || k in ids[..i]
        invariant forall k :: k in ids[..i] ==> Edges[k] == []
        invariant forall k :: k in old(Edges) && k !in ids[..i] ==> Edges[k] == old(Edges)[k]
      {
        assert ids[..i + 1] == ids[..i] + [ids[i]];
        PutNode(ids[i]);
      }
      assert ids[..|ids|] == ids;
    }

    /** Removes `id` and every edge pointing to it; false, with nothing changed, when `id` is absent. */
    method RemoveNode(id: string) returns (removed: bool)
      requires Valid()
      modifies Repr
      ensures Valid() && Repr == old(Repr)
      ensures removed <==> id in old(Edges)
      ensures !removed ==> Edges == old(Edges)
      ensures removed ==> Edges == RemovedEdges(old(Edges), id)
    {
      if id !in nodes {
        return false;
      }
      DisconnectAll(id);
      nodes := nodes - {id};
      Edges := RemovedEdges(old(Edges), id);
      return true;
    }

    /** The loop of `RemoveNode`: drops the edges to `id` from every node's list, visiting the nodes in ascending order. */
    method DisconnectAll(id: string)
      requires Valid()
      modifies Repr
      ensures Valid() && Repr == old(Repr) && nodes == old(nodes)
      ensures Edges.Keys == old(Edges).Keys
      ensures forall k :: k in Edges ==> Edges[k] == Without(old(Edges)[k], id)
    {
      var ids := Nodes();
      StrictlySortedDistinct(ids);
      DisconnectEach(ids, id);
    }

    /** `Disconnect(id)` on the node filed under each of `ids`, in order; the other nodes keep their lists. */
    method DisconnectEach(ids: seq<string>, id: string)
      requires Valid() && Distinct(ids) && forall k :: k in ids ==> k in Edges
      modifies Repr
      ensures Valid() && Repr == old(Repr) && nodes == old(nodes)
      ensures Edges.Keys == old(Edges).Keys
      ensures forall k :: k in Edges ==> Edges[k] == if k in ids then Without(old(Edges)[k], id) else old(Edges)[k]
    {
      for i := 0 to |ids|
        invariant Valid() && Repr == old(Repr) && nodes == old(nodes)
        invariant Edges.Keys == old(Edges).Keys
        invariant forall k :: k in Edges ==> Edges[k] == if k in ids[..i] then Without(old(Edges)[k], id) else old(Edges)[k]
      {
        assert ids[..i + 1] == ids[..i] + [ids[i]];
        assert ids[i] !in ids[..i];
        DisconnectAt(ids[i], id);
      }
      assert ids[..|ids|] == ids;
    }

    /** `Disconnect(target)` on the node filed under `k`; no other node changes. */
    method DisconnectAt(k: string, target: string)
      requires Valid() && k in Edges
      modifies Repr
      ensures Valid() && Repr == old(Repr) && nodes == old(nodes)
      ensures Edges == old(Edges)[k := Without(old(Edges)[k], target)]
    {
      var node := nodes[k];
      node.Disconnect(target);
      Edges := Edges[k := node.connections];
      forall j | j in nodes && j != k
        ensures nodes[j].connections == old(nodes[j].connections)
      {
        assert nodes[j] != node;
      }
    }

    /** Adds the edge src -> dst, creating missing endpoints; a self-loop is ignored. */
    method Connect(src: string, dst: string)
      requires Valid()
      modifies Repr
      ensures Valid() && fresh(Repr - old(Repr))
      ensures src == dst ==> Edges == old(Edges)
      ensures src != dst ==> Edges == ConnectedEdges(old(Edges), src, dst)
    {
      if src == dst {
        return;
      }
      if !Contains(src) {
        PutNode(src);
      }
      if !Contains(dst) {
        PutNode(dst);
      }
      ConnectingAfterPut(old(Edges), Edges, src, dst);
      ConnectAt(src, dst);
    }

    /** `Connect(target)` on the node filed under `k`; no other node changes. */
    method ConnectAt(k: string, target: string)
      requires Valid() && k in Edges
      modifies Repr
      ensures Valid() && Repr == old(Repr)
      ensures Edges == old(Edges)[k := old(Edges)[k] + [target]]
    {
      var node := nodes[k];
      node.Connect(target);
      Edges := Edges[k := node.connections];
      forall j | j in nodes && j != k
        ensures nodes[j].connections == old(nodes[j].connections)
      {
        assert nodes[j] != node;
      }
    }

    /**
     The in-degree of every node: lines 150-165 of `Sort`. Each identifier
     starts at 0 unless an earlier edge already counted it, and each edge to
     `c` adds one to `c`'s count.
     */
    method InboundConnections() returns (inbound: map<string, int>)
      requires Valid() && Closed(Edges)
      ensures inbound.Keys == Edges.Keys
      ensures forall v :: v in inbound ==> inbound[v] == InDegree(Edges, v)
    {
      var ids := Nodes();
      StrictlySortedDistinct(ids);
      inbound := CountInbound(ids);
    }

    /** The counting loop of `InboundConnections` over `ids`, a listing of every node once. */
    method CountInbound(ids: seq<string>) returns (inbound: map<string, int>)
      requires Valid() && Closed(Edges) && Distinct(ids)
      requires forall k :: k in ids <==> k in Edges
      ensures inbound.Keys == Edges.Keys
      ensures forall v :: v in inbound ==> inbound[v] == InDegree(Edges, v)
    {
      inbound := map[];
      for i := 0 to |ids|
        invariant inbound.Keys <= Edges.Keys
        invariant Elems(ids[..i]) <= inbound.Keys
        invariant forall v :: v in Edges ==> Get(inbound, v) == InDegreeFrom(Edges, Elems(ids[..i]), v)
      {
        ghost var entered := inbound;
        inbound := CountNode(inbound, ids[i]);
        InboundStep(Edges, ids, i, entered, inbound);
      }
      assert Elems(ids[..|ids|]) == Edges.Keys by {
        assert ids[..|ids|] == ids;
      }
    }

    /** One pass of lines 151-164: files `id` with count 0 unless it is counted already, then counts its edges. */
    method CountNode(inbound: map<string, int>, id: string) returns (counted: map<string, int>)
      requires Valid() && id in Edges
      ensures counted.Keys == inbound.Keys + {id} + Elems(Edges[id])
      ensures forall v :: Get(counted, v) == Get(inbound, v) + multiset(Edges[id])[v]
    {
      var node := nodes[id];
      counted := inbound;
      if node.id !in counted {
        counted := counted[node.id := 0];
      }
      var conns := node.Connections();
      counted := CountTargets(counted, node.id, conns);
    }

    /** Topological sort (Kahn's algorithm with a stack), or the nodes a cycle blocks. */
    method Sort() returns (r: SortResult)
      requires Valid() && Closed(Edges)
      ensures r.Ordered? <==> Acyclic(Edges)
      ensures r.Ordered? ==> IsTopologicalOrder(Edges, r.order)
      ensures r.CycleDetected? ==> r.ids != [] && StrictlySorted(r.ids)
      ensures r.CycleDetected? ==> forall v :: v in r.ids <==> v in Edges && BelowCycle(Edges, v)
    {
      var inbound := InboundConnections();
      var stack;
      stack, inbound := SeedStack(Edges, inbound);
      var sorted;
      sorted, inbound := Drain(inbound, stack);
      assert |nodes| == |Edges| by {
        assert |nodes| == |nodes.Keys| && |Edges| == |Edges.Keys|;
      }
      r := Report(Edges, inbound, sorted, |nodes|);
    }

    /**
     Lines 175-191 of `Sort`: while the stack is not empty, pops its top
     identifier, appends it to the order and releases its successors.
     */
    method Drain(inbound: map<string, int>, stack: seq<string>) returns (sorted: seq<string>, counts: map<string, int>)
      requires Valid() && Kahn.Inv(Edges, inbound, [], stack)
      ensures Kahn.Inv(Edges, counts, sorted, [])
    {
      var todo := stack;
      sorted, counts := [], inbound;
      while todo != []
        invariant Kahn.Inv(Edges, counts, sorted, todo)
        decreases Kahn.Remaining(Edges, sorted)
      {
        var nodeID := todo[|todo| - 1];
        Kahn.Popped(Edges, counts, sorted, todo);
        todo := todo[..|todo| - 1];
        ghost var base, newly := todo, [];
        var node := nodes[nodeID];
        var conns := node.Connections();
        counts, todo, newly := Release(Edges, sorted, nodeID, conns, counts, todo);
        Kahn.Emitted(Edges, counts, sorted, base, nodeID, newly);
        sorted := sorted + [nodeID];
      }
    }
  }

  /**
   Lines 180-189 of `Sort`: for each edge of the popped node `u`, whose list
   is `conns`, lowers the target's count and pushes the target, marked -1,
   once its count reaches 0.
   */
  method Release(ghost g: Adjacency, ghost sorted: seq<string>, u: string, conns: seq<string>,
                 inbound: map<string, int>, stack: seq<string>)
    returns (counts: map<string, int>, pushed: seq<string>, ghost newly: seq<string>)
    requires u in g && conns == g[u]
    requires Kahn.InnerInv(g, inbound, sorted, stack, u, [], 0)
    ensures pushed == stack + newly
    ensures Kahn.InnerInv(g, counts, sorted, stack, u, newly, |conns|)
  {
    counts, pushed, newly := inbound, stack, [];
    for i := 0 to |conns|
      invariant Releasing(g, counts, sorted, stack, u, pushed, newly, i)
    {
      counts, pushed, newly := ReleaseEdge(g, sorted, u, conns[i], i, counts, stack, pushed, newly);
    }
  }

  /** The state of `Release` after `i` edges: the stack is `base` with the `newly` released nodes on top. */
  ghost predicate Releasing(g: Adjacency, counts: map<string, int>, sorted: seq<string>, base: seq<string>, u: string,
                            pushed: seq<string>, newly: seq<string>, i: nat) {
    pushed == base + newly && Kahn.InnerInv(g, counts, sorted, base, u, newly, i)
  }

  /** One pass of the loop in `Release`: the edge from `u` to `c`, the `i`-th in `u`'s list. */
  method ReleaseEdge(ghost g: Adjacency, ghost sorted: seq<string>, u: string, c: string, ghost i: nat,
                     inbound: map<string, int>, ghost base: seq<string>, stack: seq<string>, ghost newly: seq<string>)
    returns (counts: map<string, int>, pushed: seq<string>, ghost newly': seq<string>)
    requires u in g && i < |g[u]| && c == g[u][i]
    requires Releasing(g, inbound, sorted, base, u, stack, newly, i)
    ensures Releasing(g, counts, sorted, base, u, pushed, newly', i + 1)
  {
    Kahn.VisitedTarget(g, inbound, sorted, base, u, newly, i);
    var lowered := inbound[c] - 1;
    if lowered == 0 {
      Kahn.VisitedPush(g, inbound, sorted, base, u, newly, i);
      counts, pushed, newly' := inbound[c := -1], stack + [c], newly + [c];
    } else {
      Kahn.VisitedKeep(g, inbound, sorted, base, u, newly, i);
      counts, pushed, newly' := inbound[c := lowered], stack, newly;
    }
  }

  /**
   Lines 167-173 of `Sort`: pushes every identifier whose count is 0 and marks
   it with the sentinel -1, visiting the map in an arbitrary order. Started
   from the in-degrees of `g`, this sets up the invariant of the main loop.
   */
  method SeedStack(ghost g: Adjacency, inbound: map<string, int>) returns (stack: seq<string>, marked: map<string, int>)
    requires Closed(g) && inbound.Keys == g.Keys
    requires forall v :: v in inbound ==> inbound[v] == InDegree(g, v)
    ensures forall v :: v in stack <==> v in inbound && inbound[v] == 0
    ensures marked.Keys == inbound.Keys
    ensures forall v :: v in marked ==> marked[v] == if inbound[v] == 0 then -1 else inbound[v]
    ensures Kahn.Inv(g, marked, [], stack)
  {
    stack, marked := [], inbound;
    var pending := inbound.Keys;
    while pending != {}
      invariant pending <= inbound.Keys && marked.Keys == inbound.Keys
      invariant Distinct(stack)
      invariant forall v :: v in stack <==> v in inbound && v !in pending && inbound[v] == 0
      invariant forall v :: v in marked ==> marked[v] == if v in stack then -1 else inbound[v]
      decreases pending
    {
      var k :| k in pending;
      if marked[k] == 0 {
        stack := stack + [k];
        marked := marked[k := -1];
      }
      pending := pending - {k};
    }
    Kahn.Seeded(g, marked, stack);
  }

  /**
   Lines 193-208 of `Sort`: once the stack is empty, the order when it holds
   every one of the `n` nodes, and otherwise the sorted identifiers whose
   count is still positive.
   */
  method Report(ghost g: Adjacency, inbound: map<string, int>, sorted: seq<string>, n: nat) returns (r: SortResult)
    requires n == |g| && Kahn.Inv(g, inbound, sorted, [])
    ensures r.Ordered? <==> Acyclic(g)
    ensures r.Ordered? ==> IsTopologicalOrder(g, r.order)
    ensures r.CycleDetected? ==> r.ids != [] && StrictlySorted(r.ids)
    ensures r.CycleDetected? ==> forall v :: v in r.ids <==> v in g && BelowCycle(g, v)
  {
    Kahn.Drained(g, inbound, sorted);
    if n != |sorted| {
      var cycle := CollectUnresolved(inbound);
      assert cycle != [] by {
        var v :| v in g && inbound[v] > 0;
        assert v in cycle;
      }
      return CycleDetected(cycle);
    }
    return Ordered(sorted);
  }

  /**
   Lines 194-203 of `Sort`: the identifiers whose count is still positive,
   gathered in an arbitrary order and then sorted.
   */
  method CollectUnresolved(inbound: map<string, int>) returns (ids: seq<string>)
    ensures StrictlySorted(ids)
    ensures forall v :: v in ids <==> v in inbound && inbound[v] > 0
  {
    var cycle: seq<string> := [];
    var rest := inbound.Keys;
    while rest != {}
      invariant rest <= inbound.Keys
      invariant Distinct(cycle)
      invariant forall v :: v in cycle <==> v in inbound && v !in rest && inbound[v] > 0
      decreases rest
    {
      var k :| k in rest;
      if inbound[k] > 0 {
        cycle := cycle + [k];
      }
      rest := rest - {k};
    }
    SortStringsDistinct(cycle);
    ids := SortStrings(cycle);
  }

  /**
   The inner loop of lines 155-163 of `Sort`: one more count for each edge
   of the node `own`. Its guard tests `own`, which the caller has just
   entered, so the branch that resets a count to 1 cannot be taken.
   */
  method CountTargets(inbound: map<string, int>, own: string, conns: seq<string>) returns (counted: map<string, int>)
    requires own in inbound
    ensures counted.Keys == inbound.Keys + Elems(conns)
    ensures forall v :: Get(counted, v) == Get(inbound, v) + multiset(conns)[v]
  {
    counted := inbound;
    for j := 0 to |conns|
      invariant own in counted
      invariant counted.Keys == inbound.Keys + Elems(conns[..j])
      invariant forall v :: Get(counted, v) == Get(inbound, v) + multiset(conns[..j])[v]
    {
      var c := conns[j];
      assert conns[..j + 1] == conns[..j] + [c];
      if own !in counted {
        counted := counted[c := 1];
      } else {
        counted := counted[c := Get(counted, c) + 1];
      }
    }
    assert conns[..|conns|] == conns;
  }

  /** Counting the edges of one more node adds its list to the running in-degrees. */
  lemma InboundStep(g: Adjacency, ids: seq<string>, i: nat, before: map<string, int>, after: map<string, int>)
    requires Closed(g) && Distinct(ids) && i < |ids| && Elems(ids) <= g.Keys
    requires before.Keys <= g.Keys && Elems(ids[..i]) <= before.Keys
    requires forall v :: v in g ==> Get(before, v) == InDegreeFrom(g, Elems(ids[..i]), v)
    requires after.Keys == before.Keys + {ids[i]} + Elems(g[ids[i]])
    requires forall v :: Get(after, v) == Get(before, v) + multiset(g[ids[i]])[v]
    ensures after.Keys <= g.Keys && Elems(ids[..i + 1]) <= after.Keys
    ensures forall v :: v in g ==> Get(after, v) == InDegreeFrom(g, Elems(ids[..i + 1]), v)
  {
    var done, now := Elems(ids[..i]), Elems(ids[..i + 1]);
    assert ids[..i + 1] == ids[..i] + [ids[i]];
    assert ids[i] !in done;
    assert now == done + {ids[i]};
    assert now - {ids[i]} == done;
    forall v | v in g
      ensures Get(after, v) == InDegreeFrom(g, now, v)
    {
      InDegreeFromRemove(g, now, ids[i], v);
    }
  }
}
