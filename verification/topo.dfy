/** The node/edge incidence structure of lab2/topo.py.

    A Python `Node` object is identified by a key of type `N` (object
    identity), an `Edge` object by its index in `Graph.edges`. Every node
    keeps the list of edges attached to it, in the order they were attached,
    exactly as `Node.edges` does; an edge keeps its two ends, which
    `Edge.remove` sets back to `None`. */
module Topo {
  import opened Wrappers
  import opened Seqs

  /** The `type` tag of a node: 'core', 'agg', 'edge' or 'host'. */
  datatype NodeType = Core | Agg | EdgeSwitch | Host

  /** The `pod`, `edge` and `idx` attributes the generator sets on hosts. */
  datatype HostCoords = HostCoords(pod: int, edge: int, idx: int)

  /** An `Edge` object, named by its position in `Graph.edges`. */
  type EdgeRef = nat

  datatype Node = Node(id: string, kind: NodeType, coords: Option<HostCoords>, edges: seq<EdgeRef>)

  datatype Edge<N> = Edge(lnode: Option<N>, rnode: Option<N>)

  datatype Graph<N> = Graph(nodes: map<N, Node>, edges: seq<Edge<N>>)

  /** What a Python call raised, if anything, and the state it left behind. */
  datatype GraphError = AttributeError | ValueError

  datatype Outcome<N> = Outcome(graph: Graph<N>, raised: Option<GraphError>)

  predicate Touches<N(==)>(e: Edge<N>, n: N)
  {
    e.lnode == Some(n) || e.rnode == Some(n)
  }

  /** How many times edge e must occur in the edge list of n. */
  function Multiplicity<N(==)>(e: Edge<N>, n: N): nat
  {
    (if e.lnode == Some(n) then 1 else 0) + (if e.rnode == Some(n) then 1 else 0)
  }

  /** Every reference points at an existing object. */
  predicate Valid<N(==)>(g: Graph<N>)
  {
    && (forall n, j :: n in g.nodes && 0 <= j < |g.nodes[n].edges| ==> g.nodes[n].edges[j] < |g.edges|)
    && (forall i :: 0 <= i < |g.edges| && g.edges[i].lnode.Some? ==> g.edges[i].lnode.value in g.nodes)
    && (forall i :: 0 <= i < |g.edges| && g.edges[i].rnode.Some? ==> g.edges[i].rnode.value in g.nodes)
  }

  /** The incidence invariant: an edge sits in the list of each of its ends
      (twice for a self-loop) and nowhere else. */
  predicate Wf<N(==)>(g: Graph<N>)
  {
    && Valid(g)
    && forall n, i :: n in g.nodes && 0 <= i < |g.edges| ==>
         multiset(g.nodes[n].edges)[i] == Multiplicity(g.edges[i], n)
  }

  // ---------------------------------------------------------------- add_edge

  /** `a.add_edge(b)`: a fresh edge with `lnode = a`, `rnode = b`, appended to
      the list of `a` and then to the list of `b`; returns the edge. */
  function AddEdge<N(==)>(g: Graph<N>, a: N, b: N): (r: (Graph<N>, EdgeRef))
    requires a in g.nodes && b in g.nodes
    ensures r.1 == |g.edges|
    ensures r.0.edges == g.edges + [Edge(Some(a), Some(b))]
    ensures r.0.nodes.Keys == g.nodes.Keys
    ensures forall n :: n in g.nodes ==>
              r.0.nodes[n] == g.nodes[n].(edges := g.nodes[n].edges
                                           + (if n == a then [r.1] else [])
                                           + (if n == b then [r.1] else []))
  {
    var e := |g.edges|;
    var nodes1 := g.nodes[a := g.nodes[a].(edges := g.nodes[a].edges + [e])];
    var nodes2 := nodes1[b := nodes1[b].(edges := nodes1[b].edges + [e])];
    (Graph(nodes2, g.edges + [Edge(Some(a), Some(b))]), e)
  }

  lemma AddEdgePreservesWf<N>(g: Graph<N>, a: N, b: N)
    requires Wf(g) && a in g.nodes && b in g.nodes
    ensures Wf(AddEdge(g, a, b).0)
  {
    var g' := AddEdge(g, a, b).0;
    forall n, i | n in g'.nodes && 0 <= i < |g'.edges|
      ensures multiset(g'.nodes[n].edges)[i] == Multiplicity(g'.edges[i], n)
    {
      AddEdgeCount(g.nodes[n].edges, g.edges, a, b, n, i);
    }
    AddEdgeValid(g, a, b);
  }

  lemma AddEdgeValid<N>(g: Graph<N>, a: N, b: N)
    requires Valid(g) && a in g.nodes && b in g.nodes
    ensures Valid(AddEdge(g, a, b).0)
  {
    var g' := AddEdge(g, a, b).0;
    var e: EdgeRef := |g.edges|;
    forall n, j | n in g'.nodes && 0 <= j < |g'.nodes[n].edges|
      ensures g'.nodes[n].edges[j] < |g'.edges|
    {
      var before := g.nodes[n].edges;
      var extra: seq<EdgeRef> := (if n == a then [e] else []) + (if n == b then [e] else []);
      assert g'.nodes[n].edges == before + extra;
      if j >= |before| {
        assert g'.nodes[n].edges[j] == extra[j - |before|];
      }
    }
  }

  /** The count step of `AddEdgePreservesWf`, on the lists alone. */
  lemma AddEdgeCount<N>(before: seq<EdgeRef>, edges: seq<Edge<N>>, a: N, b: N, n: N, i: nat)
    requires forall j :: 0 <= j < |before| ==> before[j] < |edges|
    requires i <= |edges|
    requires i < |edges| ==> multiset(before)[i] == Multiplicity(edges[i], n)
    ensures var e: EdgeRef := |edges|;
      multiset(before + (if n == a then [e] else []) + (if n == b then [e] else []))[i]
        == Multiplicity((edges + [Edge(Some(a), Some(b))])[i], n)
  {
    var e: EdgeRef := |edges|;
    var x: seq<EdgeRef> := if n == a then [e] else [];
    var y: seq<EdgeRef> := if n == b then [e] else [];
    assert multiset(before + x + y) == multiset(before) + multiset(x) + multiset(y);
    if i < e {
      assert (edges + [Edge(Some(a), Some(b))])[i] == edges[i];
      assert i !in x && i !in y;
    } else {
      assert e !in before;
    }
  }

  // ---------------------------------------------------------------- list.remove

  /** Python's `list.remove(x)`: drops the first occurrence, raises ValueError
      (`None` here) when x is absent. */
  function RemoveFirst<T(==)>(s: seq<T>, x: T): (r: Option<seq<T>>)
    ensures r.None? <==> x !in s
    ensures r.Some? ==> multiset(r.value) == multiset(s) - multiset{x}
  {
    if |s| == 0 then None
    else if s[0] == x then
      assert s == [s[0]] + s[1..];
      Some(s[1..])
    else
      match RemoveFirst(s[1..], x)
      case None => None
      case Some(t) =>
        assert s == [s[0]] + s[1..];
        Some([s[0]] + t)
  }

  /** The occurrence `list.remove` drops is the first one; the rest keep their order. */
  lemma {:induction false} RemoveFirstDropsFirst<T>(s: seq<T>, x: T, i: nat)
    requires i < |s| && s[i] == x && x !in s[..i]
    ensures RemoveFirst(s, x) == Some(s[..i] + s[i + 1..])
  {
    if i == 0 {
      assert s[..0] + s[1..] == s[1..];
    } else {
      assert s[0] in s[..i];
      var t := s[1..];
      assert t[..i - 1] == s[1..i];
      assert x !in t[..i - 1];
      RemoveFirstDropsFirst(t, x, i - 1);
      assert RemoveFirst(s, x) == Some([s[0]] + (t[..i - 1] + t[i..]));
      DropAfterHead(s, i);
    }
  }

  lemma DropAfterHead<T>(s: seq<T>, i: nat)
    requires 0 < i < |s|
    ensures [s[0]] + (s[1..][..i - 1] + s[1..][i..]) == s[..i] + s[i + 1..]
  {
    var t := s[1..];
    assert t[..i - 1] == s[1..i];
    assert t[i..] == s[i + 1..];
    assert [s[0]] + s[1..i] == s[..i];
  }

  /** `node.remove_edge(edge)`: removes the edge from this one node's list. */
  function RemoveEdge<N(==)>(g: Graph<N>, n: N, e: EdgeRef): (o: Outcome<N>)
    requires n in g.nodes
    ensures o.raised == Some(ValueError) <==> e !in g.nodes[n].edges
    ensures o.raised.None? ==> o.graph.edges == g.edges && o.graph.nodes.Keys == g.nodes.Keys
    ensures o.raised.None? ==> forall m :: m in g.nodes && m != n ==> o.graph.nodes[m] == g.nodes[m]
    ensures o.raised.None? ==> multiset(o.graph.nodes[n].edges) == multiset(g.nodes[n].edges) - multiset{e}
    ensures o.raised.None? ==> o.graph.nodes[n] == g.nodes[n].(edges := o.graph.nodes[n].edges)
  {
    match RemoveFirst(g.nodes[n].edges, e)
    case None => Outcome(g, Some(ValueError))
    case Some(rest) => Outcome(g.(nodes := g.nodes[n := g.nodes[n].(edges := rest)]), None)
  }

  /** `edge.remove()`: drop the edge from the list of its left end, then from
      the list of its right end, then clear both ends. A missing end raises
      AttributeError, a list without the edge raises ValueError; the state
      reached before the raise is kept, as Python keeps it. */
  function EdgeRemove<N(==)>(g: Graph<N>, e: EdgeRef): Outcome<N>
    requires Valid(g) && e < |g.edges|
  {
    var ed := g.edges[e];
    if ed.lnode.None? then Outcome(g, Some(AttributeError))
    else
      var o1 := RemoveEdge(g, ed.lnode.value, e);
      if o1.raised.Some? then o1
      else if ed.rnode.None? then Outcome(o1.graph, Some(AttributeError))
      else
        var o2 := RemoveEdge(o1.graph, ed.rnode.value, e);
        if o2.raised.Some? then o2
        else Outcome(o2.graph.(edges := o2.graph.edges[e := Edge(None, None)]), None)
  }

  /** Removing every copy of e: what one or two `list.remove` calls leave. */
  lemma DropCopies(m: multiset<EdgeRef>, e: EdgeRef)
    ensures m[e] == 0 ==> m == m[e := 0]
    ensures m[e] == 1 ==> m - multiset{e} == m[e := 0]
    ensures m[e] == 2 ==> m - multiset{e} - multiset{e} == m[e := 0]
  {
  }

  /** On an attached edge of a well-formed graph, `Edge.remove` raises
      nothing, keeps the node keys and clears exactly the removed edge. */
  lemma EdgeRemoveEdges<N>(g: Graph<N>, e: EdgeRef)
    requires Wf(g) && e < |g.edges|
    requires g.edges[e].lnode.Some? && g.edges[e].rnode.Some?
    ensures var o := EdgeRemove(g, e);
      && o.raised.None?
      && o.graph.nodes.Keys == g.nodes.Keys
      && o.graph.edges == g.edges[e := Edge(None, None)]
  {
    var l, r := g.edges[e].lnode.value, g.edges[e].rnode.value;
    assert multiset(g.nodes[l].edges)[e] == Multiplicity(g.edges[e], l);
    assert multiset(g.nodes[r].edges)[e] == Multiplicity(g.edges[e], r);
    var o1 := RemoveEdge(g, l, e);
    assert o1.raised.None?;
    assert multiset(o1.graph.nodes[r].edges)[e] >= 1;
  }

  /** What `Edge.remove` does to the edge list of one node: every copy of
      the edge goes, nothing else about the node changes, and a node the
      edge does not touch is left exactly as it was. */
  lemma EdgeRemoveNode<N>(g: Graph<N>, e: EdgeRef, n: N)
    requires Wf(g) && e < |g.edges|
    requires g.edges[e].lnode.Some? && g.edges[e].rnode.Some?
    requires n in g.nodes
    ensures var o := EdgeRemove(g, e);
      && n in o.graph.nodes
      && o.graph.nodes[n] == g.nodes[n].(edges := o.graph.nodes[n].edges)
      && multiset(o.graph.nodes[n].edges) == multiset(g.nodes[n].edges)[e := 0]
      && (!Touches(g.edges[e], n) ==> o.graph.nodes[n] == g.nodes[n])
  {
    var l, r := g.edges[e].lnode.value, g.edges[e].rnode.value;
    var m := multiset(g.nodes[n].edges);
    assert m[e] == Multiplicity(g.edges[e], n);
    assert multiset(g.nodes[l].edges)[e] == Multiplicity(g.edges[e], l);
    DropCopies(m, e);
    var o1 := RemoveEdge(g, l, e);
    assert o1.raised.None?;
    var m1 := multiset(o1.graph.nodes[n].edges);
    assert m1 == if n == l then m - multiset{e} else m;
    assert o1.graph.nodes[n] == g.nodes[n].(edges := o1.graph.nodes[n].edges);
    EdgeRemoveEdges(g, e);
    var o2 := RemoveEdge(o1.graph, r, e);
    assert o2.raised.None?;
    assert EdgeRemove(g, e).graph.nodes == o2.graph.nodes;
    assert multiset(o2.graph.nodes[n].edges) == if n == r then m1 - multiset{e} else m1;
  }

  /** `Edge.remove` on an attached edge of a well-formed graph succeeds,
      detaches the edge from both ends, clears its ends, changes nothing
      else, and keeps the incidence invariant. */
  lemma EdgeRemoveDetaches<N>(g: Graph<N>, e: EdgeRef)
    requires Wf(g) && e < |g.edges|
    requires g.edges[e].lnode.Some? && g.edges[e].rnode.Some?
    ensures var o := EdgeRemove(g, e);
      && o.raised.None?
      && Wf(o.graph)
      && o.graph.nodes.Keys == g.nodes.Keys
      && |o.graph.edges| == |g.edges|
      && o.graph.edges[e] == Edge(None, None)
      && (forall i :: 0 <= i < |g.edges| && i != e ==> o.graph.edges[i] == g.edges[i])
      && (forall n :: n in g.nodes ==> e !in o.graph.nodes[n].edges)
      && (forall n :: n in g.nodes ==> multiset(o.graph.nodes[n].edges) == multiset(g.nodes[n].edges)[e := 0])
      && (forall n :: n in g.nodes && !Touches(g.edges[e], n) ==> o.graph.nodes[n] == g.nodes[n])
  {
    EdgeRemoveEdges(g, e);
    var o := EdgeRemove(g, e);
    forall n | n in g.nodes
      ensures multiset(o.graph.nodes[n].edges) == multiset(g.nodes[n].edges)[e := 0]
      ensures !Touches(g.edges[e], n) ==> o.graph.nodes[n] == g.nodes[n]
    {
      EdgeRemoveNode(g, e, n);
    }
    EdgeRemoveKeepsWf(g, e);
  }

  lemma EdgeRemoveKeepsWf<N>(g: Graph<N>, e: EdgeRef)
    requires Wf(g) && e < |g.edges|
    requires g.edges[e].lnode.Some? && g.edges[e].rnode.Some?
    ensures Wf(EdgeRemove(g, e).graph)
  {
    EdgeRemoveEdges(g, e);
    var o := EdgeRemove(g, e);
    forall n, i | n in o.graph.nodes && 0 <= i < |o.graph.edges|
      ensures multiset(o.graph.nodes[n].edges)[i] == Multiplicity(o.graph.edges[i], n)
    {
      EdgeRemoveCount(g, e, n, i);
    }
    forall n, j | n in o.graph.nodes && 0 <= j < |o.graph.nodes[n].edges|
      ensures o.graph.nodes[n].edges[j] < |o.graph.edges|
    {
      EdgeRemoveBound(g, e, n, j);
    }
  }

  /** After `Edge.remove`, edge i occurs in the list of n as often as n is one of its ends. */
  lemma EdgeRemoveCount<N>(g: Graph<N>, e: EdgeRef, n: N, i: EdgeRef)
    requires Wf(g) && e < |g.edges| && i < |g.edges| && n in g.nodes
    requires g.edges[e].lnode.Some? && g.edges[e].rnode.Some?
    ensures var o := EdgeRemove(g, e);
      n in o.graph.nodes && i < |o.graph.edges|
      && multiset(o.graph.nodes[n].edges)[i] == Multiplicity(o.graph.edges[i], n)
  {
    EdgeRemoveEdges(g, e);
    EdgeRemoveNode(g, e, n);
    assert multiset(g.nodes[n].edges)[i] == Multiplicity(g.edges[i], n);
  }

  /** After `Edge.remove`, every list entry still names an edge. */
  lemma EdgeRemoveBound<N>(g: Graph<N>, e: EdgeRef, n: N, j: nat)
    requires Wf(g) && e < |g.edges| && n in g.nodes
    requires g.edges[e].lnode.Some? && g.edges[e].rnode.Some?
    requires j < |EdgeRemove(g, e).graph.nodes[n].edges|
    ensures EdgeRemove(g, e).graph.nodes[n].edges[j] < |EdgeRemove(g, e).graph.edges|
  {
    EdgeRemoveEdges(g, e);
    EdgeRemoveNode(g, e, n);
    var o := EdgeRemove(g, e);
    var x := o.graph.nodes[n].edges[j];
    assert x in multiset(o.graph.nodes[n].edges);
    assert x in multiset(g.nodes[n].edges);
  }

  // ---------------------------------------------------------------- is_neighbor

  /** Some edge in the list of a has b as one of its ends. */
  predicate ListedNeighbor<N(==)>(g: Graph<N>, a: N, b: N)
    requires Valid(g) && a in g.nodes
  {
    exists j :: 0 <= j < |g.nodes[a].edges| && Touches(g.edges[g.nodes[a].edges[j]], b)
  }

  /** Some edge of the graph joins a and b. */
  predicate Linked<N(==)>(g: Graph<N>, a: N, b: N)
  {
    exists i :: 0 <= i < |g.edges| && Touches(g.edges[i], a) && Touches(g.edges[i], b)
  }

  /** `a.is_neighbor(b)`: scans the edge list of a for an edge with b at
      either end. */
  method IsNeighbor<N(==)>(g: Graph<N>, a: N, b: N) returns (r: bool)
    requires Valid(g) && a in g.nodes
    ensures r <==> ListedNeighbor(g, a, b)
  {
    var es := g.nodes[a].edges;
    var j := 0;
    while j < |es|
      invariant 0 <= j <= |es|
      invariant forall m :: 0 <= m < j ==> !Touches(g.edges[es[m]], b)
    {
      var edge := g.edges[es[j]];
      if edge.lnode == Some(b) || edge.rnode == Some(b) {
        return true;
      }
      j := j + 1;
    }
    return false;
  }

  /** In a well-formed graph an edge is in the list of a exactly when a is
      one of its ends. */
  lemma ListedIffTouches<N>(g: Graph<N>, a: N, i: EdgeRef)
    requires Wf(g) && a in g.nodes && i < |g.edges|
    ensures i in g.nodes[a].edges <==> Touches(g.edges[i], a)
  {
    assert i in g.nodes[a].edges <==> i in multiset(g.nodes[a].edges);
    assert multiset(g.nodes[a].edges)[i] == Multiplicity(g.edges[i], a);
  }

  /** In a well-formed graph the edge lists say exactly which nodes are joined. */
  lemma ListedNeighborIffLinked<N>(g: Graph<N>, a: N, b: N)
    requires Wf(g) && a in g.nodes
    ensures ListedNeighbor(g, a, b) <==> Linked(g, a, b)
  {
    var es := g.nodes[a].edges;
    if ListedNeighbor(g, a, b) {
      var j :| 0 <= j < |es| && Touches(g.edges[es[j]], b);
      ListedIffTouches(g, a, es[j]);
      assert Touches(g.edges[es[j]], a);
    }
    if Linked(g, a, b) {
      var i :| 0 <= i < |g.edges| && Touches(g.edges[i], a) && Touches(g.edges[i], b);
      ListedIffTouches(g, a, i);
      var j :| 0 <= j < |es| && es[j] == i;
      assert Touches(g.edges[es[j]], b);
    }
  }

  /** `is_neighbor` is symmetric on a well-formed graph. */
  lemma NeighborSymmetric<N>(g: Graph<N>, a: N, b: N)
    requires Wf(g) && a in g.nodes && b in g.nodes
    ensures ListedNeighbor(g, a, b) <==> ListedNeighbor(g, b, a)
  {
    ListedNeighborIffLinked(g, a, b);
    ListedNeighborIffLinked(g, b, a);
  }

  /** `x.is_neighbor(x)` holds exactly when x has any edge at all. */
  lemma SelfNeighbor<N>(g: Graph<N>, a: N)
    requires Wf(g) && a in g.nodes
    ensures ListedNeighbor(g, a, a) <==> |g.nodes[a].edges| > 0
  {
    if |g.nodes[a].edges| > 0 {
      var i := g.nodes[a].edges[0];
      assert i in multiset(g.nodes[a].edges);
      assert Touches(g.edges[i], a);
    }
  }

  /** `remove_edge` on one end only breaks symmetry: after `a.add_edge(b)`
      and `a.remove_edge(edge)`, b still lists a as a neighbour while a no
      longer lists b, and the incidence invariant is gone. */
  lemma RemoveEdgeBreaksSymmetry()
    ensures var g0 := Graph(map[0 := Node("a", Core, None, []), 1 := Node("b", Core, None, [])], []);
      var (g1, e) := AddEdge(g0, 0, 1);
      var o := RemoveEdge(g1, 0, e);
      && o.raised.None?
      && Valid(o.graph)
      && ListedNeighbor(o.graph, 1, 0)
      && !ListedNeighbor(o.graph, 0, 1)
      && !Wf(o.graph)
  {
    var g0 := Graph(map[0 := Node("a", Core, None, []), 1 := Node("b", Core, None, [])], []);
    var (g1, e) := AddEdge(g0, 0, 1);
    var o := RemoveEdge(g1, 0, e);
    assert o.graph.nodes[1].edges == [0];
    assert o.graph.nodes[0].edges == [];
    assert Touches(o.graph.edges[o.graph.nodes[1].edges[0]], 0);
    assert multiset(o.graph.nodes[0].edges)[0] != Multiplicity(o.graph.edges[0], 0);
  }

  /** A successful `remove_edge` only shortens one list, so every reference
      still points at an existing object. */
  lemma RemoveEdgeKeepsValid<N>(g: Graph<N>, n: N, e: EdgeRef)
    requires Valid(g) && n in g.nodes && e in g.nodes[n].edges
    ensures var o := RemoveEdge(g, n, e);
      o.raised.None? && Valid(o.graph)
  {
    var o := RemoveEdge(g, n, e);
    forall m, j | m in o.graph.nodes && 0 <= j < |o.graph.nodes[m].edges|
      ensures o.graph.nodes[m].edges[j] < |o.graph.edges|
    {
      var x := o.graph.nodes[m].edges[j];
      if m == n {
        assert x in multiset(o.graph.nodes[n].edges);
        assert x in multiset(g.nodes[n].edges);
      }
      assert x in g.nodes[m].edges;
    }
  }

  /** `Edge.remove` on an edge already removed raises AttributeError at once
      (its left end is `None`) and changes nothing. */
  lemma EdgeRemoveTwiceRaises<N>(g: Graph<N>, e: EdgeRef)
    requires Wf(g) && e < |g.edges|
    requires g.edges[e].lnode.Some? && g.edges[e].rnode.Some?
    ensures var o := EdgeRemove(g, e);
      && Valid(o.graph) && e < |o.graph.edges|
      && EdgeRemove(o.graph, e) == Outcome(o.graph, Some(AttributeError))
  {
    EdgeRemoveDetaches(g, e);
  }

  /** After `b.remove_edge(edge)` on an edge (a, b), `edge.remove()` takes the
      edge out of a's list and then raises ValueError on b's list: a's list
      stays shortened and both ends stay set. */
  lemma EdgeRemoveAfterOneSided<N>(g: Graph<N>, e: EdgeRef, a: N, b: N)
    requires Wf(g) && e < |g.edges| && g.edges[e] == Edge(Some(a), Some(b)) && a != b
    ensures b in g.nodes
    ensures var o := RemoveEdge(g, b, e);
      && o.raised.None? && Valid(o.graph) && e < |o.graph.edges|
      && var o2 := EdgeRemove(o.graph, e);
      && o2.raised == Some(ValueError)
      && o2.graph.edges == g.edges
      && o2.graph.nodes.Keys == g.nodes.Keys
      && multiset(o2.graph.nodes[a].edges) == multiset(g.nodes[a].edges) - multiset{e}
      && e !in o2.graph.nodes[b].edges
  {
    assert multiset(g.nodes[b].edges)[e] == Multiplicity(g.edges[e], b) == 1;
    assert multiset(g.nodes[a].edges)[e] == Multiplicity(g.edges[e], a) == 1;
    RemoveEdgeKeepsValid(g, b, e);
    var o := RemoveEdge(g, b, e);
    assert multiset(o.graph.nodes[b].edges)[e] == 0;
    assert o.graph.nodes[a] == g.nodes[a];
    var o1 := RemoveEdge(o.graph, a, e);
    assert o1.raised.None?;
    assert o1.graph.nodes[b] == o.graph.nodes[b];
  }

  // ---------------------------------------------------------------- folds of add_edge

  function EdgesOf<N(==)>(pairs: seq<(N, N)>): (es: seq<Edge<N>>)
    ensures |es| == |pairs|
    ensures forall i :: 0 <= i < |pairs| ==> es[i] == Edge(Some(pairs[i].0), Some(pairs[i].1))
  {
    if |pairs| == 0 then [] else [Edge(Some(pairs[0].0), Some(pairs[0].1))] + EdgesOf(pairs[1..])
  }

  /** `a.add_edge(b)` for every pair (a, b), in order. */
  function AddEdges<N(==)>(g: Graph<N>, pairs: seq<(N, N)>): (r: Graph<N>)
    requires forall i :: 0 <= i < |pairs| ==> pairs[i].0 in g.nodes && pairs[i].1 in g.nodes
    ensures r.nodes.Keys == g.nodes.Keys
    decreases |pairs|
  {
    if |pairs| == 0 then g else AddEdges(AddEdge(g, pairs[0].0, pairs[0].1).0, pairs[1..])
  }

  /** The positions (offset by off) of the pairs touching n, twice for a loop. */
  function Incident<N(==)>(pairs: seq<(N, N)>, n: N, off: nat): seq<EdgeRef>
  {
    if |pairs| == 0 then []
    else (if pairs[0].0 == n then [off] else []) + (if pairs[0].1 == n then [off] else [])
         + Incident(pairs[1..], n, off + 1)
  }

  function LeftIs<N(==)>(n: N): ((N, N)) -> bool
  {
    (p: (N, N)) => p.0 == n
  }

  function RightIs<N(==)>(n: N): ((N, N)) -> bool
  {
    (p: (N, N)) => p.1 == n
  }

  /** Folding `add_edge` over pairs appends the pair edges in order. */
  lemma {:induction false} AddEdgesEdges<N>(g: Graph<N>, pairs: seq<(N, N)>)
    requires forall i :: 0 <= i < |pairs| ==> pairs[i].0 in g.nodes && pairs[i].1 in g.nodes
    ensures AddEdges(g, pairs).edges == g.edges + EdgesOf(pairs)
    decreases |pairs|
  {
    if |pairs| > 0 {
      var g1 := AddEdge(g, pairs[0].0, pairs[0].1).0;
      AddEdgesEdges(g1, pairs[1..]);
      EdgesOfCons(g.edges, pairs);
    }
  }

  lemma EdgesOfCons<N>(edges: seq<Edge<N>>, pairs: seq<(N, N)>)
    requires |pairs| > 0
    ensures (edges + [Edge(Some(pairs[0].0), Some(pairs[0].1))]) + EdgesOf(pairs[1..]) == edges + EdgesOf(pairs)
  {
  }

  /** Folding `add_edge` over pairs gives each node exactly the edges
      touching it, in creation order, and changes nothing else about it. */
  lemma {:induction false} AddEdgesNode<N>(g: Graph<N>, pairs: seq<(N, N)>, n: N)
    requires forall i :: 0 <= i < |pairs| ==> pairs[i].0 in g.nodes && pairs[i].1 in g.nodes
    requires n in g.nodes
    ensures AddEdges(g, pairs).nodes[n] == g.nodes[n].(edges := g.nodes[n].edges + Incident(pairs, n, |g.edges|))
    decreases |pairs|
  {
    if |pairs| > 0 {
      var g1 := AddEdge(g, pairs[0].0, pairs[0].1).0;
      AddEdgesNode(g1, pairs[1..], n);
      IncidentCons(g.nodes[n].edges, pairs, n, |g.edges|);
    } else {
      assert g.nodes[n].edges + Incident(pairs, n, |g.edges|) == g.nodes[n].edges;
    }
  }

  lemma IncidentCons<N>(before: seq<EdgeRef>, pairs: seq<(N, N)>, n: N, e: EdgeRef)
    requires |pairs| > 0
    ensures before + (if pairs[0].0 == n then [e] else []) + (if pairs[0].1 == n then [e] else [])
              + Incident(pairs[1..], n, e + 1)
            == before + Incident(pairs, n, e)
  {
    var extra: seq<EdgeRef> := (if pairs[0].0 == n then [e] else []) + (if pairs[0].1 == n then [e] else []);
    assert Incident(pairs, n, e) == extra + Incident(pairs[1..], n, e + 1);
  }

  lemma {:induction false} AddEdgesPreservesWf<N>(g: Graph<N>, pairs: seq<(N, N)>)
    requires Wf(g)
    requires forall i :: 0 <= i < |pairs| ==> pairs[i].0 in g.nodes && pairs[i].1 in g.nodes
    ensures Wf(AddEdges(g, pairs))
    decreases |pairs|
  {
    if |pairs| > 0 {
      AddEdgePreservesWf(g, pairs[0].0, pairs[0].1);
      AddEdgesPreservesWf(AddEdge(g, pairs[0].0, pairs[0].1).0, pairs[1..]);
    }
  }

  lemma {:induction false} IncidentMem<N>(pairs: seq<(N, N)>, n: N, off: nat, x: EdgeRef)
    ensures x in Incident(pairs, n, off) <==>
              off <= x < off + |pairs| && (pairs[x - off].0 == n || pairs[x - off].1 == n)
    decreases |pairs|
  {
    if |pairs| > 0 {
      IncidentMem(pairs[1..], n, off + 1, x);
    }
  }

  lemma {:induction false} IncidentLen<N>(pairs: seq<(N, N)>, n: N, off: nat)
    ensures |Incident(pairs, n, off)| == Count(pairs, LeftIs(n)) + Count(pairs, RightIs(n))
    decreases |pairs|
  {
    if |pairs| > 0 {
      IncidentLen(pairs[1..], n, off + 1);
      assert pairs == [pairs[0]] + pairs[1..];
      CountAppend([pairs[0]], pairs[1..], LeftIs(n));
      CountAppend([pairs[0]], pairs[1..], RightIs(n));
      assert Count([pairs[0]], LeftIs(n)) == (if pairs[0].0 == n then 1 else 0);
      assert Count([pairs[0]], RightIs(n)) == (if pairs[0].1 == n then 1 else 0);
    }
  }

  /** Over the edges of a list of calls, two distinct nodes are joined
      exactly when one call named both, in either order. */
  lemma LinkedEdgesOf<N>(edges: seq<Edge<N>>, pairs: seq<(N, N)>, a: N, b: N)
    requires edges == EdgesOf(pairs) && a != b
    ensures (exists i :: 0 <= i < |edges| && Touches(edges[i], a) && Touches(edges[i], b))
              <==> (a, b) in pairs || (b, a) in pairs
  {
    if exists i :: 0 <= i < |edges| && Touches(edges[i], a) && Touches(edges[i], b) {
      var i :| 0 <= i < |edges| && Touches(edges[i], a) && Touches(edges[i], b);
      assert pairs[i] == (a, b) || pairs[i] == (b, a);
    }
    if (a, b) in pairs || (b, a) in pairs {
      var i :| 0 <= i < |pairs| && (pairs[i] == (a, b) || pairs[i] == (b, a));
      assert Touches(edges[i], a) && Touches(edges[i], b);
    }
  }
}
