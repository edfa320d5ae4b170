/** `Fattree.generate(k)` of lab2/topo.py.

    Nodes are named by `NodeKey`: core switch (i, j) of the half x half core
    matrix, aggregation and edge switch i of pod p, and host x below edge
    switch e of pod p. The generator's lists (`switches`, `servers`, the
    creation order of `add_edge` calls) are nested `ForRange`s that follow
    the Python loops one for one; the graph is the fold of `AddEdge` over
    the `add_edge` calls, starting from the created nodes without edges. */
module FatTree {
  import opened Wrappers
  import opened Seqs
  import opened Text
  import opened Topo

  datatype NodeKey =
    | CoreKey(i: nat, j: nat)
    | AggKey(pod: nat, i: nat)
    | EdgeKey(pod: nat, i: nat)
    | HostKey(pod: nat, edge: nat, idx: nat)

  type Pair = (NodeKey, NodeKey)

  /** `half = k // 2` as a loop bound: `range(half)` is empty for k < 2. */
  function Half(k: int): nat
  {
    if k < 0 then 0 else k / 2
  }

  /** `pods = k` as a loop bound. */
  function Pods(k: int): nat
  {
    if k < 0 then 0 else k
  }

  // ---------------------------------------------------------------- nodes

  function Kind(n: NodeKey): NodeType
  {
    match n
    case CoreKey(_, _) => Core
    case AggKey(_, _) => Agg
    case EdgeKey(_, _) => EdgeSwitch
    case HostKey(_, _, _) => Host
  }

  /** The f-string names `c{i}{j}`, `a{p}{i}`, `e{p}{i}` and `h{p}{e}{x}`. */
  function Id(n: NodeKey): string
  {
    match n
    case CoreKey(i, j) => "c" + Dec(i) + Dec(j)
    case AggKey(p, i) => "a" + Dec(p) + Dec(i)
    case EdgeKey(p, i) => "e" + Dec(p) + Dec(i)
    case HostKey(p, e, x) => "h" + Dec(p) + Dec(e) + Dec(x)
  }

  /** The `Node` object as created: hosts carry their `pod`, `edge`, `idx`. */
  function NodeOf(n: NodeKey): Node
  {
    var coords := if n.HostKey? then Some(HostCoords(n.pod, n.edge, n.idx)) else None;
    Node(Id(n), Kind(n), coords, [])
  }

  function CoreCell(i: nat): nat -> seq<NodeKey>
  {
    (j: nat) => [CoreKey(i, j)]
  }

  function CoreRow(h: nat): nat -> seq<NodeKey>
  {
    (i: nat) => ForRange(h, CoreCell(i))
  }

  /** `core_switches`: row by row through the half x half matrix. */
  function CoreSwitches(h: nat): seq<NodeKey>
  {
    ForRange(h, CoreRow(h))
  }

  /** One round of the loop at lab2/topo.py:87-92: `[a, e]` of index i. */
  function PodCell(p: nat): nat -> seq<NodeKey>
  {
    (i: nat) => [AggKey(p, i), EdgeKey(p, i)]
  }

  function PodSwitches(h: nat): nat -> seq<NodeKey>
  {
    (p: nat) => ForRange(h, PodCell(p))
  }

  /** `self.switches`: the cores, then for each pod its agg/edge pairs. */
  function Switches(k: int): seq<NodeKey>
  {
    CoreSwitches(Half(k)) + ForRange(Pods(k), PodSwitches(Half(k)))
  }

  function HostCell(p: nat, e: nat): nat -> seq<NodeKey>
  {
    (x: nat) => [HostKey(p, e, x)]
  }

  function HostRow(h: nat, p: nat): nat -> seq<NodeKey>
  {
    (e: nat) => ForRange(h, HostCell(p, e))
  }

  function PodHosts(h: nat): nat -> seq<NodeKey>
  {
    (p: nat) => ForRange(h, HostRow(h, p))
  }

  /** `self.servers`: pod by pod, edge switch by edge switch. */
  function Servers(k: int): seq<NodeKey>
  {
    ForRange(Pods(k), PodHosts(Half(k)))
  }

  // ---------------------------------------------------------------- add_edge calls

  /** `core_switches[idx]`: the core at flat position idx of the matrix. */
  function CoreAt(h: nat, idx: nat): NodeKey
    requires h > 0
  {
    CoreKey(idx / h, idx % h)
  }

  function EdgeAggCell(p: nat, e: nat): nat -> seq<Pair>
  {
    (a: nat) => [(EdgeKey(p, e), AggKey(p, a))]
  }

  function EdgeAggRow(h: nat, p: nat): nat -> seq<Pair>
  {
    (e: nat) => ForRange(h, EdgeAggCell(p, e))
  }

  /** Step 2a: every edge switch of the pod to every agg switch of the pod. */
  function EdgeAggPairs(h: nat, p: nat): seq<Pair>
  {
    ForRange(h, EdgeAggRow(h, p))
  }

  function HostPairCell(p: nat, e: nat): nat -> seq<Pair>
  {
    (x: nat) => [(EdgeKey(p, e), HostKey(p, e, x))]
  }

  function HostPairRow(h: nat, p: nat): nat -> seq<Pair>
  {
    (e: nat) => ForRange(h, HostPairCell(p, e))
  }

  /** Step 2b: every edge switch to its half hosts. */
  function HostPairs(h: nat, p: nat): seq<Pair>
  {
    ForRange(h, HostPairRow(h, p))
  }

  function CorePairCell(h: nat, p: nat, a: nat): nat -> seq<Pair>
    requires h > 0
  {
    (c: nat) => [(AggKey(p, a), CoreAt(h, a * h + c))]
  }

  function CorePairRow(h: nat, p: nat): nat -> seq<Pair>
    requires h > 0
  {
    (a: nat) => ForRange(h, CorePairCell(h, p, a))
  }

  /** Step 2c: agg switch a to the cores at flat indices a*half + c. */
  function CorePairs(h: nat, p: nat): seq<Pair>
  {
    if h == 0 then [] else ForRange(h, CorePairRow(h, p))
  }

  function PodPairs(h: nat): nat -> seq<Pair>
  {
    (p: nat) => EdgeAggPairs(h, p) + HostPairs(h, p) + CorePairs(h, p)
  }

  /** Every `add_edge` call of the generator as (self, node), in call order. */
  function Pairs(k: int): seq<Pair>
  {
    ForRange(Pods(k), PodPairs(Half(k)))
  }

  // ---------------------------------------------------------------- the reference

  /** The fat-tree wiring, stated directly: the ordered pair (a, b) is one
      `a.add_edge(b)` call of the generator. */
  predicate IsLink(k: int, a: NodeKey, b: NodeKey)
  {
    var h, pods := Half(k), Pods(k);
    match (a, b)
    case (EdgeKey(p, e), AggKey(q, j)) => p == q && p < pods && e < h && j < h
    case (EdgeKey(p, e), HostKey(q, f, _)) => p == q && e == f && p < pods && e < h && b.idx < h
    case (AggKey(p, i), CoreKey(ci, cj)) => p < pods && i < h && ci == i && cj < h
    case _ => false
  }

  /** The node keys of the generated tree, stated directly. */
  predicate IsNode(k: int, n: NodeKey)
  {
    var h, pods := Half(k), Pods(k);
    match n
    case CoreKey(i, j) => i < h && j < h
    case AggKey(p, i) => p < pods && i < h
    case EdgeKey(p, i) => p < pods && i < h
    case HostKey(p, e, x) => p < pods && e < h && x < h
  }

  // ---------------------------------------------------------------- names

  /** The letter an id starts with tells the kind of node. */
  function KindLetter(t: NodeType): char
  {
    match t
    case Core => 'c'
    case Agg => 'a'
    case EdgeSwitch => 'e'
    case Host => 'h'
  }

  /** What follows the letter: the indices written in decimal. */
  function IdDigits(n: NodeKey): string
  {
    match n
    case CoreKey(i, j) => Dec(i) + Dec(j)
    case AggKey(p, i) => Dec(p) + Dec(i)
    case EdgeKey(p, i) => Dec(p) + Dec(i)
    case HostKey(p, e, x) => Dec(p) + (Dec(e) + Dec(x))
  }

  lemma IdShape(n: NodeKey)
    ensures Id(n) == [KindLetter(Kind(n))] + IdDigits(n)
  {
  }

  /** While half <= 10 every index below a pod number is a single digit,
      so the ids of the nodes of the tree are pairwise distinct. */
  lemma IdsUnique(k: int, a: NodeKey, b: NodeKey)
    requires Half(k) <= 10
    requires IsNode(k, a) && IsNode(k, b) && Id(a) == Id(b)
    ensures a == b
  {
    IdShape(a);
    IdShape(b);
    assert Id(a)[0] == KindLetter(Kind(a)) && Id(b)[0] == KindLetter(Kind(b));
    assert IdDigits(a) == Id(a)[1..] && IdDigits(b) == Id(b)[1..];
    match a
    case CoreKey(i, j) =>
      DecPrefix(i, b.i, Dec(j), Dec(b.j));
      DecInjective(j, b.j);
    case AggKey(p, i) =>
      DecPrefix(p, b.pod, Dec(i), Dec(b.i));
      DecInjective(i, b.i);
    case EdgeKey(p, i) =>
      DecPrefix(p, b.pod, Dec(i), Dec(b.i));
      DecInjective(i, b.i);
    case HostKey(p, e, x) =>
      DecPrefix(p, b.pod, Dec(e) + Dec(x), Dec(b.edge) + Dec(b.idx));
      DecPrefix(e, b.edge, Dec(x), Dec(b.idx));
      DecInjective(x, b.idx);
  }

  /** From k = 22 on, two-digit switch indices make ids collide: agg 10 of
      pod 1 and agg 0 of pod 11 are both named a110. */
  lemma IdCollision()
    ensures IsNode(22, AggKey(1, 10)) && IsNode(22, AggKey(11, 0))
    ensures Id(AggKey(1, 10)) == Id(AggKey(11, 0)) == "a110"
  {
    assert Dec(10) == "10" && Dec(11) == "11";
  }

  // ---------------------------------------------------------------- membership

  lemma CoreSwitchesMem(h: nat, n: NodeKey)
    ensures n in CoreSwitches(h) <==> n.CoreKey? && n.i < h && n.j < h
  {
    if n in CoreSwitches(h) {
      var i := ForRangePiece(h, CoreRow(h), n);
      var j := ForRangePiece(h, CoreCell(i), n);
    }
    if n.CoreKey? && n.i < h && n.j < h {
      assert n in CoreCell(n.i)(n.j);
      ForRangeMemAt(h, CoreCell(n.i), n.j, n);
      ForRangeMemAt(h, CoreRow(h), n.i, n);
    }
  }

  lemma PodSwitchesMem(h: nat, pods: nat, n: NodeKey)
    ensures n in ForRange(pods, PodSwitches(h)) <==> (n.AggKey? || n.EdgeKey?) && n.pod < pods && n.i < h
  {
    if n in ForRange(pods, PodSwitches(h)) {
      var p := ForRangePiece(pods, PodSwitches(h), n);
      var i := ForRangePiece(h, PodCell(p), n);
    }
    if (n.AggKey? || n.EdgeKey?) && n.pod < pods && n.i < h {
      assert n in PodCell(n.pod)(n.i);
      ForRangeMemAt(h, PodCell(n.pod), n.i, n);
      ForRangeMemAt(pods, PodSwitches(h), n.pod, n);
    }
  }

  /** `self.switches` holds exactly the core, agg and edge switches of the tree. */
  lemma SwitchesMem(k: int, n: NodeKey)
    ensures n in Switches(k) <==> IsNode(k, n) && !n.HostKey?
  {
    CoreSwitchesMem(Half(k), n);
    PodSwitchesMem(Half(k), Pods(k), n);
  }

  /** `self.servers` holds exactly the hosts of the tree. */
  lemma ServersMem(k: int, n: NodeKey)
    ensures n in Servers(k) <==> IsNode(k, n) && n.HostKey?
  {
    var h, pods := Half(k), Pods(k);
    if n in Servers(k) {
      var p := ForRangePiece(pods, PodHosts(h), n);
      var e := ForRangePiece(h, HostRow(h, p), n);
      var x := ForRangePiece(h, HostCell(p, e), n);
    }
    if IsNode(k, n) && n.HostKey? {
      assert n in HostCell(n.pod, n.edge)(n.idx);
      ForRangeMemAt(h, HostCell(n.pod, n.edge), n.idx, n);
      ForRangeMemAt(h, HostRow(h, n.pod), n.edge, n);
      ForRangeMemAt(pods, PodHosts(h), n.pod, n);
    }
  }

  lemma EdgeAggPairsMem(h: nat, p: nat, x: Pair)
    ensures x in EdgeAggPairs(h, p) <==>
              x.0.EdgeKey? && x.1.AggKey? && x.0.pod == p && x.1.pod == p && x.0.i < h && x.1.i < h
  {
    if x in EdgeAggPairs(h, p) {
      var e := ForRangePiece(h, EdgeAggRow(h, p), x);
      var a := ForRangePiece(h, EdgeAggCell(p, e), x);
    }
    if x.0.EdgeKey? && x.1.AggKey? && x.0.pod == p && x.1.pod == p && x.0.i < h && x.1.i < h {
      assert x in EdgeAggCell(p, x.0.i)(x.1.i);
      ForRangeMemAt(h, EdgeAggCell(p, x.0.i), x.1.i, x);
      ForRangeMemAt(h, EdgeAggRow(h, p), x.0.i, x);
    }
  }

  lemma HostPairsMem(h: nat, p: nat, x: Pair)
    ensures x in HostPairs(h, p) <==>
              x.0.EdgeKey? && x.1.HostKey? && x.0.pod == p && x.1.pod == p
              && x.1.edge == x.0.i && x.0.i < h && x.1.idx < h
  {
    if x in HostPairs(h, p) {
      var e := ForRangePiece(h, HostPairRow(h, p), x);
      var y := ForRangePiece(h, HostPairCell(p, e), x);
    }
    if x.0.EdgeKey? && x.1.HostKey? && x.0.pod == p && x.1.pod == p && x.1.edge == x.0.i && x.0.i < h && x.1.idx < h {
      assert x in HostPairCell(p, x.0.i)(x.1.idx);
      ForRangeMemAt(h, HostPairCell(p, x.0.i), x.1.idx, x);
      ForRangeMemAt(h, HostPairRow(h, p), x.0.i, x);
    }
  }

  /** Flat index a*half + c of the core matrix is core (a, c). */
  lemma CoreAtBlock(h: nat, a: nat, c: nat)
    requires c < h
    ensures CoreAt(h, a * h + c) == CoreKey(a, c)
  {
    assert (a * h + c) / h == a && (a * h + c) % h == c by {
      DivModBlock(h, a, c);
    }
  }

  lemma DivModBlock(h: nat, a: nat, c: nat)
    requires c < h
    ensures (a * h + c) / h == a && (a * h + c) % h == c
  {
    var x := a * h + c;
    var q, r := x / h, x % h;
    assert (q - a) * h == c - r;
    MulBounds(q - a, h);
  }

  lemma MulBounds(d: int, h: int)
    requires h > 0
    ensures d >= 1 ==> d * h >= h
    ensures d <= -1 ==> d * h <= -h
  {
  }

  lemma CorePairsMem(h: nat, p: nat, x: Pair)
    ensures x in CorePairs(h, p) <==>
              x.0.AggKey? && x.1.CoreKey? && x.0.pod == p && x.0.i < h && x.1.i == x.0.i && x.1.j < h
  {
    if x in CorePairs(h, p) {
      var a := ForRangePiece(h, CorePairRow(h, p), x);
      var c := ForRangePiece(h, CorePairCell(h, p, a), x);
      CoreAtBlock(h, a, c);
    }
    if x.0.AggKey? && x.1.CoreKey? && x.0.pod == p && x.0.i < h && x.1.i == x.0.i && x.1.j < h {
      CoreAtBlock(h, x.0.i, x.1.j);
      assert x in CorePairCell(h, p, x.0.i)(x.1.j);
      ForRangeMemAt(h, CorePairCell(h, p, x.0.i), x.1.j, x);
      ForRangeMemAt(h, CorePairRow(h, p), x.0.i, x);
    }
  }

  /** The `add_edge` calls of the generator are exactly the fat-tree links. */
  lemma PairsMem(k: int, a: NodeKey, b: NodeKey)
    ensures (a, b) in Pairs(k) <==> IsLink(k, a, b)
  {
    var h, pods := Half(k), Pods(k);
    var x := (a, b);
    if x in Pairs(k) {
      var p := ForRangePiece(pods, PodPairs(h), x);
      EdgeAggPairsMem(h, p, x);
      HostPairsMem(h, p, x);
      CorePairsMem(h, p, x);
    }
    if IsLink(k, a, b) {
      EdgeAggPairsMem(h, a.pod, x);
      HostPairsMem(h, a.pod, x);
      CorePairsMem(h, a.pod, x);
      assert x in PodPairs(h)(a.pod);
      ForRangeMemAt(pods, PodPairs(h), a.pod, x);
    }
  }

  /** Both ends of a link are nodes of the tree, and the calling end is a switch. */
  lemma IsLinkEnds(k: int, a: NodeKey, b: NodeKey)
    requires IsLink(k, a, b)
    ensures IsNode(k, a) && IsNode(k, b) && !a.HostKey? && !a.CoreKey?
  {
  }

  // ---------------------------------------------------------------- the graph

  /** The created `Node` objects before any `add_edge` call. */
  function Isolated(keys: seq<NodeKey>): (g: Graph<NodeKey>)
    ensures Wf(g) && |g.edges| == 0
    ensures forall n :: n in g.nodes <==> n in keys
  {
    Graph(map n | n in keys :: NodeOf(n), [])
  }

  function AllNodes(k: int): seq<NodeKey>
  {
    Switches(k) + Servers(k)
  }

  lemma AllNodesMem(k: int, n: NodeKey)
    ensures n in AllNodes(k) <==> IsNode(k, n)
  {
    SwitchesMem(k, n);
    ServersMem(k, n);
  }

  lemma PairsWithin(k: int)
    ensures forall i :: 0 <= i < |Pairs(k)| ==>
              Pairs(k)[i].0 in Isolated(AllNodes(k)).nodes && Pairs(k)[i].1 in Isolated(AllNodes(k)).nodes
  {
    forall i | 0 <= i < |Pairs(k)|
      ensures Pairs(k)[i].0 in AllNodes(k) && Pairs(k)[i].1 in AllNodes(k)
    {
      var (a, b) := Pairs(k)[i];
      PairsMem(k, a, b);
      IsLinkEnds(k, a, b);
      AllNodesMem(k, a);
      AllNodesMem(k, b);
    }
  }

  /** A `Fattree` object after `generate`. */
  datatype FatTreeTopo = FatTreeTopo(switches: seq<NodeKey>, servers: seq<NodeKey>, graph: Graph<NodeKey>)

  /** `Fattree(k)`: creates all nodes, then wires them by the `add_edge` calls. */
  function Generate(k: int): (ft: FatTreeTopo)
    ensures Wf(ft.graph)
    ensures forall n :: n in ft.graph.nodes <==> IsNode(k, n)
    ensures forall n :: n in ft.switches <==> IsNode(k, n) && !n.HostKey?
    ensures forall n :: n in ft.servers <==> IsNode(k, n) && n.HostKey?
  {
    PairsWithin(k);
    var g := AddEdges(Isolated(AllNodes(k)), Pairs(k));
    AddEdgesPreservesWf(Isolated(AllNodes(k)), Pairs(k));
    assert forall n :: n in g.nodes <==> IsNode(k, n) by {
      forall n ensures n in g.nodes <==> IsNode(k, n) {
        AllNodesMem(k, n);
      }
    }
    assert forall n :: n in Switches(k) <==> IsNode(k, n) && !n.HostKey? by {
      forall n ensures n in Switches(k) <==> IsNode(k, n) && !n.HostKey? {
        SwitchesMem(k, n);
      }
    }
    assert forall n :: n in Servers(k) <==> IsNode(k, n) && n.HostKey? by {
      forall n ensures n in Servers(k) <==> IsNode(k, n) && n.HostKey? {
        ServersMem(k, n);
      }
    }
    FatTreeTopo(Switches(k), Servers(k), g)
  }

  /** Each node is the created `Node` object with the edges of the calls
      that name it, in call order. */
  lemma GenerateNode(k: int, n: NodeKey)
    requires IsNode(k, n)
    ensures Generate(k).graph.nodes[n] == NodeOf(n).(edges := Incident(Pairs(k), n, 0))
  {
    var g0 := Isolated(AllNodes(k));
    GenerateGraph(k);
    IsolatedNode(k, n);
    AddEdgesNode(g0, Pairs(k), n);
    assert NodeOf(n).edges + Incident(Pairs(k), n, 0) == Incident(Pairs(k), n, 0);
  }

  lemma GenerateGraph(k: int)
    ensures forall i :: 0 <= i < |Pairs(k)| ==>
              Pairs(k)[i].0 in Isolated(AllNodes(k)).nodes && Pairs(k)[i].1 in Isolated(AllNodes(k)).nodes
    ensures Generate(k).graph == AddEdges(Isolated(AllNodes(k)), Pairs(k))
  {
    PairsWithin(k);
  }

  lemma IsolatedNode(k: int, n: NodeKey)
    requires IsNode(k, n)
    ensures n in Isolated(AllNodes(k)).nodes && Isolated(AllNodes(k)).nodes[n] == NodeOf(n)
    ensures |Isolated(AllNodes(k)).edges| == 0
  {
    AllNodesMem(k, n);
  }

  lemma GenerateEdges(k: int)
    ensures Generate(k).graph.edges == EdgesOf(Pairs(k))
  {
    PairsWithin(k);
    AddEdgesEdges(Isolated(AllNodes(k)), Pairs(k));
    assert [] + EdgesOf(Pairs(k)) == EdgesOf(Pairs(k));
  }

  // ---------------------------------------------------------------- adjacency

  /** Two distinct nodes of the generated tree are neighbours exactly when
      the generator called `add_edge` on them, in either direction. */
  lemma GenerateNeighbors(k: int, a: NodeKey, b: NodeKey)
    requires IsNode(k, a) && a != b
    ensures ListedNeighbor(Generate(k).graph, a, b) <==> IsLink(k, a, b) || IsLink(k, b, a)
  {
    var g := Generate(k).graph;
    GenerateEdges(k);
    ListedNeighborIffLinked(g, a, b);
    LinkedEdgesOf(g.edges, Pairs(k), a, b);
    PairsMem(k, a, b);
    PairsMem(k, b, a);
  }

  /** An edge switch neighbours every agg switch of its own pod and no agg
      switch of another pod. */
  lemma EdgeAggNeighbors(k: int, p: nat, i: nat, q: nat, j: nat)
    requires IsNode(k, EdgeKey(p, i)) && IsNode(k, AggKey(q, j))
    ensures ListedNeighbor(Generate(k).graph, EdgeKey(p, i), AggKey(q, j)) <==> p == q
  {
    GenerateNeighbors(k, EdgeKey(p, i), AggKey(q, j));
    assert !IsLink(k, AggKey(q, j), EdgeKey(p, i));
  }

  /** The hosts below edge switch i of pod p are h{p}{i}{x} for x < half. */
  lemma EdgeHostNeighbors(k: int, p: nat, i: nat, n: NodeKey)
    requires IsNode(k, EdgeKey(p, i)) && n.HostKey?
    ensures ListedNeighbor(Generate(k).graph, EdgeKey(p, i), n) <==> n.pod == p && n.edge == i && n.idx < Half(k)
  {
    GenerateNeighbors(k, EdgeKey(p, i), n);
    assert !IsLink(k, n, EdgeKey(p, i));
    assert IsLink(k, EdgeKey(p, i), n) <==> n.pod == p && n.edge == i && n.idx < Half(k);
  }

  /** A host's only switch neighbour is the edge switch named by its coordinates. */
  lemma HostNeighbors(k: int, hst: NodeKey, n: NodeKey)
    requires IsNode(k, hst) && hst.HostKey? && n != hst
    ensures ListedNeighbor(Generate(k).graph, hst, n) <==> n == EdgeKey(hst.pod, hst.edge)
  {
    GenerateNeighbors(k, hst, n);
    HostLink(k, hst, n);
  }

  lemma HostLink(k: int, hst: NodeKey, n: NodeKey)
    requires IsNode(k, hst) && hst.HostKey?
    ensures IsLink(k, hst, n) || IsLink(k, n, hst) <==> n == EdgeKey(hst.pod, hst.edge)
  {
  }

  /** Each core switch has exactly one agg neighbour in every pod: agg i
      of that pod for core (i, j). */
  lemma CoreAggNeighbors(k: int, i: nat, j: nat, n: NodeKey)
    requires IsNode(k, CoreKey(i, j)) && n.AggKey? && n.pod < Pods(k)
    ensures ListedNeighbor(Generate(k).graph, CoreKey(i, j), n) <==> n == AggKey(n.pod, i)
  {
    GenerateNeighbors(k, CoreKey(i, j), n);
    CoreAggLink(k, i, j, n);
  }

  lemma CoreAggLink(k: int, i: nat, j: nat, n: NodeKey)
    requires IsNode(k, CoreKey(i, j)) && n.AggKey? && n.pod < Pods(k)
    ensures IsLink(k, CoreKey(i, j), n) || IsLink(k, n, CoreKey(i, j)) <==> n == AggKey(n.pod, i)
  {
  }

  /** Position idx of a h x h matrix sits in row idx / h, which is row i
      exactly when idx lies in [i*h, i*h + h). */
  lemma BlockIndex(h: nat, i: nat, idx: nat)
    requires idx < h * h
    ensures h > 0 && idx / h < h && idx % h < h && idx == (idx / h) * h + idx % h
    ensures idx / h == i <==> i * h <= idx < i * h + h
  {
    var q, c := idx / h, idx % h;
    assert idx == q * h + c;
    MulBounds(q - i, h);
    assert (q - i) * h == idx - i * h - c;
    assert q < h by {
      MulBounds(q - h, h);
      assert (q - h) * h == idx - h * h - c;
    }
  }

  lemma CoreSwitchesIndex(h: nat, i: nat, j: nat)
    requires i < h && j < h
    ensures i * h + j < |CoreSwitches(h)| && CoreSwitches(h)[i * h + j] == CoreKey(i, j)
  {
    forall r | 0 <= r < h
      ensures |CoreRow(h)(r)| == h
    {
      ForRangeLen(h, CoreCell(r), 1);
    }
    ForRangeIndex(h, CoreRow(h), h, i, j);
    ForRangeIndex(h, CoreCell(i), 1, j, 0);
  }

  /** Agg switch i of any pod neighbours exactly the cores at flat positions
      i*half up to i*half + half - 1 of `core_switches`. */
  lemma AggCoreBlock(k: int, p: nat, i: nat, idx: nat)
    requires IsNode(k, AggKey(p, i)) && idx < Half(k) * Half(k)
    ensures |CoreSwitches(Half(k))| == Half(k) * Half(k)
    ensures ListedNeighbor(Generate(k).graph, AggKey(p, i), CoreSwitches(Half(k))[idx])
            <==> i * Half(k) <= idx < i * Half(k) + Half(k)
  {
    var h := Half(k);
    CoreSwitchAt(h, idx);
    BlockIndex(h, i, idx);
    GenerateNeighbors(k, AggKey(p, i), CoreKey(idx / h, idx % h));
    AggCoreLink(k, p, i, idx / h, idx % h);
  }

  /** Position idx of `core_switches` holds core (idx / h, idx % h). */
  lemma CoreSwitchAt(h: nat, idx: nat)
    requires idx < h * h
    ensures |CoreSwitches(h)| == h * h && idx % h < h
    ensures CoreSwitches(h)[idx] == CoreKey(idx / h, idx % h)
  {
    CoreSwitchesLen(h);
    BlockIndex(h, 0, idx);
    CoreSwitchesIndex(h, idx / h, idx % h);
  }

  lemma AggCoreLink(k: int, p: nat, i: nat, q: nat, c: nat)
    requires IsNode(k, AggKey(p, i)) && c < Half(k)
    ensures IsLink(k, AggKey(p, i), CoreKey(q, c)) || IsLink(k, CoreKey(q, c), AggKey(p, i)) <==> q == i
  {
  }

  lemma CoreSwitchesLen(h: nat)
    ensures |CoreSwitches(h)| == h * h
  {
    forall r | 0 <= r < h
      ensures |CoreRow(h)(r)| == h
    {
      ForRangeLen(h, CoreCell(r), 1);
    }
    ForRangeLen(h, CoreRow(h), h);
  }

  // ---------------------------------------------------------------- degrees

  /** The number of edges of each node of `generate(k)`. */
  function Degree(k: int, n: NodeKey): nat
  {
    match n
    case CoreKey(_, _) => Pods(k)
    case AggKey(_, _) => 2 * Half(k)
    case EdgeKey(_, _) => 2 * Half(k)
    case HostKey(_, _, _) => 1
  }

  lemma LeftConst(s: seq<Pair>, m: NodeKey, n: NodeKey)
    requires forall x :: x in s ==> x.0 == m
    ensures Count(s, LeftIs(n)) == if n == m then |s| else 0
  {
    if n == m {
      CountMemAll(s, LeftIs(n));
    } else {
      CountMemNone(s, LeftIs(n));
    }
  }

  lemma PodCountSplit(h: nat, q: nat, P: Pair -> bool)
    ensures Count(PodPairs(h)(q), P)
            == Count(EdgeAggPairs(h, q), P) + Count(HostPairs(h, q), P) + Count(CorePairs(h, q), P)
  {
    CountAppend(EdgeAggPairs(h, q), HostPairs(h, q), P);
    CountAppend(EdgeAggPairs(h, q) + HostPairs(h, q), CorePairs(h, q), P);
  }

  /** A count over all calls that no call contributes to is zero. */
  lemma PairsCountZero(k: int, P: Pair -> bool)
    requires forall a, b :: IsLink(k, a, b) ==> !P((a, b))
    ensures Count(Pairs(k), P) == 0
  {
    forall x | x in Pairs(k)
      ensures !P(x)
    {
      PairsMem(k, x.0, x.1);
    }
    CountMemNone(Pairs(k), P);
  }

  lemma EdgeAggRowLeft(h: nat, q: nat, e: nat, n: NodeKey)
    ensures Count(EdgeAggRow(h, q)(e), LeftIs(n)) == if n == EdgeKey(q, e) then h else 0
  {
    forall x | x in EdgeAggRow(h, q)(e)
      ensures x.0 == EdgeKey(q, e)
    {
      var a := ForRangePiece(h, EdgeAggCell(q, e), x);
    }
    ForRangeLen(h, EdgeAggCell(q, e), 1);
    LeftConst(EdgeAggRow(h, q)(e), EdgeKey(q, e), n);
  }

  lemma HostRowLeft(h: nat, q: nat, e: nat, n: NodeKey)
    ensures Count(HostPairRow(h, q)(e), LeftIs(n)) == if n == EdgeKey(q, e) then h else 0
  {
    forall x | x in HostPairRow(h, q)(e)
      ensures x.0 == EdgeKey(q, e)
    {
      var a := ForRangePiece(h, HostPairCell(q, e), x);
    }
    ForRangeLen(h, HostPairCell(q, e), 1);
    LeftConst(HostPairRow(h, q)(e), EdgeKey(q, e), n);
  }

  lemma CoreRowLeft(h: nat, q: nat, a: nat, n: NodeKey)
    requires h > 0
    ensures Count(CorePairRow(h, q)(a), LeftIs(n)) == if n == AggKey(q, a) then h else 0
  {
    forall x | x in CorePairRow(h, q)(a)
      ensures x.0 == AggKey(q, a)
    {
      var c := ForRangePiece(h, CorePairCell(h, q, a), x);
    }
    ForRangeLen(h, CorePairCell(h, q, a), 1);
    LeftConst(CorePairRow(h, q)(a), AggKey(q, a), n);
  }

  /** Edge switch (p, i) makes half calls to aggs and half calls to hosts. */
  lemma EdgeSwitchCalls(h: nat, q: nat, p: nat, i: nat)
    requires i < h
    ensures Count(PodPairs(h)(q), LeftIs(EdgeKey(p, i))) == if q == p then 2 * h else 0
  {
    var P := LeftIs(EdgeKey(p, i));
    PodCountSplit(h, q, P);
    forall e | 0 <= e < h
      ensures Count(EdgeAggRow(h, q)(e), P) == if q == p && e == i then h else 0
      ensures Count(HostPairRow(h, q)(e), P) == if q == p && e == i then h else 0
    {
      EdgeAggRowLeft(h, q, e, EdgeKey(p, i));
      HostRowLeft(h, q, e, EdgeKey(p, i));
    }
    if q == p {
      CountForRangeSingle(h, EdgeAggRow(h, q), P, i, h);
      CountForRangeSingle(h, HostPairRow(h, q), P, i, h);
    } else {
      CountForRangeConst(h, EdgeAggRow(h, q), P, 0);
      CountForRangeConst(h, HostPairRow(h, q), P, 0);
    }
    EdgeNotCalledAbove(h, q, p, i);
  }

  lemma EdgeNotCalledAbove(h: nat, q: nat, p: nat, i: nat)
    ensures Count(CorePairs(h, q), LeftIs(EdgeKey(p, i))) == 0
  {
    var P := LeftIs(EdgeKey(p, i));
    forall x | x in CorePairs(h, q)
      ensures !P(x)
    {
      CorePairsMem(h, q, x);
    }
    CountMemNone(CorePairs(h, q), P);
  }

  /** Agg switch (p, i) makes half calls to cores. */
  lemma AggSwitchCalls(h: nat, q: nat, p: nat, i: nat)
    requires i < h
    ensures Count(PodPairs(h)(q), LeftIs(AggKey(p, i))) == if q == p then h else 0
  {
    var P := LeftIs(AggKey(p, i));
    PodCountSplit(h, q, P);
    forall x | x in EdgeAggPairs(h, q) + HostPairs(h, q)
      ensures !P(x)
    {
      EdgeAggPairsMem(h, q, x);
      HostPairsMem(h, q, x);
    }
    CountMemNone(EdgeAggPairs(h, q) + HostPairs(h, q), P);
    CountAppend(EdgeAggPairs(h, q), HostPairs(h, q), P);
    forall a | 0 <= a < h
      ensures Count(CorePairRow(h, q)(a), P) == if q == p && a == i then h else 0
    {
      CoreRowLeft(h, q, a, AggKey(p, i));
    }
    if q == p {
      CountForRangeSingle(h, CorePairRow(h, q), P, i, h);
    } else {
      CountForRangeConst(h, CorePairRow(h, q), P, 0);
    }
  }

  lemma EdgeAggRowRight(h: nat, q: nat, e: nat, p: nat, i: nat)
    requires i < h
    ensures Count(EdgeAggRow(h, q)(e), RightIs(AggKey(p, i))) == if q == p then 1 else 0
  {
    var P := RightIs(AggKey(p, i));
    forall a | 0 <= a < h
      ensures Count(EdgeAggCell(q, e)(a), P) == if q == p && a == i then 1 else 0
    {
      CountSingleton((EdgeKey(q, e), AggKey(q, a)), P);
    }
    if q == p {
      CountForRangeSingle(h, EdgeAggCell(q, e), P, i, 1);
    } else {
      CountForRangeConst(h, EdgeAggCell(q, e), P, 0);
    }
  }

  /** Agg switch (p, i) is called by each of the half edge switches of pod p. */
  lemma AggSwitchCalled(h: nat, q: nat, p: nat, i: nat)
    requires i < h
    ensures Count(PodPairs(h)(q), RightIs(AggKey(p, i))) == if q == p then h else 0
  {
    var P := RightIs(AggKey(p, i));
    PodCountSplit(h, q, P);
    forall e | 0 <= e < h
      ensures Count(EdgeAggRow(h, q)(e), P) == if q == p then 1 else 0
    {
      EdgeAggRowRight(h, q, e, p, i);
    }
    CountForRangeConst(h, EdgeAggRow(h, q), P, if q == p then 1 else 0);
    forall x | x in HostPairs(h, q) + CorePairs(h, q)
      ensures !P(x)
    {
      HostPairsMem(h, q, x);
      CorePairsMem(h, q, x);
    }
    CountMemNone(HostPairs(h, q) + CorePairs(h, q), P);
    CountAppend(HostPairs(h, q), CorePairs(h, q), P);
  }

  /** Core (i, j) is called once in every pod, by agg switch i. */
  lemma CoreSwitchCalled(h: nat, q: nat, i: nat, j: nat)
    requires i < h && j < h
    ensures Count(PodPairs(h)(q), RightIs(CoreKey(i, j))) == 1
  {
    var P := RightIs(CoreKey(i, j));
    PodCountSplit(h, q, P);
    forall a | 0 <= a < h
      ensures Count(CorePairRow(h, q)(a), P) == if a == i then 1 else 0
    {
      CoreRowCalls(h, q, a, i, j);
    }
    CountForRangeSingle(h, CorePairRow(h, q), P, i, 1);
    CoreNotCalledBelow(h, q, i, j);
  }

  lemma CoreRowCalls(h: nat, q: nat, a: nat, i: nat, j: nat)
    requires a < h && i < h && j < h
    ensures Count(CorePairRow(h, q)(a), RightIs(CoreKey(i, j))) == if a == i then 1 else 0
  {
    var P := RightIs(CoreKey(i, j));
    forall c | 0 <= c < h
      ensures Count(CorePairCell(h, q, a)(c), P) == if a == i && c == j then 1 else 0
    {
      CoreAtBlock(h, a, c);
      CountSingleton((AggKey(q, a), CoreAt(h, a * h + c)), P);
    }
    if a == i {
      CountForRangeSingle(h, CorePairCell(h, q, a), P, j, 1);
    } else {
      CountForRangeConst(h, CorePairCell(h, q, a), P, 0);
    }
  }

  lemma CoreNotCalledBelow(h: nat, q: nat, i: nat, j: nat)
    ensures Count(EdgeAggPairs(h, q), RightIs(CoreKey(i, j))) == 0
    ensures Count(HostPairs(h, q), RightIs(CoreKey(i, j))) == 0
  {
    var P := RightIs(CoreKey(i, j));
    forall x | x in EdgeAggPairs(h, q) + HostPairs(h, q)
      ensures !P(x)
    {
      EdgeAggPairsMem(h, q, x);
      HostPairsMem(h, q, x);
    }
    CountMemNone(EdgeAggPairs(h, q) + HostPairs(h, q), P);
    CountAppend(EdgeAggPairs(h, q), HostPairs(h, q), P);
  }

  /** Host (p, e, x) is called once, by edge switch (p, e). */
  lemma HostCalled(h: nat, q: nat, p: nat, e: nat, x: nat)
    requires e < h && x < h
    ensures Count(PodPairs(h)(q), RightIs(HostKey(p, e, x))) == if q == p then 1 else 0
  {
    var P := RightIs(HostKey(p, e, x));
    PodCountSplit(h, q, P);
    forall r | 0 <= r < h
      ensures Count(HostPairRow(h, q)(r), P) == if q == p && r == e then 1 else 0
    {
      forall y | 0 <= y < h
        ensures Count(HostPairCell(q, r)(y), P) == if q == p && r == e && y == x then 1 else 0
      {
        CountSingleton((EdgeKey(q, r), HostKey(q, r, y)), P);
      }
      if q == p && r == e {
        CountForRangeSingle(h, HostPairCell(q, r), P, x, 1);
      } else {
        CountForRangeConst(h, HostPairCell(q, r), P, 0);
      }
    }
    if q == p {
      CountForRangeSingle(h, HostPairRow(h, q), P, e, 1);
    } else {
      CountForRangeConst(h, HostPairRow(h, q), P, 0);
    }
    forall y | y in EdgeAggPairs(h, q)
      ensures !P(y)
    {
      EdgeAggPairsMem(h, q, y);
    }
    CountMemNone(EdgeAggPairs(h, q), P);
    forall y | y in CorePairs(h, q)
      ensures !P(y)
    {
      CorePairsMem(h, q, y);
    }
    CountMemNone(CorePairs(h, q), P);
  }

  /** The calls that name node n, as caller (left) plus as callee (right). */
  function Calls(k: int, n: NodeKey): nat
  {
    Count(Pairs(k), LeftIs(n)) + Count(Pairs(k), RightIs(n))
  }

  lemma CoreCalls(k: int, i: nat, j: nat)
    requires IsNode(k, CoreKey(i, j))
    ensures Calls(k, CoreKey(i, j)) == Pods(k)
  {
    var h, pods, R := Half(k), Pods(k), RightIs(CoreKey(i, j));
    PairsCountZero(k, LeftIs(CoreKey(i, j)));
    forall q | 0 <= q < pods
      ensures Count(PodPairs(h)(q), R) == 1
    {
      CoreSwitchCalled(h, q, i, j);
    }
    CountForRangeConst(pods, PodPairs(h), R, 1);
  }

  lemma AggCalls(k: int, p: nat, i: nat)
    requires IsNode(k, AggKey(p, i))
    ensures Calls(k, AggKey(p, i)) == 2 * Half(k)
  {
    var h, pods, L, R := Half(k), Pods(k), LeftIs(AggKey(p, i)), RightIs(AggKey(p, i));
    forall q | 0 <= q < pods
      ensures Count(PodPairs(h)(q), L) == if q == p then h else 0
      ensures Count(PodPairs(h)(q), R) == if q == p then h else 0
    {
      AggSwitchCalls(h, q, p, i);
      AggSwitchCalled(h, q, p, i);
    }
    CountForRangeSingle(pods, PodPairs(h), L, p, h);
    CountForRangeSingle(pods, PodPairs(h), R, p, h);
  }

  lemma EdgeCalls(k: int, p: nat, i: nat)
    requires IsNode(k, EdgeKey(p, i))
    ensures Calls(k, EdgeKey(p, i)) == 2 * Half(k)
  {
    var h, pods, L := Half(k), Pods(k), LeftIs(EdgeKey(p, i));
    forall q | 0 <= q < pods
      ensures Count(PodPairs(h)(q), L) == if q == p then 2 * h else 0
    {
      EdgeSwitchCalls(h, q, p, i);
    }
    CountForRangeSingle(pods, PodPairs(h), L, p, 2 * h);
    PairsCountZero(k, RightIs(EdgeKey(p, i)));
  }

  lemma HostCalls(k: int, p: nat, e: nat, x: nat)
    requires IsNode(k, HostKey(p, e, x))
    ensures Calls(k, HostKey(p, e, x)) == 1
  {
    var h, pods, R := Half(k), Pods(k), RightIs(HostKey(p, e, x));
    PairsCountZero(k, LeftIs(HostKey(p, e, x)));
    forall q | 0 <= q < pods
      ensures Count(PodPairs(h)(q), R) == if q == p then 1 else 0
    {
      HostCalled(h, q, p, e, x);
    }
    CountForRangeSingle(pods, PodPairs(h), R, p, 1);
  }

  /** Every node of `generate(k)` has `Degree(k, n)` edges: a core one per
      pod, an agg or edge switch half down and half up, a host one. */
  lemma GenerateDegree(k: int, n: NodeKey)
    requires IsNode(k, n)
    ensures |Generate(k).graph.nodes[n].edges| == Degree(k, n)
  {
    GenerateNode(k, n);
    IncidentLen(Pairs(k), n, 0);
    match n
    case CoreKey(i, j) => CoreCalls(k, i, j);
    case AggKey(p, i) => AggCalls(k, p, i);
    case EdgeKey(p, i) => EdgeCalls(k, p, i);
    case HostKey(p, e, x) => HostCalls(k, p, e, x);
  }

  /** For an even k >= 2 every switch has exactly k edges. */
  lemma SwitchDegreeIsK(k: int, n: NodeKey)
    requires k >= 2 && k % 2 == 0
    requires IsNode(k, n) && !n.HostKey?
    ensures |Generate(k).graph.nodes[n].edges| == k
  {
    GenerateDegree(k, n);
  }

  // ---------------------------------------------------------------- node counts

  function KindIs(t: NodeType): NodeKey -> bool
  {
    (n: NodeKey) => Kind(n) == t
  }

  lemma PodCellCount(p: nat, i: nat, t: NodeType)
    ensures Count(PodCell(p)(i), KindIs(t)) == if t == Agg || t == EdgeSwitch then 1 else 0
  {
    CountAppend([AggKey(p, i)], [EdgeKey(p, i)], KindIs(t));
    CountSingleton(AggKey(p, i), KindIs(t));
    CountSingleton(EdgeKey(p, i), KindIs(t));
    assert PodCell(p)(i) == [AggKey(p, i)] + [EdgeKey(p, i)];
  }

  lemma PodSwitchesCount(h: nat, pods: nat, t: NodeType)
    ensures Count(ForRange(pods, PodSwitches(h)), KindIs(t)) == if t == Agg || t == EdgeSwitch then pods * h else 0
  {
    var v := if t == Agg || t == EdgeSwitch then 1 else 0;
    forall p | 0 <= p < pods
      ensures Count(PodSwitches(h)(p), KindIs(t)) == v * h
    {
      forall i | 0 <= i < h
        ensures Count(PodCell(p)(i), KindIs(t)) == v
      {
        PodCellCount(p, i, t);
      }
      CountForRangeConst(h, PodCell(p), KindIs(t), v);
    }
    CountForRangeConst(pods, PodSwitches(h), KindIs(t), v * h);
    assert pods * (v * h) == v * (pods * h);
  }

  lemma PodSwitchesLen(h: nat, pods: nat)
    ensures |ForRange(pods, PodSwitches(h))| == 2 * pods * h
  {
    forall p | 0 <= p < pods
      ensures |PodSwitches(h)(p)| == 2 * h
    {
      ForRangeLen(h, PodCell(p), 2);
    }
    ForRangeLen(pods, PodSwitches(h), 2 * h);
    assert pods * (2 * h) == 2 * pods * h;
  }

  lemma CoreSwitchesCount(h: nat, t: NodeType)
    ensures Count(CoreSwitches(h), KindIs(t)) == if t == Core then h * h else 0
  {
    CoreSwitchesLen(h);
    forall n | n in CoreSwitches(h)
      ensures n.CoreKey?
    {
      CoreSwitchesMem(h, n);
    }
    if t == Core {
      CountMemAll(CoreSwitches(h), KindIs(t));
    } else {
      CountMemNone(CoreSwitches(h), KindIs(t));
    }
  }

  lemma ServersLen(h: nat, pods: nat)
    ensures |ForRange(pods, PodHosts(h))| == pods * h * h
  {
    forall p | 0 <= p < pods
      ensures |PodHosts(h)(p)| == h * h
    {
      forall e | 0 <= e < h
        ensures |HostRow(h, p)(e)| == h
      {
        ForRangeLen(h, HostCell(p, e), 1);
      }
      ForRangeLen(h, HostRow(h, p), h);
    }
    ForRangeLen(pods, PodHosts(h), h * h);
  }

  /** `generate(k)` creates half^2 cores, k*half aggs, k*half edge switches
      and k*half^2 hosts, and `switches` holds nothing else. */
  lemma GenerateCounts(k: int)
    ensures var ft, h, pods := Generate(k), Half(k), Pods(k);
      && Count(ft.switches, KindIs(Core)) == h * h
      && Count(ft.switches, KindIs(Agg)) == pods * h
      && Count(ft.switches, KindIs(EdgeSwitch)) == pods * h
      && Count(ft.switches, KindIs(Host)) == 0
      && |ft.switches| == h * h + 2 * pods * h
      && |ft.servers| == pods * h * h
      && Count(ft.servers, KindIs(Host)) == |ft.servers|
  {
    SwitchCounts(k);
    ServerCounts(k);
  }

  lemma SwitchCounts(k: int)
    ensures var h, pods := Half(k), Pods(k);
      && Count(Switches(k), KindIs(Core)) == h * h
      && Count(Switches(k), KindIs(Agg)) == pods * h
      && Count(Switches(k), KindIs(EdgeSwitch)) == pods * h
      && Count(Switches(k), KindIs(Host)) == 0
      && |Switches(k)| == h * h + 2 * pods * h
  {
    var h, pods := Half(k), Pods(k);
    var cores, pod := CoreSwitches(h), ForRange(pods, PodSwitches(h));
    CoreSwitchesLen(h);
    PodSwitchesLen(h, pods);
    CoreSwitchesCount(h, Core);
    CoreSwitchesCount(h, Agg);
    CoreSwitchesCount(h, EdgeSwitch);
    CoreSwitchesCount(h, Host);
    PodSwitchesCount(h, pods, Core);
    PodSwitchesCount(h, pods, Agg);
    PodSwitchesCount(h, pods, EdgeSwitch);
    PodSwitchesCount(h, pods, Host);
    CountAppend(cores, pod, KindIs(Core));
    CountAppend(cores, pod, KindIs(Agg));
    CountAppend(cores, pod, KindIs(EdgeSwitch));
    CountAppend(cores, pod, KindIs(Host));
  }

  lemma ServerCounts(k: int)
    ensures |Servers(k)| == Pods(k) * Half(k) * Half(k)
    ensures Count(Servers(k), KindIs(Host)) == |Servers(k)|
  {
    ServersLen(Half(k), Pods(k));
    forall n | n in Servers(k)
      ensures KindIs(Host)(n)
    {
      ServersMem(k, n);
    }
    CountMemAll(Servers(k), KindIs(Host));
  }

  /** A host of `servers` is a `Host` node with its own coordinates, below
      an edge switch of the tree, with exactly one edge. */
  lemma GenerateHost(k: int, n: NodeKey)
    requires n in Generate(k).servers
    ensures var node := Generate(k).graph.nodes[n];
      && node.kind == Host && node.id == Id(n)
      && node.coords == Some(HostCoords(n.pod, n.edge, n.idx))
      && n.pod < Pods(k) && n.edge < Half(k) && n.idx < Half(k)
      && |node.edges| == 1
  {
    GenerateNode(k, n);
    GenerateDegree(k, n);
  }

  // ---------------------------------------------------------------- no repeats

  /** The last index of a key: j of a core, i of a switch, idx of a host. */
  function Minor(n: NodeKey): nat
  {
    match n
    case CoreKey(_, j) => j
    case AggKey(_, i) => i
    case EdgeKey(_, i) => i
    case HostKey(_, _, x) => x
  }

  function PodOf(n: NodeKey): nat
  {
    if n.CoreKey? then 0 else n.pod
  }

  function LeftPod(): Pair -> nat
  {
    (x: Pair) => PodOf(x.0)
  }

  function LeftMinor(): Pair -> nat
  {
    (x: Pair) => Minor(x.0)
  }

  function RightMinor(): Pair -> nat
  {
    (x: Pair) => Minor(x.1)
  }

  lemma EdgeAggPairsNoDup(h: nat, p: nat)
    ensures NoDup(EdgeAggPairs(h, p))
  {
    forall e | 0 <= e < h
      ensures NoDup(EdgeAggRow(h, p)(e))
    {
      forall a, x | 0 <= a < h && x in EdgeAggCell(p, e)(a)
        ensures RightMinor()(x) == a
      {
      }
      ForRangeNoDup(h, EdgeAggCell(p, e), RightMinor());
    }
    forall e, x | 0 <= e < h && x in EdgeAggRow(h, p)(e)
      ensures LeftMinor()(x) == e
    {
      var a := ForRangePiece(h, EdgeAggCell(p, e), x);
    }
    ForRangeNoDup(h, EdgeAggRow(h, p), LeftMinor());
  }

  lemma HostPairsNoDup(h: nat, p: nat)
    ensures NoDup(HostPairs(h, p))
  {
    forall e | 0 <= e < h
      ensures NoDup(HostPairRow(h, p)(e))
    {
      forall y, x | 0 <= y < h && x in HostPairCell(p, e)(y)
        ensures RightMinor()(x) == y
      {
      }
      ForRangeNoDup(h, HostPairCell(p, e), RightMinor());
    }
    forall e, x | 0 <= e < h && x in HostPairRow(h, p)(e)
      ensures LeftMinor()(x) == e
    {
      var y := ForRangePiece(h, HostPairCell(p, e), x);
    }
    ForRangeNoDup(h, HostPairRow(h, p), LeftMinor());
  }

  lemma CorePairsNoDup(h: nat, p: nat)
    ensures NoDup(CorePairs(h, p))
  {
    if h > 0 {
      forall a | 0 <= a < h
        ensures NoDup(CorePairRow(h, p)(a))
      {
        forall c, x | 0 <= c < h && x in CorePairCell(h, p, a)(c)
          ensures RightMinor()(x) == c
        {
          CoreAtBlock(h, a, c);
        }
        ForRangeNoDup(h, CorePairCell(h, p, a), RightMinor());
      }
      forall a, x | 0 <= a < h && x in CorePairRow(h, p)(a)
        ensures LeftMinor()(x) == a
      {
        var c := ForRangePiece(h, CorePairCell(h, p, a), x);
      }
      ForRangeNoDup(h, CorePairRow(h, p), LeftMinor());
    }
  }

  lemma PodPairsNoDup(h: nat, p: nat)
    ensures NoDup(PodPairs(h)(p))
  {
    EdgeAggPairsNoDup(h, p);
    HostPairsNoDup(h, p);
    CorePairsNoDup(h, p);
    forall x | x in EdgeAggPairs(h, p)
      ensures x !in HostPairs(h, p)
    {
      EdgeAggPairsMem(h, p, x);
      HostPairsMem(h, p, x);
    }
    NoDupAppend(EdgeAggPairs(h, p), HostPairs(h, p));
    forall x | x in EdgeAggPairs(h, p) + HostPairs(h, p)
      ensures x !in CorePairs(h, p)
    {
      EdgeAggPairsMem(h, p, x);
      HostPairsMem(h, p, x);
      CorePairsMem(h, p, x);
    }
    NoDupAppend(EdgeAggPairs(h, p) + HostPairs(h, p), CorePairs(h, p));
  }

  /** The generator never calls `add_edge` twice on the same ordered pair. */
  lemma PairsNoDup(k: int)
    ensures NoDup(Pairs(k))
  {
    var h, pods := Half(k), Pods(k);
    forall p | 0 <= p < pods
      ensures NoDup(PodPairs(h)(p))
    {
      PodPairsNoDup(h, p);
    }
    forall p, x | 0 <= p < pods && x in PodPairs(h)(p)
      ensures LeftPod()(x) == p
    {
      EdgeAggPairsMem(h, p, x);
      HostPairsMem(h, p, x);
      CorePairsMem(h, p, x);
    }
    ForRangeNoDup(pods, PodPairs(h), LeftPod());
  }

  /** The middle index of a key: i of a core, the pod of a switch, the edge
      switch of a host. */
  function Row(n: NodeKey): nat
  {
    match n
    case CoreKey(i, _) => i
    case AggKey(p, _) => p
    case EdgeKey(p, _) => p
    case HostKey(_, e, _) => e
  }

  lemma CoreSwitchesNoDup(h: nat)
    ensures NoDup(CoreSwitches(h))
  {
    forall i | 0 <= i < h
      ensures NoDup(CoreRow(h)(i))
    {
      ForRangeNoDup(h, CoreCell(i), Minor);
    }
    forall i, n | 0 <= i < h && n in CoreRow(h)(i)
      ensures Row(n) == i
    {
      var j := ForRangePiece(h, CoreCell(i), n);
    }
    ForRangeNoDup(h, CoreRow(h), Row);
  }

  lemma PodSwitchesNoDup(h: nat, pods: nat)
    ensures NoDup(ForRange(pods, PodSwitches(h)))
  {
    forall p | 0 <= p < pods
      ensures NoDup(PodSwitches(h)(p))
    {
      ForRangeNoDup(h, PodCell(p), Minor);
    }
    forall p, n | 0 <= p < pods && n in PodSwitches(h)(p)
      ensures PodOf(n) == p
    {
      var i := ForRangePiece(h, PodCell(p), n);
    }
    ForRangeNoDup(pods, PodSwitches(h), PodOf);
  }

  /** Every switch is listed once in `switches`, every host once in `servers`. */
  lemma GenerateListsNoDup(k: int)
    ensures NoDup(Generate(k).switches) && NoDup(Generate(k).servers)
  {
    var h, pods := Half(k), Pods(k);
    CoreSwitchesNoDup(h);
    PodSwitchesNoDup(h, pods);
    forall n | n in CoreSwitches(h)
      ensures n !in ForRange(pods, PodSwitches(h))
    {
      CoreSwitchesMem(h, n);
      PodSwitchesMem(h, pods, n);
    }
    NoDupAppend(CoreSwitches(h), ForRange(pods, PodSwitches(h)));
    forall p | 0 <= p < pods
      ensures NoDup(PodHosts(h)(p))
    {
      forall e | 0 <= e < h
        ensures NoDup(HostRow(h, p)(e))
      {
        ForRangeNoDup(h, HostCell(p, e), Minor);
      }
      forall e, n | 0 <= e < h && n in HostRow(h, p)(e)
        ensures Row(n) == e
      {
        var x := ForRangePiece(h, HostCell(p, e), n);
      }
      ForRangeNoDup(h, HostRow(h, p), Row);
    }
    forall p, n | 0 <= p < pods && n in PodHosts(h)(p)
      ensures PodOf(n) == p
    {
      var e := ForRangePiece(h, HostRow(h, p), n);
      var x := ForRangePiece(h, HostCell(p, e), n);
    }
    ForRangeNoDup(pods, PodHosts(h), PodOf);
  }

  lemma PodPairsLen(h: nat, p: nat)
    ensures |PodPairs(h)(p)| == 3 * h * h
  {
    forall e | 0 <= e < h
      ensures |EdgeAggRow(h, p)(e)| == h && |HostPairRow(h, p)(e)| == h
    {
      ForRangeLen(h, EdgeAggCell(p, e), 1);
      ForRangeLen(h, HostPairCell(p, e), 1);
    }
    ForRangeLen(h, EdgeAggRow(h, p), h);
    ForRangeLen(h, HostPairRow(h, p), h);
    if h > 0 {
      forall a | 0 <= a < h
        ensures |CorePairRow(h, p)(a)| == h
      {
        ForRangeLen(h, CorePairCell(h, p, a), 1);
      }
      ForRangeLen(h, CorePairRow(h, p), h);
    }
  }

  /** The generator makes 3 * k * half^2 `add_edge` calls: half^2 edge-agg,
      half^2 edge-host and half^2 agg-core calls per pod. */
  lemma PairsLen(k: int)
    ensures |Pairs(k)| == 3 * Pods(k) * Half(k) * Half(k)
  {
    var h := Half(k);
    forall p | 0 <= p < Pods(k)
      ensures |PodPairs(h)(p)| == 3 * h * h
    {
      PodPairsLen(h, p);
    }
    ForRangeLen(Pods(k), PodPairs(h), 3 * h * h);
  }

  /** No link is wired in both directions. */
  lemma IsLinkAsymmetric(k: int, a: NodeKey, b: NodeKey)
    requires IsLink(k, a, b)
    ensures !IsLink(k, b, a)
  {
  }
}
