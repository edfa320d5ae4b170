/** `FattreeNet.__init__` of lab2/fat-tree.py: the Mininet declarations
    derived from a `Fattree` object.

    `addSwitch`, `addHost` and `addLink` are appends to three output lists.
    The constructor first declares every switch under its id with the dpid
    the letter mapper derives from that id, then every host with the address
    built from its coordinates, then walks the edge lists of the switches and
    declares each link once per unordered pair of end ids. */
module FatTreeNet {
  import opened Wrappers
  import opened Seqs
  import opened Text
  import opened Topo
  import opened FatTree
  import opened Addressing

  // ---------------------------------------------------------------- dpids

  /** `s.replace(a, b)` for single characters. */
  function Replace(s: string, a: char, b: char): (r: string)
    ensures |r| == |s|
    ensures forall i :: 0 <= i < |s| ==> r[i] == if s[i] == a then b else s[i]
  {
    if |s| == 0 then [] else Replace(s[..|s| - 1], a, b) + [if s[|s| - 1] == a then b else s[|s| - 1]]
  }

  /** The id with the tier letters `a`, `e`, `c` mapped to `1`, `2`, `3`. */
  function MapLetters(id: string): string
  {
    Replace(Replace(Replace(id, 'a', '1'), 'e', '2'), 'c', '3')
  }

  /** The dpid mapper `int(sw.id.replace(...))`; `None` where `int()` raises
      ValueError. */
  function SwitchDpid(id: string): Option<int>
  {
    PyInt(MapLetters(id))
  }

  /** The number "t" + row + minor of a switch, t its tier digit. */
  function DpidOf(n: NodeKey): nat
  {
    Glue(Glue(TierDigit(Kind(n)), Row(n)), Minor(n))
  }

  /** The digit the mapper puts in place of a switch's tier letter. */
  function TierDigit(t: NodeType): nat
  {
    match t
    case Core => 3
    case Agg => 1
    case EdgeSwitch => 2
    case Host => 0
  }

  lemma ReplaceDigits(s: string, a: char, b: char)
    requires AllDigits(s) && !IsDigit(a)
    ensures Replace(s, a, b) == s
  {
  }

  lemma ReplaceCons(c: char, s: string, a: char, b: char)
    ensures Replace([c] + s, a, b) == [if c == a then b else c] + Replace(s, a, b)
  {
  }

  /** What the three replacements do to one character. */
  function MapChar(c: char): char
  {
    var c1 := if c == 'a' then '1' else c;
    var c2 := if c1 == 'e' then '2' else c1;
    if c2 == 'c' then '3' else c2
  }

  lemma MapLettersCons(c: char, d: string)
    requires AllDigits(d)
    ensures MapLetters([c] + d) == [MapChar(c)] + d
  {
    var c1 := if c == 'a' then '1' else c;
    var c2 := if c1 == 'e' then '2' else c1;
    ReplaceCons(c, d, 'a', '1');
    ReplaceDigits(d, 'a', '1');
    ReplaceCons(c1, d, 'e', '2');
    ReplaceDigits(d, 'e', '2');
    ReplaceCons(c2, d, 'c', '3');
    ReplaceDigits(d, 'c', '3');
  }

  /** The mapper leaves the digits alone and turns the letter into its tier digit. */
  lemma MapLettersOfId(n: NodeKey)
    requires !n.HostKey?
    ensures MapLetters(Id(n)) == Dec(TierDigit(Kind(n))) + Dec(Row(n)) + Dec(Minor(n))
  {
    var t := Kind(n);
    var d := Dec(Row(n)) + Dec(Minor(n));
    SwitchIdShape(n);
    GlueDec(Row(n), Minor(n));
    MapLettersCons(KindLetter(t), d);
    TierLetter(t);
  }

  lemma SwitchIdShape(n: NodeKey)
    requires !n.HostKey?
    ensures Id(n) == [KindLetter(Kind(n))] + (Dec(Row(n)) + Dec(Minor(n)))
  {
    IdShape(n);
  }

  /** The mapper turns a switch's tier letter into the decimal of its tier digit. */
  lemma TierLetter(t: NodeType)
    requires t != Host
    ensures [MapChar(KindLetter(t))] == Dec(TierDigit(t))
  {
  }

  /** A switch's dpid is the decimal number its id spells once the tier
      letter is replaced by its digit: "3" + i + j for core (i, j), "1" + p + i
      for agg i of pod p, "2" + p + i for edge switch i of pod p. */
  lemma SwitchDpidOf(n: NodeKey)
    requires !n.HostKey?
    ensures SwitchDpid(Id(n)) == Some(DpidOf(n) as int)
  {
    MapLettersOfId(n);
    GlueDec3(TierDigit(Kind(n)), Row(n), Minor(n));
    PyIntDigits(MapLetters(Id(n)));
  }

  /** Edge switch e of pod p gets the dpid the controller computes as the home
      of the hosts 10.p.e.x. */
  lemma EdgeSwitchDpid(p: nat, e: nat)
    ensures SwitchDpid(Id(EdgeKey(p, e))) == Some(HomeDpid(p, e) as int)
  {
    SwitchDpidOf(EdgeKey(p, e));
  }

  /** For one-digit indices the dpid is the three-digit number t, row,
      minor: e10 becomes 210, c01 becomes 301, a32 becomes 132. */
  lemma DpidSmall(n: NodeKey)
    requires !n.HostKey? && Row(n) < 10 && Minor(n) < 10
    ensures DpidOf(n) == 100 * TierDigit(Kind(n)) + 10 * Row(n) + Minor(n)
  {
    GlueSmall(TierDigit(Kind(n)), Row(n));
    GlueSmall(Glue(TierDigit(Kind(n)), Row(n)), Minor(n));
  }

  /** Digits t, r, m with r of at most two digits are recovered from the
      number "t" + r + m. */
  lemma GlueRecover(t: nat, r: nat, m: nat, t': nat, r': nat, m': nat)
    requires 1 <= t < 10 && 1 <= t' < 10 && r < 100 && r' < 100 && m < 10 && m' < 10
    requires Glue(Glue(t, r), m) == Glue(Glue(t', r'), m')
    ensures t == t' && r == r' && m == m'
  {
    var g, g' := Glue(t, r), Glue(t', r');
    GlueSmall(g, m);
    GlueSmall(g', m');
    DivModBlock(10, g, m);
    DivModBlock(10, g', m');
    GlueSmall(t, r);
    GlueSmall(t', r');
    if r < 10 && r' < 10 {
      DivModBlock(10, t, r);
      DivModBlock(10, t', r');
    } else if 10 <= r && 10 <= r' {
      DivModBlock(100, t, r);
      DivModBlock(100, t', r');
    }
  }

  lemma SameDigitsSameSwitch(a: NodeKey, b: NodeKey)
    requires !a.HostKey? && !b.HostKey?
    requires TierDigit(Kind(a)) == TierDigit(Kind(b)) && Row(a) == Row(b) && Minor(a) == Minor(b)
    ensures a == b
  {
  }

  lemma SwitchDigitBounds(k: int, n: NodeKey)
    requires Half(k) <= 10 && IsNode(k, n) && !n.HostKey?
    ensures 1 <= TierDigit(Kind(n)) < 10 && Row(n) < 100 && Minor(n) < 10
  {
  }

  /** While half <= 10 the mapper gives the switches of the tree pairwise
      distinct dpids. */
  lemma DpidsUnique(k: int, a: NodeKey, b: NodeKey)
    requires Half(k) <= 10
    requires IsNode(k, a) && IsNode(k, b) && !a.HostKey? && !b.HostKey?
    requires SwitchDpid(Id(a)) == SwitchDpid(Id(b))
    ensures a == b
  {
    SwitchDpidOf(a);
    SwitchDpidOf(b);
    assert DpidOf(a) == DpidOf(b);
    SwitchDigitBounds(k, a);
    SwitchDigitBounds(k, b);
    GlueRecover(TierDigit(Kind(a)), Row(a), Minor(a), TierDigit(Kind(b)), Row(b), Minor(b));
    SameDigitsSameSwitch(a, b);
  }

  // ---------------------------------------------------------------- host addresses

  /** `f"10.{h.pod}.{h.edge}.{h.idx+2}/8"` */
  function HostIp(c: HostCoords): string
  {
    "10." + Str(c.pod) + "." + Str(c.edge) + "." + Str(c.idx + 2) + "/8"
  }

  /** The address of host (p, e, x): 10.p.e.(x+2). */
  function HostAddress(n: NodeKey): Ipv4
    requires n.HostKey?
  {
    Ipv4(10, n.pod, n.edge, n.idx + 2)
  }

  function CoordsOf(n: NodeKey): HostCoords
    requires n.HostKey?
  {
    HostCoords(n.pod, n.edge, n.idx)
  }

  /** The string handed to `addHost` is the host's dotted address with the
      mask `/8`. */
  lemma HostIpDotted(n: NodeKey)
    requires n.HostKey?
    ensures HostIp(CoordsOf(n)) == Dotted(HostAddress(n)) + "/8"
  {
    var ip := HostAddress(n);
    var p, e, x := Dec(n.pod), Dec(n.edge), Dec(n.idx + 2);
    assert HostIp(CoordsOf(n)) == "10." + p + "." + e + "." + x + "/8";
    DecTen();
    DottedConcat(ip);
    assert Dotted(ip) == "10" + "." + p + "." + e + "." + x;
    assert "10." == "10" + ".";
  }

  lemma DecTen()
    ensures Dec(10) == "10"
  {
  }

  /** Different hosts get different address strings, for every k. */
  lemma HostIpsUnique(a: NodeKey, b: NodeKey)
    requires a.HostKey? && b.HostKey? && HostIp(CoordsOf(a)) == HostIp(CoordsOf(b))
    ensures a == b
  {
    HostIpDotted(a);
    HostIpDotted(b);
    var s, t := Dotted(HostAddress(a)), Dotted(HostAddress(b));
    assert s == (s + "/8")[..|s|] && t == (t + "/8")[..|t|];
    DottedInjective(HostAddress(a), HostAddress(b));
  }

  /** Host h{p}{e}{x} of `generate(k)` is 10.p.e.(x+2): its last octet lies
      in [2, half + 1], its second and third name its pod and edge switch. */
  lemma HostOctets(k: int, n: NodeKey)
    requires n in Generate(k).servers
    ensures var ip := HostAddress(n);
      && ip.a == 10 && ip.b < Pods(k) && ip.c < Half(k)
      && 2 <= ip.d <= Half(k) + 1
  {
    ServersMem(k, n);
  }

  /** The controller's `ip_to_edge_dpid` inverts the naming: the address of
      every host of `generate(k)` leads back to the dpid of the edge switch it
      hangs from. */
  lemma AddressRoundTrip(k: int, n: NodeKey)
    requires n in Generate(k).servers
    ensures EdgeKey(n.pod, n.edge) in Generate(k).switches
    ensures ListedNeighbor(Generate(k).graph, n, EdgeKey(n.pod, n.edge))
    ensures IpToEdgeDpid(Dotted(HostAddress(n))).Some?
    ensures IpToEdgeDpid(Dotted(HostAddress(n))) == SwitchDpid(Id(EdgeKey(n.pod, n.edge)))
  {
    ServersMem(k, n);
    SwitchesMem(k, EdgeKey(n.pod, n.edge));
    HostNeighbors(k, n, EdgeKey(n.pod, n.edge));
    DottedHomeDpid(HostAddress(n));
    EdgeSwitchDpid(n.pod, n.edge);
  }

  // ---------------------------------------------------------------- declarations

  /** `addSwitch(name, dpid=...)`; the dpid is kept as an integer. */
  datatype SwitchDecl = SwitchDecl(name: string, dpid: int)

  /** `addHost(name, ip=...)` */
  datatype HostDecl = HostDecl(name: string, ip: string)

  /** `addLink(n1, n2)` by node names. */
  type LinkDecl = (string, string)

  datatype NetDecls = NetDecls(switches: seq<SwitchDecl>, hosts: seq<HostDecl>, links: seq<LinkDecl>)

  /** One round of step 1. */
  function DeclareSwitch(node: Node): Option<SwitchDecl>
  {
    match SwitchDpid(node.id)
    case None => None
    case Some(d) => Some(SwitchDecl(node.id, d))
  }

  /** One round of step 2: a node without the `pod` attribute raises
      AttributeError. */
  function DeclareHost(node: Node): Option<HostDecl>
  {
    match node.coords
    case None => None
    case Some(c) => Some(HostDecl(node.id, HostIp(c)))
  }

  /** The `Node` objects a list of keys stands for. */
  function NodesOf<N(==)>(g: Graph<N>, keys: seq<N>): (r: seq<Node>)
    requires forall n :: n in keys ==> n in g.nodes
    ensures |r| == |keys| && forall i :: 0 <= i < |keys| ==> r[i] == g.nodes[keys[i]]
  {
    seq(|keys|, i requires 0 <= i < |keys| => g.nodes[keys[i]])
  }

  /** The visiting order of step 3: the edge lists of the switches, one
      after the other. */
  function Visits<N(==)>(g: Graph<N>, sws: seq<N>): seq<EdgeRef>
    requires forall n :: n in sws ==> n in g.nodes
  {
    if |sws| == 0 then [] else Visits(g, sws[..|sws| - 1]) + g.nodes[sws[|sws| - 1]].edges
  }

  lemma {:induction false} VisitsMem<N>(g: Graph<N>, sws: seq<N>, v: EdgeRef)
    requires forall n :: n in sws ==> n in g.nodes
    ensures v in Visits(g, sws) <==> exists i :: 0 <= i < |sws| && v in g.nodes[sws[i]].edges
  {
    if |sws| > 0 {
      var init := sws[..|sws| - 1];
      VisitsMem(g, init, v);
      if v in Visits(g, init) {
        var i :| 0 <= i < |init| && v in g.nodes[init[i]].edges;
        assert sws[i] == init[i];
      }
      if exists i :: 0 <= i < |sws| && v in g.nodes[sws[i]].edges {
        var i :| 0 <= i < |sws| && v in g.nodes[sws[i]].edges;
        if i < |init| {
          assert init[i] == sws[i];
        }
      }
    }
  }

  predicate ValidVisits<N(==)>(g: Graph<N>, visits: seq<EdgeRef>)
  {
    Valid(g) && forall i :: 0 <= i < |visits| ==> visits[i] < |g.edges|
  }

  lemma VisitsValid<N>(g: Graph<N>, sws: seq<N>)
    requires Valid(g) && forall n :: n in sws ==> n in g.nodes
    ensures ValidVisits(g, Visits(g, sws))
  {
    forall i | 0 <= i < |Visits(g, sws)|
      ensures Visits(g, sws)[i] < |g.edges|
    {
      var v := Visits(g, sws)[i];
      VisitsMem(g, sws, v);
      var j :| 0 <= j < |sws| && v in g.nodes[sws[j]].edges;
    }
  }

  /** `(edge.lnode.id, edge.rnode.id)`; `None` where an end is `None` and
      reading its `id` raises AttributeError. */
  function LinkOf<N(==)>(g: Graph<N>, e: EdgeRef): Option<LinkDecl>
    requires Valid(g) && e < |g.edges|
  {
    var ed := g.edges[e];
    if ed.lnode.Some? && ed.rnode.Some? then Some((g.nodes[ed.lnode.value].id, g.nodes[ed.rnode.value].id))
    else None
  }

  /** `tuple(sorted([n1.id, n2.id]))` */
  function LinkKey(l: LinkDecl): (string, string)
  {
    SortedPair(l.0, l.1)
  }

  /** The `seen` set and the links declared so far. */
  datatype LinkState = LinkState(seen: set<(string, string)>, links: seq<LinkDecl>)

  /** One round of the inner loop of step 3. */
  function DedupStep<N(==)>(g: Graph<N>, st: LinkState, v: EdgeRef): Result<LinkState, GraphError>
    requires Valid(g) && v < |g.edges|
  {
    match LinkOf(g, v)
    case None => Failure(AttributeError)
    case Some(l) =>
      if LinkKey(l) in st.seen then Success(st)
      else Success(LinkState(st.seen + {LinkKey(l)}, st.links + [l]))
  }

  /** Step 3 over a list of visited edges. */
  function Dedup<N(==)>(g: Graph<N>, visits: seq<EdgeRef>): Result<LinkState, GraphError>
    requires ValidVisits(g, visits)
  {
    if |visits| == 0 then Success(LinkState({}, []))
    else
      match Dedup(g, visits[..|visits| - 1])
      case Failure(err) => Failure(err)
      case Success(st) => DedupStep(g, st, visits[|visits| - 1])
  }

  /** The keys of the visited edges that have both ends. */
  function VisitedKeys<N(==)>(g: Graph<N>, visits: seq<EdgeRef>): set<(string, string)>
    requires ValidVisits(g, visits)
  {
    set i | 0 <= i < |visits| && LinkOf(g, visits[i]).Some? :: LinkKey(LinkOf(g, visits[i]).value)
  }

  predicate KeysDistinct(links: seq<LinkDecl>)
  {
    forall i, j :: 0 <= i < j < |links| ==> LinkKey(links[i]) != LinkKey(links[j])
  }

  /** What step 3 promises about the state after a list of visited edges:
      `seen` holds the keys of the visited edges and of the declared links,
      one link per key, each link a visited edge's (lnode id, rnode id). */
  predicate DedupInv<N(==)>(g: Graph<N>, visits: seq<EdgeRef>, st: LinkState)
    requires ValidVisits(g, visits)
  {
    && st.seen == VisitedKeys(g, visits)
    && st.seen == (set l | l in st.links :: LinkKey(l))
    && |st.links| == |st.seen|
    && KeysDistinct(st.links)
    && (forall l :: l in st.links ==> exists i :: 0 <= i < |visits| && LinkOf(g, visits[i]) == Some(l))
  }

  lemma VisitedKeysSnoc<N>(g: Graph<N>, init: seq<EdgeRef>, v: EdgeRef)
    requires ValidVisits(g, init) && v < |g.edges|
    ensures ValidVisits(g, init + [v])
    ensures VisitedKeys(g, init + [v])
            == VisitedKeys(g, init) + (if LinkOf(g, v).Some? then {LinkKey(LinkOf(g, v).value)} else {})
  {
    var visits := init + [v];
    assert forall i :: 0 <= i < |init| ==> visits[i] == init[i];
    assert visits[|init|] == v;
    var extra := if LinkOf(g, v).Some? then {LinkKey(LinkOf(g, v).value)} else {};
    forall key | key in VisitedKeys(g, visits)
      ensures key in VisitedKeys(g, init) + extra
    {
      var i :| 0 <= i < |visits| && LinkOf(g, visits[i]).Some? && key == LinkKey(LinkOf(g, visits[i]).value);
      if i < |init| {
        assert visits[i] == init[i];
      }
    }
    forall key | key in VisitedKeys(g, init) + extra
      ensures key in VisitedKeys(g, visits)
    {
      if key in VisitedKeys(g, init) {
        var i :| 0 <= i < |init| && LinkOf(g, init[i]).Some? && key == LinkKey(LinkOf(g, init[i]).value);
        assert visits[i] == init[i];
      } else {
        assert visits[|init|] == v;
      }
    }
  }

  /** Appending a link with a new key keeps `seen` the set of the links'
      keys, one link per key. */
  lemma FreshLink(seen: set<(string, string)>, links: seq<LinkDecl>, l: LinkDecl)
    requires seen == (set x | x in links :: LinkKey(x))
    requires |links| == |seen| && KeysDistinct(links) && LinkKey(l) !in seen
    ensures seen + {LinkKey(l)} == (set x | x in links + [l] :: LinkKey(x))
    ensures |links + [l]| == |seen + {LinkKey(l)}|
    ensures KeysDistinct(links + [l])
  {
    var links' := links + [l];
    assert (set x | x in links' :: LinkKey(x)) == (set x | x in links :: LinkKey(x)) + {LinkKey(l)};
    forall i, j | 0 <= i < j < |links'|
      ensures LinkKey(links'[i]) != LinkKey(links'[j])
    {
      if j == |links| {
        assert links[i] in links;
      }
    }
  }

  /** Every declared link still comes from a visited edge. */
  lemma LinkSources<N>(g: Graph<N>, init: seq<EdgeRef>, v: EdgeRef, links: seq<LinkDecl>, l: LinkDecl)
    requires ValidVisits(g, init) && v < |g.edges| && LinkOf(g, v) == Some(l)
    requires forall x :: x in links ==> exists i :: 0 <= i < |init| && LinkOf(g, init[i]) == Some(x)
    ensures ValidVisits(g, init + [v])
    ensures forall x :: x in links + [l] ==> exists i :: 0 <= i < |init + [v]| && LinkOf(g, (init + [v])[i]) == Some(x)
  {
    var visits := init + [v];
    assert forall i :: 0 <= i < |init| ==> visits[i] == init[i];
    assert visits[|init|] == v;
    forall x | x in links + [l]
      ensures exists i :: 0 <= i < |visits| && LinkOf(g, visits[i]) == Some(x)
    {
      if x in links {
        var i :| 0 <= i < |init| && LinkOf(g, init[i]) == Some(x);
        assert visits[i] == init[i];
      } else {
        assert LinkOf(g, visits[|init|]) == Some(x);
      }
    }
  }

  /** One more visited edge with both ends keeps the promise. */
  lemma DedupStepKeeps<N>(g: Graph<N>, init: seq<EdgeRef>, v: EdgeRef, st: LinkState)
    requires ValidVisits(g, init) && v < |g.edges|
    requires DedupInv(g, init, st) && LinkOf(g, v).Some?
    ensures DedupStep(g, st, v).Success?
    ensures DedupInv(g, init + [v], DedupStep(g, st, v).value)
  {
    var l := LinkOf(g, v).value;
    VisitedKeysSnoc(g, init, v);
    LinkSources(g, init, v, st.links, l);
    if LinkKey(l) !in st.seen {
      FreshLink(st.seen, st.links, l);
      assert DedupStep(g, st, v) == Success(LinkState(st.seen + {LinkKey(l)}, st.links + [l]));
    } else {
      SeenLink(g, init, v, st);
    }
  }

  /** An edge whose key is already seen leaves the state as it was. */
  lemma SeenLink<N>(g: Graph<N>, init: seq<EdgeRef>, v: EdgeRef, st: LinkState)
    requires ValidVisits(g, init) && v < |g.edges|
    requires DedupInv(g, init, st) && LinkOf(g, v).Some? && LinkKey(LinkOf(g, v).value) in st.seen
    ensures DedupStep(g, st, v) == Success(st)
    ensures DedupInv(g, init + [v], st)
  {
    VisitedKeysSnoc(g, init, v);
    var visits := init + [v];
    forall x | x in st.links
      ensures exists i :: 0 <= i < |visits| && LinkOf(g, visits[i]) == Some(x)
    {
      var i :| 0 <= i < |init| && LinkOf(g, init[i]) == Some(x);
      assert visits[i] == init[i];
    }
  }

  /** Step 3 fails, with AttributeError, exactly when a visited edge lacks an
      end; otherwise it keeps the promise of `DedupInv`. */
  lemma {:induction false} DedupMeaning<N>(g: Graph<N>, visits: seq<EdgeRef>)
    requires ValidVisits(g, visits)
    ensures Dedup(g, visits).Success? <==> forall i :: 0 <= i < |visits| ==> LinkOf(g, visits[i]).Some?
    ensures Dedup(g, visits).Failure? ==> Dedup(g, visits).error == AttributeError
    ensures Dedup(g, visits).Success? ==> DedupInv(g, visits, Dedup(g, visits).value)
  {
    if |visits| > 0 {
      var init, v := visits[..|visits| - 1], visits[|visits| - 1];
      assert visits == init + [v];
      assert forall i :: 0 <= i < |init| ==> visits[i] == init[i];
      assert ValidVisits(g, init);
      DedupMeaning(g, init);
      var r := Dedup(g, init);
      if r.Success? && LinkOf(g, v).Some? {
        DedupStepKeeps(g, init, v, r.value);
      }
    } else {
      assert (set l | l in [] :: LinkKey(l)) == {};
    }
  }

  lemma {:induction false} VisitsAppend<N>(g: Graph<N>, a: seq<N>, b: seq<N>)
    requires forall n :: n in a + b ==> n in g.nodes
    ensures Visits(g, a + b) == Visits(g, a) + Visits(g, b)
    decreases |b|
  {
    if |b| > 0 {
      var b', x := b[..|b| - 1], b[|b| - 1];
      assert (a + b)[..|a + b| - 1] == a + b';
      VisitsAppend(g, a, b');
    } else {
      assert a + b == a;
    }
  }

  /** The edges step 3 has visited before the j-th edge of the i-th switch. */
  function Done<N(==)>(g: Graph<N>, sws: seq<N>, i: nat, j: nat): seq<EdgeRef>
    requires forall n :: n in sws ==> n in g.nodes
    requires i < |sws| && j <= |g.nodes[sws[i]].edges|
  {
    Visits(g, sws[..i]) + g.nodes[sws[i]].edges[..j]
  }

  lemma VisitsStep<N>(g: Graph<N>, sws: seq<N>, i: nat)
    requires forall n :: n in sws ==> n in g.nodes
    requires i < |sws|
    ensures Visits(g, sws[..i + 1]) == Done(g, sws, i, |g.nodes[sws[i]].edges|)
  {
    assert sws[..i + 1][..i] == sws[..i];
    var es := g.nodes[sws[i]].edges;
    assert es[..|es|] == es;
  }

  /** What step 3 has visited so far comes first in the full visiting order. */
  lemma DonePrefix<N>(g: Graph<N>, sws: seq<N>, i: nat, j: nat)
    requires Valid(g) && forall n :: n in sws ==> n in g.nodes
    requires i < |sws| && j <= |g.nodes[sws[i]].edges|
    ensures Done(g, sws, i, j) <= Visits(g, sws)
    ensures ValidVisits(g, Done(g, sws, i, j))
  {
    var whole := Visits(g, sws[..i + 1]);
    VisitsStep(g, sws, i);
    assert sws == sws[..i + 1] + sws[i + 1..];
    VisitsAppend(g, sws[..i + 1], sws[i + 1..]);
    assert whole <= Visits(g, sws);
    var d := Done(g, sws, i, j);
    assert d == whole[..|d|];
    VisitsValid(g, sws);
    assert forall k :: 0 <= k < |d| ==> d[k] == Visits(g, sws)[k];
  }

  /** Step 3 stops at the first edge without an end. */
  lemma {:induction false} DedupFailurePersists<N>(g: Graph<N>, vs: seq<EdgeRef>, ws: seq<EdgeRef>)
    requires ValidVisits(g, ws) && vs <= ws
    requires Dedup(g, vs).Failure?
    ensures Dedup(g, ws) == Dedup(g, vs)
    decreases |ws|
  {
    if vs != ws {
      assert vs <= ws[..|ws| - 1];
      DedupFailurePersists(g, vs, ws[..|ws| - 1]);
    }
  }

  lemma DedupSnoc<N>(g: Graph<N>, vs: seq<EdgeRef>, v: EdgeRef)
    requires ValidVisits(g, vs + [v])
    ensures ValidVisits(g, vs) && v < |g.edges|
    ensures Dedup(g, vs).Failure? ==> Dedup(g, vs + [v]) == Dedup(g, vs)
    ensures Dedup(g, vs).Success? ==> Dedup(g, vs + [v]) == DedupStep(g, Dedup(g, vs).value, v)
  {
    assert (vs + [v])[..|vs|] == vs;
    assert (vs + [v])[|vs|] == v;
    assert forall i :: 0 <= i < |vs| ==> vs[i] == (vs + [v])[i];
  }

  /** One round of the inner loop, in terms of the visiting order: a failing
      round ends step 3 with its failure. */
  lemma DoneStep<N>(g: Graph<N>, sws: seq<N>, i: nat, j: nat, st: LinkState)
    requires Valid(g) && forall n :: n in sws ==> n in g.nodes
    requires i < |sws| && j < |g.nodes[sws[i]].edges|
    requires ValidVisits(g, Done(g, sws, i, j)) && Dedup(g, Done(g, sws, i, j)) == Success(st)
    ensures ValidVisits(g, Done(g, sws, i, j + 1)) && ValidVisits(g, Visits(g, sws))
    ensures Dedup(g, Done(g, sws, i, j + 1)) == DedupStep(g, st, g.nodes[sws[i]].edges[j])
    ensures DedupStep(g, st, g.nodes[sws[i]].edges[j]).Failure? ==>
              Dedup(g, Visits(g, sws)) == DedupStep(g, st, g.nodes[sws[i]].edges[j])
  {
    var es := g.nodes[sws[i]].edges;
    DonePrefix(g, sws, i, j + 1);
    assert es[..j + 1] == es[..j] + [es[j]];
    assert Done(g, sws, i, j + 1) == Done(g, sws, i, j) + [es[j]];
    DedupSnoc(g, Done(g, sws, i, j), es[j]);
    VisitsValid(g, sws);
    if DedupStep(g, st, es[j]).Failure? {
      DedupFailurePersists(g, Done(g, sws, i, j + 1), Visits(g, sws));
    }
  }

  /** Step 3 as the constructor runs it: two nested loops over the switches
      and their edge lists, leaving at the first edge without an end. */
  method AddLinks<N(==)>(g: Graph<N>, sws: seq<N>) returns (r: Result<LinkState, GraphError>)
    requires Valid(g) && forall n :: n in sws ==> n in g.nodes
    ensures ValidVisits(g, Visits(g, sws)) && r == Dedup(g, Visits(g, sws))
  {
    VisitsValid(g, sws);
    var seen: set<(string, string)> := {};
    var links: seq<LinkDecl> := [];
    for i := 0 to |sws|
      invariant ValidVisits(g, Visits(g, sws[..i]))
      invariant Dedup(g, Visits(g, sws[..i])) == Success(LinkState(seen, links))
    {
      var es := g.nodes[sws[i]].edges;
      DonePrefix(g, sws, i, 0);
      assert Done(g, sws, i, 0) == Visits(g, sws[..i]);
      for j := 0 to |es|
        invariant ValidVisits(g, Done(g, sws, i, j))
        invariant Dedup(g, Done(g, sws, i, j)) == Success(LinkState(seen, links))
      {
        DoneStep(g, sws, i, j, LinkState(seen, links));
        var edge := g.edges[es[j]];
        if edge.lnode.None? || edge.rnode.None? {
          return Failure(AttributeError);
        }
        var link := (g.nodes[edge.lnode.value].id, g.nodes[edge.rnode.value].id);
        var key := SortedPair(link.0, link.1);
        if key !in seen {
          seen := seen + {key};
          links := links + [link];
        }
      }
      VisitsStep(g, sws, i);
      VisitsValid(g, sws[..i + 1]);
    }
    assert sws[..|sws|] == sws;
    r := Success(LinkState(seen, links));
  }

  // ---------------------------------------------------------------- the constructor

  /** `FattreeNet(ft_topo)`: the three steps in order. Step 1 raises
      ValueError on a switch id that does not map to an integer, step 2
      AttributeError on a server without coordinates, step 3 AttributeError
      on an edge without an end. */
  function FattreeNet<N(==)>(g: Graph<N>, switches: seq<N>, servers: seq<N>): Result<NetDecls, GraphError>
    requires Valid(g)
    requires forall n :: n in switches ==> n in g.nodes
    requires forall n :: n in servers ==> n in g.nodes
  {
    VisitsValid(g, switches);
    match MapAll(NodesOf(g, switches), DeclareSwitch)
    case None => Failure(ValueError)
    case Some(sd) =>
      match MapAll(NodesOf(g, servers), DeclareHost)
      case None => Failure(AttributeError)
      case Some(hd) =>
        match Dedup(g, Visits(g, switches))
        case Failure(err) => Failure(err)
        case Success(st) => Success(NetDecls(sd, hd, st.links))
  }

  /** Every switch id maps to an integer dpid. */
  predicate IdsMap<N(==)>(g: Graph<N>, switches: seq<N>)
    requires forall n :: n in switches ==> n in g.nodes
  {
    forall i :: 0 <= i < |switches| ==> SwitchDpid(g.nodes[switches[i]].id).Some?
  }

  /** Every server carries its `pod`, `edge`, `idx` coordinates. */
  predicate Placed<N(==)>(g: Graph<N>, servers: seq<N>)
    requires forall n :: n in servers ==> n in g.nodes
  {
    forall i :: 0 <= i < |servers| ==> g.nodes[servers[i]].coords.Some?
  }

  /** Every visited edge has both ends. */
  predicate Closed<N(==)>(g: Graph<N>, visits: seq<EdgeRef>)
    requires ValidVisits(g, visits)
  {
    forall i :: 0 <= i < |visits| ==> LinkOf(g, visits[i]).Some?
  }

  lemma SwitchesDeclared<N>(g: Graph<N>, switches: seq<N>)
    requires forall n :: n in switches ==> n in g.nodes
    ensures MapAll(NodesOf(g, switches), DeclareSwitch).Some? <==> IdsMap(g, switches)
  {
    var nodes := NodesOf(g, switches);
    assert forall i :: 0 <= i < |switches| ==> DeclareSwitch(nodes[i]).Some? == SwitchDpid(g.nodes[switches[i]].id).Some?;
  }

  lemma HostsDeclared<N>(g: Graph<N>, servers: seq<N>)
    requires forall n :: n in servers ==> n in g.nodes
    ensures MapAll(NodesOf(g, servers), DeclareHost).Some? <==> Placed(g, servers)
  {
    var nodes := NodesOf(g, servers);
    assert forall i :: 0 <= i < |servers| ==> DeclareHost(nodes[i]).Some? == g.nodes[servers[i]].coords.Some?;
  }

  /** The constructor fails exactly when a switch id does not map, a server
      has no coordinates, or a switch's edge lacks an end; the error is the
      first failing step's: ValueError from step 1, AttributeError after. */
  lemma FattreeNetOutcome<N>(g: Graph<N>, switches: seq<N>, servers: seq<N>)
    requires Valid(g)
    requires forall n :: n in switches ==> n in g.nodes
    requires forall n :: n in servers ==> n in g.nodes
    ensures ValidVisits(g, Visits(g, switches))
    ensures FattreeNet(g, switches, servers).Success? <==>
              IdsMap(g, switches) && Placed(g, servers) && Closed(g, Visits(g, switches))
    ensures FattreeNet(g, switches, servers).Failure? ==>
              FattreeNet(g, switches, servers).error == if IdsMap(g, switches) then AttributeError else ValueError
  {
    var visits := Visits(g, switches);
    VisitsValid(g, switches);
    DedupMeaning(g, visits);
    SwitchesDeclared(g, switches);
    HostsDeclared(g, servers);
    var r := FattreeNet(g, switches, servers);
    if !IdsMap(g, switches) {
      assert r == Failure(ValueError);
    } else if !Placed(g, servers) {
      assert r == Failure(AttributeError);
    } else if !Closed(g, visits) {
      assert r == Failure(AttributeError);
    } else {
      assert r.Success?;
    }
  }

  /** On success, switch i is declared under its id with its mapped dpid and
      server i under its id with its address, in the order of the lists. */
  lemma FattreeNetNodes<N>(g: Graph<N>, switches: seq<N>, servers: seq<N>)
    requires Valid(g)
    requires forall n :: n in switches ==> n in g.nodes
    requires forall n :: n in servers ==> n in g.nodes
    requires FattreeNet(g, switches, servers).Success?
    ensures var d := FattreeNet(g, switches, servers).value;
      && |d.switches| == |switches|
      && (forall i :: 0 <= i < |switches| ==>
            d.switches[i] == SwitchDecl(g.nodes[switches[i]].id, SwitchDpid(g.nodes[switches[i]].id).value))
      && |d.hosts| == |servers|
      && (forall i :: 0 <= i < |servers| ==>
            d.hosts[i] == HostDecl(g.nodes[servers[i]].id, HostIp(g.nodes[servers[i]].coords.value)))
  {
  }

  /** On success, the links are one per unordered pair of ends among the
      switches' edges: their keys are distinct and are exactly the visited
      keys, and each link is the (lnode id, rnode id) of a visited edge. */
  lemma FattreeNetLinks<N>(g: Graph<N>, switches: seq<N>, servers: seq<N>)
    requires Valid(g)
    requires forall n :: n in switches ==> n in g.nodes
    requires forall n :: n in servers ==> n in g.nodes
    requires FattreeNet(g, switches, servers).Success?
    ensures ValidVisits(g, Visits(g, switches))
    ensures var links := FattreeNet(g, switches, servers).value.links;
      && (set l | l in links :: LinkKey(l)) == VisitedKeys(g, Visits(g, switches))
      && |links| == |VisitedKeys(g, Visits(g, switches))|
      && KeysDistinct(links)
      && (forall l :: l in links ==> exists v :: v in Visits(g, switches) && LinkOf(g, v) == Some(l))
  {
    var visits := Visits(g, switches);
    VisitsValid(g, switches);
    DedupMeaning(g, visits);
    var st := Dedup(g, visits).value;
    forall l | l in st.links
      ensures exists v :: v in visits && LinkOf(g, v) == Some(l)
    {
      var i :| 0 <= i < |visits| && LinkOf(g, visits[i]) == Some(l);
      assert visits[i] in visits;
    }
  }

  // ---------------------------------------------------------------- the generated tree

  /** The link key of one `add_edge` call of the generator. */
  function PairKey(x: Pair): (string, string)
  {
    SortedPair(Id(x.0), Id(x.1))
  }

  /** Edge v of the generated graph is the v-th `add_edge` call, with both ends. */
  lemma GeneratedLinkOf(k: int, v: nat)
    requires v < |Pairs(k)|
    ensures Wf(Generate(k).graph) && v < |Generate(k).graph.edges|
    ensures LinkOf(Generate(k).graph, v) == Some((Id(Pairs(k)[v].0), Id(Pairs(k)[v].1)))
  {
    var x := Pairs(k)[v];
    GenerateEdges(k);
    PairsMem(k, x.0, x.1);
    IsLinkEnds(k, x.0, x.1);
    GenerateNode(k, x.0);
    GenerateNode(k, x.1);
  }

  /** When every edge's lnode is one of the listed switches, walking their
      edge lists visits every edge and nothing else. */
  lemma VisitsCover<N>(g: Graph<N>, sws: seq<N>, v: EdgeRef)
    requires Wf(g) && forall n :: n in sws ==> n in g.nodes
    requires forall e :: 0 <= e < |g.edges| ==> g.edges[e].lnode.Some? && g.edges[e].lnode.value in sws
    ensures v in Visits(g, sws) <==> v < |g.edges|
  {
    VisitsMem(g, sws, v);
    if v in Visits(g, sws) {
      VisitsValid(g, sws);
    }
    if v < |g.edges| {
      var a := g.edges[v].lnode.value;
      assert multiset(g.nodes[a].edges)[v] == Multiplicity(g.edges[v], a);
      var i :| 0 <= i < |sws| && sws[i] == a;
    }
  }

  /** Every edge of the generated graph has both ends and starts at a switch. */
  lemma GeneratedLeftEnds(k: int)
    ensures var ft := Generate(k);
      forall e :: 0 <= e < |ft.graph.edges| ==>
        ft.graph.edges[e].lnode.Some? && ft.graph.edges[e].rnode.Some? && ft.graph.edges[e].lnode.value in ft.switches
    ensures |Generate(k).graph.edges| == |Pairs(k)|
  {
    var ft := Generate(k);
    GenerateEdges(k);
    forall e | 0 <= e < |ft.graph.edges|
      ensures ft.graph.edges[e].lnode == Some(Pairs(k)[e].0) && ft.graph.edges[e].rnode.Some?
      ensures Pairs(k)[e].0 in ft.switches
    {
      var x := Pairs(k)[e];
      PairsMem(k, x.0, x.1);
      IsLinkEnds(k, x.0, x.1);
    }
  }

  /** Walking the switches' edge lists visits every edge of the generated
      graph and nothing else. */
  lemma GeneratedVisits(k: int, v: EdgeRef)
    ensures var ft := Generate(k);
      v in Visits(ft.graph, ft.switches) <==> v < |Pairs(k)|
  {
    var ft := Generate(k);
    GeneratedLeftEnds(k);
    VisitsCover(ft.graph, ft.switches, v);
  }

  /** When the visits are exactly the edges, each edge standing for one
      link, the visited keys are the keys of those links. */
  lemma VisitedKeysAll<N>(g: Graph<N>, visits: seq<EdgeRef>, ls: seq<LinkDecl>)
    requires ValidVisits(g, visits) && |ls| <= |g.edges|
    requires forall v: EdgeRef :: v in visits <==> v < |ls|
    requires forall v :: 0 <= v < |ls| ==> LinkOf(g, v) == Some(ls[v])
    ensures VisitedKeys(g, visits) == set l | l in ls :: LinkKey(l)
  {
    forall key | key in VisitedKeys(g, visits)
      ensures key in set l | l in ls :: LinkKey(l)
    {
      var i :| 0 <= i < |visits| && LinkOf(g, visits[i]).Some? && key == LinkKey(LinkOf(g, visits[i]).value);
      assert visits[i] in visits;
      assert ls[visits[i]] in ls;
    }
    forall l | l in ls
      ensures LinkKey(l) in VisitedKeys(g, visits)
    {
      var v :| 0 <= v < |ls| && ls[v] == l;
      assert v in visits;
      var i :| 0 <= i < |visits| && visits[i] == v;
    }
  }

  /** A list of `add_edge` calls as (id, id) links. */
  function PairLinks(pairs: seq<Pair>): (ls: seq<LinkDecl>)
    ensures |ls| == |pairs|
    ensures forall i :: 0 <= i < |ls| ==> ls[i] == (Id(pairs[i].0), Id(pairs[i].1))
  {
    seq(|pairs|, i requires 0 <= i < |pairs| => (Id(pairs[i].0), Id(pairs[i].1)))
  }

  /** The links of a list of calls have the calls' keys. */
  lemma PairLinksKeys(pairs: seq<Pair>)
    ensures (set l | l in PairLinks(pairs) :: LinkKey(l)) == set x | x in pairs :: PairKey(x)
  {
    var ls := PairLinks(pairs);
    forall x | x in pairs
      ensures LinkKey((Id(x.0), Id(x.1))) in set l | l in ls :: LinkKey(l)
    {
      var i :| 0 <= i < |pairs| && pairs[i] == x;
      assert ls[i] in ls;
    }
  }

  lemma GeneratedVisitsExact(k: int)
    ensures var ft := Generate(k);
      forall v: EdgeRef :: v in Visits(ft.graph, ft.switches) <==> v < |Pairs(k)|
  {
    var ft := Generate(k);
    forall v: EdgeRef ensures v in Visits(ft.graph, ft.switches) <==> v < |Pairs(k)| {
      GeneratedVisits(k, v);
    }
  }

  lemma GeneratedLinks(k: int)
    ensures var ft := Generate(k);
      && Valid(ft.graph) && |PairLinks(Pairs(k))| <= |ft.graph.edges|
      && forall v :: 0 <= v < |Pairs(k)| ==> LinkOf(ft.graph, v) == Some(PairLinks(Pairs(k))[v])
  {
    var ft := Generate(k);
    GeneratedLeftEnds(k);
    forall v | 0 <= v < |Pairs(k)| ensures LinkOf(ft.graph, v) == Some(PairLinks(Pairs(k))[v]) {
      GeneratedLinkOf(k, v);
    }
  }

  /** When the visits are exactly the edges and edge v is the v-th call, the
      visited keys are the calls' keys. */
  lemma VisitedPairKeys(g: Graph<NodeKey>, sws: seq<NodeKey>, pairs: seq<Pair>)
    requires Valid(g) && forall n :: n in sws ==> n in g.nodes
    requires forall v: EdgeRef :: v in Visits(g, sws) <==> v < |pairs|
    requires |pairs| <= |g.edges|
    requires forall v :: 0 <= v < |pairs| ==> LinkOf(g, v) == Some(PairLinks(pairs)[v])
    ensures ValidVisits(g, Visits(g, sws))
    ensures VisitedKeys(g, Visits(g, sws)) == set x | x in pairs :: PairKey(x)
  {
    VisitsValid(g, sws);
    var ls := PairLinks(pairs);
    assert |ls| == |pairs|;
    VisitedKeysAll(g, Visits(g, sws), ls);
    PairLinksKeys(pairs);
  }

  /** The keys of the visited edges are the keys of the generator's calls. */
  lemma GeneratedVisitedKeys(k: int)
    ensures var ft := Generate(k);
      && ValidVisits(ft.graph, Visits(ft.graph, ft.switches))
      && VisitedKeys(ft.graph, Visits(ft.graph, ft.switches)) == set x | x in Pairs(k) :: PairKey(x)
  {
    var ft := Generate(k);
    GeneratedVisitsExact(k);
    GeneratedLinks(k);
    VisitedPairKeys(ft.graph, ft.switches, Pairs(k));
  }

  /** While ids are unique, different calls of the generator have different
      link keys. */
  lemma PairKeyInjective(k: int, x: Pair, y: Pair)
    requires Half(k) <= 10
    requires x in Pairs(k) && y in Pairs(k) && PairKey(x) == PairKey(y)
    ensures x == y
  {
    PairsMem(k, x.0, x.1);
    PairsMem(k, y.0, y.1);
    IsLinkEnds(k, x.0, x.1);
    IsLinkEnds(k, y.0, y.1);
    SortedPairUnordered(Id(x.0), Id(x.1), Id(y.0), Id(y.1));
    if Id(x.0) == Id(y.0) && Id(x.1) == Id(y.1) {
      IdsUnique(k, x.0, y.0);
      IdsUnique(k, x.1, y.1);
    } else {
      IdsUnique(k, x.0, y.1);
      IdsUnique(k, x.1, y.0);
      IsLinkAsymmetric(k, x.0, x.1);
      assert false;
    }
  }

  lemma GeneratedIdsMap(k: int)
    ensures var ft := Generate(k);
      && (forall i :: 0 <= i < |ft.switches| ==> ft.graph.nodes[ft.switches[i]].id == Id(ft.switches[i]))
      && (forall i :: 0 <= i < |ft.switches| ==> SwitchDpid(Id(ft.switches[i])) == Some(DpidOf(ft.switches[i]) as int))
      && IdsMap(ft.graph, ft.switches)
  {
    var ft := Generate(k);
    forall i | 0 <= i < |ft.switches|
      ensures ft.graph.nodes[ft.switches[i]].id == Id(ft.switches[i])
      ensures SwitchDpid(Id(ft.switches[i])) == Some(DpidOf(ft.switches[i]) as int)
    {
      GenerateNode(k, ft.switches[i]);
      SwitchDpidOf(ft.switches[i]);
    }
  }

  lemma GeneratedPlaced(k: int)
    ensures var ft := Generate(k);
      && (forall i :: 0 <= i < |ft.servers| ==> ft.servers[i].HostKey? && ft.servers[i] in ft.graph.nodes)
      && (forall i :: 0 <= i < |ft.servers| ==> ft.graph.nodes[ft.servers[i]].id == Id(ft.servers[i]))
      && (forall i :: 0 <= i < |ft.servers| ==>
            ft.graph.nodes[ft.servers[i]].coords == Some(CoordsOf(ft.servers[i])))
      && (forall n :: n in ft.servers ==> n in ft.graph.nodes)
      && Placed(ft.graph, ft.servers)
  {
    var ft := Generate(k);
    forall i | 0 <= i < |ft.servers|
      ensures ft.servers[i].HostKey? && ft.servers[i] in ft.graph.nodes
      ensures ft.graph.nodes[ft.servers[i]].id == Id(ft.servers[i])
      ensures ft.graph.nodes[ft.servers[i]].coords == Some(CoordsOf(ft.servers[i]))
    {
      GenerateHost(k, ft.servers[i]);
    }
  }

  lemma GeneratedClosed(k: int)
    ensures var ft := Generate(k);
      ValidVisits(ft.graph, Visits(ft.graph, ft.switches)) && Closed(ft.graph, Visits(ft.graph, ft.switches))
  {
    var ft := Generate(k);
    VisitsValid(ft.graph, ft.switches);
    forall v | v in Visits(ft.graph, ft.switches)
      ensures LinkOf(ft.graph, v).Some?
    {
      GeneratedVisits(k, v);
      GeneratedLinkOf(k, v);
    }
  }

  /** The generated tree builds: every switch id maps to a dpid, every server
      has coordinates, and every edge has both ends. */
  lemma GeneratedNetSucceeds(k: int)
    ensures var ft := Generate(k);
      FattreeNet(ft.graph, ft.switches, ft.servers).Success?
  {
    var ft := Generate(k);
    FattreeNetOutcome(ft.graph, ft.switches, ft.servers);
    GeneratedIdsMap(k);
    GeneratedPlaced(k);
    GeneratedClosed(k);
  }

  /** For the generated tree, switch i is declared under its id with the dpid
      of the naming scheme, and host i under its id with the address
      10.pod.edge.(idx+2) and mask /8. */
  lemma GeneratedNetNodes(k: int)
    ensures var ft := Generate(k);
      && FattreeNet(ft.graph, ft.switches, ft.servers).Success?
      && var d := FattreeNet(ft.graph, ft.switches, ft.servers).value;
      && |d.switches| == |ft.switches|
      && (forall i :: 0 <= i < |ft.switches| ==>
            d.switches[i] == SwitchDecl(Id(ft.switches[i]), DpidOf(ft.switches[i]) as int))
      && |d.hosts| == |ft.servers|
      && (forall i :: 0 <= i < |ft.servers| ==>
            ft.servers[i].HostKey? && d.hosts[i] == HostDecl(Id(ft.servers[i]), Dotted(HostAddress(ft.servers[i])) + "/8"))
  {
    var ft := Generate(k);
    GeneratedNetSucceeds(k);
    FattreeNetNodes(ft.graph, ft.switches, ft.servers);
    GeneratedIdsMap(k);
    GeneratedPlaced(k);
    forall i | 0 <= i < |ft.servers|
      ensures HostIp(CoordsOf(ft.servers[i])) == Dotted(HostAddress(ft.servers[i])) + "/8"
    {
      HostIpDotted(ft.servers[i]);
    }
  }

  /** Calls without repeats whose keys differ have as many keys as calls. */
  lemma PairKeysCard(pairs: seq<Pair>)
    requires NoDup(pairs)
    requires forall x, y :: x in pairs && y in pairs && PairKey(x) == PairKey(y) ==> x == y
    ensures |set x | x in pairs :: PairKey(x)| == |pairs|
  {
    ImageCard(pairs, PairKey);
    assert Image(pairs, PairKey) == set x | x in pairs :: PairKey(x);
  }

  /** With unique ids there are as many link keys as generator calls. */
  lemma PairKeysCount(k: int)
    requires Half(k) <= 10
    ensures |set x | x in Pairs(k) :: PairKey(x)| == 3 * Pods(k) * Half(k) * Half(k)
  {
    PairsNoDup(k);
    forall x, y | x in Pairs(k) && y in Pairs(k) && PairKey(x) == PairKey(y)
      ensures x == y
    {
      PairKeyInjective(k, x, y);
    }
    PairKeysCard(Pairs(k));
    PairsLen(k);
  }

  /** For the generated tree with unique ids (k/2 at most 10), the declared
      links are exactly the generator's links, one per link:
      3 * k * (k/2)^2 of them. */
  lemma GeneratedNetLinks(k: int)
    requires Half(k) <= 10
    ensures var ft := Generate(k);
      && FattreeNet(ft.graph, ft.switches, ft.servers).Success?
      && var links := FattreeNet(ft.graph, ft.switches, ft.servers).value.links;
      && (set l | l in links :: LinkKey(l)) == (set x | x in Pairs(k) :: PairKey(x))
      && KeysDistinct(links)
      && |links| == 3 * Pods(k) * Half(k) * Half(k)
  {
    var ft := Generate(k);
    GeneratedNetSucceeds(k);
    FattreeNetLinks(ft.graph, ft.switches, ft.servers);
    GeneratedVisitedKeys(k);
    PairKeysCount(k);
  }
}
