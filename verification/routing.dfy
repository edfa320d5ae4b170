/** The controller's packet-in decision (`_packet_in_handler`,
    `get_host_ports` and `switch_features_handler` of lab2/sp_routing.py).

    A frame that reaches the controller carries an ARP or IPv4 source and
    destination address. The controller learns where the source sits when
    the frame enters at the source's home edge switch; at the destination's
    home edge switch it delivers to the learned port or to every host port;
    anywhere else it installs a /24 rule towards the next hop of a shortest
    path to the destination's home edge switch. The OpenFlow messages are
    modelled as values, in the order they are sent. */
module Routing {
  import opened Wrappers
  import opened Discovery
  import opened PathFinder
  import opened Addressing

  const LLDP: int := 0x88cc
  const IPV4: int := 0x0800
  /** Port numbers at or above this one are reserved (`OFPP_MAX`). */
  const OFPP_MAX: int := 0xffffff00
  const OFPP_CONTROLLER: int := 0xfffffffd
  /** `max_len` asking the switch to send the whole packet (`OFPCML_NO_BUFFER`). */
  const OFPCML_NO_BUFFER: int := 0xffff
  /** `buffer_id` of a packet-in whose packet the switch did not buffer. */
  const OFP_NO_BUFFER: int := 0xffffffff
  /** Priority of every rule the handler installs. */
  const FORWARD_PRIORITY: nat := 10
  const SLASH24: Ipv4 := Ipv4(255, 255, 255, 0)

  type Bytes = seq<bv8>

  /** The source and destination address of an ARP or IPv4 header. */
  datatype IpPair = IpPair(src: Ipv4, dst: Ipv4)

  /** The parsed frame: its ethertype and the ARP and IPv4 headers found in it. */
  datatype Frame = Frame(ethertype: int, arp: Option<IpPair>, ipv4: Option<IpPair>)

  /** A packet-in: the switch, its port numbers, the ingress port, the buffer
      id and the raw data. */
  datatype PacketIn = PacketIn(dpid: Dpid, ports: set<Port>, inPort: Port, bufferId: int, frame: Frame, data: Bytes)

  /** `OFPActionOutput(port, max_len)`; `None` is the library's default length. */
  datatype Action = Output(port: Port, maxLen: Option<int>)

  datatype Match =
    | AnyPacket
    | Ipv4Dst(ethType: int, dst: Ipv4, mask: Option<Ipv4>)

  datatype Message =
    | FlowMod(dpid: Dpid, priority: nat, pattern: Match, actions: set<Action>)
    | PacketOut(dpid: Dpid, bufferId: int, inPort: Port, actions: set<Action>, data: Option<Bytes>)

  /** `ip_location[ip] = (dpid, in_port)` */
  type Location = (Dpid, Port)

  /** The location table after the event, the messages sent, and whether
      `dijkstra` raised KeyError. */
  datatype Handled = Handled(ipLocation: map<string, Location>, sent: seq<Message>, raised: bool)

  // ---------------------------------------------------------------- matching

  /** An octet under a mask octet: their bitwise AND, one bit at a time from
      the lowest. */
  function Masked(a: nat, m: nat): nat
  {
    if a == 0 || m == 0 then 0 else 2 * Masked(a / 2, m / 2) + (a % 2) * (m % 2)
  }

  function Pow2(n: nat): (p: nat)
    ensures p >= 1
  {
    if n == 0 then 1 else 2 * Pow2(n - 1)
  }

  predicate InRange(ip: Ipv4)
  {
    ip.a < 256 && ip.b < 256 && ip.c < 256 && ip.d < 256
  }

  /** Whether a packet with this ethertype and destination address hits the match. */
  predicate Matches(m: Match, ethType: int, ip: Ipv4)
  {
    if m.AnyPacket? then true
    else if m.ethType != ethType then false
    else if m.mask.None? then ip == m.dst
    else forall i :: 0 <= i < 4 ==>
      Masked(OctetValue(ip, i), OctetValue(m.mask.value, i)) == Masked(OctetValue(m.dst, i), OctetValue(m.mask.value, i))
  }

  /** Under mask octet 255 an octet keeps every bit; under 0 it keeps none. */
  lemma MaskedOctet(a: nat, b: nat)
    requires a < 256 && b < 256
    ensures Masked(a, 255) == Masked(b, 255) <==> a == b
    ensures Masked(a, 0) == Masked(b, 0)
  {
    KeepAll(a);
    KeepAll(b);
  }

  lemma KeepAll(a: nat)
    requires a < 256
    ensures Masked(a, 255) == a && Masked(a, 0) == 0
  {
    assert Pow2(8) == 256;
    KeepLow(a, 8);
  }

  /** A mask of n one-bits keeps every number below 2^n unchanged. */
  lemma {:induction false} KeepLow(a: nat, n: nat)
    requires a < Pow2(n)
    ensures Masked(a, Pow2(n) - 1) == a
  {
    if a != 0 {
      assert n > 0;
      KeepLow(a / 2, n - 1);
    }
  }

  /** The rule `ipv4_dst=(dst, "255.255.255.0")` catches exactly the IPv4
      packets whose destination shares the first three octets with dst. */
  lemma Slash24Matches(dst: Ipv4, x: Ipv4, ethType: int)
    requires InRange(dst) && InRange(x)
    ensures Matches(Ipv4Dst(IPV4, dst, Some(SLASH24)), ethType, x) <==> ethType == IPV4 && InSlash24(x, dst)
  {
    MaskedOctet(x.a, dst.a);
    MaskedOctet(x.b, dst.b);
    MaskedOctet(x.c, dst.c);
    MaskedOctet(x.d, dst.d);
    assert OctetValue(x, 0) == x.a && OctetValue(x, 1) == x.b && OctetValue(x, 2) == x.c && OctetValue(x, 3) == x.d;
    assert OctetValue(dst, 0) == dst.a && OctetValue(dst, 1) == dst.b && OctetValue(dst, 2) == dst.c && OctetValue(dst, 3) == dst.d;
    assert OctetValue(SLASH24, 0) == 255 && OctetValue(SLASH24, 1) == 255 && OctetValue(SLASH24, 2) == 255 && OctetValue(SLASH24, 3) == 0;
  }

  /** Every packet the /24 rule for dst catches is homed at the same edge
      switch as dst, so the rule never diverts another pod's or another edge
      switch's traffic. */
  lemma Slash24RuleScope(dst: Ipv4, x: Ipv4)
    requires InRange(dst) && InRange(x) && Matches(Ipv4Dst(IPV4, dst, Some(SLASH24)), IPV4, x)
    ensures HomeDpid(x.b, x.c) == HomeDpid(dst.b, dst.c)
    ensures IpToEdgeDpid(Dotted(x)) == IpToEdgeDpid(Dotted(dst)) == Some(HomeDpid(dst.b, dst.c) as int)
  {
    Slash24Matches(dst, x, IPV4);
    Slash24SameHome(x, dst);
    DottedHomeDpid(dst);
  }

  // ---------------------------------------------------------------- table miss

  /** `switch_features_handler`: the rule sending every unmatched packet to
      the controller, whole and unbuffered. */
  function TableMiss(dpid: Dpid): (m: Message)
    ensures m.FlowMod? && m.dpid == dpid
    ensures forall eth, ip :: Matches(m.pattern, eth, ip)
    ensures m.priority < FORWARD_PRIORITY
    ensures m.actions == {Output(OFPP_CONTROLLER, Some(OFPCML_NO_BUFFER))}
  {
    FlowMod(dpid, 0, AnyPacket, {Output(OFPP_CONTROLLER, Some(OFPCML_NO_BUFFER))})
  }

  // ---------------------------------------------------------------- host ports

  /** The ports of the switch that lead to other switches: `graph.get(dpid, {}).values()`. */
  function InterSwitchPorts(graph: DGraph, dpid: Dpid): set<Port>
  {
    if dpid in graph then set d | d in graph[dpid] :: graph[dpid][d] else {}
  }

  /** `get_host_ports` */
  function HostPorts(ports: set<Port>, graph: DGraph, dpid: Dpid): set<Port>
  {
    (set p | p in ports && p < OFPP_MAX) - InterSwitchPorts(graph, dpid)
  }

  /** A host port is a real port of the switch that no link of the graph
      leaves through; a switch the graph does not know has no such links. */
  lemma HostPortsMeaning(ports: set<Port>, graph: DGraph, dpid: Dpid, p: Port)
    ensures p in HostPorts(ports, graph, dpid) <==>
              && p in ports && p < OFPP_MAX
              && !(dpid in graph && exists d :: d in graph[dpid] && graph[dpid][d] == p)
    ensures dpid !in graph ==> HostPorts(ports, graph, dpid) == set q | q in ports && q < OFPP_MAX
  {
    if dpid in graph {
      var links := graph[dpid];
      forall d | d in links
        ensures links[d] in InterSwitchPorts(graph, dpid)
      {
      }
    }
  }

  // ---------------------------------------------------------------- the handler

  /** The addresses the handler reads: ARP first, then IPv4; `None` for any
      other frame. */
  function Addresses(f: Frame): (r: Option<IpPair>)
    ensures r.None? <==> f.arp.None? && f.ipv4.None?
    ensures f.arp.Some? ==> r == f.arp
    ensures f.arp.None? && f.ipv4.Some? ==> r == f.ipv4
  {
    if f.arp.Some? then f.arp else f.ipv4
  }

  /** The frames the handler acts on: not LLDP, and ARP or IPv4. */
  predicate Handles(ev: PacketIn)
  {
    ev.frame.ethertype != LLDP && Addresses(ev.frame).Some?
  }

  /** The packet-out's `data`: the packet itself only when the switch did not buffer it. */
  function DataFor(ev: PacketIn): Option<Bytes>
  {
    if ev.bufferId == OFP_NO_BUFFER then Some(ev.data) else None
  }

  function Outputs(ports: set<Port>): (acts: set<Action>)
    ensures forall a :: a in acts <==> a.maxLen.None? && a.port in ports
  {
    set p | p in ports :: Output(p, None)
  }

  /** The packet-out releasing the packet through the actions. */
  function Release(ev: PacketIn, acts: set<Action>): Message
  {
    PacketOut(ev.dpid, ev.bufferId, ev.inPort, acts, DataFor(ev))
  }

  /** `broadcast_ports` without `in_port`: the learned port, or the host ports. */
  function LocalPorts(loc: map<string, Location>, graph: DGraph, ev: PacketIn, dst: Ipv4): set<Port>
  {
    var broadcast := if Dotted(dst) in loc then {loc[Dotted(dst)].1} else HostPorts(ev.ports, graph, ev.dpid) - {ev.inPort};
    broadcast - {ev.inPort}
  }

  /** The messages at the destination's edge switch: an exact rule for a
      learned destination, then the packet-out. */
  function LocalReply(loc: map<string, Location>, ev: PacketIn, dst: Ipv4, ports: set<Port>): seq<Message>
  {
    var acts := Outputs(ports);
    if Dotted(dst) in loc then [FlowMod(ev.dpid, FORWARD_PRIORITY, Ipv4Dst(IPV4, dst, None), acts), Release(ev, acts)]
    else [Release(ev, acts)]
  }

  /** The messages towards the next hop of the path: a /24 rule, then the packet-out. */
  function ForwardReply(graph: DGraph, ev: PacketIn, dst: Ipv4, path: seq<Dpid>): seq<Message>
    requires |path| < 2 || IsPath(graph, path)
  {
    if |path| < 2 then []
    else
      var acts := {Output(graph[path[0]][path[1]], None)};
      [FlowMod(ev.dpid, FORWARD_PRIORITY, Ipv4Dst(IPV4, dst, Some(SLASH24)), acts), Release(ev, acts)]
  }

  /** The location table after learning from the frame's source address. */
  function Learn(loc: map<string, Location>, ev: PacketIn, src: Ipv4): map<string, Location>
  {
    if IpToEdgeDpid(Dotted(src)) == Some(ev.dpid) then loc[Dotted(src) := (ev.dpid, ev.inPort)] else loc
  }

  /** The source is learned exactly when the frame enters at the source's
      home edge switch, read off the address's pod and edge octets. */
  lemma LearnMeaning(loc: map<string, Location>, ev: PacketIn, src: Ipv4)
    ensures Learn(loc, ev, src) == if HomeOf(src) == ev.dpid then loc[Dotted(src) := (ev.dpid, ev.inPort)] else loc
  {
    DottedHomeDpid(src);
  }

  function Src(ev: PacketIn): Ipv4
    requires Handles(ev)
  {
    Addresses(ev.frame).value.src
  }

  function Dst(ev: PacketIn): Ipv4
    requires Handles(ev)
  {
    Addresses(ev.frame).value.dst
  }

  /** The dpid of an address's home edge switch, read off its pod and edge octets. */
  function HomeOf(ip: Ipv4): Dpid
  {
    HomeDpid(ip.b, ip.c) as int
  }

  /** At the destination's edge switch the reply never sends back through
      the ingress port: a learned destination gets an exact rule and the
      packet through its port, an unlearned one the packet through every
      other host port, and an empty port set gets nothing. */
  lemma LocalReplyMeaning(loc: map<string, Location>, graph: DGraph, ev: PacketIn, dst: Ipv4)
    ensures var ports := LocalPorts(loc, graph, ev, dst);
      forall m, a :: m in LocalReply(loc, ev, dst, ports) && a in m.actions ==> a.port != ev.inPort
    ensures Dotted(dst) in loc && loc[Dotted(dst)].1 != ev.inPort ==>
              var acts := {Output(loc[Dotted(dst)].1, None)};
              && LocalPorts(loc, graph, ev, dst) == {loc[Dotted(dst)].1}
              && LocalReply(loc, ev, dst, LocalPorts(loc, graph, ev, dst))
                 == [FlowMod(ev.dpid, FORWARD_PRIORITY, Ipv4Dst(IPV4, dst, None), acts), Release(ev, acts)]
    ensures Dotted(dst) in loc && loc[Dotted(dst)].1 == ev.inPort ==> LocalPorts(loc, graph, ev, dst) == {}
    ensures Dotted(dst) !in loc ==>
              var ports := HostPorts(ev.ports, graph, ev.dpid) - {ev.inPort};
              && LocalPorts(loc, graph, ev, dst) == ports
              && LocalReply(loc, ev, dst, ports) == [Release(ev, Outputs(ports))]
  {
    var ports := LocalPorts(loc, graph, ev, dst);
    if Dotted(dst) in loc && loc[Dotted(dst)].1 != ev.inPort {
      assert Outputs({loc[Dotted(dst)].1}) == {Output(loc[Dotted(dst)].1, None)};
    }
  }

  /** The path branch of the handler, from the packet's switch towards the
      destination's home edge switch `home`, which the graph knows. */
  method Forward(graph: DGraph, ev: PacketIn, dst: Ipv4, home: Dpid) returns (sent: seq<Message>, raised: bool)
    requires home in graph
    ensures raised ==> sent == []
    ensures home == ev.dpid ==> sent == [] && !raised
    ensures home != ev.dpid && ev.dpid !in graph ==> raised
    ensures raised ==> ev.dpid !in graph || !Closed(graph, ev.dpid)
    ensures !raised ==> (sent == [] <==> home == ev.dpid || !Reachable(graph, ev.dpid, home))
    ensures sent != [] ==>
              exists p ::
                && PathFromTo(graph, p, ev.dpid, home) && |p| >= 2
                && (forall q :: PathFromTo(graph, q, ev.dpid, home) ==> |p| <= |q|)
                && var acts := {Output(graph[p[0]][p[1]], None)};
                   sent == [FlowMod(ev.dpid, FORWARD_PRIORITY, Ipv4Dst(IPV4, dst, Some(SLASH24)), acts), Release(ev, acts)]
  {
    var path := Dijkstra(graph, ev.dpid, home);
    if path.Failure? {
      return [], true;
    }
    var p := path.value;
    sent, raised := ForwardReply(graph, ev, dst, p), false;
    if sent != [] {
      assert PathFromTo(graph, p, ev.dpid, home) && |p| >= 2;
    }
  }

  /** What the handler sends at the destination's home edge switch: never
      back through the ingress port; to a learned destination an exact rule
      and the packet through its port (nothing when that is the ingress
      port); to an unlearned one the packet through every other host port
      (nothing when there is none). KeyError cannot arise here. */
  predicate DeliversLocally(graph: DGraph, loc: map<string, Location>, ev: PacketIn, dst: Ipv4, sent: seq<Message>, raised: bool)
  {
    && !raised
    && (forall m, a :: m in sent && a in m.actions ==> a.port != ev.inPort)
    && (Dotted(dst) in loc ==>
          var port := loc[Dotted(dst)].1;
          var acts := {Output(port, None)};
          sent == if port == ev.inPort then []
                  else [FlowMod(ev.dpid, FORWARD_PRIORITY, Ipv4Dst(IPV4, dst, None), acts), Release(ev, acts)])
    && (Dotted(dst) !in loc ==>
          var ports := HostPorts(ev.ports, graph, ev.dpid) - {ev.inPort};
          sent == if ports == {} then [] else [Release(ev, Outputs(ports))])
  }

  /** What the handler sends at any other switch: nothing when the home
      switch is unknown or unreachable; otherwise a /24 rule and the packet
      towards the second switch of a shortest path. KeyError arises when the
      packet's switch is unknown, and only then or when a link leaves the graph. */
  ghost predicate ForwardsOnPath(graph: DGraph, ev: PacketIn, dst: Ipv4, sent: seq<Message>, raised: bool)
  {
    var home := HomeOf(dst);
    && (raised ==> sent == [])
    && (home !in graph ==> sent == [] && !raised)
    && (home in graph && ev.dpid !in graph ==> raised)
    && (raised ==> ev.dpid !in graph || !Closed(graph, ev.dpid))
    && (!raised ==> (sent == [] <==> home !in graph || !Reachable(graph, ev.dpid, home)))
    && (sent != [] ==>
          exists p ::
            && PathFromTo(graph, p, ev.dpid, home) && |p| >= 2
            && (forall q :: PathFromTo(graph, q, ev.dpid, home) ==> |p| <= |q|)
            && var acts := {Output(graph[p[0]][p[1]], None)};
               sent == [FlowMod(ev.dpid, FORWARD_PRIORITY, Ipv4Dst(IPV4, dst, Some(SLASH24)), acts), Release(ev, acts)])
  }

  /** Everything the handler does after learning: deliver at the
      destination's edge switch, otherwise forward along a shortest path. */
  method Decide(graph: DGraph, loc: map<string, Location>, ev: PacketIn, dst: Ipv4) returns (sent: seq<Message>, raised: bool)
    ensures HomeOf(dst) == ev.dpid ==> DeliversLocally(graph, loc, ev, dst, sent, raised)
    ensures HomeOf(dst) != ev.dpid ==> ForwardsOnPath(graph, ev, dst, sent, raised)
  {
    DottedHomeDpid(dst);
    var dstEdge := IpToEdgeDpid(Dotted(dst));
    if dstEdge == Some(ev.dpid) {
      var ports := LocalPorts(loc, graph, ev, dst);
      LocalReplyMeaning(loc, graph, ev, dst);
      if ports != {} {
        return LocalReply(loc, ev, dst, ports), false;
      }
    }
    if dstEdge.Some? && dstEdge.value in graph {
      sent, raised := Forward(graph, ev, dst, dstEdge.value);
      return;
    }
    return [], false;
  }

  /** `_packet_in_handler`. LLDP frames and frames that are neither ARP nor
      IPv4 change nothing and send nothing; otherwise the source is learned
      exactly when the frame enters at the source's home edge switch, and the
      frame is delivered or forwarded. The graph is an input only: packet
      handling never changes the topology. */
  method HandlePacketIn(graph: DGraph, loc: map<string, Location>, ev: PacketIn) returns (r: Handled)
    ensures !Handles(ev) ==> r == Handled(loc, [], false)
    ensures Handles(ev) ==>
              r.ipLocation == if HomeOf(Src(ev)) == ev.dpid then loc[Dotted(Src(ev)) := (ev.dpid, ev.inPort)] else loc
    ensures Handles(ev) && HomeOf(Dst(ev)) == ev.dpid ==> DeliversLocally(graph, r.ipLocation, ev, Dst(ev), r.sent, r.raised)
    ensures Handles(ev) && HomeOf(Dst(ev)) != ev.dpid ==> ForwardsOnPath(graph, ev, Dst(ev), r.sent, r.raised)
  {
    if ev.frame.ethertype == LLDP {
      return Handled(loc, [], false);
    }
    var ips := Addresses(ev.frame);
    if ips.None? {
      return Handled(loc, [], false);
    }
    assert Handles(ev) && Src(ev) == ips.value.src && Dst(ev) == ips.value.dst;
    LearnMeaning(loc, ev, Src(ev));
    var learned := Learn(loc, ev, Src(ev));
    var sent, raised := Decide(graph, learned, ev, Dst(ev));
    r := Handled(learned, sent, raised);
  }
}
