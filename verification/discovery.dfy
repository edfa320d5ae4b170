/** The controller's view of the network (`get_topology_data` of
    lab2/sp_routing.py).

    On every switch-enter event the controller forgets its graph, adds one
    empty neighbour map per switch in the snapshot, and then records every
    link of the snapshot as `graph[src][dst] = src_port`. A link whose source
    is not one of the snapshot's switches raises KeyError; the entries written
    before it stay. */
module Discovery {

  type Dpid = int
  type Port = int

  /** `self.graph`: dpid -> {neighbour dpid: output port}. */
  type DGraph = map<Dpid, map<Dpid, Port>>

  /** One link of the snapshot: source switch, source port, destination switch. */
  datatype LinkRec = LinkRec(src: Dpid, srcPort: Port, dst: Dpid)

  /** The graph after the event and whether KeyError was raised. */
  datatype Rebuilt = Rebuilt(graph: DGraph, keyError: bool)

  /** The graph after the switch loop: every switch with no neighbours. */
  function Fresh(switches: seq<Dpid>): (g: DGraph)
    ensures g.Keys == set s | s in switches
    ensures forall s :: s in g ==> g[s] == map[]
  {
    map s | s in switches :: map[]
  }

  /** The link loop, in snapshot order. */
  function Record(g: DGraph, links: seq<LinkRec>): Rebuilt
  {
    if |links| == 0 then Rebuilt(g, false)
    else
      var l := links[0];
      if l.src !in g then Rebuilt(g, true)
      else Record(g[l.src := g[l.src][l.dst := l.srcPort]], links[1..])
  }

  /** `get_topology_data` on a snapshot of switches and links. */
  function Rebuild(switches: seq<Dpid>, links: seq<LinkRec>): Rebuilt
  {
    Record(Fresh(switches), links)
  }

  /** Link i sets the entry (s, d). */
  predicate Writes(l: LinkRec, s: Dpid, d: Dpid)
  {
    l.src == s && l.dst == d
  }

  /** Link i is the last one of the snapshot that sets the entry (s, d). */
  predicate LastWrite(links: seq<LinkRec>, i: int, s: Dpid, d: Dpid)
  {
    0 <= i < |links| && Writes(links[i], s, d)
    && forall j :: i < j < |links| ==> !Writes(links[j], s, d)
  }

  /** Recording links never adds or removes a switch. */
  lemma {:induction false} RecordKeys(g: DGraph, links: seq<LinkRec>)
    ensures Record(g, links).graph.Keys == g.Keys
  {
    if |links| > 0 && links[0].src in g {
      var l := links[0];
      RecordKeys(g[l.src := g[l.src][l.dst := l.srcPort]], links[1..]);
    }
  }

  /** Recording fails exactly when some link starts outside the graph. */
  lemma {:induction false} RecordKeyError(g: DGraph, links: seq<LinkRec>)
    ensures Record(g, links).keyError <==> exists i :: 0 <= i < |links| && links[i].src !in g
  {
    if |links| > 0 && links[0].src in g {
      var l := links[0];
      var g' := g[l.src := g[l.src][l.dst := l.srcPort]];
      RecordKeyError(g', links[1..]);
      if exists i :: 0 <= i < |links| && links[i].src !in g {
        var i :| 0 <= i < |links| && links[i].src !in g;
        assert links[1..][i - 1] == links[i];
      }
      if exists i :: 0 <= i < |links[1..]| && links[1..][i].src !in g' {
        var i :| 0 <= i < |links[1..]| && links[1..][i].src !in g';
        assert links[i + 1] == links[1..][i];
      }
    } else if |links| > 0 {
      assert links[0].src !in g;
    }
  }

  /** After a successful recording, entry (s, d) is the port of the last
      link that writes it, or the old entry when no link writes it. */
  lemma {:induction false} RecordEntry(g: DGraph, links: seq<LinkRec>, s: Dpid, d: Dpid)
    requires !Record(g, links).keyError && s in g
    ensures var r := Record(g, links).graph;
      && s in r
      && (d in r[s] <==> d in g[s] || exists i :: 0 <= i < |links| && Writes(links[i], s, d))
      && (forall i :: LastWrite(links, i, s, d) ==> r[s][d] == links[i].srcPort)
      && ((forall i :: 0 <= i < |links| ==> !Writes(links[i], s, d)) && d in g[s] ==> r[s][d] == g[s][d])
  {
    RecordKeys(g, links);
    if |links| > 0 {
      var l, rest := links[0], links[1..];
      var g' := g[l.src := g[l.src][l.dst := l.srcPort]];
      RecordEntry(g', rest, s, d);
      forall i | 0 <= i < |links| && Writes(links[i], s, d) && i > 0
        ensures Writes(rest[i - 1], s, d)
      {
        assert rest[i - 1] == links[i];
      }
      forall i | 0 <= i < |rest| && Writes(rest[i], s, d)
        ensures Writes(links[i + 1], s, d)
      {
        assert rest[i] == links[i + 1];
      }
      forall i | LastWrite(links, i, s, d)
        ensures Record(g, links).graph[s][d] == links[i].srcPort
      {
        if i > 0 {
          assert LastWrite(rest, i - 1, s, d) by {
            forall j | i - 1 < j < |rest|
              ensures !Writes(rest[j], s, d)
            {
              assert rest[j] == links[j + 1];
            }
          }
        } else {
          assert forall j :: 0 <= j < |rest| ==> !Writes(rest[j], s, d) by {
            forall j | 0 <= j < |rest|
              ensures !Writes(rest[j], s, d)
            {
              assert rest[j] == links[j + 1];
            }
          }
        }
      }
    }
  }

  /** The rebuilt graph has exactly the snapshot's switches as keys, whatever
      the graph was before and whether or not a link raised KeyError. */
  lemma RebuildKeys(switches: seq<Dpid>, links: seq<LinkRec>)
    ensures Rebuild(switches, links).graph.Keys == set s | s in switches
  {
    RecordKeys(Fresh(switches), links);
  }

  /** Rebuilding raises KeyError exactly when a link starts at a switch that
      is not in the snapshot. */
  lemma RebuildKeyError(switches: seq<Dpid>, links: seq<LinkRec>)
    ensures Rebuild(switches, links).keyError <==> exists i :: 0 <= i < |links| && links[i].src !in switches
  {
    RecordKeyError(Fresh(switches), links);
  }

  /** Without KeyError, d is a neighbour of s exactly when some link goes
      from s to d, and the port is that of the last such link. The map is
      directed: a link s -> d says nothing about d -> s. */
  lemma RebuildEntries(switches: seq<Dpid>, links: seq<LinkRec>, s: Dpid, d: Dpid)
    requires !Rebuild(switches, links).keyError && s in switches
    ensures var g := Rebuild(switches, links).graph;
      && s in g
      && (d in g[s] <==> exists i :: 0 <= i < |links| && Writes(links[i], s, d))
      && forall i :: LastWrite(links, i, s, d) ==> g[s][d] == links[i].srcPort
  {
    RecordEntry(Fresh(switches), links, s, d);
  }

  /** A snapshot with a link in one direction only yields a one-way entry. */
  lemma RebuildOneWay()
    ensures var g := Rebuild([1, 2], [LinkRec(1, 3, 2)]).graph;
      !Rebuild([1, 2], [LinkRec(1, 3, 2)]).keyError && 2 in g[1] && 2 in g && 1 !in g[2]
  {
    RebuildKeyError([1, 2], [LinkRec(1, 3, 2)]);
    RebuildEntries([1, 2], [LinkRec(1, 3, 2)], 1, 2);
    RebuildEntries([1, 2], [LinkRec(1, 3, 2)], 2, 1);
  }
}
