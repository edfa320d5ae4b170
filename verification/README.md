# Fat-tree topology and shortest-path controller, in Dafny

This project models a small software-defined-networking lab. It has three parts.

- **The topology builder** (`lab2/topo.py`) builds a k-ary fat tree as a graph of `Node`s joined by `Edge`s:
  - (k/2)² core switches;
  - k pods of k/2 aggregation and k/2 edge switches each;
  - k/2 hosts under every edge switch.
- **The emulator script** (`lab2/fat-tree.py`) turns that graph into emulator declarations:
  - one switch per switch node, with a numeric datapath id (dpid) derived from the node's name;
  - one host per host node, with address `10.pod.edge.(idx+2)/8`;
  - one link per edge, with duplicate edges removed through a sorted pair of names.
- **The controller** (`lab2/sp_routing.py`) does four things:
  - it rebuilds a dpid adjacency map on every switch-enter event;
  - it installs a table-miss rule on every switch;
  - on every packet-in it learns where source addresses sit;
  - it delivers packets at the destination's home edge switch, and elsewhere installs a /24 rule towards the next hop of a hop-count Dijkstra shortest path.

The modules follow that structure:

| module | file | models |
|---|---|---|
| `Wrappers` | wrappers.dfy | `Option` and `Result` |
| `Seqs` | seqs.dfy | Python's nested `for … append` loops (`ForRange`), counting, duplicate-freedom, partial maps |
| `Text` | text.dfy | `str(n)`, `int(s)`, `str.split`, `'.'.join`, and the string order behind `sorted` |
| `Topo` | topo.dfy | `Node`/`Edge` as an incidence graph: edges are indices into an edge table, and a node's `edges` list is a list of indices |
| `FatTree` | fattree.dfy | `Fattree.generate(k)`: the switch and server lists and the exact order of `add_edge` calls |
| `Addressing` | addressing.dfy | `ip_to_edge_dpid`, and dotted-quad addresses |
| `FatTreeNet` | fattree_net.dfy | `FattreeNet.__init__`: the dpid mapper, host addresses, link de-duplication |
| `Discovery` | discovery.dfy | `get_topology_data` |
| `PathFinder` | dijkstra.dfy | `dijkstra`, with `dist` as `Option<nat>` and the heap as a multiset |
| `Routing` | routing.dfy | `_packet_in_handler`, `get_host_ports`, and the table-miss rule |

Python exceptions are modelled as explicit outcomes:

- `ValueError` from `list.remove`;
- `AttributeError` on a detached edge;
- `KeyError` in the controller.

Mutation of `self` becomes a returned value. Outgoing OpenFlow messages become a sequence of message values, in sending order.

## Model

| member | source | states |
|---|---|---|
| `Topo.AddEdge` | lab2/topo.py:42-48 | `add_edge` creates one edge whose left end is `self` and whose right end is the other node, and appends that edge to both nodes' lists (twice for a self-loop); no other node or edge changes |
| `Topo.AddEdgePreservesWf` | lab2/topo.py:42-48 | after `add_edge`, each node's edge list still holds each edge exactly as often as the edge has that node as an end |
| `Topo.RemoveEdge` | lab2/topo.py:51-52 | `remove_edge` drops one occurrence of the edge from this node's list only, raises ValueError when the edge is not listed, and leaves everything else alone |
| `Topo.EdgeRemoveDetaches` | lab2/topo.py:28-32 | `Edge.remove` takes the edge out of both endpoints' lists, sets both of its ends to `None`, keeps lists and edges consistent, and leaves other nodes and edges untouched |
| `Topo.RemoveEdgeBreaksSymmetry` | lab2/topo.py:42-59 | a concrete graph: after `add_edge` and a one-sided `remove_edge`, b still lists a as a neighbour while a no longer lists b, and the lists no longer agree with the edges |
| `Topo.EdgeRemoveTwiceRaises` | lab2/topo.py:28-32 | a second `Edge.remove` on the same edge raises AttributeError at once, because its left end is `None`, and changes nothing |
| `Topo.EdgeRemoveAfterOneSided` | lab2/topo.py:28-32 | after `b.remove_edge(edge)` on an edge (a, b), `Edge.remove` drops the edge from a's list and then raises ValueError; a's list stays shortened and both ends stay set |
| `Topo.IsNeighbor` | lab2/topo.py:55-59 | the scan returns True exactly when some edge in the node's own list has the other node as an end |
| `Topo.ListedNeighborIffLinked` | lab2/topo.py:55-59 | in a consistent graph, `is_neighbor` holds exactly when some edge of the graph joins the two nodes |
| `Topo.NeighborSymmetric` | lab2/topo.py:42-59 | in a consistent graph, `a.is_neighbor(b)` equals `b.is_neighbor(a)` |
| `Topo.SelfNeighbor` | lab2/topo.py:55-59 | a node counts as its own neighbour exactly when its edge list is non-empty |
| `Topo.AddEdgesEdges` | lab2/topo.py:94-118 | a run of `add_edge` calls appends exactly those edges, in call order |
| `Topo.AddEdgesNode` | lab2/topo.py:94-118 | during a run of `add_edge` calls, each node's list gains the new edges that touch it, in call order |
| `Topo.LinkedEdgesOf` | lab2/topo.py:42-48 | two distinct nodes share an edge exactly when `add_edge` was called on them in one order or the other |
| `FatTree.Generate` | lab2/topo.py:69-118 | the generated graph is consistent; its nodes are exactly the fat tree's nodes, `switches` holds exactly the switches and `servers` exactly the hosts |
| `FatTree.SwitchesMem` | lab2/topo.py:74-92 | the switch list holds exactly the cores `c{i}{j}` (i, j < k/2) and the aggregation and edge switches `a{p}{i}`, `e{p}{i}` of every pod p < k |
| `FatTree.ServersMem` | lab2/topo.py:101-109 | the server list holds exactly the hosts `h{p}{e}{x}` with p < k and e, x < k/2 |
| `FatTree.PairsMem` | lab2/topo.py:94-118 | the sequence of `add_edge` calls consists exactly of: edge switch to each same-pod aggregation switch, edge switch to its hosts, aggregation switch i to cores `c{i}{*}` |
| `FatTree.IsLinkEnds` | lab2/topo.py:94-118 | the left end of every generated edge is an edge or aggregation switch, never a host or a core |
| `FatTree.IsLinkAsymmetric` | lab2/topo.py:94-118 | no pair of nodes is joined in both directions |
| `FatTree.GenerateNeighbors` | lab2/topo.py:94-118 | in the generated tree, `is_neighbor` holds exactly for the generated links, in either direction |
| `FatTree.EdgeAggNeighbors` | lab2/topo.py:94-97 | edge switch `e{p}{i}` is adjacent to aggregation switch `a{q}{j}` exactly when p = q |
| `FatTree.EdgeHostNeighbors` | lab2/topo.py:101-110 | edge switch `e{p}{i}` is adjacent to exactly the hosts `h{p}{i}{x}` with x < k/2 |
| `FatTree.HostNeighbors` | lab2/topo.py:101-110 | a host's only neighbour is its own edge switch |
| `FatTree.CoreAggNeighbors` | lab2/topo.py:114-118 | core `c{i}{j}` is adjacent to exactly aggregation switch i of every pod |
| `FatTree.AggCoreBlock` | lab2/topo.py:114-118 | aggregation switch i reaches exactly the flat core indices i·(k/2) to i·(k/2)+k/2-1 |
| `FatTree.GenerateDegree` | lab2/topo.py:94-118 | degrees are: core k; aggregation and edge switch 2·(k/2); host 1 |
| `FatTree.SwitchDegreeIsK` | lab2/topo.py:94-118 | for even k ≥ 2 every switch has degree k |
| `FatTree.GenerateCounts` | lab2/topo.py:74-109 | there are (k/2)² core, k·(k/2) aggregation and k·(k/2) edge switches, and k·(k/2)² hosts |
| `FatTree.GenerateHost` | lab2/topo.py:101-110 | host `h{p}{e}{x}` carries pod p, edge e and idx x with p < k and e, x < k/2, and has exactly one edge |
| `FatTree.GenerateListsNoDup` | lab2/topo.py:74-109 | no node appears twice in `switches` or in `servers` |
| `FatTree.PairsNoDup` | lab2/topo.py:94-118 | no node pair is passed to `add_edge` twice |
| `FatTree.PairsLen` | lab2/topo.py:94-118 | `generate` makes 3·k·(k/2)² `add_edge` calls |
| `FatTree.IdsUnique` | lab2/topo.py:77-103 | for k/2 ≤ 10, different nodes get different ids |
| `FatTree.IdCollision` | lab2/topo.py:88 | for k = 22 the id `a110` names two aggregation switches |
| `Addressing.IpToEdgeDpidMeaning` | lab2/sp_routing.py:271-279 | `ip_to_edge_dpid` returns a value exactly when there are at least three parts, every part is an integer and the pod and edge parts are non-negative; the value is the number written "2", pod, edge |
| `Addressing.IpToEdgeDpidSeparator` | lab2/sp_routing.py:274 | a part that starts with one of the separators 0x1C-0x1F makes `int()` raise, so the answer is `None`; `int()` strips only ASCII space, tab, line feed, vertical tab, form feed and carriage return |
| `Addressing.HomeDpidDigits` | lab2/sp_routing.py:275-277 | `int(f"2{p}{e}")` succeeds exactly for non-negative p and e, and then equals the digits 2, p, e read as one number |
| `Addressing.DottedParts` | lab2/sp_routing.py:274 | splitting a dotted quad at its dots yields its four octet strings |
| `Addressing.OctetsParse` | lab2/sp_routing.py:274 | the four octet strings parse back to the four octets |
| `Addressing.DottedInjective` | lab2/fat-tree.py:64 | different addresses have different dotted forms |
| `Addressing.DottedHomeDpid` | lab2/sp_routing.py:271-277 | `ip_to_edge_dpid` of a dotted quad a.b.c.d is the number "2", b, c |
| `Addressing.Slash24SameHome` | lab2/sp_routing.py:257 | addresses that agree in their first three octets have the same home edge dpid |
| `Addressing.HomeDpidSmall` | lab2/sp_routing.py:277 | for one-digit pod and edge the home dpid is 200 + 10·pod + edge, and different (pod, edge) give different dpids |
| `Text.SortedPairUnordered` | lab2/fat-tree.py:79 | `tuple(sorted([a, b]))` equals `tuple(sorted([c, d]))` exactly when {a, b} and {c, d} are the same pair |
| `FatTreeNet.Replace` | lab2/fat-tree.py:55 | `str.replace` on one character changes exactly the occurrences of that character |
| `FatTreeNet.SwitchDpidOf` | lab2/fat-tree.py:55 | the dpid of a switch is its id with the tier letter a/e/c read as 1/2/3, taken as a decimal number |
| `FatTreeNet.DpidSmall` | lab2/fat-tree.py:55 | for one-digit row and column the dpid is 100·tier + 10·row + column (for example `e10` gives 210, `c01` gives 301) |
| `FatTreeNet.EdgeSwitchDpid` | lab2/fat-tree.py:55 | the dpid of edge switch `e{p}{e}` is the controller's home dpid for pod p and edge e |
| `FatTreeNet.DpidsUnique` | lab2/fat-tree.py:53-56 | for k/2 ≤ 10, different switches get different dpids |
| `FatTreeNet.HostIpDotted` | lab2/fat-tree.py:64 | a host's address string is the dotted quad 10.pod.edge.(idx+2) followed by "/8" |
| `FatTreeNet.HostIpsUnique` | lab2/fat-tree.py:62-66 | different hosts get different addresses |
| `FatTreeNet.HostOctets` | lab2/fat-tree.py:64 | a generated host's address is 10.p.e.d with p < k, e < k/2 and 2 ≤ d ≤ k/2+1 |
| `FatTreeNet.AddressRoundTrip` | lab2/fat-tree.py:55-64 | `ip_to_edge_dpid` of a host's address is the dpid of the host's edge switch, which is a switch adjacent to the host |
| `FatTreeNet.VisitsMem` | lab2/fat-tree.py:74-75 | the nested loop over switches and their edges visits exactly the edges listed by some switch |
| `FatTreeNet.DedupMeaning` | lab2/fat-tree.py:72-89 | the link loop fails, with AttributeError, exactly when it visits a detached edge; otherwise it adds one link per distinct sorted name pair, and each link comes from a visited edge |
| `FatTreeNet.DedupFailurePersists` | lab2/fat-tree.py:74-79 | once the loop has raised, visiting more edges changes nothing |
| `FatTreeNet.AddLinks` | lab2/fat-tree.py:72-89 | the nested loop, run statement by statement, gives the same outcome as the de-duplication over the visit order |
| `FatTreeNet.SwitchesDeclared` | lab2/fat-tree.py:53-57 | every switch gets a declaration exactly when every switch id maps to a decimal dpid |
| `FatTreeNet.HostsDeclared` | lab2/fat-tree.py:62-67 | every host gets a declaration exactly when every server carries pod, edge and idx |
| `FatTreeNet.FattreeNetOutcome` | lab2/fat-tree.py:46-89 | construction succeeds exactly when switch ids map, hosts are placed and no visited edge is detached; ValueError comes first, then AttributeError |
| `FatTreeNet.FattreeNetNodes` | lab2/fat-tree.py:52-68 | one `addSwitch` per switch and one `addHost` per server, in list order, with that node's id, dpid and address |
| `FatTreeNet.FattreeNetLinks` | lab2/fat-tree.py:72-89 | the declared links are keyed by exactly the visited sorted pairs, each key once, each link from a visited edge |
| `FatTreeNet.GeneratedVisitsExact` | lab2/fat-tree.py:74-75 | on a generated tree, the switch loop visits every edge, because every edge has a switch as its left end |
| `FatTreeNet.PairKeyInjective` | lab2/fat-tree.py:79 | for k/2 ≤ 10, different generated edges have different sorted name pairs |
| `FatTreeNet.GeneratedNetSucceeds` | lab2/fat-tree.py:46-89 | building the network from any generated fat tree raises nothing |
| `FatTreeNet.GeneratedNetNodes` | lab2/fat-tree.py:52-68 | for a generated tree, the switch declarations carry each switch's id and dpid, and the host declarations carry each host's address with "/8", in list order |
| `FatTreeNet.GeneratedNetLinks` | lab2/fat-tree.py:72-89 | for k/2 ≤ 10, the declared links are exactly the generated edges, each once: 3·k·(k/2)² links |
| `Discovery.RebuildKeys` | lab2/sp_routing.py:71-89 | after a rebuild the graph's switches are exactly the snapshot's switches; nothing is left over from before |
| `Discovery.RebuildKeyError` | lab2/sp_routing.py:83-88 | the rebuild raises KeyError exactly when some link starts at a switch that is not in the snapshot |
| `Discovery.RebuildEntries` | lab2/sp_routing.py:83-88 | d is a neighbour of s exactly when some link runs from s to d, and the port is that of the last such link |
| `Discovery.RebuildOneWay` | lab2/sp_routing.py:83-88 | a link reported in one direction only gives a one-way entry |
| `PathFinder.Relax` | lab2/sp_routing.py:165-170 | relaxing u at distance d gives distance d+1 and predecessor u to exactly the neighbours it improves, and pushes exactly those entries |
| `PathFinder.HeapMin` | lab2/sp_routing.py:161 | a non-empty heap has an entry that is least in (distance, dpid) order, and that is the entry `heappop` returns |
| `PathFinder.StepInv` | lab2/sp_routing.py:160-170 | each pop-and-relax keeps the following true: distances and predecessors stay consistent, and every reached switch is either still queued at its distance or already expanded. Each step also reaches a new switch or shrinks the heap |
| `PathFinder.Optimal` | lab2/sp_routing.py:160-164 | when the target comes out of the heap, its distance is at most the hop count of any path from the start |
| `PathFinder.Exhausted` | lab2/sp_routing.py:160-170 | when the heap empties without finding the target, no path from the start reaches it |
| `PathFinder.Explore` | lab2/sp_routing.py:155-170 | the search loop ends with a consistent state. It raises only when the start is unknown or a link leaves the graph, and never when start equals target |
| `PathFinder.Trace` | lab2/sp_routing.py:172-178 | path reconstruction terminates, raises exactly when the target is unknown, and returns a shortest path, or `[]` exactly when the target is unreachable |
| `PathFinder.Dijkstra` | lab2/sp_routing.py:154-178 | `dijkstra(s, t)` raises when t is unknown, or s is unknown and different from t. Otherwise it returns `[s]` for s = t, `[]` exactly when t is unreachable, and else a valid path from s to t of minimal hop count |
| `Routing.TableMiss` | lab2/sp_routing.py:133-137 | the table-miss rule matches every packet, sits below every rule the handler installs, and sends the whole packet to the controller |
| `Routing.HostPortsMeaning` | lab2/sp_routing.py:281-308 | a host port is a port of the switch below `OFPP_MAX` that no graph link leaves through; a switch the graph does not know has no inter-switch ports |
| `Routing.LearnMeaning` | lab2/sp_routing.py:209-212 | the source address is recorded at (dpid, in_port) exactly when the packet enters at the source's home edge switch |
| `Routing.LocalReplyMeaning` | lab2/sp_routing.py:217-247 | at the home edge switch: nothing is sent back through `in_port`; a learned destination gets an exact rule and then the packet-out through its port; an unlearned one gets only the packet-out through the other host ports |
| `Routing.Slash24Matches` | lab2/sp_routing.py:257 | the rule `ipv4_dst=(dst, "255.255.255.0")` matches exactly the IPv4 packets whose destination shares its first three octets with dst |
| `Routing.Slash24RuleScope` | lab2/sp_routing.py:257 | every packet the /24 rule catches has the same home edge switch as dst |
| `Routing.Forward` | lab2/sp_routing.py:249-269 | off the home switch: a /24 rule and a packet-out through the port towards the second switch of a shortest path; nothing when the home switch is unreachable; KeyError only when the packet's switch is unknown or a link leaves the graph |
| `Routing.Decide` | lab2/sp_routing.py:214-269 | delivery at the destination's home edge switch, forwarding elsewhere, including the fall-through when no local port remains |
| `Routing.HandlePacketIn` | lab2/sp_routing.py:182-269 | LLDP frames and frames that are neither ARP nor IPv4 change nothing and send nothing. Otherwise the handler learns exactly when the frame enters at the source's home switch, then delivers or forwards as `Decide` states. The graph is never changed |

## Left out

- The emulator, the controller framework and logging are not modelled:
  - Mininet calls (`addSwitch`, `addHost`, `addLink`) become declaration values;
  - the TCLink bandwidth and delay, `info` logging and the `count_*` counters are not modelled;
  - the Mininet start-up, CLI and clean-up code is not modelled.
- The `'%016x'` hex rendering of the dpid is not modelled. The model keeps the integer dpid.
- Ryu event registration, `send_msg` and the log file become message values and nothing more.
- Packet parsing becomes an abstract `Frame` with its ARP and IPv4 headers:
  - the IndexError for a packet without an Ethernet header is not modelled;
  - addresses are four-octet records, because Ryu always renders them as dotted quads. The `None` answer of `ip_to_edge_dpid` therefore cannot arise inside the handler, although `Addressing.IpToEdgeDpid` models it for strings.
- The order of output actions is not modelled. The source builds the action list by iterating a Python `set`, whose order is unspecified, so actions are modelled as a set.
- The `max_len` of an output action created without one is the library's default. It is modelled as `None`.
- `SPRouter.__init__`'s own `topo.Fattree(4)` is not modelled, because the decision logic never reads it. The same holds for the unused `mac_location`, the unused `disable_flooding_on_port` and the commented-out rebuild code.
- Events are taken one at a time; concurrency is not modelled.
- PathFinder.Dijkstra: the contract proves a shortest path, not which one among equal-length paths the tuple order picks.
- PathFinder.Dijkstra: KeyError is characterised one way only, as possible only when the start is unknown or some link leads outside the graph. Whether such a link is met depends on the search order.
- Routing.HandlePacketIn: KeyError is characterised one way only, for the same reason as in `PathFinder.Dijkstra`.
- PathFinder.Explore: KeyError is characterised one way only, as possible only when the start is unknown or some link leads outside the graph, for the same reason as in `PathFinder.Dijkstra`.
- Routing.Forward: KeyError is characterised one way only, because it comes from the path search; see `PathFinder.Dijkstra`.
- Routing.Decide: KeyError on the forwarding branch is characterised one way only, as in `Routing.Forward`.
- Addressing.IpToEdgeDpid: Python's `int()` is modelled on ASCII input only. It also accepts non-ASCII decimal digits and non-ASCII white space, which the model rejects. Since Python 3.11 it raises ValueError on more than 4300 digits, and `str(n)` does the same for such numbers; the model has no such limit.
- Addressing.IpToEdgeDpidMeaning: states the answer in terms of the ASCII `int()` model, so it inherits the two differences listed for `Addressing.IpToEdgeDpid`.
- PathFinder.Relax: all neighbours of the popped switch are relaxed in one step. The source loops over them one at a time; the outcome is the same because each neighbour is updated on its own. A KeyError part-way through the loop aborts the whole call, so the partly relaxed state is never observed.
- FatTree.IdsUnique needs k/2 ≤ 10. Node ids are plain concatenations of decimal numbers, so for k ≥ 22 two nodes share an id, as `FatTree.IdCollision` shows.
- FatTreeNet.DpidsUnique needs k/2 ≤ 10, for the same reason as `FatTree.IdsUnique`.
- FatTreeNet.PairKeyInjective needs k/2 ≤ 10, for the same reason as `FatTree.IdsUnique`.
- FatTreeNet.GeneratedNetLinks needs k/2 ≤ 10, for the same reason as `FatTree.IdsUnique`. With larger k the de-duplication can merge edges whose names collide.
- FatTree.SwitchDegreeIsK needs an even k ≥ 2. For odd k, `k // 2` truncates and aggregation and edge switches get degree k-1, as `FatTree.GenerateDegree` states for every k.
