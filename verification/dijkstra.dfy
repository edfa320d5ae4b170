/** The controller's shortest-path search (`dijkstra` of lab2/sp_routing.py).

    Every link costs one hop. Distances start at infinity for every switch of
    the graph and at 0 for the start; a binary heap of (distance, dpid) pairs
    is popped in tuple order; the search stops when the target is popped or
    the heap runs dry; the path is then read backwards through `prev`. Looking
    up a missing dpid in the graph, in `dist` or in `prev` raises KeyError. */
module PathFinder {
  import opened Wrappers
  import opened Discovery

  // ---------------------------------------------------------------- paths

  /** A walk along the graph's directed links. */
  predicate IsPath(g: DGraph, p: seq<Dpid>)
  {
    |p| >= 1 && forall i :: 0 <= i < |p| - 1 ==> p[i] in g && p[i + 1] in g[p[i]]
  }

  predicate PathFromTo(g: DGraph, p: seq<Dpid>, s: Dpid, t: Dpid)
  {
    IsPath(g, p) && p[0] == s && p[|p| - 1] == t
  }

  ghost predicate Reachable(g: DGraph, s: Dpid, t: Dpid)
  {
    exists p :: PathFromTo(g, p, s, t)
  }

  /** Every neighbour the search can meet has a distance entry. */
  predicate Closed(g: DGraph, start: Dpid)
  {
    forall u, v :: u in g && v in g[u] ==> v in g || v == start
  }

  lemma PathCons(g: DGraph, u: Dpid, p: seq<Dpid>)
    requires IsPath(g, p) && u in g && p[0] in g[u]
    ensures IsPath(g, [u] + p)
  {
    var q := [u] + p;
    forall i | 0 <= i < |q| - 1
      ensures q[i] in g && q[i + 1] in g[q[i]]
    {
      if i > 0 {
        assert q[i] == p[i - 1] && q[i + 1] == p[i];
      }
    }
  }

  // ---------------------------------------------------------------- state

  /** `float('inf')` is `None`. */
  type Dist = Option<nat>

  /** `alt < dist[v]` */
  predicate Below(a: nat, b: Dist)
  {
    b.None? || a < b.value
  }

  /** A heap entry (distance, dpid). */
  type Entry = (nat, Dpid)

  /** Python's tuple order on heap entries. */
  predicate Before(a: Entry, b: Entry)
  {
    a.0 < b.0 || (a.0 == b.0 && a.1 <= b.1)
  }

  /** `dist`, `prev`, the heap, and (for the proof) the distance last popped. */
  datatype Search = Search(dist: map<Dpid, Dist>, prev: map<Dpid, Option<Dpid>>, heap: multiset<Entry>, lo: nat)

  datatype SearchError = KeyError

  function Init(g: DGraph, start: Dpid): Search
  {
    Search(map x | x in g.Keys + {start} :: if x == start then Some(0) else None,
           map x | x in g :: None,
           multiset{(0, start)},
           0)
  }

  /** The neighbours of u whose distance improves through u. */
  function Improved(g: DGraph, dist: map<Dpid, Dist>, u: Dpid, d: nat): set<Dpid>
    requires u in g
  {
    set v | v in g[u] && v in dist && Below(d + 1, dist[v])
  }

  /** The entries `heappush` adds for the improved switches. */
  function Pushed(upd: set<Dpid>, d: nat): (m: multiset<Entry>)
    ensures forall e :: e in m <==> e.0 == d && e.1 in upd
  {
    var pushed: set<Entry> := set v: Dpid | v in upd :: (d, v);
    assert forall v :: v in upd ==> (d, v) in pushed;
    multiset(pushed)
  }

  /** The inner `for v in self.graph[u]` loop. Each neighbour is relaxed on
      its own, so the order of the neighbours does not matter. */
  function Relax(g: DGraph, st: Search, u: Dpid, d: nat): (r: Search)
    requires u in g
    ensures r.dist.Keys == st.dist.Keys && r.lo == st.lo
    ensures forall x :: x in st.dist ==>
              r.dist[x] == if x in Improved(g, st.dist, u, d) then Some(d + 1) else st.dist[x]
    ensures r.prev.Keys == st.prev.Keys + Improved(g, st.dist, u, d)
    ensures forall x :: x in r.prev ==>
              r.prev[x] == if x in Improved(g, st.dist, u, d) then Some(u) else st.prev[x]
    ensures forall e :: e in r.heap <==> e in st.heap || (e.0 == d + 1 && e.1 in Improved(g, st.dist, u, d))
  {
    var upd := Improved(g, st.dist, u, d);
    Search(map x | x in st.dist :: if x in upd then Some(d + 1) else st.dist[x],
           map x | x in st.prev.Keys + upd :: if x in upd then Some(u) else st.prev[x],
           st.heap + Pushed(upd, d + 1),
           st.lo)
  }

  /** Pop entry e and relax the neighbours of its dpid. */
  function Step(g: DGraph, st: Search, e: Entry): Search
    requires e.1 in g
  {
    Relax(g, st.(heap := st.heap - multiset{e}, lo := e.0), e.1, e.0)
  }

  // ---------------------------------------------------------------- invariant

  predicate Domains(g: DGraph, start: Dpid, st: Search)
  {
    st.dist.Keys == g.Keys + {start} && st.prev.Keys == g.Keys
  }

  predicate StartFixed(g: DGraph, start: Dpid, st: Search)
  {
    start in st.dist && st.dist[start] == Some(0) && (start in st.prev ==> st.prev[start] == None)
  }

  /** `prev` points one link back to a strictly closer switch, and every
      reached switch other than the start has a `prev`. */
  predicate PrevLinks(g: DGraph, start: Dpid, st: Search)
  {
    forall x :: x in st.prev ==>
      && x in st.dist
      && (st.prev[x].Some? ==>
            && st.prev[x].value in g && x in g[st.prev[x].value]
            && st.prev[x].value in st.dist && st.dist[st.prev[x].value].Some? && st.dist[x].Some?
            && st.dist[st.prev[x].value].value < st.dist[x].value)
      && (st.dist[x].Some? && x != start ==> st.prev[x].Some?)
  }

  /** Heap entries are reached switches, at no less than their distance and
      no less than the last popped distance. */
  predicate HeapSound(st: Search)
  {
    forall e :: e in st.heap ==>
      e.1 in st.dist && st.dist[e.1].Some? && st.dist[e.1].value <= e.0 && st.lo <= e.0
  }

  /** No distance is more than one hop beyond the last popped one. */
  predicate Level(st: Search)
  {
    forall x :: x in st.dist && st.dist[x].Some? ==> st.dist[x].value <= st.lo + 1
  }

  /** All neighbours of x are reached within one more hop. */
  predicate Expanded(g: DGraph, dist: map<Dpid, Dist>, x: Dpid, dx: nat)
  {
    x in g && forall y :: y in g[x] ==> y in dist && dist[y].Some? && dist[y].value <= dx + 1
  }

  /** A reached switch is either waiting in the heap at its distance or has
      been expanded at it. */
  predicate Frontier(g: DGraph, st: Search)
  {
    forall x :: x in st.dist && st.dist[x].Some? ==>
      (st.dist[x].value, x) in st.heap || Expanded(g, st.dist, x, st.dist[x].value)
  }

  /** Until it is popped, the target waits in the heap at its distance. */
  predicate TargetPending(target: Dpid, st: Search)
  {
    target in st.dist && st.dist[target].Some? ==> (st.dist[target].value, target) in st.heap
  }

  predicate Inv(g: DGraph, start: Dpid, target: Dpid, st: Search)
  {
    && Domains(g, start, st) && StartFixed(g, start, st) && PrevLinks(g, start, st)
    && HeapSound(st) && Level(st) && Frontier(g, st) && TargetPending(target, st)
  }

  /** The switches not reached yet. */
  function Unreached(st: Search): set<Dpid>
  {
    set x | x in st.dist && st.dist[x].None?
  }

  lemma InitInv(g: DGraph, start: Dpid, target: Dpid)
    ensures Inv(g, start, target, Init(g, start))
  {
  }

  /** The entry `heapq.heappop` returns: the least in tuple order. */
  lemma HeapMin(h: multiset<Entry>)
    requires h != multiset{}
    ensures exists e :: e in h && forall e' :: e' in h ==> Before(e, e')
    decreases |h|
  {
    var x :| x in h;
    var rest := h - multiset{x};
    forall e' | e' in h
      ensures e' == x || e' in rest
    {
      if e' != x {
        assert rest[e'] == h[e'];
      }
    }
    if rest == multiset{} {
      assert forall e' :: e' in h ==> Before(x, e');
    } else {
      HeapMin(rest);
      var m :| m in rest && forall e' :: e' in rest ==> Before(m, e');
      if Before(x, m) {
        assert forall e' :: e' in h ==> Before(x, e');
      } else {
        assert forall e' :: e' in h ==> Before(m, e');
      }
    }
  }

  // ---------------------------------------------------------------- one step

  /** What a step does to one switch's distance: only unreached neighbours
      of the popped switch change, to one hop beyond it. */
  lemma StepDist(g: DGraph, st: Search, e: Entry, x: Dpid)
    requires e.1 in g && e in st.heap && HeapSound(st) && Level(st)
    requires x in st.dist
    ensures var r := Step(g, st, e);
      && x in r.dist
      && (x in Improved(g, st.dist, e.1, e.0) <==> x in g[e.1] && st.dist[x].None?)
      && r.dist[x] == if x in Improved(g, st.dist, e.1, e.0) then Some(e.0 + 1) else st.dist[x]
  {
  }

  lemma StepDomains(g: DGraph, start: Dpid, st: Search, e: Entry)
    requires e.1 in g && e in st.heap && Domains(g, start, st) && HeapSound(st) && Level(st) && StartFixed(g, start, st)
    ensures Domains(g, start, Step(g, st, e)) && StartFixed(g, start, Step(g, st, e))
  {
    var r := Step(g, st, e);
    assert Improved(g, st.dist, e.1, e.0) <= g.Keys by {
      forall v | v in Improved(g, st.dist, e.1, e.0)
        ensures v in g
      {
        if v == start {
          StepDist(g, st, e, v);
        }
      }
    }
    StepDist(g, st, e, start);
  }

  lemma StepPrevLinks(g: DGraph, start: Dpid, st: Search, e: Entry)
    requires e.1 in g && e in st.heap && Domains(g, start, st) && HeapSound(st) && Level(st)
    requires StartFixed(g, start, st) && PrevLinks(g, start, st)
    ensures PrevLinks(g, start, Step(g, st, e))
  {
    var r := Step(g, st, e);
    var u, d := e.1, e.0;
    StepDomains(g, start, st, e);
    forall x | x in r.prev
      ensures x in r.dist
      ensures r.prev[x].Some? ==>
            && r.prev[x].value in g && x in g[r.prev[x].value]
            && r.prev[x].value in r.dist && r.dist[r.prev[x].value].Some? && r.dist[x].Some?
            && r.dist[r.prev[x].value].value < r.dist[x].value
      ensures r.dist[x].Some? && x != start ==> r.prev[x].Some?
    {
      StepDist(g, st, e, x);
      if r.prev[x].Some? {
        var w := r.prev[x].value;
        StepDist(g, st, e, w);
      }
    }
  }

  lemma StepHeapLevel(g: DGraph, start: Dpid, st: Search, e: Entry)
    requires e.1 in g && e in st.heap && HeapSound(st) && Level(st)
    requires forall e' :: e' in st.heap ==> Before(e, e')
    ensures HeapSound(Step(g, st, e)) && Level(Step(g, st, e))
  {
    var r := Step(g, st, e);
    forall e' | e' in r.heap
      ensures e'.1 in r.dist && r.dist[e'.1].Some? && r.dist[e'.1].value <= e'.0 && r.lo <= e'.0
    {
      if e' in st.heap - multiset{e} {
        StepDist(g, st, e, e'.1);
      } else {
        StepDist(g, st, e, e'.1);
      }
    }
    forall x | x in r.dist && r.dist[x].Some?
      ensures r.dist[x].value <= r.lo + 1
    {
      StepDist(g, st, e, x);
    }
  }

  /** A switch reached after a step is still waiting or expanded. */
  lemma StepFrontierAt(g: DGraph, st: Search, e: Entry, x: Dpid)
    requires e.1 in g && e in st.heap && HeapSound(st) && Level(st)
    requires forall e' :: e' in st.heap ==> Before(e, e')
    requires forall v :: v in g[e.1] ==> v in st.dist
    requires Frontier(g, st)
    requires x in Step(g, st, e).dist && Step(g, st, e).dist[x].Some?
    ensures var r := Step(g, st, e);
      (r.dist[x].value, x) in r.heap || Expanded(g, r.dist, x, r.dist[x].value)
  {
    var r := Step(g, st, e);
    var u, d := e.1, e.0;
    StepDist(g, st, e, x);
    if x !in Improved(g, st.dist, u, d) {
      var dx := st.dist[x].value;
      if (dx, x) in st.heap && (dx, x) != e {
        assert (dx, x) in st.heap - multiset{e};
      } else if x == u && dx == d {
        StepExpandsPopped(g, st, e);
      } else {
        StepKeepsExpanded(g, st, e, x, dx);
      }
    }
  }

  /** After a step, the popped switch counts as expanded at its distance. */
  lemma StepExpandsPopped(g: DGraph, st: Search, e: Entry)
    requires e.1 in g && e in st.heap && HeapSound(st) && Level(st)
    requires forall v :: v in g[e.1] ==> v in st.dist
    ensures Expanded(g, Step(g, st, e).dist, e.1, e.0)
  {
    var r := Step(g, st, e);
    forall y | y in g[e.1]
      ensures y in r.dist && r.dist[y].Some? && r.dist[y].value <= e.0 + 1
    {
      StepDist(g, st, e, y);
    }
  }

  /** A step keeps every switch expanded that was expanded before it. */
  lemma StepKeepsExpanded(g: DGraph, st: Search, e: Entry, x: Dpid, dx: nat)
    requires e.1 in g && e in st.heap && HeapSound(st) && Level(st)
    requires Expanded(g, st.dist, x, dx)
    ensures Expanded(g, Step(g, st, e).dist, x, dx)
  {
    var r := Step(g, st, e);
    forall y | y in g[x]
      ensures y in r.dist && r.dist[y].Some? && r.dist[y].value <= dx + 1
    {
      StepDist(g, st, e, y);
    }
  }

  lemma StepFrontier(g: DGraph, target: Dpid, st: Search, e: Entry)
    requires e.1 in g && e in st.heap && HeapSound(st) && Level(st)
    requires forall e' :: e' in st.heap ==> Before(e, e')
    requires forall v :: v in g[e.1] ==> v in st.dist
    requires Frontier(g, st) && TargetPending(target, st) && e.1 != target
    ensures Frontier(g, Step(g, st, e)) && TargetPending(target, Step(g, st, e))
  {
    var r := Step(g, st, e);
    forall x | x in r.dist && r.dist[x].Some?
      ensures (r.dist[x].value, x) in r.heap || Expanded(g, r.dist, x, r.dist[x].value)
    {
      StepFrontierAt(g, st, e, x);
    }
    if target in r.dist && r.dist[target].Some? {
      StepDist(g, st, e, target);
      if target !in Improved(g, st.dist, e.1, e.0) {
        assert (st.dist[target].value, target) in st.heap - multiset{e};
      }
    }
  }

  /** A step keeps the invariant and either reaches a new switch or shrinks
      the heap. */
  lemma StepInv(g: DGraph, start: Dpid, target: Dpid, st: Search, e: Entry)
    requires Inv(g, start, target, st) && e in st.heap && forall e' :: e' in st.heap ==> Before(e, e')
    requires e.1 in g && e.1 != target && forall v :: v in g[e.1] ==> v in st.dist
    ensures Inv(g, start, target, Step(g, st, e))
    ensures |Unreached(Step(g, st, e))| < |Unreached(st)|
            || (Unreached(Step(g, st, e)) == Unreached(st) && |Step(g, st, e).heap| < |st.heap|)
  {
    StepDomains(g, start, st, e);
    StepPrevLinks(g, start, st, e);
    StepHeapLevel(g, start, st, e);
    StepFrontier(g, target, st, e);
    StepUnreached(g, start, st, e);
  }

  /** A step of the search loop: once the first pop has neither found the
      target nor failed, the start is a known switch other than the target. */
  lemma ExploreStep(g: DGraph, start: Dpid, target: Dpid, st: Search, e: Entry)
    requires Inv(g, start, target, st) && e in st.heap && forall e' :: e' in st.heap ==> Before(e, e')
    requires e.1 in g && e.1 != target && forall v :: v in g[e.1] ==> v in st.dist
    requires (start !in g || start == target) ==> st.heap == multiset{(0, start)}
    ensures start in g && start != target
    ensures Inv(g, start, target, Step(g, st, e))
    ensures |Unreached(Step(g, st, e))| < |Unreached(st)|
            || (Unreached(Step(g, st, e)) == Unreached(st) && |Step(g, st, e).heap| < |st.heap|)
  {
    StepInv(g, start, target, st, e);
  }

  /** A step reaches exactly the improved neighbours, all unreached before. */
  lemma StepReaches(g: DGraph, st: Search, e: Entry)
    requires e.1 in g && e in st.heap && HeapSound(st) && Level(st)
    ensures Improved(g, st.dist, e.1, e.0) <= Unreached(st)
    ensures Unreached(Step(g, st, e)) == Unreached(st) - Improved(g, st.dist, e.1, e.0)
  {
    var r := Step(g, st, e);
    var upd := Improved(g, st.dist, e.1, e.0);
    forall x | x in upd
      ensures x in Unreached(st)
    {
      StepDist(g, st, e, x);
    }
    forall x | x in Unreached(r)
      ensures x in Unreached(st) - upd
    {
      StepDist(g, st, e, x);
    }
    forall x | x in Unreached(st) - upd
      ensures x in Unreached(r)
    {
      StepDist(g, st, e, x);
    }
  }

  /** Removing a non-empty subset shrinks a set. */
  lemma ShrinkCard<T>(a: set<T>, u: set<T>)
    requires u <= a && u != {}
    ensures |a - u| < |a|
  {
    var v :| v in u;
    assert a - u <= a - {v};
  }

  /** With nothing improved, a step only pops the heap. */
  lemma StepPopsOnly(g: DGraph, st: Search, e: Entry)
    requires e.1 in g && e in st.heap && Improved(g, st.dist, e.1, e.0) == {}
    ensures |Step(g, st, e).heap| < |st.heap|
  {
    var p := Pushed(Improved(g, st.dist, e.1, e.0), e.0 + 1);
    assert forall x :: x !in p;
    assert p == multiset{};
  }

  lemma StepUnreached(g: DGraph, start: Dpid, st: Search, e: Entry)
    requires e.1 in g && e in st.heap && HeapSound(st) && Level(st)
    ensures |Unreached(Step(g, st, e))| < |Unreached(st)|
            || (Unreached(Step(g, st, e)) == Unreached(st) && |Step(g, st, e).heap| < |st.heap|)
  {
    var upd := Improved(g, st.dist, e.1, e.0);
    StepReaches(g, st, e);
    if upd == {} {
      StepPopsOnly(g, st, e);
    } else {
      ShrinkCard(Unreached(st), upd);
    }
  }

  // ---------------------------------------------------------------- outcome

  /** When the least heap entry is the target at distance d, every path from
      the start reaches its j-th switch within j hops, for j up to d. */
  lemma {:induction false} WithinHops(g: DGraph, start: Dpid, target: Dpid, st: Search, d: nat, q: seq<Dpid>, j: nat)
    requires Inv(g, start, target, st) && forall e' :: e' in st.heap ==> d <= e'.0
    requires IsPath(g, q) && q[0] == start && j < |q| && j <= d
    ensures q[j] in st.dist && st.dist[q[j]].Some? && st.dist[q[j]].value <= j
  {
    if j > 0 {
      WithinHops(g, start, target, st, d, q, j - 1);
      var x := q[j - 1];
      var dx := st.dist[x].value;
      assert (dx, x) !in st.heap;
      assert Expanded(g, st.dist, x, dx);
      assert q[j] in g[x];
      var y := q[j];
      assert y in st.dist && st.dist[y].Some? && st.dist[y].value <= dx + 1;
    } else {
      assert q[j] == start;
      assert StartFixed(g, start, st);
    }
  }

  /** When the target is the least heap entry, its distance is at most the
      length of any path to it. */
  lemma Optimal(g: DGraph, start: Dpid, target: Dpid, st: Search, d: nat, q: seq<Dpid>)
    requires Inv(g, start, target, st) && (d, target) in st.heap && forall e' :: e' in st.heap ==> d <= e'.0
    requires PathFromTo(g, q, start, target)
    ensures st.dist[target].Some? && st.dist[target].value <= |q| - 1
  {
    if |q| - 1 <= d {
      WithinHops(g, start, target, st, d, q, |q| - 1);
    }
  }

  /** With an empty heap every switch on a path from the start is reached. */
  lemma {:induction false} AllReached(g: DGraph, start: Dpid, target: Dpid, st: Search, q: seq<Dpid>, j: nat)
    requires Inv(g, start, target, st) && st.heap == multiset{}
    requires IsPath(g, q) && q[0] == start && j < |q|
    ensures q[j] in st.dist && st.dist[q[j]].Some?
  {
    if j > 0 {
      AllReached(g, start, target, st, q, j - 1);
      var x := q[j - 1];
      assert Expanded(g, st.dist, x, st.dist[x].value);
      assert q[j] in g[x];
      var y := q[j];
      assert y in st.dist && st.dist[y].Some?;
    } else {
      assert q[j] == start;
      assert StartFixed(g, start, st);
    }
  }

  /** The reachable switches are exactly those reached once the heap is empty. */
  lemma Exhausted(g: DGraph, start: Dpid, target: Dpid, st: Search)
    requires Inv(g, start, target, st) && st.heap == multiset{}
    ensures !Reachable(g, start, target)
  {
    if Reachable(g, start, target) {
      var q :| PathFromTo(g, q, start, target);
      AllReached(g, start, target, st, q, |q| - 1);
    }
  }

  /** Distance rank of the switch the reconstruction looks at next. */
  function Rank(st: Search, cur: Option<Dpid>): nat
  {
    match cur
    case None => 0
    case Some(x) => if x in st.dist && st.dist[x].Some? then st.dist[x].value + 2 else 1
  }

  /** A popped dpid is a switch of the graph or the start. */
  lemma PoppedKnown(g: DGraph, start: Dpid, st: Search, e: Entry)
    requires Domains(g, start, st) && HeapSound(st) && e in st.heap
    ensures e.1 in g || e.1 == start
  {
  }

  /** The entry popped first carries the least distance in the heap. */
  lemma LeastDistance(heap: multiset<Entry>, e: Entry)
    requires forall e' :: e' in heap ==> Before(e, e')
    ensures forall e' :: e' in heap ==> e.0 <= e'.0
  {
  }

  /** A neighbour without a distance entry is a link leaving the graph. */
  lemma MissingNeighbour(g: DGraph, start: Dpid, st: Search, u: Dpid, v: Dpid)
    requires Domains(g, start, st) && u in g && v in g[u] && v !in st.dist
    ensures !Closed(g, start)
  {
  }

  /** The search loop of `dijkstra`: pops entries until the target comes out
      or the heap is empty. */
  method Explore(g: DGraph, start: Dpid, target: Dpid) returns (r: Result<Search, SearchError>, found: bool, ghost best: nat)
    ensures r.Success? ==> Inv(g, start, target, r.value)
    ensures r.Success? && found ==>
              (best, target) in r.value.heap && forall e' :: e' in r.value.heap ==> best <= e'.0
    ensures r.Success? && !found ==> r.value.heap == multiset{}
    ensures start !in g && start != target ==> r.Failure?
    ensures r.Failure? ==> start != target && (start !in g || !Closed(g, start))
  {
    var st := Init(g, start);
    InitInv(g, start, target);
    found := false;
    best := 0;
    while st.heap != multiset{} && !found
      invariant Inv(g, start, target, st)
      invariant found ==> (best, target) in st.heap && forall e' :: e' in st.heap ==> best <= e'.0
      invariant (start !in g || start == target) && !found ==> st.heap == multiset{(0, start)}
      invariant start !in g && start != target ==> !found
      decreases if found then 0 else 1, |Unreached(st)|, |st.heap|
    {
      HeapMin(st.heap);
      var e :| e in st.heap && forall e' :: e' in st.heap ==> Before(e, e');
      var (d, u) := e;
      if u == target {
        LeastDistance(st.heap, e);
        found := true;
        best := d;
      } else {
        if u !in g {
          PoppedKnown(g, start, st, e);
          return Failure(KeyError), found, best;
        }
        if v :| v in g[u] && v !in st.dist {
          MissingNeighbour(g, start, st, u, v);
          return Failure(KeyError), found, best;
        }
        ExploreStep(g, start, target, st, e);
        st := Step(g, st, e);
      }
    }
    r := Success(st);
  }

  /** `prev` leads one link back to a strictly closer switch. */
  lemma PrevStep(g: DGraph, start: Dpid, st: Search, x: Dpid)
    requires PrevLinks(g, start, st) && x in st.prev && st.prev[x].Some?
    ensures var w := st.prev[x].value;
      && w in g && x in g[w] && w in st.dist && x in st.dist
      && st.dist[w].Some? && st.dist[x].Some? && st.dist[w].value < st.dist[x].value
  {
  }

  /** A reached switch without `prev` is the start. */
  lemma PrevRoot(g: DGraph, start: Dpid, st: Search, x: Dpid)
    requires PrevLinks(g, start, st) && x in st.prev && st.prev[x].None?
    requires x in st.dist && st.dist[x].Some?
    ensures x == start
  {
  }

  /** An exhausted search never reached the target, so the target is not the start. */
  lemma ExhaustedTarget(g: DGraph, start: Dpid, target: Dpid, st: Search)
    requires Inv(g, start, target, st) && st.heap == multiset{}
    ensures target != start && (target in st.dist ==> st.dist[target].None?)
  {
  }

  /** The reconstruction loop of `dijkstra`: follows `prev` back from the
      target and keeps the path only when it arrives at the start. */
  method Trace(g: DGraph, start: Dpid, target: Dpid, st: Search, found: bool, ghost best: nat)
    returns (r: Result<seq<Dpid>, SearchError>)
    requires Inv(g, start, target, st)
    requires found ==> (best, target) in st.heap && forall e' :: e' in st.heap ==> best <= e'.0
    requires !found ==> st.heap == multiset{}
    ensures r.Failure? <==> target !in g
    ensures r.Success? ==> (r.value == [] <==> !Reachable(g, start, target))
    ensures r.Success? && r.value != [] ==>
              && PathFromTo(g, r.value, start, target)
              && forall q :: PathFromTo(g, q, start, target) ==> |r.value| <= |q|
    ensures r.Success? && start == target ==> r.value == [start]
  {
    if !found {
      ExhaustedTarget(g, start, target, st);
    }
    var path: seq<Dpid> := [];
    var cur: Option<Dpid> := Some(target);
    while cur.Some?
      invariant path == [] ==> cur == Some(target)
      invariant path != [] ==> IsPath(g, path) && path[|path| - 1] == target
      invariant path != [] ==> path[0] in st.prev && cur == st.prev[path[0]] && target in g
      invariant path != [] && cur.Some? ==> cur.value in g
      invariant path != [] && found ==>
                  && path[0] in st.dist && st.dist[path[0]].Some? && target in st.dist && st.dist[target].Some?
                  && |path| - 1 + st.dist[path[0]].value <= st.dist[target].value
      invariant path != [] && !found ==> path == [target]
      decreases Rank(st, cur)
    {
      var u := cur.value;
      ghost var before := path;
      if path != [] {
        PrevStep(g, start, st, path[0]);
        PathCons(g, u, path);
      }
      path := [u] + path;
      assert path[|path| - 1] == target by {
        if before != [] {
          assert path[|path| - 1] == before[|before| - 1];
        }
      }
      if u !in st.prev {
        return Failure(KeyError);
      }
      cur := st.prev[u];
      if cur.Some? {
        PrevStep(g, start, st, u);
      }
    }
    if found {
      PrevRoot(g, start, st, path[0]);
      assert PathFromTo(g, path, start, target);
      forall q | PathFromTo(g, q, start, target)
        ensures |path| <= |q|
      {
        Optimal(g, start, target, st, best, q);
      }
      r := Success(path);
    } else {
      Exhausted(g, start, target, st);
      r := Success([]);
    }
  }

  /** `dijkstra(start, target)`: a shortest path, `[]` when the target cannot
      be reached, KeyError when the start or the target is not a switch of the
      graph or a link leads to a dpid that is neither. */
  method Dijkstra(g: DGraph, start: Dpid, target: Dpid) returns (r: Result<seq<Dpid>, SearchError>)
    ensures target !in g ==> r.Failure?
    ensures start !in g && start != target ==> r.Failure?
    ensures r.Failure? ==> target !in g || (start != target && (start !in g || !Closed(g, start)))
    ensures r.Success? ==> (r.value == [] <==> !Reachable(g, start, target))
    ensures r.Success? && r.value != [] ==>
              && PathFromTo(g, r.value, start, target)
              && forall q :: PathFromTo(g, q, start, target) ==> |r.value| <= |q|
    ensures r.Success? && start == target ==> r.value == [start]
  {
    var searched, found, best := Explore(g, start, target);
    if searched.Failure? {
      return Failure(searched.error);
    }
    r := Trace(g, start, target, searched.value, found, best);
  }
}
