/** The search state of the fastest-route router (`en_hizli_rota_bul`): a
    Dijkstra search over a heap with lazy deletion, and the facts that make
    the time it returns the least time of any walk. */
module Dijkstra {
  import opened Stations
  import opened Routes
  import opened Wrappers

  /** A heap entry: minutes so far, the station reached and the route taken.
      The always-zero estimate the source stores between time and station is
      not kept. */
  datatype HeapEntry = HeapEntry(time: int, station: nat, route: seq<nat>)

  /** Every entry names a station of the arena. */
  ghost predicate InArena(g: Graph, h: seq<HeapEntry>)
  {
    forall j :: 0 <= j < |h| ==> h[j].station < |g|
  }

  /** The heap order: by time, then by station (`Istasyon.__lt__`). */
  predicate Before(g: Graph, a: HeapEntry, b: HeapEntry)
    requires a.station < |g| && b.station < |g|
    ensures Before(g, a, b) ==> a.time <= b.time
    ensures a.time < b.time ==> Before(g, a, b)
    ensures a.time == b.time ==>
      (Before(g, a, b) <==> exists k: nat :: DiffersAt(g[a.station].id, g[b.station].id, k))
  {
    a.time < b.time || (a.time == b.time && StationLess(g[a.station], g[b.station]))
  }

  /** If the last entry comes before entry `m`, and nothing before the last
      comes before `m`, then nothing comes before the last. */
  lemma BeforeLast(g: Graph, h: seq<HeapEntry>, m: nat)
    requires InArena(g, h) && m < |h| - 1
    requires forall j :: 0 <= j < |h| - 1 ==> !Before(g, h[j], h[m])
    requires Before(g, h[|h| - 1], h[m])
    ensures forall j :: 0 <= j < |h| ==> !Before(g, h[j], h[|h| - 1])
  {
    var last := |h| - 1;
    forall j | 0 <= j < |h|
      ensures !Before(g, h[j], h[last])
    {
      StationLessIsStrictTotalOrder(g[h[j].station], g[h[last].station], g[h[m].station]);
    }
  }

  /** `heapq.heappop`: the position of an entry that no other entry comes before. */
  function MinIndex(g: Graph, h: seq<HeapEntry>): (i: nat)
    requires |h| > 0 && InArena(g, h)
    ensures i < |h|
    ensures forall j :: 0 <= j < |h| ==> !Before(g, h[j], h[i])
    decreases |h|
  {
    if |h| == 1 then
      StationLessIsStrictTotalOrder(g[h[0].station], g[h[0].station], g[h[0].station]);
      0
    else
      var m := MinIndex(g, h[..|h| - 1]);
      if Before(g, h[|h| - 1], h[m]) then
        BeforeLast(g, h, m);
        |h| - 1
      else
        m
  }

  /** The entry the heap starts with. */
  function Initial(s: nat): HeapEntry
  {
    HeapEntry(0, s, [s])
  }

  /** A heap entry is a walk from the start whose legs add up to its time,
      with no station twice, every station but the last finalised. */
  ghost predicate EntryOk(g: Graph, s: nat, dist: map<nat, int>, e: HeapEntry)
  {
    && e.station < |g|
    && |e.route| > 0 && e.route[0] == s && e.route[|e.route| - 1] == e.station
    && Distinct(e.route)
    && (forall j :: 0 <= j < |e.route| - 1 ==> e.route[j] in dist)
    && exists legs :: IsTimedRoute(g, e.route, legs) && Sum(legs) == e.time
  }

  /** A sound entry is a walk from the start; it is the start's own entry
      unless the start is already finalised. */
  lemma EntryStart(g: Graph, s: nat, dist: map<nat, int>, e: HeapEntry)
    requires EntryOk(g, s, dist, e)
    ensures IsRouteBetween(g, s, e.station, e.route)
    ensures e.station == s || s in dist
  {
    var legs :| IsTimedRoute(g, e.route, legs) && Sum(legs) == e.time;
    TimedRouteIsRoute(g, e.route, legs);
  }

  ghost predicate HeapOk(g: Graph, s: nat, dist: map<nat, int>, h: seq<HeapEntry>)
  {
    forall e :: e in h ==> EntryOk(g, s, dist, e)
  }

  /** Some entry for station `w` with time `t` waits in the heap. */
  ghost predicate Covered(h: seq<HeapEntry>, w: nat, t: int)
  {
    exists e :: e in h && e.station == w && e.time == t
  }

  /** While the start is not finalised, its initial entry is still waiting. */
  ghost predicate SourceCovered(s: nat, dist: map<nat, int>, h: seq<HeapEntry>)
  {
    s !in dist ==> Covered(h, s, 0)
  }

  /** Every link from a finalised station to one that is not has an entry
      waiting, whose time is the finalised time plus the link's minutes. */
  ghost predicate Frontier(g: Graph, dist: map<nat, int>, h: seq<HeapEntry>)
  {
    forall v, j :: v in dist && v < |g| && 0 <= j < |g[v].links| && g[v].links[j].to !in dist ==>
      Covered(h, g[v].links[j].to, dist[v] + g[v].links[j].minutes)
  }

  /** `Frontier` with the links of `u` from position `k` on not yet pushed. */
  ghost predicate FrontierUpTo(g: Graph, dist: map<nat, int>, h: seq<HeapEntry>, u: nat, k: nat)
  {
    forall v, j :: v in dist && v < |g| && 0 <= j < |g[v].links| && (v == u ==> j < k) && g[v].links[j].to !in dist ==>
      Covered(h, g[v].links[j].to, dist[v] + g[v].links[j].minutes)
  }

  /** No walk from the start reaches a finalised station faster than its finalised time. */
  ghost predicate Settled(g: Graph, s: nat, dist: map<nat, int>)
  {
    forall u, p, legs :: u in dist && IsTimedRouteBetween(g, s, u, p, legs) ==> dist[u] <= Sum(legs)
  }

  /** The finalised stations are the visited set, with its times in `dist`. */
  ghost predicate Finalised(g: Graph, goal: nat, visited: set<nat>, dist: map<nat, int>)
  {
    && visited == dist.Keys
    && (forall v :: v in visited ==> v < |g|)
    && goal !in visited
  }

  /** What holds at the head of the outer loop. */
  ghost predicate Searching(g: Graph, s: nat, goal: nat, h: seq<HeapEntry>, visited: set<nat>,
                            dist: map<nat, int>)
  {
    && Finalised(g, goal, visited, dist)
    && HeapOk(g, s, dist, h)
    && SourceCovered(s, dist, h)
    && Frontier(g, dist, h)
    && (NonNegative(g) ==> Settled(g, s, dist))
    && (s == goal ==> h == [Initial(s)])
  }

  /** What holds while the links of the popped entry `e` are pushed, `k` of them so far. */
  ghost predicate Scanning(g: Graph, s: nat, goal: nat, e: HeapEntry, k: nat, h: seq<HeapEntry>,
                           visited: set<nat>, dist: map<nat, int>)
  {
    && s != goal
    && Finalised(g, goal, visited, dist)
    && EntryOk(g, s, dist, e)
    && e.station in dist && dist[e.station] == e.time
    && k <= |g[e.station].links|
    && HeapOk(g, s, dist, h)
    && SourceCovered(s, dist, h)
    && FrontierUpTo(g, dist, h, e.station, k)
    && (NonNegative(g) ==> Settled(g, s, dist))
  }

  lemma SearchStart(g: Graph, s: nat, goal: nat)
    requires s < |g| && goal < |g|
    ensures Searching(g, s, goal, [Initial(s)], {}, map[])
  {
    var e := Initial(s);
    assert IsTimedRoute(g, e.route, []) && Sum([]) == e.time;
    assert e in [e];
  }

  /** The popped entry has the least time in the heap. */
  lemma PoppedIsLeast(g: Graph, h: seq<HeapEntry>, i: nat)
    requires InArena(g, h) && i < |h|
    requires forall j :: 0 <= j < |h| ==> !Before(g, h[j], h[i])
    ensures forall e :: e in h ==> h[i].time <= e.time
  {
  }

  lemma HeapInArena(g: Graph, s: nat, dist: map<nat, int>, h: seq<HeapEntry>)
    requires HeapOk(g, s, dist, h)
    ensures InArena(g, h)
  {
    forall j | 0 <= j < |h|
      ensures h[j].station < |g|
    {
      assert h[j] in h;
    }
  }

  /** With no negative minutes, no walk to a station that is not finalised is
      faster than the least time in the heap: the walk leaves the finalised
      set somewhere, and the link it leaves by has an entry waiting. */
  lemma {:induction false} LowerBound(g: Graph, s: nat, dist: map<nat, int>, h: seq<HeapEntry>, t: int,
                                      p: seq<nat>, legs: seq<int>)
    requires NonNegative(g) && Settled(g, s, dist)
    requires SourceCovered(s, dist, h) && Frontier(g, dist, h)
    requires forall e :: e in h ==> t <= e.time
    requires IsTimedRoute(g, p, legs) && p[0] == s && p[|p| - 1] !in dist
    ensures t <= Sum(legs)
    decreases |p|
  {
    if |p| == 1 {
      var e :| e in h && e.station == s && e.time == 0;
    } else {
      var q, ql := p[..|p| - 1], legs[..|legs| - 1];
      var u, w, m := q[|q| - 1], p[|p| - 1], legs[|legs| - 1];
      assert IsTimedRoute(g, q, ql);
      assert Link(w, m) in g[u].links;
      var j :| 0 <= j < |g[u].links| && g[u].links[j] == Link(w, m);
      assert m >= 0;
      if u in dist {
        assert IsTimedRouteBetween(g, s, u, q, ql);
        assert Covered(h, g[u].links[j].to, dist[u] + g[u].links[j].minutes);
      } else {
        LowerBound(g, s, dist, h, t, q, ql);
      }
    }
  }

  /** With no negative minutes, every station some walk from the start reaches
      faster than the least time in the heap is finalised. */
  lemma FasterFinalised(g: Graph, s: nat, dist: map<nat, int>, h: seq<HeapEntry>, t: int)
    requires NonNegative(g) && Settled(g, s, dist)
    requires SourceCovered(s, dist, h) && Frontier(g, dist, h)
    requires forall e :: e in h ==> t <= e.time
    ensures forall v, p, legs :: IsTimedRouteBetween(g, s, v, p, legs) && Sum(legs) < t ==> v in dist
  {
    forall v, p, legs | IsTimedRouteBetween(g, s, v, p, legs) && Sum(legs) < t
      ensures v in dist
    {
      if v !in dist {
        LowerBound(g, s, dist, h, t, p, legs);
      }
    }
  }

  /** A popped goal entry is a fastest walk to the goal. */
  lemma PopGoal(g: Graph, s: nat, goal: nat, h: seq<HeapEntry>, visited: set<nat>,
                dist: map<nat, int>, i: nat)
    requires Searching(g, s, goal, h, visited, dist)
    requires i < |h| && h[i].station == goal
    requires forall e :: e in h ==> h[i].time <= e.time
    ensures IsRouteBetween(g, s, goal, h[i].route) && Distinct(h[i].route)
    ensures exists legs :: IsTimedRouteBetween(g, s, goal, h[i].route, legs) && Sum(legs) == h[i].time
    ensures NonNegative(g) ==> LeastTime(g, s, goal, h[i].time)
    ensures s == goal ==> h[i] == Initial(s)
    ensures s != goal ==> s in dist
    ensures NonNegative(g) ==>
      forall v, p, legs :: IsTimedRouteBetween(g, s, v, p, legs) && Sum(legs) < h[i].time ==> v in dist
  {
    var e := h[i];
    assert e in h;
    EntryStart(g, s, dist, e);
    if NonNegative(g) {
      FasterFinalised(g, s, dist, h, e.time);
    }
    var legs :| IsTimedRoute(g, e.route, legs) && Sum(legs) == e.time;
    TimedRouteIsRoute(g, e.route, legs);
    assert IsTimedRouteBetween(g, s, goal, e.route, legs);
    if NonNegative(g) {
      forall p, ls | IsTimedRouteBetween(g, s, goal, p, ls)
        ensures e.time <= Sum(ls)
      {
        LowerBound(g, s, dist, h, e.time, p, ls);
      }
    }
  }

  /** An entry still waiting after the pop of entry `i` of another station. */
  lemma CoveredRemove(h: seq<HeapEntry>, i: nat, w: nat, t: int)
    requires i < |h| && Covered(h, w, t) && h[i].station != w
    ensures Covered(h[..i] + h[i + 1..], w, t)
  {
    var e :| e in h && e.station == w && e.time == t;
    var j :| 0 <= j < |h| && h[j] == e;
    if j < i {
      assert e == (h[..i] + h[i + 1..])[j];
    } else {
      assert e == (h[..i] + h[i + 1..])[j - 1];
    }
  }

  lemma InRemoved(h: seq<HeapEntry>, i: nat)
    requires i < |h|
    ensures forall e :: e in h[..i] + h[i + 1..] ==> e in h
  {
    forall e | e in h[..i] + h[i + 1..]
      ensures e in h
    {
      if e in h[..i] {
        var j :| 0 <= j < i && h[..i][j] == e;
        assert h[j] == e;
      } else {
        var j :| 0 <= j < |h| - i - 1 && h[i + 1..][j] == e;
        assert h[i + 1 + j] == e;
      }
    }
  }

  /** Popping an entry of a finalised station discards it and keeps the search state. */
  lemma PopStale(g: Graph, s: nat, goal: nat, h: seq<HeapEntry>, visited: set<nat>,
                 dist: map<nat, int>, i: nat)
    requires Searching(g, s, goal, h, visited, dist)
    requires i < |h| && h[i].station in visited
    ensures Searching(g, s, goal, h[..i] + h[i + 1..], visited, dist)
  {
    var h' := h[..i] + h[i + 1..];
    InRemoved(h, i);
    if s !in dist {
      CoveredRemove(h, i, s, 0);
    }
    forall v, j | v in dist && v < |g| && 0 <= j < |g[v].links| && g[v].links[j].to !in dist
      ensures Covered(h', g[v].links[j].to, dist[v] + g[v].links[j].minutes)
    {
      CoveredRemove(h, i, g[v].links[j].to, dist[v] + g[v].links[j].minutes);
    }
  }

  /** Entries stay well formed as more stations are finalised. */
  lemma HeapOkGrow(g: Graph, s: nat, dist: map<nat, int>, h: seq<HeapEntry>, u: nat, t: int)
    requires HeapOk(g, s, dist, h)
    ensures HeapOk(g, s, dist[u := t], h)
  {
    forall e | e in h
      ensures EntryOk(g, s, dist[u := t], e)
    {
      assert EntryOk(g, s, dist, e);
    }
  }

  /** Finalising the least entry's station at its time keeps `Settled`. */
  lemma SettledGrow(g: Graph, s: nat, dist: map<nat, int>, h: seq<HeapEntry>, u: nat, t: int)
    requires NonNegative(g) && Settled(g, s, dist)
    requires SourceCovered(s, dist, h) && Frontier(g, dist, h)
    requires forall e :: e in h ==> t <= e.time
    requires u !in dist
    ensures Settled(g, s, dist[u := t])
  {
    forall v, p, legs | v in dist[u := t] && IsTimedRouteBetween(g, s, v, p, legs)
      ensures dist[u := t][v] <= Sum(legs)
    {
      if v == u {
        LowerBound(g, s, dist, h, t, p, legs);
      }
    }
  }

  /** Popping an entry of a station not yet finalised finalises it at the entry's time. */
  lemma PopNew(g: Graph, s: nat, goal: nat, h: seq<HeapEntry>, visited: set<nat>,
               dist: map<nat, int>, i: nat, h': seq<HeapEntry>, visited': set<nat>, dist': map<nat, int>)
    requires Searching(g, s, goal, h, visited, dist)
    requires i < |h| && h[i].station != goal && h[i].station !in visited
    requires forall e :: e in h ==> h[i].time <= e.time
    requires h' == h[..i] + h[i + 1..]
    requires visited' == visited + {h[i].station} && dist' == dist[h[i].station := h[i].time]
    ensures Scanning(g, s, goal, h[i], 0, h', visited', dist')
    ensures IsRouteBetween(g, s, h[i].station, h[i].route)
    ensures h[i].station == s || s in dist
  {
    var e, u := h[i], h[i].station;
    assert e in h;
    EntryStart(g, s, dist, e);
    InRemoved(h, i);
    HeapOkGrow(g, s, dist, h, u, e.time);
    assert EntryOk(g, s, dist', e);
    if s !in dist' {
      CoveredRemove(h, i, s, 0);
    }
    forall v, j | v in dist' && v < |g| && 0 <= j < |g[v].links| && (v == u ==> j < 0) && g[v].links[j].to !in dist'
      ensures Covered(h', g[v].links[j].to, dist'[v] + g[v].links[j].minutes)
    {
      CoveredRemove(h, i, g[v].links[j].to, dist[v] + g[v].links[j].minutes);
    }
    if NonNegative(g) {
      SettledGrow(g, s, dist, h, u, e.time);
    }
  }

  /** The entry pushed for link `k` of the popped station is well formed. */
  lemma PushedOk(g: Graph, s: nat, dist: map<nat, int>, e: HeapEntry, k: nat, next: HeapEntry)
    requires WellFormed(g)
    requires EntryOk(g, s, dist, e) && e.station in dist
    requires k < |g[e.station].links|
    requires next == HeapEntry(e.time + g[e.station].links[k].minutes, g[e.station].links[k].to,
                               e.route + [g[e.station].links[k].to])
    requires next.station !in dist
    ensures EntryOk(g, s, dist, next)
  {
    var link := g[e.station].links[k];
    assert link in g[e.station].links && link.to < |g|;
    EntryExtended(g, s, dist, e, link, next);
  }

  /** An entry extended along a link to a station not finalised is an entry,
      with the link's minutes added. */
  lemma EntryExtended(g: Graph, s: nat, dist: map<nat, int>, e: HeapEntry, link: Link, next: HeapEntry)
    requires EntryOk(g, s, dist, e) && e.station in dist
    requires link in g[e.station].links && link.to < |g| && link.to !in dist
    requires next == HeapEntry(e.time + link.minutes, link.to, e.route + [link.to])
    ensures EntryOk(g, s, dist, next)
  {
    var legs :| IsTimedRoute(g, e.route, legs) && Sum(legs) == e.time;
    ExtendTimedRoute(g, e.route, legs, link.to, link.minutes);
    assert IsTimedRoute(g, next.route, legs + [link.minutes]) && Sum(legs + [link.minutes]) == next.time;
    assert next.station !in e.route;
    DistinctAppend(e.route, next.station);
    forall j | 0 <= j < |next.route| - 1
      ensures next.route[j] in dist
    {
      assert next.route[j] == e.route[j];
    }
  }


  lemma ScanPush(g: Graph, s: nat, goal: nat, e: HeapEntry, k: nat, h: seq<HeapEntry>,
                 visited: set<nat>, dist: map<nat, int>, next: HeapEntry, h': seq<HeapEntry>)
    requires WellFormed(g)
    requires Scanning(g, s, goal, e, k, h, visited, dist)
    requires k < |g[e.station].links|
    requires next == HeapEntry(e.time + g[e.station].links[k].minutes, g[e.station].links[k].to,
                               e.route + [g[e.station].links[k].to])
    requires next.station !in visited
    requires h' == h + [next]
    ensures Scanning(g, s, goal, e, k + 1, h', visited, dist)
  {
    PushedOk(g, s, dist, e, k, next);
    assert next in h';
    assert forall x :: x in h ==> x in h';
  }

  lemma ScanSkip(g: Graph, s: nat, goal: nat, e: HeapEntry, k: nat, h: seq<HeapEntry>,
                 visited: set<nat>, dist: map<nat, int>, h': seq<HeapEntry>)
    requires Scanning(g, s, goal, e, k, h, visited, dist)
    requires k < |g[e.station].links| && g[e.station].links[k].to in visited
    requires h' == h
    ensures Scanning(g, s, goal, e, k + 1, h', visited, dist)
  {
  }

  /** The entries pushed for the first `k` links of the popped entry `e`:
      one for each link to a station not in `visited`, in list order. */
  function Relaxations(g: Graph, e: HeapEntry, visited: set<nat>, k: nat): (r: seq<HeapEntry>)
    requires e.station < |g| && k <= |g[e.station].links|
    ensures |r| <= k
  {
    if k == 0 then []
    else
      var link := g[e.station].links[k - 1];
      Relaxations(g, e, visited, k - 1) +
        (if link.to in visited then [] else [HeapEntry(e.time + link.minutes, link.to, e.route + [link.to])])
  }

  /** Each entry of `Relaxations` comes from one of the first `k` links, to a
      station not in `visited`, with the link's minutes added to the popped
      time and the route extended by the station. */
  lemma {:induction false} RelaxationsSound(g: Graph, e: HeapEntry, visited: set<nat>, k: nat, x: HeapEntry)
    requires e.station < |g| && k <= |g[e.station].links|
    requires x in Relaxations(g, e, visited, k)
    ensures x.station !in visited && x.route == e.route + [x.station]
    ensures exists m :: 0 <= m < k && g[e.station].links[m] == Link(x.station, x.time - e.time)
    decreases k
  {
    var link := g[e.station].links[k - 1];
    var prev := Relaxations(g, e, visited, k - 1);
    if x in prev {
      RelaxationsSound(g, e, visited, k - 1, x);
    } else {
      assert link.to !in visited && x == HeapEntry(e.time + link.minutes, link.to, e.route + [link.to]);
      assert g[e.station].links[k - 1] == Link(x.station, x.time - e.time);
    }
  }

  /** Each of the first `k` links to a station not in `visited` gives an
      entry of `Relaxations`. */
  lemma {:induction false} RelaxationsComplete(g: Graph, e: HeapEntry, visited: set<nat>, k: nat, m: nat)
    requires e.station < |g| && m < k <= |g[e.station].links|
    requires g[e.station].links[m].to !in visited
    ensures var link := g[e.station].links[m];
      HeapEntry(e.time + link.minutes, link.to, e.route + [link.to]) in Relaxations(g, e, visited, k)
    decreases k
  {
    if m < k - 1 {
      RelaxationsComplete(g, e, visited, k - 1, m);
    }
  }

  /** No link considered, no entry pushed. */
  lemma RelaxationsNone(g: Graph, e: HeapEntry, visited: set<nat>, h: seq<HeapEntry>)
    requires e.station < |g|
    ensures h + Relaxations(g, e, visited, 0) == h
  {
    assert Relaxations(g, e, visited, 0) == [];
  }

  /** One more link either pushes one more entry or none. */
  lemma RelaxationsStep(g: Graph, e: HeapEntry, visited: set<nat>, k: nat, h: seq<HeapEntry>)
    requires e.station < |g| && 0 < k <= |g[e.station].links|
    ensures var link := g[e.station].links[k - 1];
      link.to in visited ==> h + Relaxations(g, e, visited, k) == h + Relaxations(g, e, visited, k - 1)
    ensures var link := g[e.station].links[k - 1];
      link.to !in visited ==>
        h + Relaxations(g, e, visited, k) ==
        (h + Relaxations(g, e, visited, k - 1)) + [HeapEntry(e.time + link.minutes, link.to, e.route + [link.to])]
  {
  }

  /** Handling link `k` of the popped station keeps every search invariant. */
  lemma ScanStep(g: Graph, s: nat, goal: nat, e: HeapEntry, k: nat, h: seq<HeapEntry>,
                 visited: set<nat>, dist: map<nat, int>)
    requires WellFormed(g) && e.station < |g| && k < |g[e.station].links|
    requires Scanning(g, s, goal, e, k, h + Relaxations(g, e, visited, k), visited, dist)
    ensures Scanning(g, s, goal, e, k + 1, h + Relaxations(g, e, visited, k + 1), visited, dist)
  {
    var link := g[e.station].links[k];
    var before, after := h + Relaxations(g, e, visited, k), h + Relaxations(g, e, visited, k + 1);
    RelaxationsStep(g, e, visited, k + 1, h);
    if link.to in visited {
      ScanSkip(g, s, goal, e, k, before, visited, dist, after);
    } else {
      ScanPush(g, s, goal, e, k, before, visited, dist,
               HeapEntry(e.time + link.minutes, link.to, e.route + [link.to]), after);
    }
  }

  /** Pushing the entries for all links of the popped station, one link at a
      time, keeps every search invariant. */
  lemma ScanAll(g: Graph, s: nat, goal: nat, e: HeapEntry, h: seq<HeapEntry>,
                 visited: set<nat>, dist: map<nat, int>)
    requires WellFormed(g)
    requires Scanning(g, s, goal, e, 0, h, visited, dist)
    ensures Scanning(g, s, goal, e, |g[e.station].links|, h + Relaxations(g, e, visited, |g[e.station].links|), visited, dist)
  {
    RelaxationsNone(g, e, visited, h);
    var k := 0;
    while k < |g[e.station].links|
      invariant k <= |g[e.station].links|
      invariant Scanning(g, s, goal, e, k, h + Relaxations(g, e, visited, k), visited, dist)
    {
      ScanStep(g, s, goal, e, k, h, visited, dist);
      k := k + 1;
    }
  }

  /** The loop over the neighbours of the popped entry `e` (lines 94-99):
      push an entry for each link to a station not yet finalised. */
  method PushLinks(g: Graph, e: HeapEntry, visited: set<nat>, heap: seq<HeapEntry>)
    returns (heap': seq<HeapEntry>)
    requires e.station < |g|
    ensures heap' == heap + Relaxations(g, e, visited, |g[e.station].links|)
  {
    var links := g[e.station].links;
    heap' := heap;
    var k := 0;
    while k < |links|
      invariant k <= |links|
      invariant heap' == heap + Relaxations(g, e, visited, k)
    {
      var w := links[k].to;
      if w !in visited {
        heap' := heap' + [HeapEntry(e.time + links[k].minutes, w, e.route + [w])];
      }
      k := k + 1;
    }
  }

  lemma EndScan(g: Graph, s: nat, goal: nat, e: HeapEntry, h: seq<HeapEntry>,
                visited: set<nat>, dist: map<nat, int>)
    requires e.station < |g|
    requires Scanning(g, s, goal, e, |g[e.station].links|, h, visited, dist)
    ensures Searching(g, s, goal, h, visited, dist)
  {
  }

  lemma NothingCovered(w: nat, t: int)
    ensures !Covered([], w, t)
  {
  }

  /** An empty heap means every station reachable from the start was
      finalised, and the goal was not: it is unreachable. */
  lemma SearchExhausted(g: Graph, s: nat, goal: nat, visited: set<nat>, dist: map<nat, int>, p: seq<nat>)
    requires Searching(g, s, goal, [], visited, dist)
    ensures !IsRouteBetween(g, s, goal, p)
    ensures IsRoute(g, p) && p[0] == s ==> p[|p| - 1] in visited
    ensures s in visited
  {
    NothingCovered(s, 0);
    if IsRoute(g, p) && p[0] == s {
      forall u, k | u in dist.Keys && u < |g| && 0 <= k < |g[u].links|
        ensures g[u].links[k].to in dist.Keys
      {
        NothingCovered(g[u].links[k].to, dist[u] + g[u].links[k].minutes);
      }
      ClosedSetContainsRoute(g, dist.Keys, p, |p| - 1);
    }
  }

  /** The search loop of `en_hizli_rota_bul` from station `s` to station
      `goal`. The least entry is popped; the goal is returned as soon as it
      is popped, an entry of a finalised station is skipped, and otherwise
      the station is finalised and an entry is pushed for each link to a
      station not finalised. `expanded` lists the finalised stations in order. */
  method SearchFastest(g: Graph, s: nat, goal: nat)
    returns (r: Option<(seq<nat>, int)>, ghost expanded: seq<nat>)
    requires WellFormed(g) && s < |g| && goal < |g|
    ensures r.Some? ==> IsRouteBetween(g, s, goal, r.value.0) && Distinct(r.value.0)
    ensures r.Some? ==> exists legs :: IsTimedRouteBetween(g, s, goal, r.value.0, legs) && Sum(legs) == r.value.1
    ensures r.Some? && NonNegative(g) ==> LeastTime(g, s, goal, r.value.1)
    ensures r.None? ==> forall p :: !IsRouteBetween(g, s, goal, p)
    ensures s == goal ==> r == Some(([s], 0))
    ensures Distinct(expanded) && (forall i :: 0 <= i < |expanded| ==> expanded[i] < |g|)
    ensures |expanded| <= |g|
    ensures s != goal ==> |expanded| > 0 && expanded[0] == s
    ensures Reached(g, s, Elems(expanded))
    ensures r.None? ==> forall v, p :: IsRouteBetween(g, s, v, p) ==> v in expanded
    ensures r.Some? && NonNegative(g) ==>
      forall v, p, legs :: IsTimedRouteBetween(g, s, v, p, legs) && Sum(legs) < r.value.1 ==> v in expanded
  {
    var heap := [Initial(s)];
    var visited: set<nat> := {};
    ghost var dist: map<nat, int> := map[];
    expanded := [];
    SearchStart(g, s, goal);
    while |heap| > 0
      invariant Searching(g, s, goal, heap, visited, dist)
      invariant Enumerates(g, visited, expanded)
      invariant Reached(g, s, visited) && (|expanded| > 0 ==> expanded[0] == s)
      decreases Below(|g|) - visited, |heap|
    {
      HeapInArena(g, s, dist, heap);
      var i := MinIndex(g, heap);
      PoppedIsLeast(g, heap, i);
      var e := heap[i];
      ghost var heap0 := heap;
      heap := heap[..i] + heap[i + 1..];
      if e.station == goal {
        PopGoal(g, s, goal, heap0, visited, dist, i);
        forall v, p, legs | NonNegative(g) && IsTimedRouteBetween(g, s, v, p, legs) && Sum(legs) < e.time
          ensures v in expanded
        {
          assert v in Elems(expanded);
        }
        r := Some((e.route, e.time));
        DistinctBounded(expanded, |g|);
        assert s != goal ==> s in Elems(expanded);
        return;
      }
      if e.station in visited {
        PopStale(g, s, goal, heap0, visited, dist, i);
        continue;
      }
      var u := e.station;
      ghost var visited0, dist0 := visited, dist;
      EnumeratesAdd(g, visited, expanded, u);
      visited := visited + {u};
      dist := dist[u := e.time];
      expanded := expanded + [u];
      PopNew(g, s, goal, heap0, visited0, dist0, i, heap, visited, dist);
      ReachedAdd(g, s, visited0, u, e.route);
      ghost var heap1 := heap;
      heap := PushLinks(g, e, visited, heap);
      ScanAll(g, s, goal, e, heap1, visited, dist);
      EndScan(g, s, goal, e, heap, visited, dist);
    }
    forall p
      ensures !IsRouteBetween(g, s, goal, p)
    {
      SearchExhausted(g, s, goal, visited, dist, p);
    }
    forall v, p | IsRouteBetween(g, s, v, p)
      ensures v in expanded
    {
      SearchExhausted(g, s, goal, visited, dist, p);
      assert v in Elems(expanded);
    }
    SearchExhausted(g, s, goal, visited, dist, [s]);
    assert s in Elems(expanded);
    r := None;
    DistinctBounded(expanded, |g|);
  }
}
