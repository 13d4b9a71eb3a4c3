/** The search state of the least-transfer router (`en_az_aktarma_bul`) and
    the facts that make its breadth-first search return a shortest route. */
module Bfs {
  import opened Stations
  import opened Routes
  import opened Wrappers

  /** A queue entry: the station reached, the transfer counter carried along,
      and the route from the start to that station. */
  datatype QueueItem = QueueItem(station: nat, transfers: nat, route: seq<nat>)

  /** The stations waiting in the queue. */
  ghost function QueueStations(q: seq<QueueItem>): set<nat>
  {
    set i | 0 <= i < |q| :: q[i].station
  }

  lemma QueueStationsPop(q: seq<QueueItem>)
    requires |q| > 0
    ensures QueueStations(q) == {q[0].station} + QueueStations(q[1..])
  {
    forall x | x in QueueStations(q)
      ensures x in {q[0].station} + QueueStations(q[1..])
    {
      var i :| 0 <= i < |q| && q[i].station == x;
      if i > 0 {
        assert q[1..][i - 1].station == x;
      }
    }
    forall x | x in QueueStations(q[1..])
      ensures x in QueueStations(q)
    {
      var i :| 0 <= i < |q[1..]| && q[1..][i].station == x;
      assert q[i + 1].station == x;
    }
  }

  lemma QueueStationsPush(q: seq<QueueItem>, item: QueueItem)
    ensures QueueStations(q + [item]) == QueueStations(q) + {item.station}
  {
    var q' := q + [item];
    assert q'[|q|].station == item.station;
    forall x | x in QueueStations(q')
      ensures x in QueueStations(q) + {item.station}
    {
      var i :| 0 <= i < |q'| && q'[i].station == x;
      if i < |q| {
        assert q[i].station == x;
      }
    }
    forall x | x in QueueStations(q)
      ensures x in QueueStations(q')
    {
      var i :| 0 <= i < |q| && q[i].station == x;
      assert q'[i].station == x;
    }
  }

  /** A queue entry is a route without repeats from `s` to its station, made
      of stations already marked, whose level is its number of rides, and whose
      transfer counter counts its line changes. */
  ghost predicate ItemOk(g: Graph, s: nat, item: QueueItem, level: map<nat, nat>)
  {
    && IsRouteBetween(g, s, item.station, item.route)
    && Distinct(item.route)
    && (forall i :: 0 <= i < |item.route| ==> item.route[i] in level)
    && item.station in level
    && level[item.station] == |item.route| - 1
    && item.transfers == Transfers(g, item.route)
  }

  /** Marking another station keeps a queue entry sound. */
  lemma ItemOkMarked(g: Graph, s: nat, item: QueueItem, level: map<nat, nat>, w: nat, d: nat)
    requires ItemOk(g, s, item, level) && w !in level
    ensures ItemOk(g, s, item, level[w := d])
  {
  }

  /** Every neighbour of an expanded station is marked, at most one level deeper. */
  ghost predicate Expanded(g: Graph, done: set<nat>, level: map<nat, nat>)
  {
    forall u, k :: u in done && u < |g| && 0 <= k < |g[u].links| ==>
      && g[u].links[k].to in level
      && u in level
      && level[g[u].links[k].to] <= level[u] + 1
  }

  /** Along any walk from the start, the `i`-th station is marked at level at
      most `i`, as long as every station marked below level `depth` has been
      expanded and `i <= depth`. */
  lemma {:induction false} LevelBound(g: Graph, s: nat, done: set<nat>, level: map<nat, nat>,
                                      depth: nat, p: seq<nat>, i: nat)
    requires IsRoute(g, p) && p[0] == s && s in level && level[s] == 0
    requires Expanded(g, done, level)
    requires forall v :: v in level && level[v] < depth ==> v in done
    requires i < |p| && i <= depth
    ensures p[i] in level && level[p[i]] <= i
    decreases i
  {
    if i > 0 {
      LevelBound(g, s, done, level, depth, p, i - 1);
      assert p[i - 1] in done;
      assert HasEdge(g, p[i - 1], p[i]);
      var k :| 0 <= k < |g[p[i - 1]].links| && g[p[i - 1]].links[k].to == p[i];
    }
  }

  /** When the station `t` leaves the queue at level `depth` and every station
      marked below that level has been expanded, no walk from the start to `t`
      has fewer than `depth` rides. */
  lemma NoShorterRoute(g: Graph, s: nat, t: nat, done: set<nat>, level: map<nat, nat>,
                       depth: nat, p: seq<nat>)
    requires IsRouteBetween(g, s, t, p)
    requires s in level && level[s] == 0 && t in level && level[t] == depth
    requires Expanded(g, done, level)
    requires forall v :: v in level && level[v] < depth ==> v in done
    ensures depth < |p|
  {
    if |p| - 1 < depth {
      LevelBound(g, s, done, level, depth, p, |p| - 1);
    }
  }

  /** Every station some walk of at most `depth` rides reaches from the start
      is marked, as long as every station marked below level `depth` has been
      expanded. */
  lemma MarkedWithin(g: Graph, s: nat, done: set<nat>, level: map<nat, nat>, depth: nat)
    requires s in level && level[s] == 0
    requires Expanded(g, done, level)
    requires forall v :: v in level && level[v] < depth ==> v in done
    ensures forall v, p :: IsRouteBetween(g, s, v, p) && |p| <= depth + 1 ==> v in level
  {
    forall v, p | IsRouteBetween(g, s, v, p) && |p| <= depth + 1
      ensures v in level
    {
      LevelBound(g, s, done, level, depth, p, |p| - 1);
    }
  }

  /** The queue entry `before[0]` reaches the goal: every station marked below
      its level has been expanded, so its route is a shortest one. */
  lemma EndOfSearch(g: Graph, s: nat, goal: nat, before: seq<QueueItem>, done: set<nat>,
                    level: map<nat, nat>, route: seq<nat>)
    requires |before| > 0 && before[0].station == goal && before[0].route == route
    requires s in level && level[s] == 0
    requires forall i :: 0 <= i < |before| ==> ItemOk(g, s, before[i], level)
    requires level.Keys == done + QueueStations(before)
    requires Expanded(g, done, level)
    requires forall i :: 0 <= i < |before| ==> |before[0].route| <= |before[i].route|
    ensures IsRouteBetween(g, s, goal, route) && Distinct(route)
    ensures forall p :: IsRouteBetween(g, s, goal, p) ==> |route| <= |p|
    ensures s == goal ==> route == [s]
    ensures forall v, p :: IsRouteBetween(g, s, v, p) && |p| <= |route| ==> v in level
  {
    var depth := |route| - 1;
    assert forall v :: v in level && level[v] < depth ==> v in done;
    forall p | IsRouteBetween(g, s, goal, p)
      ensures |route| <= |p|
    {
      NoShorterRoute(g, s, goal, done, level, depth, p);
    }
    MarkedWithin(g, s, done, level, depth);
    if s == goal {
      assert IsRouteBetween(g, s, goal, [s]);
      assert |route| == 1;
    }
  }

  /** The marks: `visited` is the set of marked stations, each with its level,
      none deeper than `depth + 1`; the start is marked at level 0. */
  ghost predicate Marked(g: Graph, s: nat, visited: set<nat>, level: map<nat, nat>, depth: nat)
  {
    && visited == level.Keys
    && (forall v :: v in visited ==> v < |g| && level[v] <= depth + 1)
    && s in level && level[s] == 0
  }

  /** The queue: sound entries for distinct stations, in order of level, all at
      level `depth` or `depth + 1`. */
  ghost predicate QueueOk(g: Graph, s: nat, queue: seq<QueueItem>, level: map<nat, nat>, depth: nat)
  {
    && (forall i :: 0 <= i < |queue| ==> ItemOk(g, s, queue[i], level))
    && (forall i :: 0 <= i < |queue| ==> depth + 1 <= |queue[i].route| <= depth + 2)
    && (forall i, j :: 0 <= i < j < |queue| ==> queue[i].station != queue[j].station)
    && (forall i, j :: 0 <= i <= j < |queue| ==> |queue[i].route| <= |queue[j].route|)
  }

  /** Every marked station is either expanded or waiting in the queue. */
  ghost predicate Partition(visited: set<nat>, done: set<nat>, queue: seq<QueueItem>)
  {
    && visited == done + QueueStations(queue)
    && (forall i :: 0 <= i < |queue| ==> queue[i].station !in done)
  }

  /** Expanded stations are marked no deeper than `depth`. */
  ghost predicate DoneBelow(done: set<nat>, level: map<nat, nat>, depth: nat)
  {
    forall v :: v in done ==> v in level && level[v] <= depth
  }

  /** The first `k` neighbours of `u` are marked no deeper than `depth + 1`. */
  ghost predicate ScannedUpTo(g: Graph, u: nat, k: nat, level: map<nat, nat>, depth: nat)
    requires u < |g| && k <= |g[u].links|
  {
    forall j :: 0 <= j < k ==> g[u].links[j].to in level && level[g[u].links[j].to] <= depth + 1
  }

  /** What holds each time the search loop tests its queue: the marks, the
      queue and the expanded stations agree, the goal has not been expanded,
      and each expanded station has all its neighbours marked. */
  ghost predicate Searching(g: Graph, s: nat, goal: nat, queue: seq<QueueItem>, visited: set<nat>,
                            done: set<nat>, level: map<nat, nat>, depth: nat)
  {
    && s < |g| && goal < |g|
    && Marked(g, s, visited, level, depth)
    && QueueOk(g, s, queue, level, depth)
    && Partition(visited, done, queue)
    && goal !in done
    && Expanded(g, done, level)
    && DoneBelow(done, level, depth)
  }

  /** What holds while the neighbours of `item`, the entry just dequeued, are
      scanned: as above, except that `item`'s station is expanded only up to
      its `k`-th neighbour. */
  ghost predicate Scanning(g: Graph, s: nat, goal: nat, item: QueueItem, k: nat, queue: seq<QueueItem>,
                           visited: set<nat>, done: set<nat>, level: map<nat, nat>, depth: nat)
  {
    && s < |g| && goal < |g| && item.station < |g| && k <= |g[item.station].links|
    && Marked(g, s, visited, level, depth)
    && QueueOk(g, s, queue, level, depth)
    && Partition(visited, done, queue)
    && goal !in done
    && item.station in done && ItemOk(g, s, item, level) && level[item.station] == depth
    && Expanded(g, done - {item.station}, level)
    && ScannedUpTo(g, item.station, k, level, depth)
    && DoneBelow(done, level, depth)
  }

  /** The queue holding only the start, with only the start marked. */
  lemma SearchStart(g: Graph, s: nat, goal: nat)
    requires s < |g| && goal < |g|
    ensures Searching(g, s, goal, [QueueItem(s, 0, [s])], {s}, {}, map[s := 0], 0)
  {
    var q := [QueueItem(s, 0, [s])];
    assert QueueStations(q) == {s} by {
      assert q[0].station == s;
    }
    assert IsRouteBetween(g, s, s, [s]);
  }

  lemma QueueOkPop(g: Graph, s: nat, queue: seq<QueueItem>, level: map<nat, nat>, depth: nat)
    requires QueueOk(g, s, queue, level, depth) && |queue| > 0
    ensures QueueOk(g, s, queue[1..], level, |queue[0].route| - 1)
  {
    var rest := queue[1..];
    forall i | 0 <= i < |rest|
      ensures ItemOk(g, s, rest[i], level)
      ensures |queue[0].route| <= |rest[i].route| <= |queue[0].route| + 1
    {
      assert rest[i] == queue[i + 1];
    }
  }

  lemma PartitionPop(visited: set<nat>, done: set<nat>, queue: seq<QueueItem>)
    requires Partition(visited, done, queue) && |queue| > 0
    requires forall i, j :: 0 <= i < j < |queue| ==> queue[i].station != queue[j].station
    ensures Partition(visited, done + {queue[0].station}, queue[1..])
  {
    QueueStationsPop(queue);
    forall i | 0 <= i < |queue| - 1
      ensures queue[1..][i].station !in done + {queue[0].station}
    {
      assert queue[1..][i] == queue[i + 1];
    }
  }

  /** Dequeuing an entry that is not the goal starts the scan of its neighbours. */
  lemma StartScan(g: Graph, s: nat, goal: nat, queue: seq<QueueItem>, visited: set<nat>,
                  done: set<nat>, level: map<nat, nat>, depth: nat,
                  item: QueueItem, rest: seq<QueueItem>, done': set<nat>, depth': nat)
    requires Searching(g, s, goal, queue, visited, done, level, depth)
    requires |queue| > 0 && queue[0].station != goal
    requires item == queue[0] && rest == queue[1..]
    requires done' == done + {item.station} && depth' == |item.route| - 1
    ensures item.station !in done && item.station < |g|
    ensures Scanning(g, s, goal, item, 0, rest, visited, done', level, depth')
  {
    assert ItemOk(g, s, item, level);
    QueueOkPop(g, s, queue, level, depth);
    PartitionPop(visited, done, queue);
  }

  /** A neighbour that is already marked is skipped. */
  lemma ScanMarked(g: Graph, s: nat, goal: nat, item: QueueItem, k: nat, queue: seq<QueueItem>,
                   visited: set<nat>, done: set<nat>, level: map<nat, nat>, depth: nat)
    requires Scanning(g, s, goal, item, k, queue, visited, done, level, depth)
    requires k < |g[item.station].links| && g[item.station].links[k].to in visited
    ensures Scanning(g, s, goal, item, k + 1, queue, visited, done, level, depth)
  {
  }

  lemma MarkedAdd(g: Graph, s: nat, visited: set<nat>, level: map<nat, nat>, depth: nat, w: nat)
    requires Marked(g, s, visited, level, depth) && w < |g| && w !in visited
    ensures Marked(g, s, visited + {w}, level[w := depth + 1], depth)
  {
  }

  lemma QueueOkPush(g: Graph, s: nat, queue: seq<QueueItem>, level: map<nat, nat>, depth: nat,
                    next: QueueItem)
    requires QueueOk(g, s, queue, level, depth)
    requires next.station !in level && next.station !in QueueStations(queue)
    requires ItemOk(g, s, next, level[next.station := depth + 1]) && |next.route| == depth + 2
    ensures QueueOk(g, s, queue + [next], level[next.station := depth + 1], depth)
  {
    var q' := queue + [next];
    forall i | 0 <= i < |queue|
      ensures ItemOk(g, s, q'[i], level[next.station := depth + 1])
      ensures q'[i].station != next.station
    {
      assert q'[i] == queue[i];
      ItemOkMarked(g, s, queue[i], level, next.station, depth + 1);
    }
  }

  lemma PartitionPush(visited: set<nat>, done: set<nat>, queue: seq<QueueItem>, next: QueueItem)
    requires Partition(visited, done, queue) && next.station !in visited
    ensures Partition(visited + {next.station}, done, queue + [next])
  {
    QueueStationsPush(queue, next);
    forall i | 0 <= i < |queue|
      ensures (queue + [next])[i].station !in done
    {
      assert (queue + [next])[i] == queue[i];
    }
  }

  lemma ExpandedAdd(g: Graph, done: set<nat>, level: map<nat, nat>, w: nat, d: nat)
    requires Expanded(g, done, level) && w !in level
    ensures Expanded(g, done, level[w := d])
  {
    forall u, k | u in done && u < |g| && 0 <= k < |g[u].links|
      ensures level[w := d][g[u].links[k].to] <= level[w := d][u] + 1
    {
      assert g[u].links[k].to in level && u in level;
      assert u != w && g[u].links[k].to != w;
    }
  }

  lemma ScannedAdd(g: Graph, u: nat, k: nat, level: map<nat, nat>, depth: nat)
    requires u < |g| && k < |g[u].links|
    requires ScannedUpTo(g, u, k, level, depth) && g[u].links[k].to !in level
    ensures ScannedUpTo(g, u, k + 1, level[g[u].links[k].to := depth + 1], depth)
  {
  }

  /** The entry for a neighbour `w` of a sound entry's station, not yet marked,
      is sound once `w` is marked one level deeper. */
  lemma NextItemOk(g: Graph, s: nat, item: QueueItem, k: nat, level: map<nat, nat>, next: QueueItem)
    requires WellFormed(g) && ItemOk(g, s, item, level)
    requires item.station < |g| && k < |g[item.station].links|
    requires next.station == g[item.station].links[k].to && next.station !in level
    requires next.route == item.route + [next.station]
    requires next.transfers ==
      if g[next.station].line == g[item.station].line then item.transfers else item.transfers + 1
    ensures ItemOk(g, s, next, level[next.station := level[item.station] + 1])
    ensures ItemOk(g, s, item, level[next.station := level[item.station] + 1])
    ensures IsRouteBetween(g, s, next.station, next.route)
  {
    var u, w := item.station, next.station;
    assert HasEdge(g, u, w);
    ExtendRoute(g, item.route, w);
    DistinctAppend(item.route, w);
    ItemOkMarked(g, s, item, level, w, level[u] + 1);
  }

  /** A neighbour not yet marked is marked one level deeper and enqueued with
      the route extended by it and the transfer counter updated. */
  lemma ScanNew(g: Graph, s: nat, goal: nat, item: QueueItem, k: nat, queue: seq<QueueItem>,
                visited: set<nat>, done: set<nat>, level: map<nat, nat>, depth: nat, next: QueueItem)
    requires WellFormed(g)
    requires Scanning(g, s, goal, item, k, queue, visited, done, level, depth)
    requires k < |g[item.station].links|
    requires next.station == g[item.station].links[k].to && next.station !in visited
    requires next.route == item.route + [next.station]
    requires next.transfers ==
      if g[next.station].line == g[item.station].line then item.transfers else item.transfers + 1
    ensures Scanning(g, s, goal, item, k + 1, queue + [next], visited + {next.station}, done,
                     level[next.station := depth + 1], depth)
    ensures IsRouteBetween(g, s, next.station, next.route)
  {
    var u, w := item.station, next.station;
    NextItemOk(g, s, item, k, level, next);
    MarkedAdd(g, s, visited, level, depth, w);
    QueueOkPush(g, s, queue, level, depth, next);
    PartitionPush(visited, done, queue, next);
    ExpandedAdd(g, done - {u}, level, w, depth + 1);
    ScannedAdd(g, u, k, level, depth);
  }

  /** When all neighbours are scanned, the dequeued station is fully expanded. */
  lemma EndScan(g: Graph, s: nat, goal: nat, item: QueueItem, queue: seq<QueueItem>,
                visited: set<nat>, done: set<nat>, level: map<nat, nat>, depth: nat)
    requires item.station < |g|
    requires Scanning(g, s, goal, item, |g[item.station].links|, queue, visited, done, level, depth)
    ensures Searching(g, s, goal, queue, visited, done, level, depth)
  {
  }

  /** An empty queue means every station reachable from the start was
      expanded, and the goal was not: it is unreachable. */
  lemma SearchExhausted(g: Graph, s: nat, goal: nat, visited: set<nat>, done: set<nat>,
                        level: map<nat, nat>, depth: nat, p: seq<nat>)
    requires Searching(g, s, goal, [], visited, done, level, depth)
    ensures !IsRouteBetween(g, s, goal, p)
    ensures IsRoute(g, p) && p[0] == s ==> p[|p| - 1] in visited
  {
    assert QueueStations([]) == {};
    if IsRoute(g, p) && p[0] == s {
      ClosedSetContainsRoute(g, done, p, |p| - 1);
    }
  }

  /** A five-station network: A, C, D and E on line X, B on line Y, with
      A - B - C the only two-ride route from A to C and A - D - E - C a
      three-ride route that never changes line. */
  function TwoLines(): Graph
  {
    [ Station("A", "A", "X", [Link(1, 1), Link(3, 1)]),
      Station("B", "B", "Y", [Link(0, 1), Link(2, 1)]),
      Station("C", "C", "X", [Link(1, 1), Link(4, 1)]),
      Station("D", "D", "X", [Link(0, 1), Link(4, 1)]),
      Station("E", "E", "X", [Link(3, 1), Link(2, 1)]) ]
  }

  /** The neighbours of A in `TwoLines` are B and D; C is a neighbour of B, not of A or D. */
  lemma TwoLinesEdges(x: nat)
    ensures HasEdge(TwoLines(), 0, x) ==> x == 1 || x == 3
    ensures HasEdge(TwoLines(), 0, 1) && HasEdge(TwoLines(), 1, 2)
    ensures !HasEdge(TwoLines(), 0, 2) && !HasEdge(TwoLines(), 3, 2)
  {
    var g := TwoLines();
    assert g[0].links[0].to == 1 && g[1].links[1].to == 2;
  }

  /** A route with the fewest rides from A to C in `TwoLines` is A - B - C. */
  lemma TwoLinesShortest(p: seq<nat>)
    requires IsRouteBetween(TwoLines(), 0, 2, p)
    requires forall q :: IsRouteBetween(TwoLines(), 0, 2, q) ==> |p| <= |q|
    ensures p == [0, 1, 2]
  {
    var g := TwoLines();
    TwoLinesEdges(p[1]);
    assert IsRouteBetween(g, 0, 2, [0, 1, 2]);
    assert |p| <= 3;
    assert HasEdge(g, p[0], p[1]);
    if |p| == 3 {
      assert HasEdge(g, p[1], p[2]);
    }
  }

  lemma TwoLinesTransfers()
    ensures Transfers(TwoLines(), [0, 1, 2]) == 2
    ensures Transfers(TwoLines(), [0, 3, 4, 2]) == 0
  {
    var g := TwoLines();
    assert [0, 1, 2][..2] == [0, 1] && [0, 1][..1] == [0];
    assert Transfers(g, [0, 1]) == 1;
    assert [0, 3, 4, 2][..3] == [0, 3, 4] && [0, 3, 4][..2] == [0, 3] && [0, 3][..1] == [0];
    assert Transfers(g, [0, 3]) == 0;
    assert Transfers(g, [0, 3, 4]) == 0;
  }

  /** A - D - E - C is a route from A to C in `TwoLines` that stays on line X. */
  lemma TwoLinesSameLine()
    ensures IsRouteBetween(TwoLines(), 0, 2, [0, 3, 4, 2]) && Transfers(TwoLines(), [0, 3, 4, 2]) == 0
  {
    var g := TwoLines();
    TwoLinesTransfers();
    assert g[0].links[1].to == 3 && g[3].links[1].to == 4 && g[4].links[1].to == 2;
  }

  /** The search minimises rides, not line changes: in `TwoLines`, every route
      from A to C with the fewest rides (which is what `SearchFewestRides`
      returns) changes line twice, while another route changes line never. */
  lemma FewestRidesNotFewestTransfers()
    ensures forall p :: IsRouteBetween(TwoLines(), 0, 2, p) &&
                        (forall q :: IsRouteBetween(TwoLines(), 0, 2, q) ==> |p| <= |q|) ==>
                        Transfers(TwoLines(), p) == 2
    ensures IsRouteBetween(TwoLines(), 0, 2, [0, 3, 4, 2]) && Transfers(TwoLines(), [0, 3, 4, 2]) == 0
  {
    forall p | IsRouteBetween(TwoLines(), 0, 2, p) && (forall q :: IsRouteBetween(TwoLines(), 0, 2, q) ==> |p| <= |q|)
      ensures Transfers(TwoLines(), p) == 2
    {
      TwoLinesShortest(p);
      TwoLinesTransfers();
    }
    TwoLinesSameLine();
  }

  /** The transfer counter after one more ride, from `item`'s station to `w`:
      unchanged on the same line, one more otherwise. */
  function NextTransfers(g: Graph, item: QueueItem, w: nat): (r: nat)
    requires item.station < |g| && w < |g|
    ensures var p := item.route;
      |p| > 0 && (forall i :: 0 <= i < |p| ==> p[i] < |g|) && p[|p| - 1] == item.station &&
      item.transfers == Transfers(g, p) ==>
        r == Transfers(g, p + [w])
  {
    var p := item.route;
    if |p| > 0 && (forall i :: 0 <= i < |p| ==> p[i] < |g|) then
      TransfersAppend(g, p, w);
      if g[w].line == g[item.station].line then item.transfers else item.transfers + 1
    else
      if g[w].line == g[item.station].line then item.transfers else item.transfers + 1
  }

  /** The entries the neighbour loop enqueues for the first `k` neighbours of
      `item`'s station, in neighbour-list order: one for each neighbour that was
      not marked before the scan and was not enqueued earlier in it. */
  ghost function NewEntries(g: Graph, item: QueueItem, visited: set<nat>, k: nat): (r: seq<QueueItem>)
    requires WellFormed(g) && item.station < |g| && k <= |g[item.station].links|
    ensures |r| <= k
  {
    if k == 0 then []
    else
      var prev := NewEntries(g, item, visited, k - 1);
      var w := g[item.station].links[k - 1].to;
      if w in visited || w in QueueStations(prev) then prev
      else prev + [QueueItem(w, NextTransfers(g, item, w), item.route + [w])]
  }

  /** The stations of a list of queue entries, in order. */
  ghost function EntryStations(q: seq<QueueItem>): (r: seq<nat>)
    ensures |r| == |q|
    ensures forall i :: 0 <= i < |q| ==> r[i] == q[i].station
  {
    if q == [] then [] else EntryStations(q[..|q| - 1]) + [q[|q| - 1].station]
  }

  /** One more neighbour either adds no entry or one entry. */
  lemma NewEntriesStep(g: Graph, item: QueueItem, visited: set<nat>, k: nat)
    requires WellFormed(g) && item.station < |g| && k < |g[item.station].links|
    ensures var w := g[item.station].links[k].to;
      w in visited + QueueStations(NewEntries(g, item, visited, k)) ==>
        NewEntries(g, item, visited, k + 1) == NewEntries(g, item, visited, k)
    ensures var w := g[item.station].links[k].to;
      w !in visited + QueueStations(NewEntries(g, item, visited, k)) ==>
        NewEntries(g, item, visited, k + 1) ==
        NewEntries(g, item, visited, k) + [QueueItem(w, NextTransfers(g, item, w), item.route + [w])]
  {
  }

  /** Each new entry is for a neighbour of `item`'s station that was not marked
      before the scan; its route is `item`'s extended by that neighbour and its
      counter is `item`'s after one more ride. */
  lemma {:induction false} NewEntriesSound(g: Graph, item: QueueItem, visited: set<nat>, k: nat, x: QueueItem)
    requires WellFormed(g) && item.station < |g| && k <= |g[item.station].links|
    requires x in NewEntries(g, item, visited, k)
    ensures x.station < |g| && x.station !in visited
    ensures exists m :: 0 <= m < k && g[item.station].links[m].to == x.station
    ensures x == QueueItem(x.station, NextTransfers(g, item, x.station), item.route + [x.station])
    decreases k
  {
    var prev := NewEntries(g, item, visited, k - 1);
    var w := g[item.station].links[k - 1].to;
    if x in prev {
      NewEntriesSound(g, item, visited, k - 1, x);
    } else {
      assert x == QueueItem(w, NextTransfers(g, item, w), item.route + [w]);
    }
  }

  /** Each of the first `k` neighbours not marked before the scan gets an entry. */
  lemma {:induction false} NewEntriesComplete(g: Graph, item: QueueItem, visited: set<nat>, k: nat, m: nat)
    requires WellFormed(g) && item.station < |g| && m < k <= |g[item.station].links|
    requires g[item.station].links[m].to !in visited
    ensures g[item.station].links[m].to in QueueStations(NewEntries(g, item, visited, k))
    decreases k
  {
    var prev := NewEntries(g, item, visited, k - 1);
    var w := g[item.station].links[k - 1].to;
    if m < k - 1 {
      NewEntriesComplete(g, item, visited, k - 1, m);
    }
    if w in visited || w in QueueStations(prev) {
    } else {
      QueueStationsPush(prev, QueueItem(w, NextTransfers(g, item, w), item.route + [w]));
    }
  }

  /** No station gets two new entries. */
  lemma {:induction false} NewEntriesDistinct(g: Graph, item: QueueItem, visited: set<nat>, k: nat)
    requires WellFormed(g) && item.station < |g| && k <= |g[item.station].links|
    ensures forall i, j :: 0 <= i < j < |NewEntries(g, item, visited, k)| ==>
      NewEntries(g, item, visited, k)[i].station != NewEntries(g, item, visited, k)[j].station
    decreases k
  {
    if k > 0 {
      NewEntriesDistinct(g, item, visited, k - 1);
      var prev := NewEntries(g, item, visited, k - 1);
      var w := g[item.station].links[k - 1].to;
      if w !in visited && w !in QueueStations(prev) {
        var q := NewEntries(g, item, visited, k);
        forall i, j | 0 <= i < j < |q|
          ensures q[i].station != q[j].station
        {
          if j == |prev| {
            assert q[i] == prev[i];
            assert prev[i].station in QueueStations(prev);
          } else {
            assert q[i] == prev[i] && q[j] == prev[j];
          }
        }
      }
    }
  }

  /** `level` with each station of `q` put one level below the dequeued one. */
  ghost function Levels(level: map<nat, nat>, q: seq<QueueItem>, d: nat): map<nat, nat>
  {
    if q == [] then level else Levels(level, q[..|q| - 1], d)[q[|q| - 1].station := d]
  }

  /** Appending one entry to the new entries extends the queue, the marks, the
      order of enqueuing and the levels by it. */
  lemma EntriesPush(queue: seq<QueueItem>, visited: set<nat>, enqueued: seq<nat>, level: map<nat, nat>, d: nat,
                    q: seq<QueueItem>, next: QueueItem)
    ensures queue + (q + [next]) == queue + q + [next]
    ensures visited + QueueStations(q + [next]) == visited + QueueStations(q) + {next.station}
    ensures enqueued + EntryStations(q + [next]) == enqueued + EntryStations(q) + [next.station]
    ensures Levels(level, q + [next], d) == Levels(level, q, d)[next.station := d]
  {
    QueueStationsPush(q, next);
    assert (q + [next])[..|q|] == q;
  }

  /** The search is scanning `item`'s `k`-th neighbour, and the marked
      stations are listed and reached from the start. */
  ghost predicate ScanInvariant(g: Graph, s: nat, goal: nat, item: QueueItem, k: nat, queue: seq<QueueItem>,
                       visited: set<nat>, enqueued: seq<nat>, done: set<nat>, level: map<nat, nat>, depth: nat)
  {
    Scanning(g, s, goal, item, k, queue, visited, done, level, depth)
    && Enumerates(g, visited, enqueued) && Reached(g, s, visited)
  }

  /** Enqueuing a neighbour not yet marked keeps the search invariants. */
  lemma ScanInvariantNew(g: Graph, s: nat, goal: nat, item: QueueItem, k: nat, queue: seq<QueueItem>,
                visited: set<nat>, enqueued: seq<nat>, done: set<nat>, level: map<nat, nat>, depth: nat,
                next: QueueItem)
    requires WellFormed(g)
    requires ScanInvariant(g, s, goal, item, k, queue, visited, enqueued, done, level, depth)
    requires k < |g[item.station].links| && g[item.station].links[k].to !in visited
    requires next == QueueItem(g[item.station].links[k].to, NextTransfers(g, item, g[item.station].links[k].to),
                               item.route + [g[item.station].links[k].to])
    ensures ScanInvariant(g, s, goal, item, k + 1, queue + [next], visited + {next.station}, enqueued + [next.station],
                 done, level[next.station := depth + 1], depth)
  {
    ScanNew(g, s, goal, item, k, queue, visited, done, level, depth, next);
    EnumeratesAdd(g, visited, enqueued, next.station);
    ReachedAdd(g, s, visited, next.station, next.route);
  }

  /** The search invariants after the new entries of the first `k` neighbours
      are enqueued, marked, listed and put one level deeper. */
  ghost predicate ScanInvariantAfter(g: Graph, s: nat, goal: nat, item: QueueItem, k: nat, queue: seq<QueueItem>,
                            visited: set<nat>, enqueued: seq<nat>, done: set<nat>, level: map<nat, nat>, depth: nat)
    requires WellFormed(g) && item.station < |g| && k <= |g[item.station].links|
  {
    ScanInvariant(g, s, goal, item, k, queue + NewEntries(g, item, visited, k),
         visited + QueueStations(NewEntries(g, item, visited, k)),
         enqueued + EntryStations(NewEntries(g, item, visited, k)), done,
         Levels(level, NewEntries(g, item, visited, k), depth + 1), depth)
  }

  lemma ScanInvariantStart(g: Graph, s: nat, goal: nat, item: QueueItem, queue: seq<QueueItem>,
                  visited: set<nat>, enqueued: seq<nat>, done: set<nat>, level: map<nat, nat>, depth: nat)
    requires WellFormed(g)
    requires ScanInvariant(g, s, goal, item, 0, queue, visited, enqueued, done, level, depth)
    ensures ScanInvariantAfter(g, s, goal, item, 0, queue, visited, enqueued, done, level, depth)
  {
    assert NewEntries(g, item, visited, 0) == [];
    assert QueueStations([]) == {};
    assert queue + [] == queue && enqueued + [] == enqueued && visited + {} == visited;
    assert Levels(level, [], depth + 1) == level && EntryStations([]) == [];
  }

  /** One more neighbour keeps the search invariants. */
  lemma ScanInvariantStep(g: Graph, s: nat, goal: nat, item: QueueItem, k: nat, queue: seq<QueueItem>,
                 visited: set<nat>, enqueued: seq<nat>, done: set<nat>, level: map<nat, nat>, depth: nat)
    requires WellFormed(g) && item.station < |g| && k < |g[item.station].links|
    requires ScanInvariantAfter(g, s, goal, item, k, queue, visited, enqueued, done, level, depth)
    ensures ScanInvariantAfter(g, s, goal, item, k + 1, queue, visited, enqueued, done, level, depth)
  {
    var prev := NewEntries(g, item, visited, k);
    var queue', visited', enqueued', level' :=
      queue + prev, visited + QueueStations(prev), enqueued + EntryStations(prev), Levels(level, prev, depth + 1);
    var w := g[item.station].links[k].to;
    NewEntriesStep(g, item, visited, k);
    if w in visited' {
      ScanMarked(g, s, goal, item, k, queue', visited', done, level', depth);
    } else {
      var next := QueueItem(w, NextTransfers(g, item, w), item.route + [w]);
      ScanInvariantNew(g, s, goal, item, k, queue', visited', enqueued', done, level', depth, next);
      EntriesPush(queue, visited, enqueued, level, depth + 1, prev, next);
    }
  }

  /** The search invariants survive the whole neighbour loop for `item`. */
  lemma EnqueueKeeps(g: Graph, s: nat, goal: nat, item: QueueItem, queue: seq<QueueItem>,
                     visited: set<nat>, enqueued: seq<nat>, done: set<nat>, level: map<nat, nat>, depth: nat)
    requires WellFormed(g) && item.station < |g|
    requires ScanInvariant(g, s, goal, item, 0, queue, visited, enqueued, done, level, depth)
    ensures ScanInvariantAfter(g, s, goal, item, |g[item.station].links|, queue, visited, enqueued, done, level, depth)
  {
    ScanInvariantStart(g, s, goal, item, queue, visited, enqueued, done, level, depth);
    var k := 0;
    while k < |g[item.station].links|
      invariant k <= |g[item.station].links|
      invariant ScanInvariantAfter(g, s, goal, item, k, queue, visited, enqueued, done, level, depth)
    {
      ScanInvariantStep(g, s, goal, item, k, queue, visited, enqueued, done, level, depth);
      k := k + 1;
    }
  }

  /** After the neighbour loop the search invariants hold of the new state,
      and the queue and the order of enqueuing grew by the same count. */
  lemma ExpandRound(g: Graph, s: nat, goal: nat, item: QueueItem, queue: seq<QueueItem>, visited: set<nat>,
                    enqueued: seq<nat>, done: set<nat>, level: map<nat, nat>, depth: nat,
                    queue': seq<QueueItem>, visited': set<nat>, enqueued': seq<nat>, level': map<nat, nat>)
    requires WellFormed(g) && item.station < |g|
    requires ScanInvariant(g, s, goal, item, 0, queue, visited, enqueued, done, level, depth)
    requires queue' == queue + NewEntries(g, item, visited, |g[item.station].links|)
    requires visited' == visited + QueueStations(NewEntries(g, item, visited, |g[item.station].links|))
    requires enqueued' == enqueued + EntryStations(NewEntries(g, item, visited, |g[item.station].links|))
    requires level' == Levels(level, NewEntries(g, item, visited, |g[item.station].links|), depth + 1)
    ensures Searching(g, s, goal, queue', visited', done, level', depth)
    ensures Enumerates(g, visited', enqueued') && Reached(g, s, visited')
    ensures |queue'| - |queue| == |enqueued'| - |enqueued|
    ensures |enqueued| > 0 ==> |enqueued'| > 0 && enqueued'[0] == enqueued[0]
  {
    EnqueueKeeps(g, s, goal, item, queue, visited, enqueued, done, level, depth);
    EndScan(g, s, goal, item, queue', visited', done, level', depth);
  }

  /** The queue, the marks, the order of enqueuing and the levels after the
      first `k` neighbours of `item`'s station are scanned. */
  ghost predicate ScanResult(g: Graph, item: QueueItem, queue: seq<QueueItem>, visited: set<nat>, enqueued: seq<nat>,
                        level: map<nat, nat>, d: nat, k: nat, queue': seq<QueueItem>, visited': set<nat>,
                        enqueued': seq<nat>, level': map<nat, nat>)
    requires WellFormed(g) && item.station < |g| && k <= |g[item.station].links|
  {
    && queue' == queue + NewEntries(g, item, visited, k)
    && visited' == visited + QueueStations(NewEntries(g, item, visited, k))
    && enqueued' == enqueued + EntryStations(NewEntries(g, item, visited, k))
    && level' == Levels(level, NewEntries(g, item, visited, k), d)
  }

  lemma ScanResultStart(g: Graph, item: QueueItem, queue: seq<QueueItem>, visited: set<nat>, enqueued: seq<nat>,
                   level: map<nat, nat>, d: nat)
    requires WellFormed(g) && item.station < |g|
    ensures ScanResult(g, item, queue, visited, enqueued, level, d, 0, queue, visited, enqueued, level)
  {
    assert NewEntries(g, item, visited, 0) == [];
    assert QueueStations([]) == {};
    assert queue + [] == queue && enqueued + [] == enqueued && visited + {} == visited;
  }

  /** A neighbour not yet marked adds its entry. */
  lemma ScanResultNew(g: Graph, item: QueueItem, queue: seq<QueueItem>, visited: set<nat>, enqueued: seq<nat>,
                 level: map<nat, nat>, d: nat, k: nat, queue': seq<QueueItem>, visited': set<nat>,
                 enqueued': seq<nat>, level': map<nat, nat>, next: QueueItem)
    requires WellFormed(g) && item.station < |g| && k < |g[item.station].links|
    requires ScanResult(g, item, queue, visited, enqueued, level, d, k, queue', visited', enqueued', level')
    requires g[item.station].links[k].to !in visited'
    requires next == QueueItem(g[item.station].links[k].to, NextTransfers(g, item, g[item.station].links[k].to),
                               item.route + [g[item.station].links[k].to])
    ensures ScanResult(g, item, queue, visited, enqueued, level, d, k + 1, queue' + [next], visited' + {next.station},
                  enqueued' + [next.station], level'[next.station := d])
  {
    NewEntriesStep(g, item, visited, k);
    EntriesPush(queue, visited, enqueued, level, d, NewEntries(g, item, visited, k), next);
  }

  /** A neighbour already marked adds nothing. */
  lemma ScanResultMarked(g: Graph, item: QueueItem, queue: seq<QueueItem>, visited: set<nat>, enqueued: seq<nat>,
                    level: map<nat, nat>, d: nat, k: nat, queue': seq<QueueItem>, visited': set<nat>,
                    enqueued': seq<nat>, level': map<nat, nat>)
    requires WellFormed(g) && item.station < |g| && k < |g[item.station].links|
    requires ScanResult(g, item, queue, visited, enqueued, level, d, k, queue', visited', enqueued', level')
    requires g[item.station].links[k].to in visited'
    ensures ScanResult(g, item, queue, visited, enqueued, level, d, k + 1, queue', visited', enqueued', level')
  {
    NewEntriesStep(g, item, visited, k);
  }

  /** The neighbour loop of `en_az_aktarma_bul` for the dequeued entry
      `item`: it enqueues exactly `NewEntries`, marks their stations, lists
      them in the order of enqueuing and puts them one level deeper. */
  method EnqueueNeighbours(g: Graph, item: QueueItem, queue: seq<QueueItem>, visited: set<nat>,
                           ghost enqueued: seq<nat>, ghost level: map<nat, nat>, ghost depth: nat)
    returns (queue': seq<QueueItem>, visited': set<nat>, ghost enqueued': seq<nat>, ghost level': map<nat, nat>)
    requires WellFormed(g) && item.station < |g|
    ensures queue' == queue + NewEntries(g, item, visited, |g[item.station].links|)
    ensures visited' == visited + QueueStations(NewEntries(g, item, visited, |g[item.station].links|))
    ensures enqueued' == enqueued + EntryStations(NewEntries(g, item, visited, |g[item.station].links|))
    ensures level' == Levels(level, NewEntries(g, item, visited, |g[item.station].links|), depth + 1)
  {
    var links := g[item.station].links;
    queue', visited', enqueued', level' := queue, visited, enqueued, level;
    ScanResultStart(g, item, queue, visited, enqueued, level, depth + 1);
    var k := 0;
    while k < |links|
      invariant k <= |links|
      invariant ScanResult(g, item, queue, visited, enqueued, level, depth + 1, k, queue', visited', enqueued', level')
    {
      var w := links[k].to;
      if w !in visited' {
        var next := QueueItem(w, NextTransfers(g, item, w), item.route + [w]);
        ScanResultNew(g, item, queue, visited, enqueued, level, depth + 1, k, queue', visited', enqueued', level', next);
        visited' := visited' + {w};
        level' := level'[w := depth + 1];
        queue' := queue' + [next];
        enqueued' := enqueued' + [w];
      } else {
        ScanResultMarked(g, item, queue, visited, enqueued, level, depth + 1, k, queue', visited', enqueued', level');
      }
      k := k + 1;
    }
    assert k == |links|;
  }

  method SearchFewestRides(g: Graph, s: nat, goal: nat)
    returns (r: Option<seq<nat>>, ghost enqueued: seq<nat>, ghost dequeues: nat)
    requires WellFormed(g) && s < |g| && goal < |g|
    ensures r.Some? ==> IsRouteBetween(g, s, goal, r.value) && Distinct(r.value)
    ensures r.Some? ==> forall p :: IsRouteBetween(g, s, goal, p) ==> |r.value| <= |p|
    ensures r.None? ==> forall p :: !IsRouteBetween(g, s, goal, p)
    ensures s == goal ==> r == Some([s])
    ensures Distinct(enqueued) && (forall i :: 0 <= i < |enqueued| ==> enqueued[i] < |g|)
    ensures dequeues <= |enqueued| <= |g|
    ensures |enqueued| > 0 && enqueued[0] == s
    ensures Reached(g, s, Elems(enqueued))
    ensures r.None? ==> dequeues == |enqueued|
    ensures r.None? ==> forall v, p :: IsRouteBetween(g, s, v, p) ==> v in enqueued
    ensures r.Some? ==> forall v, p :: IsRouteBetween(g, s, v, p) && |p| <= |r.value| ==> v in enqueued
  {
    var queue := [QueueItem(s, 0, [s])];
    enqueued, dequeues := [s], 0;
    var visited := {s};
    ghost var done: set<nat> := {};
    ghost var level: map<nat, nat> := map[s := 0];
    ghost var depth: nat := 0;
    SearchStart(g, s, goal);
    assert Elems(enqueued) == {s};
    assert IsRouteBetween(g, s, s, [s]);
    while |queue| > 0
      invariant Searching(g, s, goal, queue, visited, done, level, depth)
      invariant Enumerates(g, visited, enqueued)
      invariant dequeues + |queue| == |enqueued|
      invariant Reached(g, s, visited) && |enqueued| > 0 && enqueued[0] == s
      decreases Below(|g|) - done
    {
      if queue[0].station == goal {
        var route := queue[0].route;
        EndOfSearch(g, s, goal, queue, done, level, route);
        forall v, p | IsRouteBetween(g, s, v, p) && |p| <= |route|
          ensures v in enqueued
        {
          assert v in Elems(enqueued);
        }
        r := Some(route);
        dequeues := dequeues + 1;
        DistinctBounded(enqueued, |g|);
        return;
      }
      ghost var queue0, done0, depth0 := queue, done, depth;
      var item := queue[0];
      queue := queue[1..];
      dequeues := dequeues + 1;
      var u := item.station;
      depth := |item.route| - 1;
      done := done + {u};
      StartScan(g, s, goal, queue0, visited, done0, level, depth0, item, queue, done, depth);
      ghost var queue1, visited1, enqueued1, level1 := queue, visited, enqueued, level;
      queue, visited, enqueued, level := EnqueueNeighbours(g, item, queue, visited, enqueued, level, depth);
      ExpandRound(g, s, goal, item, queue1, visited1, enqueued1, done, level1, depth, queue, visited, enqueued, level);
    }
    forall p
      ensures !IsRouteBetween(g, s, goal, p)
    {
      SearchExhausted(g, s, goal, visited, done, level, depth, p);
    }
    forall v, p | IsRouteBetween(g, s, v, p)
      ensures v in enqueued
    {
      SearchExhausted(g, s, goal, visited, done, level, depth, p);
      assert v in Elems(enqueued);
    }
    r := None;
    DistinctBounded(enqueued, |g|);
  }
}
