# Metro routing engine, modelled in Dafny

This project models the routing core of `GamzeBacak_MetroSimulation.py`, which has two parts.

The first part is a network of metro stations (`Istasyon`). Each station has an identifier, a display name, a line and an append-only list of neighbours, and each neighbour is reached by a ride of some minutes. The network (`MetroAgi`) keeps the stations by identifier, along with a list of stations for each line.

The second part is two route finders:

- `en_az_aktarma_bul` is a breadth-first search.
- `en_hizli_rota_bul` is a fastest-route search over a binary heap, which uses lazy deletion.

Stations are kept in an arena:

- `stations: seq<Station>` holds them, and handle `i` stands for `stations[i]`.
- `index: map<string, nat>` maps an identifier to its handle.
- `lines: map<string, seq<nat>>` lists the handles of each line's stations in insertion order.

A neighbour entry is a `Link(to, minutes)` whose `to` is a handle. The network is the class `Network.MetroNetwork`, and its methods update these three fields.

The routers are imperative loops, modelled in `Bfs.SearchFewestRides` and `Dijkstra.SearchFastest`. Each is proved against route predicates in `Routes`:

- `IsRouteBetween` is a walk along neighbour entries.
- `IsTimedRouteBetween` is a walk together with the minutes of the link used on each step. Two stations may be joined by several links with different minutes.
- `Sum` adds up those minutes.
- `LeastTime` is the least total of any timed walk, and some walk achieves it.

Contracts are stated about these predicates. Invariants of the search state are proved step by step in small lemmas.

The code differs from its docstrings, and the model follows the code:

- **The breadth-first router minimises rides, not line changes.** The docstring promises the route with the fewest transfers. The loop computes a transfer counter and carries it in each queue entry, and the model proves that the counter equals `Transfers` of the entry's route. But the counter never decides anything: the route returned has the fewest rides. `Bfs.FewestRidesNotFewestTransfers` exhibits a five-station network where every fewest-ride route changes line twice, while another route never changes line.
- **The fastest-route router is Dijkstra's search, not A\*.** The docstring calls it A\*, but the estimate stored in each heap entry is always 0.
- **Minutes may be negative.** The code types minutes as `sure: int` (lines 14 and 33) and never checks their sign, so the model takes minutes as `int`. The time that `FastestRoute` returns is the sum of the minutes along its route in every case. It is proved to be the least time only when no link has negative minutes (`Routes.NonNegative`).

## Model

| member | source | states |
|---|---|---|
| Stations.IdLess | GamzeBacak_MetroSimulation.py:19 | Python's `<` on identifiers holds exactly when, at some position `k`, the two agree before `k` and then the first ends while the second goes on, or the first has the smaller character (`DiffersAt`). |
| Stations.StationLess | GamzeBacak_MetroSimulation.py:17-19 | `Istasyon.__lt__` holds exactly when the identifiers differ in that way. Nothing but the identifiers is compared. |
| Stations.StationLessIsStrictTotalOrder | GamzeBacak_MetroSimulation.py:17-19 | Comparing stations by identifier (Python string `<`) is irreflexive, asymmetric and transitive. It is total on distinct identifiers, and its complement is transitive. So it totally orders the heap's tie-break. |
| Network.MetroNetwork.constructor | GamzeBacak_MetroSimulation.py:23-25 | A new network has no stations, no identifiers and no lines, and it is consistent. |
| Network.MetroNetwork.AddStation | GamzeBacak_MetroSimulation.py:27-31 | An identifier that is already registered changes nothing. A new identifier gets the next handle. The new station has the given name and line and no neighbours. Its handle is appended once, at the end of its own line's list, and no other list changes. Consistency is kept. |
| Network.AddStationKeepsValid | GamzeBacak_MetroSimulation.py:28-31 | Registering a new station keeps the registry one-to-one and the line lists equal to the line's members in insertion order. Links stay inside the arena and paired. |
| Network.LineMembersSpec | GamzeBacak_MetroSimulation.py:31 | `LineMembers(g, l)`, the list each line is kept equal to, is strictly increasing. Every station of `l` is listed, and only stations of `l` are listed. |
| Network.LineMembersIgnoreLinks | GamzeBacak_MetroSimulation.py:36-37 | Adding neighbours never changes any line's list. |
| Network.WithLink | GamzeBacak_MetroSimulation.py:14-15 | Appending a neighbour entry keeps the number of stations. Station `i` keeps its identifier, name and line, and its list gains `link` at the end. Every other station is unchanged. |
| Network.MetroNetwork.AddNeighbour | GamzeBacak_MetroSimulation.py:14-15 | Only station `i`'s neighbour list changes, by appending `(to, minutes)`. |
| Network.MetroNetwork.AddConnection | GamzeBacak_MetroSimulation.py:33-37 | A missing first identifier gives `KeyError(a)`. Otherwise a missing second identifier gives `KeyError(b)`. Either way nothing changes. With both registered, each station gains the other as a neighbour at the same minutes, and consistency is kept. |
| Network.Connect | GamzeBacak_MetroSimulation.py:36-37 | After a connection, `i` lists `(j, minutes)` and `j` lists `(i, minutes)`. Every old neighbour list is a prefix of the new one. No identifier, name or line changes, and no station is added. |
| Network.ConnectEffect | GamzeBacak_MetroSimulation.py:33-37 | After a connection, the first station's list has `(b, minutes)` appended, then the second's has `(a, minutes)`. Every other station, and every identifier, name and line, is unchanged. |
| Network.ConnectKeepsSymmetric | GamzeBacak_MetroSimulation.py:36-37 | After a connection, every neighbour is still in the arena, and every link still has a twin in the opposite direction with equal minutes. |
| Network.ConnectKeepsRegistry | GamzeBacak_MetroSimulation.py:33-37 | A connection keeps the identifier registry and the line lists valid. |
| Routes.ReverseTimedRoute | GamzeBacak_MetroSimulation.py:36-37 | Because connections are symmetric, a walk read backwards is a walk with the same total minutes. |
| Routes.LeastTimeSymmetric | GamzeBacak_MetroSimulation.py:36-37 | The least time from `a` to `b` equals the least time from `b` to `a`. |
| Routes.Transfers | GamzeBacak_MetroSimulation.py:60-63 | The line changes along a route are fewer than its stations. |
| Routes.NoTransfersOneLine | GamzeBacak_MetroSimulation.py:60-63 | A route has no line changes exactly when every ride stays on one line. |
| Routes.TransfersAppend | GamzeBacak_MetroSimulation.py:60-63 | One more station adds one transfer exactly when its line differs from the previous station's. This is how the counter is updated. |
| Routes.ExtendRoute | GamzeBacak_MetroSimulation.py:60-66 | A route extended by a neighbour is a route. The extension adds one transfer exactly when the ride changes line. |
| Routes.ExtendTimedRoute | GamzeBacak_MetroSimulation.py:94-99 | A timed walk extended by a link is a timed walk whose total grows by the link's minutes. |
| Routes.ClosedSetContainsRoute | GamzeBacak_MetroSimulation.py:51-68 | A walk that starts inside a set of stations closed under neighbours never leaves it. |
| Routes.DistinctBounded | GamzeBacak_MetroSimulation.py:49 | A list of distinct handles into an arena of `n` stations has at most `n` entries. |
| Network.MetroNetwork.LeastTransferRoute | GamzeBacak_MetroSimulation.py:39-68 | An unknown identifier gives `None`, and start equal to goal gives `[start]`. A result runs from start to goal along neighbour entries with no repeated station, and no route is shorter. `None` for known identifiers means no route exists. Each station is enqueued at most once, and the loop runs at most once per station. For known identifiers the start is enqueued first, and every station enqueued is reachable from it. On `None` every reachable station was enqueued, and every entry was dequeued. On a result, every station within as many stations as the result has was enqueued. |
| Bfs.SearchFewestRides | GamzeBacak_MetroSimulation.py:47-68 | A result is a walk from start to goal with no repeated station, and no walk between them has fewer stations. `None` means the goal is unreachable. `s == goal` gives `[s]`. The stations enqueued are distinct, in the arena, and no more than the stations; there are at most as many dequeues as enqueues. The start is enqueued first, and every station enqueued is reachable from it. On `None` every reachable station was enqueued, and every entry was dequeued. On a result, every station some walk of at most as many stations reaches was enqueued. |
| Bfs.SearchStart | GamzeBacak_MetroSimulation.py:48-49 | A queue holding only the start's entry `(start, 0, [start])`, with only the start marked at level 0, satisfies every search invariant. |
| Bfs.EndOfSearch | GamzeBacak_MetroSimulation.py:54-55 | The goal entry at the head of the queue has a shortest route, since every station at a lower level was already expanded. Every station some walk with no more stations than that route reaches is marked. |
| Bfs.MarkedWithin | GamzeBacak_MetroSimulation.py:51-66 | If every station marked below level `d` was expanded, every station a walk of at most `d` rides reaches from the start is marked. |
| Bfs.NoShorterRoute | GamzeBacak_MetroSimulation.py:51-66 | If every station marked below level `d` was expanded, every route to a station at level `d` has more than `d` stations. |
| Bfs.StartScan | GamzeBacak_MetroSimulation.py:52-57 | Dequeuing an entry that is not the goal marks its station expanded and keeps the queue in order of level. |
| Bfs.ScanMarked | GamzeBacak_MetroSimulation.py:58 | Skipping a neighbour that is already marked keeps every search invariant. |
| Bfs.NextItemOk | GamzeBacak_MetroSimulation.py:58-66 | The entry for an unmarked neighbour, with the route extended by it and the counter updated by the line test, is a sound entry one level below the dequeued one. Its route runs from the start to the neighbour. |
| Bfs.ScanNew | GamzeBacak_MetroSimulation.py:58-66 | Marking and enqueuing an unmarked neighbour, with the transfer counter updated, keeps every search invariant. |
| Bfs.NextTransfers | GamzeBacak_MetroSimulation.py:60-63 | For an entry whose counter is the number of line changes along its route, which ends at its station, the updated counter is the number of line changes along that route extended by the neighbour. |
| Bfs.NewEntries | GamzeBacak_MetroSimulation.py:57-66 | The first `k` neighbours give at most `k` new entries. |
| Bfs.EntryStations | GamzeBacak_MetroSimulation.py:66 | The stations of a list of entries are as many as the entries, and the `i`-th is the `i`-th entry's station. |
| Bfs.NewEntriesStep | GamzeBacak_MetroSimulation.py:57-66 | One more neighbour adds nothing when it is already marked, either before the scan or earlier in it. Otherwise it adds exactly its entry `(neighbour, counter after the line test, route + [neighbour])` at the end. |
| Bfs.NewEntriesSound | GamzeBacak_MetroSimulation.py:57-66 | Each new entry is for a neighbour among the first `k` that was not marked before the scan. Its route is the dequeued route extended by it, and its counter is the dequeued counter after the line test. |
| Bfs.NewEntriesComplete | GamzeBacak_MetroSimulation.py:57-66 | Each of the first `k` neighbours not marked before the scan gets a new entry. |
| Bfs.NewEntriesDistinct | GamzeBacak_MetroSimulation.py:57-66 | No station gets two new entries, even when it is listed twice as a neighbour. |
| Bfs.ScanResultNew | GamzeBacak_MetroSimulation.py:58-66 | Enqueuing and marking an unmarked neighbour extends the queue, the marks, the enqueuing order and the levels by exactly the next entry of `NewEntries`. |
| Bfs.ScanResultMarked | GamzeBacak_MetroSimulation.py:58 | Skipping a marked neighbour matches `NewEntries`, which adds nothing for it. |
| Bfs.EnqueueNeighbours | GamzeBacak_MetroSimulation.py:57-66 | The neighbour loop appends to the queue exactly `NewEntries`: the entries for the unmarked neighbours in neighbour-list order, each station once. Those stations are added to the marks and, in the same order, to the enqueuing order. Each is put one level below the dequeued station. |
| Bfs.ScanInvariantNew | GamzeBacak_MetroSimulation.py:58-66 | Enqueuing an unmarked neighbour keeps every search invariant, and the marks stay listed in the enqueuing order and reachable from the start. |
| Bfs.ScanInvariantStep | GamzeBacak_MetroSimulation.py:57-66 | After the new entries of the first `k` neighbours are added, one more neighbour keeps every search invariant. |
| Bfs.EnqueueKeeps | GamzeBacak_MetroSimulation.py:57-66 | After all of `NewEntries` is added, the search invariants hold with the dequeued station's neighbours all scanned. |
| Bfs.ExpandRound | GamzeBacak_MetroSimulation.py:52-66 | After one dequeue and its neighbour loop, the outer loop's invariants hold of the new queue, marks and enqueuing order. The queue and the enqueuing order grew by the same count, and the start stays first. |
| Bfs.SearchExhausted | GamzeBacak_MetroSimulation.py:68 | An empty queue means that every station a walk from the start reaches is marked, and that the goal cannot be reached. |
| Bfs.FewestRidesNotFewestTransfers | GamzeBacak_MetroSimulation.py:57-66 | In a concrete network, every route from A to C with the fewest rides changes line twice, while a longer route changes line never. So the counter carried in the queue is not minimised. |
| Dijkstra.Before | GamzeBacak_MetroSimulation.py:80 | The heap order on `(time, 0, station, route)` entries. An entry with less time comes first. With equal times, the order is exactly that of the stations' identifiers. An entry that comes first never has more time. |
| Dijkstra.SearchStart | GamzeBacak_MetroSimulation.py:80-81 | A heap holding only `(0, start, [start])` with nothing finalised satisfies every search invariant. |
| Dijkstra.MinIndex | GamzeBacak_MetroSimulation.py:84 | `heappop` takes an entry that no other entry precedes in the order (time, then station identifier). |
| Dijkstra.PoppedIsLeast | GamzeBacak_MetroSimulation.py:84 | The popped entry has the least time in the heap. |
| Dijkstra.LowerBound | GamzeBacak_MetroSimulation.py:83-99 | With non-negative minutes, no walk from the start to a station that is not finalised takes less than the least time in the heap. |
| Dijkstra.PopGoal | GamzeBacak_MetroSimulation.py:86-87 | A popped goal entry is a distinct timed walk from start to goal whose minutes sum to its time. With non-negative minutes, that time is the least time. When start equals goal it is `([start], 0)`. Otherwise the start is already finalised. With non-negative minutes, every station some walk reaches faster is finalised. |
| Dijkstra.FasterFinalised | GamzeBacak_MetroSimulation.py:83-99 | With non-negative minutes, every station some walk from the start reaches in less than the least time in the heap is finalised. |
| Dijkstra.PopStale | GamzeBacak_MetroSimulation.py:89-90 | Discarding an entry of a finalised station keeps the search state. |
| Dijkstra.PopNew | GamzeBacak_MetroSimulation.py:92 | Finalising a station at the time of its least entry keeps every search invariant. That includes, for non-negative minutes, that no walk reaches a finalised station faster. The finalised station is reached by the entry's route, and it is the start unless the start was finalised earlier. |
| Dijkstra.SettledGrow | GamzeBacak_MetroSimulation.py:84-92 | The station of the least entry can be finalised at that entry's time. |
| Dijkstra.ScanSkip | GamzeBacak_MetroSimulation.py:95 | Skipping a link to a station that is already finalised keeps every search invariant. |
| Dijkstra.PushedOk | GamzeBacak_MetroSimulation.py:94-99 | A pushed entry is a timed walk from the start with no repeated station, whose time is the popped time plus the link's minutes. |
| Dijkstra.ScanPush | GamzeBacak_MetroSimulation.py:94-99 | Pushing an entry for a neighbour that is not finalised keeps every search invariant. |
| Dijkstra.Relaxations | GamzeBacak_MetroSimulation.py:94-99 | The entries pushed for the first `k` links are at most `k`. |
| Dijkstra.RelaxationsSound | GamzeBacak_MetroSimulation.py:94-99 | Each pushed entry is for a station not finalised. Its route is the popped route extended by that station, and one of the first `k` links leads there with the pushed time minus the popped time as its minutes. |
| Dijkstra.RelaxationsComplete | GamzeBacak_MetroSimulation.py:94-99 | Each of the first `k` links to a station not finalised gives a pushed entry, with the popped time plus the link's minutes. |
| Dijkstra.PushLinks | GamzeBacak_MetroSimulation.py:94-99 | The neighbour loop appends to the heap exactly `Relaxations`: one entry per link to a station not finalised, in the order of the neighbour list. Each entry's time is the popped time plus the link's minutes, and its route is the popped route extended by the neighbour. |
| Dijkstra.ScanAll | GamzeBacak_MetroSimulation.py:94-99 | Appending all of `Relaxations` to the heap keeps every search invariant. |
| Dijkstra.SearchExhausted | GamzeBacak_MetroSimulation.py:101 | An empty heap means that the start and every station a walk from it reaches are finalised, and that the goal cannot be reached. |
| Dijkstra.SearchFastest | GamzeBacak_MetroSimulation.py:78-101 | A result is a distinct walk from start to goal, and its time is the sum of the minutes of the links taken. With non-negative minutes that time is the least time. `None` means the goal is unreachable. `s == goal` gives `([s], 0)`. Each station is expanded at most once, and every station expanded is reachable from the start. The start is expanded first unless it is the goal. On `None` every reachable station was expanded. On a result with non-negative minutes, every station some walk reaches faster than the result was expanded. |
| Network.MetroNetwork.FastestRoute | GamzeBacak_MetroSimulation.py:70-101 | An unknown identifier gives `None`, and start equal to goal gives `([start], 0)`. A result is a distinct walk whose minutes sum to the returned time. With non-negative minutes, no walk is faster. `None` for known identifiers means no route exists. Each station is expanded at most once. For known identifiers every station expanded is reachable from the start, and the start is expanded first unless it is the goal. On `None` every reachable station was expanded. On a result with non-negative minutes, every station some walk reaches faster than the result was expanded. |

## Left out

- The demonstration at the end of the file (lines 105-169) and all printing. It only builds a sample network and prints routes.
- The internals of `deque` and `heapq`. The queue is a sequence taken from the front. The heap is a sequence from which `MinIndex` removes a least entry.
- The always-zero estimate stored in heap entries (line 99). It never affects the order.
- Dijkstra.MinIndex: ties between entries with equal time and equal station are left to the first such entry. Python would compare the two route lists next.
- Display names (`ad`). They are stored in `Station.name` and never used.
- Object identity. Stations are referred to by handle, and `istasyon == hedef` is equality of handles. Identifiers are unique in the registry, so this is the same test.
- `Istasyon.__init__` has no member of its own. It is the `Station` value with an empty neighbour list that `AddStation` appends.
- Network.MetroNetwork.AddConnection: the `KeyError` exception is returned as the value `KeyError(key)`, with the state unchanged, instead of unwinding the caller.
- Network.MetroNetwork.AddNeighbour: a neighbour not registered in the network cannot be expressed, and the method does not promise consistency by itself. Only `AddConnection` calls it, and that keeps the network consistent.
- Network.MetroNetwork.FastestRoute: the least-time promise is proved only when no link has negative minutes. The source accepts negative minutes, and then the first goal popped need not be fastest.
- Network.MetroNetwork.LeastTransferRoute: no promise about line changes is made, because the BFS (as `Bfs.FewestRidesNotFewestTransfers` shows) does not minimise them.
