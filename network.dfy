/** The metro network (`MetroAgi`): station registry, adjacency store and the
    two routers, over an arena of stations addressed by handles. */
module Network {
  import opened Stations
  import opened Routes
  import opened Wrappers
  import opened Bfs
  import Dijkstra

  /** Result of adding a connection: done, or the `KeyError` the lookup of a
      missing identifier raises, carrying that identifier. */
  datatype Outcome = Done | KeyError(key: string)

  /** The handles of the stations on line `l`, in order of insertion. */
  function LineMembers(g: Graph, l: string): seq<nat>
  {
    if |g| == 0 then []
    else
      var init := LineMembers(g[..|g| - 1], l);
      if g[|g| - 1].line == l then init + [|g| - 1] else init
  }

  /** `LineMembers` lists every station of line `l` and only those, in
      increasing order of handle. */
  lemma {:induction false} LineMembersSpec(g: Graph, l: string)
    ensures forall k :: 0 <= k < |LineMembers(g, l)| ==>
      LineMembers(g, l)[k] < |g| && g[LineMembers(g, l)[k]].line == l
    ensures forall i :: 0 <= i < |g| && g[i].line == l ==> i in LineMembers(g, l)
    ensures forall j, k :: 0 <= j < k < |LineMembers(g, l)| ==> LineMembers(g, l)[j] < LineMembers(g, l)[k]
    decreases |g|
  {
    if |g| > 0 {
      LineMembersSpec(g[..|g| - 1], l);
    }
  }

  /** Adding neighbours does not move a station to another line. */
  lemma {:induction false} LineMembersIgnoreLinks(g: Graph, h: Graph, l: string)
    requires |g| == |h|
    requires forall i :: 0 <= i < |g| ==> g[i].line == h[i].line
    ensures LineMembers(g, l) == LineMembers(h, l)
    decreases |g|
  {
    if |g| > 0 {
      LineMembersIgnoreLinks(g[..|g| - 1], h[..|h| - 1], l);
    }
  }

  /** `g` with `link` appended to the neighbour list of station `i`. */
  function WithLink(g: Graph, i: nat, link: Link): (r: Graph)
    requires i < |g|
    ensures |r| == |g|
    ensures r[i].links == g[i].links + [link]
    ensures r[i].id == g[i].id && r[i].name == g[i].name && r[i].line == g[i].line
    ensures forall x :: 0 <= x < |g| && x != i ==> r[x] == g[x]
  {
    g[i := g[i].(links := g[i].links + [link])]
  }

  /** `g` after a connection of `i` and `j` taking `minutes`. */
  function Connect(g: Graph, i: nat, j: nat, minutes: int): (r: Graph)
    requires i < |g| && j < |g|
    ensures |r| == |g|
    ensures Link(j, minutes) in r[i].links && Link(i, minutes) in r[j].links
    ensures forall x :: 0 <= x < |g| ==> g[x].links <= r[x].links
    ensures forall x :: 0 <= x < |g| ==> r[x].id == g[x].id && r[x].name == g[x].name && r[x].line == g[x].line
  {
    WithLink(WithLink(g, i, Link(j, minutes)), j, Link(i, minutes))
  }

  /** What a connection does to each station: `i` gains `(j, minutes)`, then
      `j` gains `(i, minutes)`; nothing else changes. */
  lemma ConnectEffect(g: Graph, i: nat, j: nat, minutes: int, x: nat)
    requires i < |g| && j < |g| && x < |g|
    ensures |Connect(g, i, j, minutes)| == |g|
    ensures var c := Connect(g, i, j, minutes)[x];
      && c.id == g[x].id && c.name == g[x].name && c.line == g[x].line
      && c.links == g[x].links + (if x == i then [Link(j, minutes)] else [])
                               + (if x == j then [Link(i, minutes)] else [])
  {
  }

  /** A connection keeps every neighbour inside the arena and every link paired
      with its twin. */
  lemma ConnectKeepsSymmetric(g: Graph, i: nat, j: nat, minutes: int)
    requires WellFormed(g) && Symmetric(g)
    requires i < |g| && j < |g|
    ensures WellFormed(Connect(g, i, j, minutes)) && Symmetric(Connect(g, i, j, minutes))
  {
    var c := Connect(g, i, j, minutes);
    forall x, k | 0 <= x < |c| && 0 <= k < |c[x].links|
      ensures c[x].links[k].to < |c|
      ensures Link(x, c[x].links[k].minutes) in c[c[x].links[k].to].links
    {
      ConnectEffect(g, i, j, minutes, x);
      var l := c[x].links[k];
      if k < |g[x].links| {
        assert l == g[x].links[k];
        ConnectEffect(g, i, j, minutes, l.to);
        assert Link(x, l.minutes) in g[l.to].links;
      } else if x == i && k == |g[x].links| {
        assert l == Link(j, minutes);
        ConnectEffect(g, i, j, minutes, j);
        assert c[j].links[|c[j].links| - 1] == Link(i, minutes);
      } else {
        assert x == j && l == Link(i, minutes);
        ConnectEffect(g, i, j, minutes, i);
        assert Link(j, minutes) in c[i].links by {
          if i == j {
            assert c[i].links[|g[i].links|] == Link(j, minutes);
          } else {
            assert c[i].links[|c[i].links| - 1] == Link(j, minutes);
          }
        }
      }
    }
  }

  /** Identifiers and handles correspond one to one. */
  ghost predicate RegistryValid(g: Graph, index: map<string, nat>)
  {
    && (forall id :: id in index ==> index[id] < |g| && g[index[id]].id == id)
    && (forall i :: 0 <= i < |g| ==> g[i].id in index && index[g[i].id] == i)
  }

  /** `lines` has a list exactly for the lines with stations, and it lists the
      handles of that line's stations in order of insertion. */
  ghost predicate LinesValid(g: Graph, lines: map<string, seq<nat>>)
  {
    && (forall i :: 0 <= i < |g| ==> g[i].line in lines)
    && (forall l :: l in lines ==> lines[l] == LineMembers(g, l) && |lines[l]| > 0)
  }

  /** Everything the network keeps true between calls. */
  ghost predicate NetworkValid(g: Graph, index: map<string, nat>, lines: map<string, seq<nat>>)
  {
    WellFormed(g) && Symmetric(g) && RegistryValid(g, index) && LinesValid(g, lines)
  }

  /** Registering a new identifier gives it the next handle and keeps the
      correspondence between identifiers and handles. */
  lemma AddStationKeepsRegistry(g: Graph, index: map<string, nat>, st: Station)
    requires RegistryValid(g, index)
    requires st.id !in index
    ensures RegistryValid(g + [st], index[st.id := |g|])
  {
    var g', index' := g + [st], index[st.id := |g|];
    forall i | 0 <= i < |g|
      ensures g'[i].id in index' && index'[g'[i].id] == i
    {
      assert g'[i] == g[i];
    }
  }

  /** A new station goes to the end of its own line's list and to no other. */
  lemma AddStationKeepsLines(g: Graph, lines: map<string, seq<nat>>, st: Station)
    requires LinesValid(g, lines)
    ensures LinesValid(g + [st], lines[st.line := (if st.line in lines then lines[st.line] else []) + [|g|]])
  {
    var g' := g + [st];
    var lines' := lines[st.line := (if st.line in lines then lines[st.line] else []) + [|g|]];
    assert g'[..|g|] == g;
    var members := LineMembers(g, st.line);
    LineMembersSpec(g, st.line);
    assert |members| > 0 ==> g[members[0]].line in lines;
    forall i | 0 <= i < |g'|
      ensures g'[i].line in lines'
    {
      if i < |g| {
        assert g'[i] == g[i];
      }
    }
  }

  /** A station without neighbours keeps the links well formed and paired. */
  lemma AddStationKeepsLinks(g: Graph, st: Station)
    requires WellFormed(g) && Symmetric(g)
    requires st.links == []
    ensures WellFormed(g + [st]) && Symmetric(g + [st])
  {
    var g' := g + [st];
    forall i, k | 0 <= i < |g'| && 0 <= k < |g'[i].links|
      ensures g'[i].links[k].to < |g'|
      ensures Link(i, g'[i].links[k].minutes) in g'[g'[i].links[k].to].links
    {
      assert i < |g| && g'[i] == g[i];
      assert g'[g[i].links[k].to] == g[g[i].links[k].to];
    }
  }

  /** Registering a new identifier keeps the network consistent. */
  lemma AddStationKeepsValid(g: Graph, index: map<string, nat>, lines: map<string, seq<nat>>,
                             id: string, name: string, line: string)
    requires NetworkValid(g, index, lines)
    requires id !in index
    ensures NetworkValid(g + [Station(id, name, line, [])], index[id := |g|],
                         lines[line := (if line in lines then lines[line] else []) + [|g|]])
  {
    var st := Station(id, name, line, []);
    AddStationKeepsRegistry(g, index, st);
    AddStationKeepsLines(g, lines, st);
    AddStationKeepsLinks(g, st);
  }

  /** A connection changes no identifier and no line. */
  lemma ConnectKeepsRegistry(g: Graph, index: map<string, nat>, lines: map<string, seq<nat>>,
                             i: nat, j: nat, minutes: int)
    requires RegistryValid(g, index) && LinesValid(g, lines)
    requires i < |g| && j < |g|
    ensures RegistryValid(Connect(g, i, j, minutes), index)
    ensures LinesValid(Connect(g, i, j, minutes), lines)
  {
    var c := Connect(g, i, j, minutes);
    forall x | 0 <= x < |g|
      ensures c[x].id == g[x].id && c[x].line == g[x].line
    {
      ConnectEffect(g, i, j, minutes, x);
    }
    forall l | l in lines
      ensures LineMembers(c, l) == LineMembers(g, l)
    {
      LineMembersIgnoreLinks(c, g, l);
    }
  }

  /** The network: `stations` is the arena (`istasyonlar` values), `index` maps
      an identifier to its handle (`istasyonlar` keys), `lines` lists the
      handles of each line's stations (`hatlar`). */
  class MetroNetwork {
    var stations: seq<Station>
    var index: map<string, nat>
    var lines: map<string, seq<nat>>

    ghost predicate Valid()
      reads this
    {
      NetworkValid(stations, index, lines)
    }

    /** `MetroAgi.__init__`: no stations, no lines. */
    constructor ()
      ensures Valid()
      ensures stations == [] && index == map[] && lines == map[]
    {
      stations := [];
      index := map[];
      lines := map[];
    }

    /** `istasyon_ekle`: the first station registered under an identifier wins;
        a repeated identifier changes nothing. */
    method AddStation(id: string, name: string, line: string)
      requires Valid()
      modifies this
      ensures Valid()
      ensures id in old(index) ==>
        stations == old(stations) && index == old(index) && lines == old(lines)
      ensures id !in old(index) ==>
        && stations == old(stations) + [Station(id, name, line, [])]
        && index == old(index)[id := |old(stations)|]
        && lines == old(lines)[line := (if line in old(lines) then old(lines)[line] else []) + [|old(stations)|]]
    {
      if id !in index {
        var n := |stations|;
        AddStationKeepsValid(stations, index, lines, id, name, line);
        stations := stations + [Station(id, name, line, [])];
        index := index[id := n];
        var members := if line in lines then lines[line] else [];
        lines := lines[line := members + [n]];
      }
    }

    /** `Istasyon.komsu_ekle` for station `i`: append a neighbour entry. */
    method AddNeighbour(i: nat, to: nat, minutes: int)
      requires i < |stations|
      modifies this
      ensures stations == WithLink(old(stations), i, Link(to, minutes))
      ensures index == old(index) && lines == old(lines)
    {
      stations := stations[i := stations[i].(links := stations[i].links + [Link(to, minutes)])];
    }

    /** `baglanti_ekle`: both identifiers must be registered, else the lookup
        raises `KeyError` for the first missing one and nothing changes;
        otherwise each station gains the other as a neighbour at `minutes`. */
    method AddConnection(a: string, b: string, minutes: int) returns (r: Outcome)
      requires Valid()
      modifies this
      ensures Valid()
      ensures a !in old(index) ==> r == KeyError(a)
      ensures a in old(index) && b !in old(index) ==> r == KeyError(b)
      ensures a in old(index) && b in old(index) ==>
        && r == Done
        && stations == Connect(old(stations), old(index)[a], old(index)[b], minutes)
      ensures r.KeyError? ==> stations == old(stations)
      ensures index == old(index) && lines == old(lines)
    {
      if a !in index {
        return KeyError(a);
      }
      if b !in index {
        return KeyError(b);
      }
      var i, j := index[a], index[b];
      ghost var g := stations;
      AddNeighbour(i, j, minutes);
      AddNeighbour(j, i, minutes);
      ConnectKeepsSymmetric(g, i, j, minutes);
      ConnectKeepsRegistry(g, index, lines, i, j, minutes);
      r := Done;
    }
  
    /** `en_az_aktarma_bul`: breadth-first search from the start station. A
        station is marked when it is enqueued, and the route of the first queue
        entry that is the goal is returned. The transfer counter is carried in
        the queue but never consulted, so the route has the fewest rides, not
        necessarily the fewest line changes. `enqueued` lists the stations in
        the order they were enqueued and `dequeues` counts the loop's rounds. */
    method LeastTransferRoute(startId: string, goalId: string)
      returns (r: Option<seq<nat>>, ghost enqueued: seq<nat>, ghost dequeues: nat)
      requires Valid()
      ensures startId !in index || goalId !in index ==> r == None
      ensures r.Some? ==>
        && startId in index && goalId in index
        && IsRouteBetween(stations, index[startId], index[goalId], r.value)
        && Distinct(r.value)
      ensures r.Some? ==>
        forall p :: IsRouteBetween(stations, index[startId], index[goalId], p) ==> |r.value| <= |p|
      ensures r.None? && startId in index && goalId in index ==>
        forall p :: !IsRouteBetween(stations, index[startId], index[goalId], p)
      ensures startId in index && startId == goalId ==> r == Some([index[startId]])
      ensures Distinct(enqueued) && (forall i :: 0 <= i < |enqueued| ==> enqueued[i] < |stations|)
      ensures dequeues <= |enqueued| <= |stations|
      ensures startId in index && goalId in index ==>
        && |enqueued| > 0 && enqueued[0] == index[startId]
        && Reached(stations, index[startId], Elems(enqueued))
      ensures r.None? && startId in index && goalId in index ==>
        && dequeues == |enqueued|
        && forall v, p :: IsRouteBetween(stations, index[startId], v, p) ==> v in enqueued
      ensures r.Some? ==>
        forall v, p :: IsRouteBetween(stations, index[startId], v, p) && |p| <= |r.value| ==> v in enqueued
    {
      enqueued, dequeues := [], 0;
      if startId !in index || goalId !in index {
        r := None;
        return;
      }
      r, enqueued, dequeues := SearchFewestRides(stations, index[startId], index[goalId]);
    }
  
    /** `en_hizli_rota_bul`: the fastest route and its minutes. The estimate the
        source calls A* is always zero, so the search is Dijkstra's with lazy
        deletion. The time is the sum of the minutes along the route; with no
        negative minutes it is the least time of any walk. `expanded` lists
        the stations whose neighbours were pushed, each once. */
    method FastestRoute(startId: string, goalId: string)
      returns (r: Option<(seq<nat>, int)>, ghost expanded: seq<nat>)
      requires Valid()
      ensures startId !in index || goalId !in index ==> r == None
      ensures r.Some? ==>
        && startId in index && goalId in index
        && IsRouteBetween(stations, index[startId], index[goalId], r.value.0)
        && Distinct(r.value.0)
        && exists legs :: IsTimedRouteBetween(stations, index[startId], index[goalId], r.value.0, legs)
                          && Sum(legs) == r.value.1
      ensures r.Some? && NonNegative(stations) ==>
        LeastTime(stations, index[startId], index[goalId], r.value.1)
      ensures r.None? && startId in index && goalId in index ==>
        forall p :: !IsRouteBetween(stations, index[startId], index[goalId], p)
      ensures startId in index && startId == goalId ==> r == Some(([index[startId]], 0))
      ensures Distinct(expanded) && (forall i :: 0 <= i < |expanded| ==> expanded[i] < |stations|)
      ensures |expanded| <= |stations|
      ensures startId in index && goalId in index ==> Reached(stations, index[startId], Elems(expanded))
      ensures startId in index && goalId in index && index[startId] != index[goalId] ==>
        |expanded| > 0 && expanded[0] == index[startId]
      ensures r.None? && startId in index && goalId in index ==>
        forall v, p :: IsRouteBetween(stations, index[startId], v, p) ==> v in expanded
      ensures r.Some? && NonNegative(stations) ==>
        forall v, p, legs :: IsTimedRouteBetween(stations, index[startId], v, p, legs) && Sum(legs) < r.value.1 ==>
          v in expanded
    {
      expanded := [];
      if startId !in index || goalId !in index {
        r := None;
        return;
      }
      r, expanded := Dijkstra.SearchFastest(stations, index[startId], index[goalId]);
    }
  }
}
