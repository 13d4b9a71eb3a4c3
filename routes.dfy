/** Routes through the station arena: walks, their minutes and line changes. */
module Routes {
  import opened Stations

  /** The arena: station handle `i` is `g[i]`. */
  type Graph = seq<Station>

  /** Every neighbour entry names a station of the arena. */
  ghost predicate WellFormed(g: Graph)
  {
    forall i, k :: 0 <= i < |g| && 0 <= k < |g[i].links| ==> g[i].links[k].to < |g|
  }

  /** Every link has a twin in the opposite direction with the same minutes. */
  ghost predicate Symmetric(g: Graph)
  {
    forall i, k :: 0 <= i < |g| && 0 <= k < |g[i].links| && g[i].links[k].to < |g| ==>
      Link(i, g[i].links[k].minutes) in g[g[i].links[k].to].links
  }

  /** No ride takes a negative number of minutes. */
  ghost predicate NonNegative(g: Graph)
  {
    forall i, k :: 0 <= i < |g| && 0 <= k < |g[i].links| ==> g[i].links[k].minutes >= 0
  }

  /** Station `v` is in the neighbour list of station `u`. */
  ghost predicate HasEdge(g: Graph, u: nat, v: nat)
  {
    u < |g| && exists k :: 0 <= k < |g[u].links| && g[u].links[k].to == v
  }

  /** A walk: at least one station, all in the arena, each next to the one before. */
  ghost predicate IsRoute(g: Graph, p: seq<nat>)
  {
    && |p| > 0
    && (forall i :: 0 <= i < |p| ==> p[i] < |g|)
    && (forall i :: 0 <= i < |p| - 1 ==> HasEdge(g, p[i], p[i + 1]))
  }

  ghost predicate IsRouteBetween(g: Graph, s: nat, t: nat, p: seq<nat>)
  {
    IsRoute(g, p) && p[0] == s && p[|p| - 1] == t
  }

  /** A walk together with the link taken on each step: leg `i` is the minutes
      of a neighbour entry of `p[i]` that leads to `p[i + 1]`. Between two
      stations there may be several links with different minutes. */
  ghost predicate IsTimedRoute(g: Graph, p: seq<nat>, legs: seq<int>)
  {
    && |p| > 0
    && |legs| == |p| - 1
    && (forall i :: 0 <= i < |p| ==> p[i] < |g|)
    && (forall i :: 0 <= i < |legs| ==> Link(p[i + 1], legs[i]) in g[p[i]].links)
  }

  ghost predicate IsTimedRouteBetween(g: Graph, s: nat, t: nat, p: seq<nat>, legs: seq<int>)
  {
    IsTimedRoute(g, p, legs) && p[0] == s && p[|p| - 1] == t
  }

  /** Total minutes of a sequence of legs. */
  function Sum(legs: seq<int>): int
  {
    if |legs| == 0 then 0 else Sum(legs[..|legs| - 1]) + legs[|legs| - 1]
  }

  /** `time` is the least number of minutes of any walk from `s` to `t`, and
      some walk takes exactly that long. */
  ghost predicate LeastTime(g: Graph, s: nat, t: nat, time: int)
  {
    && (exists p, legs :: IsTimedRouteBetween(g, s, t, p, legs) && Sum(legs) == time)
    && (forall p, legs :: IsTimedRouteBetween(g, s, t, p, legs) ==> time <= Sum(legs))
  }

  /** No station occurs twice. */
  ghost predicate Distinct(p: seq<nat>)
  {
    forall i, j :: 0 <= i < j < |p| ==> p[i] != p[j]
  }

  /** Number of steps along `p` between stations of different lines. */
  function Transfers(g: Graph, p: seq<nat>): (r: nat)
    requires forall i :: 0 <= i < |p| ==> p[i] < |g|
    ensures |p| > 0 ==> r < |p|
  {
    if |p| <= 1 then 0
    else Transfers(g, p[..|p| - 1]) + (if g[p[|p| - 2]].line == g[p[|p| - 1]].line then 0 else 1)
  }

  /** A route has no transfers exactly when every ride stays on one line. */
  lemma {:induction false} NoTransfersOneLine(g: Graph, p: seq<nat>)
    requires forall i :: 0 <= i < |p| ==> p[i] < |g|
    ensures Transfers(g, p) == 0 <==> forall i :: 0 < i < |p| ==> g[p[i - 1]].line == g[p[i]].line
    decreases |p|
  {
    if |p| > 1 {
      var q := p[..|p| - 1];
      NoTransfersOneLine(g, q);
      assert forall i :: 0 <= i < |q| ==> q[i] == p[i];
    }
  }

  function Reverse<T>(s: seq<T>): (r: seq<T>)
    ensures |r| == |s|
    ensures forall i :: 0 <= i < |s| ==> r[i] == s[|s| - 1 - i]
  {
    if |s| == 0 then [] else [s[|s| - 1]] + Reverse(s[..|s| - 1])
  }

  /** The set of stations occurring in a sequence. */
  ghost function Elems(s: seq<nat>): set<nat>
  {
    set x | x in s
  }

  lemma {:induction false} SumPrepend(x: int, legs: seq<int>)
    ensures Sum([x] + legs) == x + Sum(legs)
    decreases |legs|
  {
    if |legs| > 0 {
      assert ([x] + legs)[..|legs|] == [x] + legs[..|legs| - 1];
      SumPrepend(x, legs[..|legs| - 1]);
    }
  }

  lemma {:induction false} SumReverse(legs: seq<int>)
    ensures Sum(Reverse(legs)) == Sum(legs)
    decreases |legs|
  {
    if |legs| > 0 {
      var init := legs[..|legs| - 1];
      assert Reverse(legs) == [legs[|legs| - 1]] + Reverse(init);
      SumPrepend(legs[|legs| - 1], Reverse(init));
      SumReverse(init);
    }
  }

  /** With links in both directions and equal minutes, a walk read backwards is
      a walk of the same length. */
  lemma ReverseTimedRoute(g: Graph, p: seq<nat>, legs: seq<int>)
    requires Symmetric(g)
    requires IsTimedRoute(g, p, legs)
    ensures IsTimedRoute(g, Reverse(p), Reverse(legs))
    ensures Sum(Reverse(legs)) == Sum(legs)
  {
    var rp, rl := Reverse(p), Reverse(legs);
    forall i | 0 <= i < |rp|
      ensures rp[i] < |g|
    {
      assert rp[i] == p[|p| - 1 - i];
    }
    forall i | 0 <= i < |rl|
      ensures Link(rp[i + 1], rl[i]) in g[rp[i]].links
    {
      var j := |p| - 2 - i;
      assert rp[i] == p[j + 1] && rp[i + 1] == p[j] && rl[i] == legs[j];
      var u, w := p[j], p[j + 1];
      assert Link(w, legs[j]) in g[u].links;
      var k :| 0 <= k < |g[u].links| && g[u].links[k] == Link(w, legs[j]);
      assert g[u].links[k].to == w && w < |g|;
      assert Link(u, g[u].links[k].minutes) in g[g[u].links[k].to].links;
    }
    SumReverse(legs);
  }

  /** The fastest time is the same in both directions. */
  lemma LeastTimeSymmetric(g: Graph, a: nat, b: nat, ab: int, ba: int)
    requires Symmetric(g)
    requires LeastTime(g, a, b, ab) && LeastTime(g, b, a, ba)
    ensures ab == ba
  {
    var p, legs :| IsTimedRouteBetween(g, a, b, p, legs) && Sum(legs) == ab;
    ReverseTimedRoute(g, p, legs);
    assert IsTimedRouteBetween(g, b, a, Reverse(p), Reverse(legs));
    var q, qlegs :| IsTimedRouteBetween(g, b, a, q, qlegs) && Sum(qlegs) == ba;
    ReverseTimedRoute(g, q, qlegs);
    assert IsTimedRouteBetween(g, a, b, Reverse(q), Reverse(qlegs));
  }

  /** Appending one station adds a transfer exactly when it changes line. */
  lemma TransfersAppend(g: Graph, p: seq<nat>, w: nat)
    requires |p| > 0 && (forall i :: 0 <= i < |p| ==> p[i] < |g|) && w < |g|
    ensures forall i :: 0 <= i < |p + [w]| ==> (p + [w])[i] < |g|
    ensures Transfers(g, p + [w]) == Transfers(g, p) + (if g[p[|p| - 1]].line == g[w].line then 0 else 1)
  {
    var q := p + [w];
    assert q[..|p|] == p;
    assert q[|q| - 2] == p[|p| - 1] && q[|q| - 1] == w;
  }

  /** A walk extended by one more ride is a walk; the ride adds a transfer
      exactly when it changes line. */
  lemma ExtendRoute(g: Graph, p: seq<nat>, w: nat)
    requires IsRoute(g, p) && w < |g| && HasEdge(g, p[|p| - 1], w)
    ensures IsRoute(g, p + [w])
    ensures Transfers(g, p + [w]) == Transfers(g, p) + (if g[p[|p| - 1]].line == g[w].line then 0 else 1)
  {
    var q := p + [w];
    TransfersAppend(g, p, w);
    forall i | 0 <= i < |q| - 1
      ensures HasEdge(g, q[i], q[i + 1])
    {
      if i < |p| - 1 {
        assert q[i] == p[i] && q[i + 1] == p[i + 1];
      } else {
        assert q[i] == p[|p| - 1] && q[i + 1] == w;
      }
    }
  }

  /** A timed walk extended by one more link is a timed walk that takes the
      link's minutes longer. */
  lemma ExtendTimedRoute(g: Graph, p: seq<nat>, legs: seq<int>, w: nat, m: int)
    requires IsTimedRoute(g, p, legs) && w < |g| && Link(w, m) in g[p[|p| - 1]].links
    ensures IsTimedRoute(g, p + [w], legs + [m])
    ensures Sum(legs + [m]) == Sum(legs) + m
  {
    assert (legs + [m])[..|legs|] == legs;
  }

  lemma DistinctAppend(p: seq<nat>, w: nat)
    requires Distinct(p) && w !in p
    ensures Distinct(p + [w])
  {
  }

  /** The minutes recorded on a walk are minutes of real links, so it is a walk. */
  lemma TimedRouteIsRoute(g: Graph, p: seq<nat>, legs: seq<int>)
    requires IsTimedRoute(g, p, legs)
    ensures IsRoute(g, p)
  {
    forall i | 0 <= i < |p| - 1
      ensures HasEdge(g, p[i], p[i + 1])
    {
      assert Link(p[i + 1], legs[i]) in g[p[i]].links;
      var k :| 0 <= k < |g[p[i]].links| && g[p[i]].links[k] == Link(p[i + 1], legs[i]);
    }
  }

  /** A walk that starts inside a set of stations closed under neighbours stays inside it. */
  lemma {:induction false} ClosedSetContainsRoute(g: Graph, closed: set<nat>, p: seq<nat>, i: nat)
    requires IsRoute(g, p) && p[0] in closed
    requires forall u, k :: u in closed && u < |g| && 0 <= k < |g[u].links| ==> g[u].links[k].to in closed
    requires i < |p|
    ensures p[i] in closed
    decreases i
  {
    if i > 0 {
      ClosedSetContainsRoute(g, closed, p, i - 1);
      assert HasEdge(g, p[i - 1], p[i]);
      var k :| 0 <= k < |g[p[i - 1]].links| && g[p[i - 1]].links[k].to == p[i];
    }
  }

  lemma {:induction false} DistinctElems(p: seq<nat>)
    requires Distinct(p)
    ensures |Elems(p)| == |p|
    decreases |p|
  {
    if |p| > 0 {
      var init := p[..|p| - 1];
      assert Elems(p) == Elems(init) + {p[|p| - 1]};
      assert p[|p| - 1] !in Elems(init);
      DistinctElems(init);
    }
  }

  /** The handles below `n`. */
  ghost function Below(n: nat): (r: set<nat>)
    ensures forall x: nat :: x in r <==> x < n
    ensures |r| == n
  {
    if n == 0 then {} else Below(n - 1) + {n - 1}
  }

  /** A sequence of distinct handles below `n` has at most `n` entries. */
  lemma DistinctBounded(p: seq<nat>, n: nat)
    requires Distinct(p)
    requires forall i :: 0 <= i < |p| ==> p[i] < n
    ensures |p| <= n
  {
    DistinctElems(p);
    var e, b := Elems(p), Below(n);
    assert e <= b;
    assert e * b == e && e + b == b;
    assert |b - e| + |e| == |b|;
  }

  /** `order` lists every station of `marked` exactly once, all in the arena. */
  ghost predicate Enumerates(g: Graph, marked: set<nat>, order: seq<nat>)
  {
    && Distinct(order)
    && marked == Elems(order)
    && (forall i :: 0 <= i < |order| ==> order[i] < |g|)
  }

  /** Every station of `marked` is reached by some walk from `s`. */
  ghost predicate Reached(g: Graph, s: nat, marked: set<nat>)
  {
    forall v :: v in marked ==> exists p: seq<nat> :: IsRouteBetween(g, s, v, p)
  }

  lemma ReachedAdd(g: Graph, s: nat, marked: set<nat>, w: nat, p: seq<nat>)
    requires Reached(g, s, marked) && IsRouteBetween(g, s, w, p)
    ensures Reached(g, s, marked + {w})
  {
  }

  lemma EnumeratesAdd(g: Graph, marked: set<nat>, order: seq<nat>, w: nat)
    requires Enumerates(g, marked, order) && w !in marked && w < |g|
    ensures Enumerates(g, marked + {w}, order + [w])
  {
    DistinctAppend(order, w);
    assert Elems(order + [w]) == Elems(order) + {w};
  }
}
