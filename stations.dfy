/** Stations of the metro network and the order on them (`Istasyon`). */
module Stations {

  /** One entry of a station's neighbour list: the station reached, as a handle
      into the network's arena, and the minutes the ride takes. */
  datatype Link = Link(to: nat, minutes: int)

  /** A station: its identifier, display name, line and append-only neighbour
      list. A new station starts with no neighbours. */
  datatype Station = Station(id: string, name: string, line: string, links: seq<Link>)

  /** `a` and `b` agree on their first `k` characters, after which `a` ends
      while `b` goes on, or `a` has the smaller character. */
  predicate DiffersAt(a: string, b: string, k: nat)
  {
    && k <= |a| && k <= |b| && a[..k] == b[..k]
    && (if k == |a| then k < |b| else k < |b| && a[k] < b[k])
  }

  /** Python's `<` on strings, one character at a time. */
  predicate IdLess(a: string, b: string)
    ensures IdLess(a, b) <==> exists k: nat :: DiffersAt(a, b, k)
    decreases |a|
  {
    if |a| == 0 then
      assert |b| > 0 ==> DiffersAt(a, b, 0);
      |b| > 0
    else if |b| == 0 then false
    else if a[0] != b[0] then
      assert a[0] < b[0] ==> DiffersAt(a, b, 0);
      a[0] < b[0]
    else
      var r := IdLess(a[1..], b[1..]);
      assert r ==> exists k: nat :: DiffersAt(a, b, k) by {
        if r {
          var k: nat :| DiffersAt(a[1..], b[1..], k);
          assert a[..k + 1] == [a[0]] + a[1..][..k];
          assert b[..k + 1] == [b[0]] + b[1..][..k];
          assert DiffersAt(a, b, k + 1);
        }
      }
      assert (exists k: nat :: DiffersAt(a, b, k)) ==> r by {
        if exists k: nat :: DiffersAt(a, b, k) {
          var k: nat :| DiffersAt(a, b, k);
          if k == 0 {
            assert false;
          }
          assert a[1..][..k - 1] == a[..k][1..];
          assert b[1..][..k - 1] == b[..k][1..];
          assert DiffersAt(a[1..], b[1..], k - 1);
        }
      }
      r
  }

  /** `Istasyon.__lt__`: stations compare by their identifiers only. */
  predicate StationLess(a: Station, b: Station)
    ensures StationLess(a, b) <==> exists k: nat :: DiffersAt(a.id, b.id, k)
  {
    IdLess(a.id, b.id)
  }

  lemma {:induction false} IdLessIrreflexive(a: string)
    ensures !IdLess(a, a)
    decreases |a|
  {
    if |a| > 0 {
      IdLessIrreflexive(a[1..]);
    }
  }

  lemma {:induction false} IdLessTransitive(a: string, b: string, c: string)
    requires IdLess(a, b) && IdLess(b, c)
    ensures IdLess(a, c)
    decreases |a|
  {
    if |a| > 0 && a[0] == b[0] && b[0] == c[0] {
      IdLessTransitive(a[1..], b[1..], c[1..]);
    }
  }

  lemma {:induction false} IdLessTotal(a: string, b: string)
    requires a != b
    ensures IdLess(a, b) || IdLess(b, a)
    decreases |a|
  {
    if |a| > 0 && |b| > 0 && a[0] == b[0] {
      assert a == [a[0]] + a[1..] && b == [b[0]] + b[1..];
      IdLessTotal(a[1..], b[1..]);
    }
  }

  /** `Istasyon.__lt__` is a strict total order on stations with distinct ids,
      which is what a heap of stations needs. */
  lemma StationLessIsStrictTotalOrder(a: Station, b: Station, c: Station)
    ensures !StationLess(a, a)
    ensures StationLess(a, b) ==> !StationLess(b, a)
    ensures StationLess(a, b) && StationLess(b, c) ==> StationLess(a, c)
    ensures a.id != b.id ==> StationLess(a, b) || StationLess(b, a)
    ensures !StationLess(a, b) && !StationLess(b, c) ==> !StationLess(a, c)
  {
    IdLessIrreflexive(a.id);
    if StationLess(a, b) && StationLess(b, a) {
      IdLessTransitive(a.id, b.id, a.id);
    }
    if StationLess(a, b) && StationLess(b, c) {
      IdLessTransitive(a.id, b.id, c.id);
    }
    if a.id != b.id {
      IdLessTotal(a.id, b.id);
    }
    if !StationLess(a, b) && !StationLess(b, c) && StationLess(a, c) {
      if a.id != b.id {
        IdLessTotal(a.id, b.id);
        IdLessTransitive(b.id, a.id, c.id);
      }
    }
  }
}
