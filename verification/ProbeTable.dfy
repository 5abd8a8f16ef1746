/** The open-addressing table of a hash-form Bitvec node, as a pure value.

    Slot contents are 1-based bit numbers; 0 marks an empty slot.  A value's home slot is
    BITVEC_HASH(v-1) and collisions probe upwards, wrapping at NINT.
 */
module ProbeTable {

  const NINT: nat := 124    // BITVEC_NINT
  const MXHASH: nat := 62   // BITVEC_MXHASH

  function Home(v: nat): (h: nat)
    requires v > 0
    ensures h < NINT
  {
    (v - 1) % NINT
  }

  function Next(h: nat): nat {
    if h + 1 >= NINT then 0 else h + 1
  }

  /** Slot k lies on the cyclic walk that starts at `from` and stops just before `to`. */
  predicate OnWalk(from: nat, to: nat, k: nat) {
    if from <= to then from <= k < to else from <= k || k < to
  }

  /** How many probe steps lead from h to e. */
  function Steps(h: nat, e: nat): int {
    if h <= e then e - h else NINT - h + e
  }

  ghost predicate IsTable(t: seq<nat>) {
    |t| == NINT
  }

  /** No empty slot lies between v's home slot and slot p. */
  ghost predicate NoGap(t: seq<nat>, v: nat, p: nat)
    requires IsTable(t) && v > 0
  {
    forall k :: 0 <= k < NINT && OnWalk(Home(v), p, k) ==> t[k] != 0
  }

  ghost predicate Distinct(t: seq<nat>) {
    forall p, q :: 0 <= p < q < |t| && t[p] != 0 ==> t[p] != t[q]
  }

  /** Every stored value can be reached from its home slot. */
  ghost predicate Reachable(t: seq<nat>)
    requires IsTable(t)
  {
    forall p :: 0 <= p < NINT && t[p] != 0 ==> NoGap(t, t[p], p)
  }

  function Occupied(t: seq<nat>): (n: nat)
    ensures n <= |t|
  {
    if t == [] then 0 else Occupied(t[..|t|-1]) + if t[|t|-1] != 0 then 1 else 0
  }

  ghost function Values(t: seq<nat>): set<nat> {
    set k | 0 <= k < |t| && t[k] != 0 :: t[k]
  }

  /** The invariant of a hash-form node whose `nSet` field is n. */
  ghost predicate Ok(t: seq<nat>, n: nat) {
    && IsTable(t)
    && Distinct(t)
    && Reachable(t)
    && n == Occupied(t)
    && n < NINT
  }

  lemma {:induction false} OccupiedUpdate(t: seq<nat>, p: nat, v: nat)
    requires p < |t| && t[p] == 0 && v != 0
    ensures Occupied(t[p := v]) == Occupied(t) + 1
  {
    var last := |t| - 1;
    if p == last {
      assert t[p := v][..last] == t[..last];
    } else {
      assert t[p := v][..last] == t[..last][p := v];
      OccupiedUpdate(t[..last], p, v);
    }
  }

  lemma {:induction false} EmptySlotExists(t: seq<nat>) returns (e: nat)
    requires Occupied(t) < |t|
    ensures e < |t| && t[e] == 0
  {
    var last := |t| - 1;
    if t[last] == 0 {
      e := last;
    } else {
      e := EmptySlotExists(t[..last]);
    }
  }

  lemma {:induction false} OccupiedZeros(t: seq<nat>)
    requires forall k :: 0 <= k < |t| ==> t[k] == 0
    ensures Occupied(t) == 0
  {
    if t != [] {
      OccupiedZeros(t[..|t|-1]);
    }
  }

  lemma {:induction false} OccupiedPrefix(t: seq<nat>, j: nat)
    requires j <= |t|
    ensures Occupied(t[..j]) <= Occupied(t)
    ensures j < |t| && t[j] != 0 ==> Occupied(t[..j]) < Occupied(t)
    decreases |t|
  {
    if j == |t| {
      assert t[..j] == t;
    } else if j == |t| - 1 {
    } else {
      assert t[..|t|-1][..j] == t[..j];
      OccupiedPrefix(t[..|t|-1], j);
    }
  }

  lemma OccupiedSnoc(t: seq<nat>, j: nat)
    requires j < |t|
    ensures Occupied(t[..j+1]) == Occupied(t[..j]) + if t[j] != 0 then 1 else 0
  {
    assert t[..j+1][..j] == t[..j];
  }

  lemma EmptyOk(t: seq<nat>)
    requires IsTable(t) && forall k :: 0 <= k < NINT ==> t[k] == 0
    ensures Ok(t, 0) && Values(t) == {}
  {
    OccupiedZeros(t);
  }

  lemma ValuesSnoc(t: seq<nat>, j: nat)
    requires j < |t|
    ensures Values(t[..j+1]) == Values(t[..j]) + if t[j] != 0 then {t[j]} else {}
  {
  }

  lemma ValuesAre(t: seq<nat>, v: nat)
    requires v > 0
    ensures v in t <==> v in Values(t)
  {
    if v in t {
      var k :| 0 <= k < |t| && t[k] == v;
    }
  }

  /** While a table is rebuilt from the distinct slots of t, slot j's value is not stored yet. */
  lemma NotYetSeen(t: seq<nat>, j: nat)
    requires Distinct(t) && j < |t| && t[j] != 0
    ensures t[j] !in Values(t[..j])
  {
  }

  /** A probe that walked from v's home over slots other than v and stopped at an empty slot
      proves that v is not stored. */
  lemma MissMeansAbsent(t: seq<nat>, v: nat, h: nat)
    requires IsTable(t) && Reachable(t) && v > 0 && h < NINT
    requires t[h] == 0
    requires forall k :: 0 <= k < NINT && OnWalk(Home(v), h, k) ==> t[k] != v
    ensures v !in Values(t)
  {
  }

  /** Storing an absent value in the first free slot of its probe walk keeps the invariant. */
  lemma Store(t: seq<nat>, n: nat, v: nat, h: nat)
    requires Ok(t, n) && n + 1 < NINT
    requires v > 0 && v !in Values(t)
    requires h < NINT && t[h] == 0 && NoGap(t, v, h)
    ensures Ok(t[h := v], n + 1)
    ensures Values(t[h := v]) == Values(t) + {v}
  {
    var u := t[h := v];
    OccupiedUpdate(t, h, v);
    forall p | 0 <= p < NINT && u[p] != 0 ensures NoGap(u, u[p], p) {
      assert p != h ==> NoGap(t, t[p], p);
    }
    forall p | 0 <= p < NINT && t[p] != 0 ensures t[p] != v { assert t[p] in Values(t); }
    assert forall x :: x in Values(t) ==> x in Values(u) by {
      forall x | x in Values(t) ensures x in Values(u) {
        var p :| 0 <= p < |t| && t[p] != 0 && t[p] == x;
        assert u[p] == x;
      }
    }
    assert u[h] == v;
  }

  /** The read path's probe loop. */
  method Find(a: array<nat>, v: nat, ghost n: nat) returns (found: bool)
    requires v > 0 && Ok(a[..], n)
    ensures found <==> v in Values(a[..])
  {
    ghost var t := a[..];
    ghost var e := EmptySlotExists(t);
    var h: nat := Home(v);
    while a[h] != 0
      invariant h < NINT
      invariant forall k :: 0 <= k < NINT && OnWalk(Home(v), h, k) ==> t[k] != v && t[k] != 0
      decreases Steps(h, e)
    {
      if a[h] == v {
        assert t[h] == v;
        return true;
      }
      h := Next(h);
    }
    MissMeansAbsent(t, v, h);
    return false;
  }

  /** The write path's probe loop: either v is already stored, or h is the free slot where it belongs. */
  method FindOrFree(a: array<nat>, v: nat, ghost n: nat) returns (found: bool, h: nat)
    requires v > 0 && Ok(a[..], n)
    requires a[Home(v)] != 0
    ensures h < NINT
    ensures found ==> v in Values(a[..])
    ensures !found ==> v !in Values(a[..]) && a[h] == 0 && NoGap(a[..], v, h)
  {
    ghost var t := a[..];
    ghost var e := EmptySlotExists(t);
    h := Home(v);
    while true
      invariant h < NINT && t[h] != 0
      invariant forall k :: 0 <= k < NINT && OnWalk(Home(v), h, k) ==> t[k] != v && t[k] != 0
      decreases Steps(h, e)
    {
      if a[h] == v {
        assert t[h] == v;
        return true, h;
      }
      h := h + 1;
      if h >= NINT { h := 0; }
      if a[h] == 0 { break; }
    }
    MissMeansAbsent(t, v, h);
    found := false;
  }

  /** The probe loop that rebuilds a table: v is known to be absent. */
  method FindFree(a: array<nat>, v: nat, ghost n: nat) returns (h: nat)
    requires v > 0 && Ok(a[..], n)
    ensures h < NINT && a[h] == 0 && NoGap(a[..], v, h)
  {
    ghost var t := a[..];
    ghost var e := EmptySlotExists(t);
    h := Home(v);
    while a[h] != 0
      invariant h < NINT
      invariant forall k :: 0 <= k < NINT && OnWalk(Home(v), h, k) ==> t[k] != 0
      decreases Steps(h, e)
    {
      h := h + 1;
      if h >= NINT { h := 0; }
    }
  }
}
