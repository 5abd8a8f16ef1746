/** What becomes of a hash-form Bitvec node whose 32-bit divisor wraps around to 0: a full hash cannot be split.  The
    node stays a hash, sqlite3BitvecSet empties it, forgets to lower nSet and calls itself for every value. */
module HashOverflow {
  import opened ProbeTable

  /** The result of a call: the new table and nSet, or none, because it would take more than the allowed depth of
      nested calls or because its probe loop finds neither the value nor an empty slot. */
  datatype Outcome = Endless | Done(t: seq<nat>, n: nat)

  /** The first slot from h on that is empty or holds v, looking at no more than `count` slots after it. */
  function Walk(t: seq<nat>, v: nat, h: nat, count: nat): (e: nat)
    requires IsTable(t) && h < NINT
    ensures e < NINT
    decreases count
  {
    if t[h] == 0 || t[h] == v || count == 0 then h else Walk(t, v, Next(h), count - 1)
  }

  /** The call has to rehash: the node is half full and v collides, or it is full. */
  predicate MustRehash(t: seq<nat>, n: nat, v: nat)
    requires IsTable(t) && v > 0
  {
    v !in t && n >= MXHASH && (t[Home(v)] != 0 || n >= NINT - 1)
  }

  function Empty(): (t: seq<nat>)
    ensures IsTable(t)
  {
    seq(NINT, _ => 0)
  }

  /** sqlite3BitvecSet on the node, while every allocation succeeds. */
  function SetHash(t: seq<nat>, n: nat, v: nat, depth: nat): (r: Outcome)
    requires IsTable(t) && v > 0
    ensures r.Done? ==> IsTable(r.t)
    decreases depth, NINT + 1
  {
    var h := Walk(t, v, Home(v), NINT);
    if t[Home(v)] == 0 && n < NINT - 1 then Done(t[h := v], n + 1)
    else if t[h] == v then Done(t, n)
    else if t[h] != 0 then Endless
    else if n < MXHASH then Done(t[h := v], n + 1)
    else if depth == 0 then Endless
    else match SetHash(Empty(), n, v, depth - 1)
         case Endless => Endless
         case Done(t1, n1) => SetAll(t, t1, n1, depth - 1)
  }

  /** The loop that sets the old values again. */
  function SetAll(values: seq<nat>, t: seq<nat>, n: nat, depth: nat): (r: Outcome)
    requires IsTable(t)
    ensures r.Done? ==> IsTable(r.t)
    decreases depth, NINT + 2, |values|
  {
    if values == [] then Done(t, n)
    else match SetAll(values[..|values|-1], t, n, depth)
         case Endless => Endless
         case Done(t1, n1) =>
           var v := values[|values|-1];
           if v == 0 then Done(t1, n1) else SetHash(t1, n1, v, depth)
  }

  // ---------- A call that returns has counted every value it stored, and never counts beyond NINT-1

  /** What a call that returns leaves: all values, one more than before for each new one, and no room beyond. */
  ghost predicate Counts(was: set<nat>, n: nat, added: set<nat>, r: Outcome) {
    && r.Done? && IsTable(r.t)
    && Values(r.t) == was + added
    && Occupied(r.t) <= r.n < NINT
    && r.n >= n + |added - was|
  }

  lemma StoreCounts(t: seq<nat>, n: nat, v: nat, h: nat)
    requires IsTable(t) && v > 0 && h < NINT && t[h] == 0 && Occupied(t) <= n < NINT - 1
    ensures Counts(Values(t), n, {v}, Done(t[h := v], n + 1))
  {
    OccupiedUpdate(t, h, v);
    var u := t[h := v];
    assert u[h] == v;
    forall x | x in Values(t) ensures x in Values(u) {
      var p :| 0 <= p < |t| && t[p] != 0 && t[p] == x;
      assert u[p] == x;
    }
    assert Values(u) == Values(t) + {v};
    assert |{v} - Values(t)| <= |{v}| == 1 by {
      if v in Values(t) { assert {v} - Values(t) == {}; } else { assert {v} - Values(t) == {v}; }
    }
  }

  lemma FoundCounts(t: seq<nat>, n: nat, v: nat, h: nat)
    requires IsTable(t) && v > 0 && h < NINT && t[h] == v && Occupied(t) <= n < NINT
    ensures Counts(Values(t), n, {v}, Done(t, n))
  {
    assert v in Values(t) && {v} - Values(t) == {};
  }

  lemma {:induction false} SetCounts(t: seq<nat>, n: nat, v: nat, depth: nat)
    requires IsTable(t) && v > 0 && Occupied(t) <= n < NINT
    requires SetHash(t, n, v, depth).Done?
    ensures Counts(Values(t), n, {v}, SetHash(t, n, v, depth))
    ensures MustRehash(t, n, v) ==> SetHash(t, n, v, depth).n >= n + 1 + |Values(t)|
    decreases depth, NINT + 1
  {
    var h := Walk(t, v, Home(v), NINT);
    OccupiedZeros(Empty());
    assert Values(Empty()) == {} && {v} - {} == {v} && {} + {v} == {v};
    assert (t[h] == v ==> v in t) && (t[Home(v)] == 0 ==> h == Home(v));
    hide Walk, Values, Occupied;
    if t[Home(v)] == 0 && n < NINT - 1 {
      StoreCounts(t, n, v, h);
    } else if t[h] == v {
      FoundCounts(t, n, v, h);
    } else if n < MXHASH {
      StoreCounts(t, n, v, h);
    } else {
      SetCounts(Empty(), n, v, depth - 1);
      var first := SetHash(Empty(), n, v, depth - 1);
      AllCount(t, first.t, first.n, depth - 1);
      RefillCounts(t, n, v, first.n, SetHash(t, n, v, depth).n);
    }
  }

  /** The numbers of a rehash: first v alone, then the old values. */
  lemma RefillCounts(t: seq<nat>, n: nat, v: nat, n1: nat, n2: nat)
    requires n1 >= n + 1 && n2 >= n1 + |Values(t) - {v}|
    ensures n2 >= n + |{v} - Values(t)|
    ensures v !in t ==> n2 >= n + 1 + |Values(t)|
  {
    if v !in t { assert Values(t) - {v} == Values(t); }
    if v in Values(t) { assert {v} - Values(t) == {}; } else { assert {v} - Values(t) == {v}; }
  }

  lemma {:induction false} AllCount(values: seq<nat>, t: seq<nat>, n: nat, depth: nat)
    requires IsTable(t) && Occupied(t) <= n < NINT && SetAll(values, t, n, depth).Done?
    ensures Counts(Values(t), n, Values(values), SetAll(values, t, n, depth))
    decreases depth, NINT + 2, |values|
  {
    if values == [] {
      assert Values(t) + {} == Values(t) && {} - Values(t) == {};
    } else {
      var last := |values| - 1;
      var r, v := SetAll(values[..last], t, n, depth), values[last];
      AllCount(values[..last], t, n, depth);
      assert IsTable(r.t) && Occupied(r.t) <= r.n < NINT;
      ValuesSnoc(values, last);
      assert values[..last + 1] == values;
      hide Values, Occupied, Counts, SetHash, MustRehash;
      if v != 0 {
        SetCounts(r.t, r.n, v, depth);
        Compose(Values(t), n, Values(values[..last]), r, v, SetHash(r.t, r.n, v, depth));
      } else {
        assert Values(values[..last]) + {} == Values(values[..last]);
      }
    }
  }

  lemma Compose(was: set<nat>, n: nat, added: set<nat>, r: Outcome, v: nat, now: Outcome)
    requires Counts(was, n, added, r) && Counts(Values(r.t), r.n, {v}, now)
    ensures Counts(was, n, added + {v}, now)
  {
    assert (added + {v}) - was == (added - was) + ({v} - (was + added));
    hide Values, Occupied;
  }

  // ---------- The calls that return

  lemma {:induction false} DistinctCount(t: seq<nat>)
    requires Distinct(t)
    ensures |Values(t)| == Occupied(t)
  {
    if t != [] {
      var last := |t| - 1;
      DistinctCount(t[..last]);
      ValuesSnoc(t, last);
      assert t[..last + 1] == t;
      if t[last] != 0 { NotYetSeen(t, last); }
    }
  }

  /** In a table with an empty slot e the probe loop ends. */
  lemma {:induction false} WalkEnds(t: seq<nat>, v: nat, h: nat, count: nat, e: nat)
    requires IsTable(t) && h < NINT && e < NINT && t[e] == 0 && Steps(h, e) <= count
    ensures var w := Walk(t, v, h, count); t[w] == 0 || t[w] == v
    decreases count
  {
    if t[h] != 0 && t[h] != v { WalkEnds(t, v, Next(h), count - 1, e); }
  }

  lemma {:induction false} WalkFinds(t: seq<nat>, v: nat, h: nat, count: nat)
    requires IsTable(t) && h < NINT
    ensures t[Walk(t, v, h, count)] == v ==> v in t
    decreases count
  {
    if !(t[h] == 0 || t[h] == v || count == 0) { WalkFinds(t, v, Next(h), count - 1); }
  }

  /** A stored value is found from its home slot. */
  lemma {:induction false} WalkReaches(t: seq<nat>, v: nat, h: nat, count: nat, p: nat)
    requires IsTable(t) && h < NINT && p < NINT && v > 0 && t[p] == v && Steps(h, p) <= count
    requires forall k :: 0 <= k < NINT && OnWalk(h, p, k) ==> t[k] != 0
    ensures t[Walk(t, v, h, count)] == v
    decreases count
  {
    if t[h] != 0 && t[h] != v { WalkReaches(t, v, Next(h), count - 1, p); }
  }

  /** On a node in order whose divisor wraps around, a call returns exactly if it need not rehash.  A rehash empties
      the table but not nSet, so its calls count at least 1+62+62 values, and none returns beyond 123: however deep
      the calls may go, they never end. */
  lemma ReturnsExactly(t: seq<nat>, n: nat, v: nat, depth: nat)
    requires Ok(t, n) && v > 0
    ensures SetHash(t, n, v, depth).Done? <==> !MustRehash(t, n, v)
  {
    var e := EmptySlotExists(t);
    var h := Walk(t, v, Home(v), NINT);
    WalkEnds(t, v, Home(v), NINT, e);
    WalkFinds(t, v, Home(v), NINT);
    if v in t {
      var p: nat :| p < |t| && t[p] == v;
      assert NoGap(t, t[p], p);
      WalkReaches(t, v, Home(v), NINT, p);
    } else if MustRehash(t, n, v) && SetHash(t, n, v, depth).Done? {
      DistinctCount(t);
      SetCounts(t, n, v, depth);
    }
    hide Values, Occupied;
  }

  /** The failing input: the values 1 to 62 fill the first half of the table, and 125 collides with 1. */
  lemma Overflow(depth: nat)
    ensures var t := seq(NINT, k => if k < MXHASH then k + 1 else 0);
      Ok(t, MXHASH) && MustRehash(t, MXHASH, 125) && SetHash(t, MXHASH, 125, depth) == Endless
  {
    var t: seq<nat> := seq(NINT, k => if k < MXHASH then k + 1 else 0);
    HalfFull(t, NINT);
    assert t[..NINT] == t;
    forall p | 0 <= p < NINT && t[p] != 0 ensures NoGap(t, t[p], p) { assert Home(t[p]) == p; }
    ReturnsExactly(t, MXHASH, 125, depth);
    hide SetHash, Occupied;
  }

  lemma {:induction false} HalfFull(t: seq<nat>, j: nat)
    requires IsTable(t) && j <= NINT && forall k :: 0 <= k < NINT ==> (t[k] != 0 <==> k < MXHASH)
    ensures Occupied(t[..j]) == if j < MXHASH then j else MXHASH
  {
    if j > 0 {
      HalfFull(t, j - 1);
      OccupiedSnoc(t, j - 1);
    }
  }
}
