/** How a split Bitvec node spreads the bits 1..iSize over NPTR sub-vectors of iDivisor bits each. */
module FanOut {
  import opened CBasics

  const NBIT: nat := 3968    // BITVEC_NBIT
  const NPTR: nat := 62      // BITVEC_NPTR

  /** The divisor a node gets when its hash is split, computed in 32-bit arithmetic. */
  function DivisorFor(iSize: nat): nat {
    ((iSize + NPTR - 1) % U32) / NPTR
  }

  /** The split is usable: sub-vectors are smaller than the node and together cover it. */
  ghost predicate Usable(iSize: nat) {
    0 < DivisorFor(iSize) < iSize && iSize <= NPTR * DivisorFor(iSize)
  }

  /** The 32-bit sum iSize+NPTR-1 must not wrap; on the 61 largest sizes it does, and a full hash cannot be split. */
  lemma DivisorUsable(iSize: nat)
    requires iSize < U32
    ensures iSize > NBIT ==> (Usable(iSize) <==> iSize + NPTR - 1 < U32)
    ensures 0 < iSize + NPTR - 1 < U32 ==> DivisorFor(iSize) == (iSize - 1) / NPTR + 1
    ensures U32 <= iSize + NPTR - 1 ==> DivisorFor(iSize) == 0
  {
  }

  /** Number of split levels above a flat or hash leaf that a vector of this size can ever grow. */
  function Depth(iSize: nat): nat
    requires iSize + NPTR - 1 < U32
    decreases iSize
  {
    if iSize <= NBIT then 0
    else DivisorUsable(iSize); 1 + Depth(DivisorFor(iSize))
  }

  /** Four descents reach the leaf of any vector. */
  lemma AtMostFourDescents(iSize: nat)
    requires iSize + NPTR - 1 < U32
    ensures Depth(iSize) <= 4
  {
    var a, b, c, d := DivisorFor(iSize), DivisorFor(DivisorFor(iSize)), 0, 0;
    DepthStep(iSize);
    DepthStep(a);
    c, d := DivisorFor(b), DivisorFor(DivisorFor(b));
    DepthStep(b);
    DepthStep(c);
    assert d <= NBIT && Depth(d) == 0;
  }

  lemma DepthStep(iSize: nat)
    requires iSize + NPTR - 1 < U32
    ensures var d := DivisorFor(iSize);
      && d <= (iSize + NPTR - 1) / NPTR
      && d + NPTR - 1 < U32
      && Depth(iSize) <= 1 + Depth(d)
  {
  }

  /** The sub-vector that holds bit x, and the number of bit x inside it. */
  function Bin(x: nat, d: nat): nat
    requires x > 0 && d > 0
  {
    (x - 1) / d
  }

  function Rest(x: nat, d: nat): (r: nat)
    requires x > 0 && d > 0
    ensures 1 <= r <= d
  {
    (x - 1) % d + 1
  }

  lemma BinInRange(x: nat, d: nat)
    requires 0 < x <= NPTR * d && d > 0
    ensures Bin(x, d) < NPTR
  {
  }

  lemma BinRestUnique(x: nat, y: nat, d: nat)
    requires x > 0 && y > 0 && d > 0
    requires Bin(x, d) == Bin(y, d) && Rest(x, d) == Rest(y, d)
    ensures x == y
  {
  }

  /** The set a split node stands for, given the sets of its sub-vectors. */
  ghost function Gather(parts: seq<set<nat>>, d: nat, size: nat): set<nat>
    requires d > 0
  {
    set x: nat | 1 <= x <= size && Bin(x, d) < |parts| && Rest(x, d) in parts[Bin(x, d)]
  }

  lemma GatherNothing(parts: seq<set<nat>>, d: nat, size: nat)
    requires d > 0 && forall b :: 0 <= b < |parts| ==> parts[b] == {}
    ensures Gather(parts, d, size) == {}
  {
  }

  /** Changing the one part that holds bit i by at most that bit changes the whole by at most that bit. */
  lemma GatherUpdate(parts: seq<set<nat>>, d: nat, size: nat, i: nat, part: set<nat>)
    requires d > 0 && 1 <= i <= size && Bin(i, d) < |parts|
    ensures var old_ := Gather(parts, d, size); var new_ := Gather(parts[Bin(i, d) := part], d, size);
      var before := parts[Bin(i, d)]; var r := Rest(i, d);
      && (part == before + {r} ==> new_ == old_ + {i})
      && (part <= before + {r} ==> new_ <= old_ + {i})
      && (part == before - {r} ==> new_ == old_ - {i})
  {
    var bin, r := Bin(i, d), Rest(i, d);
    forall x: nat | 1 <= x <= size && x != i ensures !(Bin(x, d) == bin && Rest(x, d) == r) {
      if Bin(x, d) == bin && Rest(x, d) == r {
        BinRestUnique(x, i, d);
      }
    }
    hide Bin, Rest;
  }
}
