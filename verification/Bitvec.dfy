/** src/bitvec.c: a set of bit numbers 1..iSize with three representations. */
module Bitvec {
  import Bits
  import T = ProbeTable
  import HashOverflow

  import opened CBasics
  import opened Division
  import opened FanOut

  const NELEM: nat := 496    // BITVEC_NELEM: bytes in the flat bitmap

  class Bitvec {
    const iSize: nat
    var nSet: nat
    var iDivisor: nat
    const aBitmap: array<bv8>       // flat form: iSize <= NBIT
    const aHash: array<nat>         // hash form: iSize > NBIT and iDivisor == 0
    const apSub: array<Bitvec?>     // split form: iDivisor > 0
    ghost var Contents: set<nat>
    ghost var Parts: seq<set<nat>>  // the sets of the sub-vectors, {} for a missing one
    ghost var Repr: set<object>

    ghost predicate Shape()
      reads this
    {
      && {this, aBitmap, aHash, apSub} <= Repr
      && aBitmap.Length == NELEM && aHash.Length == T.NINT && apSub.Length == NPTR
      && iSize < U32
      && forall x :: x in Contents ==> 1 <= x <= iSize
    }

    ghost predicate BitmapForm()
      reads this, aBitmap
    {
      && iSize <= NBIT && iDivisor == 0
      && forall x :: 1 <= x <= iSize ==> (x in Contents <==> Bits.BitAt(aBitmap[..], x - 1))
    }

    ghost predicate HashForm()
      reads this, aHash
    {
      && iSize > NBIT && iDivisor == 0
      && T.Ok(aHash[..], nSet)
      && Contents == T.Values(aHash[..])
    }

    /** Sub-vector c keeps set `part` for this node in memory apart from the node's own. */
    ghost predicate Owns(c: Bitvec, part: set<nat>)
      reads this, c
    {
      && c.Repr <= Repr
      && this !in c.Repr && aBitmap !in c.Repr && aHash !in c.Repr && apSub !in c.Repr
      && c.iSize == iDivisor && c.Contents == part
    }

    ghost predicate SplitForm()
      requires Shape()
      reads this, Repr
    {
      && iSize > NBIT && iDivisor == DivisorFor(iSize) && Usable(iSize)
      && |Parts| == NPTR
      && (forall b :: 0 <= b < NPTR ==>
            if apSub[b] == null then Parts[b] == {} else apSub[b] in Repr && Owns(apSub[b], Parts[b]))
      && (forall b, c :: 0 <= b < c < NPTR && apSub[b] != null && apSub[c] != null ==> apSub[b].Repr !! apSub[c].Repr)
      && Contents == Gather(Parts, iDivisor, iSize)
    }

    ghost predicate Valid()
      reads this, Repr
      decreases iSize
      ensures Valid() ==> this in Repr
    {
      && Shape()
      && (BitmapForm() || HashForm() || SplitForm())
      && (iDivisor != 0 ==> forall b :: 0 <= b < NPTR && apSub[b] != null ==> apSub[b].Valid())
    }

    /** sqlite3BitvecCreate, after its allocation succeeded. */
    constructor (size: nat)
      requires size < U32
      ensures Valid() && fresh(Repr)
      ensures iSize == size && Contents == {}
    {
      iSize := size;
      nSet := 0;
      iDivisor := 0;
      aBitmap := new bv8[NELEM](_ => 0);
      aHash := new nat[T.NINT](_ => 0);
      apSub := new Bitvec?[NPTR](_ => null);
      Contents := {};
      Parts := [];
      new;
      Repr := {this, aBitmap, aHash, apSub};
      T.EmptyOk(aHash[..]);
    }

    /** Adds an absent value in its free slot of the hash. */
    method StoreInHash(i: nat, h: nat)
      requires Valid() && HashForm() && nSet + 1 < T.NINT
      requires 1 <= i <= iSize && i !in Contents
      requires h < T.NINT && aHash[h] == 0 && T.NoGap(aHash[..], i, h)
      modifies this, aHash
      ensures Valid() && Repr == old(Repr) && Contents == old(Contents) + {i}
    {
      T.Store(aHash[..], nSet, i, h);
      nSet := nSet + 1;
      aHash[h] := i;
      Contents := Contents + {i};
      assert aHash[..] == old(aHash[..])[h := i];
    }

    /** The call need not split a node whose divisor wraps around to 0; if it has to, it never ends
        (HashOverflow.ReturnsExactly). */
    ghost predicate CanSet(i: nat)
      requires Valid() && i > 0
      reads this, Repr
    {
      iSize > NBIT && iDivisor == 0 && HashOverflow.MustRehash(aHash[..], nSet, i) ==> iSize + NPTR - 1 < U32
    }

    /** sqlite3BitvecSet on an existing vector. */
    method Set(i: nat, mem: Allocator) returns (rc: nat)
      requires Valid() && mem !in Repr
      requires 1 <= i <= iSize && CanSet(i)
      modifies Repr, mem
      ensures Valid() && mem !in Repr && fresh(Repr - old(Repr))
      ensures rc == OK ==> Contents == old(Contents) + {i}
      ensures rc != OK ==> rc == NOMEM && Contents <= old(Contents) + {i}
      ensures mem.failures >= old(mem.failures)
      ensures rc == OK <==> mem.failures == old(mem.failures)
      ensures old(iDivisor) != 0 ==> iDivisor != 0
      decreases iSize, if iDivisor == 0 then 2 else 0, 2
    {
      if iSize > NBIT && iDivisor != 0 {
        DivisorUsable(iSize);
        rc := SetInSub(i, mem);
        return;
      }
      if iSize <= NBIT {
        Bits.Set(aBitmap, i - 1);
        Contents := Contents + {i};
        return OK;
      }
      var h: nat := T.Home(i);
      if aHash[h] == 0 {
        if nSet < T.NINT - 1 {
          T.MissMeansAbsent(aHash[..], i, h);
          StoreInHash(i, h);
          return OK;
        }
      } else {
        var found;
        found, h := T.FindOrFree(aHash, i, nSet);
        if found {
          assert Contents == Contents + {i};
          return OK;
        }
      }
      if nSet >= T.MXHASH {
        T.ValuesAre(aHash[..], i);
        rc := Rehash(i, mem);
      } else {
        StoreInHash(i, h);
        rc := OK;
      }
    }

    /** The descent of sqlite3BitvecSet through one level of a split node. */
    method SetInSub(i: nat, mem: Allocator) returns (rc: nat)
      requires Valid() && mem !in Repr && iDivisor != 0
      requires 1 <= i <= iSize && iSize + NPTR - 1 < U32
      modifies Repr, mem
      ensures Valid() && mem !in Repr && fresh(Repr - old(Repr)) && iDivisor != 0
      ensures rc == OK ==> Contents == old(Contents) + {i}
      ensures rc != OK ==> rc == NOMEM && Contents <= old(Contents) + {i}
      ensures mem.failures >= old(mem.failures)
      ensures rc == OK <==> mem.failures == old(mem.failures)
      decreases iSize, 0, 1
    {
      BinInRange(i, iDivisor);
      var bin := Bin(i, iDivisor);
      if apSub[bin] == null {
        var ok := mem.Malloc();
        if !ok { return NOMEM; }
        AttachSub(bin);
      }
      rc := SetChild(i, mem);
    }

    /** Gives slot `bin` a new, empty sub-vector. */
    method AttachSub(bin: nat)
      requires Valid() && iDivisor != 0 && bin < NPTR && apSub[bin] == null
      modifies this`Repr, apSub
      ensures Valid() && iDivisor != 0 && apSub[bin] != null && fresh(Repr - old(Repr))
      ensures Contents == old(Contents)
    {
      var c := new Bitvec(iDivisor);
      apSub[bin] := c;
      Repr := Repr + c.Repr;
    }

    /** Everything Valid() says of a split node, except that sub-vector `bin` has just changed. */
    ghost predicate ValidBut(bin: nat)
      requires bin < NPTR
      reads *
    {
      && Shape()
      && iSize > NBIT && iDivisor == DivisorFor(iSize) && Usable(iSize)
      && |Parts| == NPTR
      && (forall b :: 0 <= b < NPTR && b != bin ==>
            if apSub[b] == null then Parts[b] == {}
            else apSub[b] in Repr && Owns(apSub[b], Parts[b]) && apSub[b].Valid())
      && (forall b, c :: 0 <= b < c < NPTR && apSub[b] != null && apSub[c] != null ==> apSub[b].Repr !! apSub[c].Repr)
      && var c := apSub[bin];
      && c != null && c in Repr && c.Valid() && c.iSize == iDivisor
      && this !in c.Repr && aBitmap !in c.Repr && aHash !in c.Repr && apSub !in c.Repr
    }

    /** Takes over what changed in sub-vector `bin`. */
    ghost method Absorb(bin: nat)
      requires bin < NPTR && ValidBut(bin)
      modifies `Repr, `Parts, `Contents
      ensures Valid()
      ensures Repr == old(Repr) + apSub[bin].Repr
      ensures Contents == Gather(old(Parts)[bin := apSub[bin].Contents], iDivisor, iSize)
    {
      Repr := Repr + apSub[bin].Repr;
      Parts := Parts[bin := apSub[bin].Contents];
      Contents := Gather(Parts, iDivisor, iSize);
    }

    method SetChild(i: nat, mem: Allocator) returns (rc: nat)
      requires Valid() && mem !in Repr && iDivisor != 0
      requires 1 <= i <= iSize && iSize + NPTR - 1 < U32
      requires Bin(i, iDivisor) < NPTR && apSub[Bin(i, iDivisor)] != null
      modifies Repr, mem
      ensures Valid() && mem !in Repr && fresh(Repr - old(Repr)) && iDivisor != 0
      ensures rc == OK ==> Contents == old(Contents) + {i}
      ensures rc != OK ==> rc == NOMEM && Contents <= old(Contents) + {i}
      ensures mem.failures >= old(mem.failures)
      ensures rc == OK <==> mem.failures == old(mem.failures)
      decreases iSize, 0, 0
    {
      var bin := Bin(i, iDivisor);
      var c := apSub[bin];
      rc := c.Set(Rest(i, iDivisor), mem);
      GatherUpdate(Parts, iDivisor, iSize, i, c.Contents);
      Absorb(bin);
    }

    /** Turns this node into a split node without sub-vectors. */
    method BecomeSplit()
      requires Valid() && HashForm() && iSize + NPTR - 1 < U32
      modifies this, apSub
      ensures Valid() && Repr == old(Repr) && iDivisor != 0 && Contents == {}
    {
      forall b | 0 <= b < NPTR { apSub[b] := null; }
      DivisorUsable(iSize);
      iDivisor := DivisorFor(iSize);
      Parts := seq(NPTR, _ => {});
      GatherNothing(Parts, iDivisor, iSize);
      Contents := {};
    }

    /** The bitvec_set_rehash branch: the full hash becomes a split node and every value is set again. */
    method Rehash(i: nat, mem: Allocator) returns (rc: nat)
      requires Valid() && HashForm() && mem !in Repr
      requires 1 <= i <= iSize && iSize + NPTR - 1 < U32
      modifies Repr, mem
      ensures Valid() && mem !in Repr && fresh(Repr - old(Repr))
      ensures rc == OK ==> Contents == old(Contents) + {i}
      ensures rc != OK ==> rc == NOMEM && Contents <= old(Contents) + {i}
      ensures mem.failures >= old(mem.failures)
      ensures rc == OK <==> mem.failures == old(mem.failures)
      decreases iSize, 1
    {
      var ok := mem.Malloc();
      if !ok { return NOMEM; }
      var aiValues := aHash[..];
      BecomeSplit();
      rc := Set(i, mem);
      for j := 0 to T.NINT
        invariant Valid() && mem !in Repr && fresh(Repr - old(Repr)) && iDivisor != 0
        invariant rc == OK ==> Contents == T.Values(aiValues[..j]) + {i}
        invariant rc != OK ==> rc == NOMEM && Contents <= T.Values(aiValues[..j]) + {i}
        invariant mem.failures >= old(mem.failures)
        invariant rc == OK <==> mem.failures == old(mem.failures)
      {
        T.ValuesSnoc(aiValues, j);
        if aiValues[j] != 0 {
          assert aiValues[j] in T.Values(aiValues);
          var r := Set(aiValues[j], mem);
          if r != OK { rc := r; }
        }
      }
      assert aiValues[..T.NINT] == aiValues;
    }

    /** sqlite3BitvecClear on an existing vector. */
    method Clear(i: nat)
      requires Valid() && 1 <= i <= iSize
      modifies Repr
      ensures Valid() && Repr == old(Repr) && Contents == old(Contents) - {i}
      decreases iSize
    {
      if iDivisor != 0 {
        BinInRange(i, iDivisor);
        if apSub[Bin(i, iDivisor)] == null {
          assert i !in Contents;
          return;
        }
        ClearChild(i);
      } else if iSize <= NBIT {
        Bits.Clear(aBitmap, i - 1);
        Contents := Contents - {i};
      } else {
        RebuildHashWithout(i);
      }
    }

    method ClearChild(i: nat)
      requires Valid() && iDivisor != 0 && 1 <= i <= iSize
      requires Bin(i, iDivisor) < NPTR && apSub[Bin(i, iDivisor)] != null
      modifies Repr
      ensures Valid() && Repr == old(Repr) && Contents == old(Contents) - {i}
      decreases iSize, 0
    {
      var bin := Bin(i, iDivisor);
      var c := apSub[bin];
      c.Clear(Rest(i, iDivisor));
      GatherUpdate(Parts, iDivisor, iSize, i, c.Contents);
      Absorb(bin);
    }

    /** Probing cannot skip holes, so the hash is emptied and every other value is stored again. */
    method RebuildHashWithout(i: nat)
      requires Valid() && HashForm() && i > 0
      modifies this, aHash
      ensures Valid() && Repr == old(Repr) && Contents == old(Contents) - {i}
    {
      var aiValues := aHash[..];
      forall k | 0 <= k < T.NINT { aHash[k] := 0; }
      nSet := 0;
      T.EmptyOk(aHash[..]);
      for j := 0 to T.NINT
        invariant T.Ok(aHash[..], nSet) && nSet <= T.Occupied(aiValues[..j])
        invariant T.Values(aHash[..]) == T.Values(aiValues[..j]) - {i}
        invariant iDivisor == old(iDivisor) && Contents == old(Contents) && Repr == old(Repr) && Parts == old(Parts)
      {
        T.ValuesSnoc(aiValues, j);
        T.OccupiedSnoc(aiValues, j);
        T.OccupiedPrefix(aiValues, j);
        if aiValues[j] != 0 && aiValues[j] != i {
          T.NotYetSeen(aiValues, j);
          var h := T.FindFree(aHash, aiValues[j], nSet);
          T.Store(aHash[..], nSet, aiValues[j], h);
          ghost var t := aHash[..];
          nSet := nSet + 1;
          aHash[h] := aiValues[j];
          assert aHash[..] == t[h := aiValues[j]];
        }
      }
      assert aiValues[..T.NINT] == aiValues;
      Contents := Contents - {i};
    }
  }

  /** The bits 1 to n. */
  ghost function FirstBits(n: nat): (s: set<nat>)
    ensures |s| == n && forall x :: x in s <==> 1 <= x <= n
  {
    if n == 0 then {} else FirstBits(n - 1) + {n}
  }

  /** The failing input, from a new vector: with the bits 1 to 62 set in order, bit 125 cannot be set. No allocation
      is needed on the way, so that only a failed one is excused. */
  method FillToOverflow(mem: Allocator) returns (v: Bitvec)
    modifies mem
    ensures fresh(v) && v.Valid() && v.iSize == U32 - 1
    ensures mem.failures == old(mem.failures) ==> !v.CanSet(125)
  {
    v := new Bitvec(U32 - 1);
    DivisorUsable(v.iSize);
    for i := 1 to T.MXHASH + 1
      invariant v.Valid() && mem !in v.Repr && fresh(v.Repr) && mem.failures == old(mem.failures)
      invariant v.Contents == FirstBits(i - 1)
    {
      HashOf(v, i);
      var rc := v.Set(i, mem);
      if rc != OK { return; }
    }
    HashOf(v, T.MXHASH + 1);
  }

  /** A vector of a size with a wrapped divisor that holds 1 to i-1 is still a hash with that many values, the first
      of them in its home slot. */
  lemma HashOf(v: Bitvec, i: nat)
    requires v.Valid() && v.iSize == U32 - 1 && 1 <= i <= T.MXHASH + 1 && v.Contents == FirstBits(i - 1)
    ensures v.iDivisor == 0 && v.nSet == i - 1 && (i <= T.MXHASH ==> v.CanSet(i))
    ensures i == T.MXHASH + 1 ==> !v.CanSet(125)
  {
    DivisorUsable(v.iSize);
    HashOverflow.DistinctCount(v.aHash[..]);
    if i == T.MXHASH + 1 {
      T.ValuesAre(v.aHash[..], 1);
      T.ValuesAre(v.aHash[..], 125);
      var p: nat :| p < T.NINT && v.aHash[..][p] == 1;
      assert T.NoGap(v.aHash[..], 1, p) && T.Home(1) == T.Home(125) == 0;
      assert v.aHash[..][0] != 0;
    }
  }

  /** No path through sub-vectors is longer than n. */
  ghost predicate NoDeeper(v: Bitvec, n: nat)
    requires v.Valid()
    reads v, v.Repr
    decreases v.iSize
  {
    v.iDivisor != 0 ==>
      n > 0 && forall b :: 0 <= b < NPTR && v.apSub[b] != null ==> NoDeeper(v.apSub[b], n - 1)
  }

  lemma {:induction false} DepthBounds(v: Bitvec, n: nat)
    requires v.Valid() && (v.iDivisor != 0 ==> v.iSize + NPTR - 1 < U32 && Depth(v.iSize) <= n)
    ensures NoDeeper(v, n)
    decreases v.iSize
  {
    if v.iDivisor != 0 {
      DepthStep(v.iSize);
      forall b | 0 <= b < NPTR && v.apSub[b] != null ensures NoDeeper(v.apSub[b], n - 1) {
        DepthBounds(v.apSub[b], n - 1);
      }
    }
  }

  /** No vector, however it was filled, is more than four sub-vectors deep, so that Test, Set and Clear descend at
      most four times. */
  lemma AtMostFourDeep(v: Bitvec)
    requires v.Valid()
    ensures NoDeeper(v, 4)
  {
    if v.iDivisor != 0 {
      DivisorUsable(v.iSize);
      AtMostFourDescents(v.iSize);
    }
    DepthBounds(v, 4);
  }

  /** sqlite3BitvecTest: membership, and false for a null vector or an index out of range, after at most four
      descents. */
  method Test(p: Bitvec?, i: nat) returns (bit: bool, ghost descents: nat)
    requires p != null ==> p.Valid()
    ensures bit <==> p != null && i in p.Contents
    ensures descents <= 4
  {
    descents := 0;
    if p == null { return false, 0; }
    if i > p.iSize || i == 0 { return false, 0; }
    AtMostFourDeep(p);
    var q: Bitvec := p;
    var k: nat := i;
    while q.iDivisor != 0
      invariant q.Valid() && 1 <= k <= q.iSize && descents <= 4 && NoDeeper(q, 4 - descents)
      invariant i in p.Contents <==> k in q.Contents
      decreases q.iSize
    {
      BinInRange(k, q.iDivisor);
      var c := q.apSub[Bin(k, q.iDivisor)];
      k := Rest(k, q.iDivisor);
      descents := descents + 1;
      if c == null { return false, descents; }
      q := c;
    }
    if q.iSize <= NBIT {
      bit := Bits.Test(q.aBitmap, k - 1);
    } else {
      bit := T.Find(q.aHash, k, q.nSet);
    }
  }

  /** sqlite3BitvecSet and sqlite3BitvecClear accept a null vector and then do nothing. */
  method SetBit(p: Bitvec?, i: nat, mem: Allocator) returns (rc: nat)
    requires p != null ==> p.Valid() && mem !in p.Repr && 1 <= i <= p.iSize && p.CanSet(i)
    modifies (if p == null then {} else p.Repr), mem
    ensures p == null ==> rc == OK
    ensures p != null ==> p.Valid() && mem !in p.Repr && fresh(p.Repr - old(p.Repr))
    ensures p != null && rc == OK ==> p.Contents == old(p.Contents) + {i}
    ensures p != null && rc != OK ==> rc == NOMEM && p.Contents <= old(p.Contents) + {i}
    ensures mem.failures >= old(mem.failures)
    ensures rc == OK <==> mem.failures == old(mem.failures)
  {
    if p == null { return OK; }
    rc := p.Set(i, mem);
  }

  method ClearBit(p: Bitvec?, i: nat)
    requires p != null ==> p.Valid() && 1 <= i <= p.iSize
    modifies if p == null then {} else p.Repr
    ensures p != null ==> p.Valid() && p.Repr == old(p.Repr) && p.Contents == old(p.Contents) - {i}
  {
    if p == null { return; }
    p.Clear(i);
  }

  /** Words an instruction of the built-in test occupies. */
  function Width(op: int): nat {
    if op == 1 || op == 2 || op == 5 then 4 else 2
  }

  /** From pc on, the program is a sequence of complete instructions up to a halt; opcode 5 occurs only if allowed. */
  ghost predicate Program(ops: seq<int>, pc: nat, faults: bool)
    decreases |ops| - pc
  {
    && pc < |ops|
    && (ops[pc] != 0 ==>
          && (ops[pc] == 5 ==> faults)
          && pc + Width(ops[pc]) < |ops|
          && Program(ops, pc + Width(ops[pc]), faults))
  }

  /** An executed operation: its opcode and the bit it works on. */
  datatype Done = Done(op: int, bit: nat)

  /** The bit that a number from the program stands for. */
  function BitOf(word: int, sz: nat): nat
    requires sz > 0
  {
    (word - 1) % 0x8000_0000 % sz + 1
  }

  /** How often an instruction is executed. */
  function Times(count: int): (n: nat)
    ensures n > 0
  {
    if count > 1 then count else 1
  }

  /** The opcode over and over; if it is addressed, on the bits first, first+step, first+2*step and so on. */
  ghost predicate Repeats(op: int, addressed: bool, first: int, step: int, sz: nat, part: seq<Done>)
    requires sz > 0
  {
    forall j :: 0 <= j < |part| ==>
      part[j].op == op && 1 <= part[j].bit <= sz && (addressed ==> part[j].bit == BitOf(first + j * step, sz))
  }

  /** One instruction executes this part of a trace. */
  ghost predicate Instruction(ops: seq<int>, pc: nat, sz: nat, part: seq<Done>)
    requires sz > 0 && pc < |ops| && pc + Width(ops[pc]) <= |ops|
  {
    if Width(ops[pc]) == 4 then Repeats(ops[pc], true, ops[pc+2], ops[pc+3], sz, part)
    else Repeats(ops[pc], false, 0, 0, sz, part)
  }

  /** From pc on, the program executes this trace: each instruction N times, at least once; opcodes 1, 2 and 5 on the
      bits S, S+X, S+2X and so on, the others on any bits. */
  ghost predicate Executes(ops: seq<int>, pc: nat, sz: nat, trace: seq<Done>)
    requires sz > 0 && Program(ops, pc, true)
    decreases |ops| - pc
  {
    if ops[pc] == 0 then trace == []
    else
      var n, w := Times(ops[pc+1]), Width(ops[pc]);
      && n <= |trace| && Instruction(ops, pc, sz, trace[..n])
      && Executes(ops, pc + w, sz, trace[n..])
  }

  /** The bits that a trace leaves set, in the vector or in the plain array; opcode 5 passes the vector by. */
  ghost function Marks(trace: seq<Done>, inVector: bool): set<nat> {
    if trace == [] then {}
    else
      var was, d := Marks(trace[..|trace|-1], inVector), trace[|trace|-1];
      if d.op == 5 && inVector then was else if d.op % 2 != 0 then was + {d.bit} else was - {d.bit}
  }

  /** 0, or the first bit on which the two differ after the trace. */
  ghost predicate FirstDifference(trace: seq<Done>, sz: nat, rc: int) {
    var v, a := Marks(trace, true), Marks(trace, false);
    && 0 <= rc <= sz
    && (forall x :: 1 <= x <= sz && (rc == 0 || x < rc) ==> (x in v <==> x in a))
    && (rc != 0 ==> !(rc in v <==> rc in a))
  }

  lemma {:induction false} ProgramKept(ops: seq<int>, now: seq<int>, pc: nat, faults: bool)
    requires |ops| == |now| && pc <= |ops| && ops[pc..] == now[pc..]
    requires Program(ops, pc, faults)
    ensures Program(now, pc, faults)
    decreases |ops| - pc
  {
    assert now[pc] == now[pc..][0] == ops[pc..][0];
    var w := Width(ops[pc]);
    if ops[pc] != 0 {
      assert ops[pc..][w..] == ops[pc + w..] && now[pc..][w..] == now[pc + w..];
      ProgramKept(ops, now, pc + w, faults);
    }
  }

  /** What reading the instruction at pc changes: its counter, its next bit, and the position. */
  ghost predicate Decoded(was: seq<int>, now: seq<int>, pc: nat, sz: nat, next: nat, bit: nat)
    requires sz > 0 && pc < |was|
  {
    var w := Width(was[pc]);
    && pc + w < |was| == |now| && 1 <= bit <= sz && was[pc] != 0 && now[pc] == was[pc] && now[pc+1] == was[pc+1] - 1
    && (w == 4 ==> bit == BitOf(was[pc+2], sz) && now[pc+2] == was[pc+2] + was[pc+3] && now[pc+3] == was[pc+3])
    && now[pc+w..] == was[pc+w..]
    && next == if now[pc+1] > 0 then pc else pc + w
  }

  lemma {:induction false} AnyProgram(ops: seq<int>, pc: nat, faults: bool)
    requires Program(ops, pc, faults)
    ensures Program(ops, pc, true)
    decreases |ops| - pc
  {
    if ops[pc] != 0 {
      AnyProgram(ops, pc + Width(ops[pc]), faults);
    }
  }

  lemma {:induction false} ExecutesKept(was: seq<int>, now: seq<int>, pc: nat, sz: nat, trace: seq<Done>)
    requires |was| == |now| && pc <= |was| && was[pc..] == now[pc..] && sz > 0
    requires Program(now, pc, true) && Program(was, pc, true) && Executes(now, pc, sz, trace)
    ensures Executes(was, pc, sz, trace)
    decreases |was| - pc
  {
    forall k | pc <= k < |was| ensures was[k] == now[k] { assert was[pc..][k-pc] == now[pc..][k-pc]; }
    if was[pc] != 0 {
      var n, w := Times(was[pc+1]), Width(was[pc]);
      assert was[pc+w..] == was[pc..][w..] && now[pc+w..] == now[pc..][w..];
      ExecutesKept(was, now, pc + w, sz, trace[n..]);
    }
  }

  /** One decoded operation and what the changed program executes is what the program executes. */
  lemma ExecutesStep(was: seq<int>, now: seq<int>, pc: nat, sz: nat, next: nat, bit: nat, trace: seq<Done>)
    requires sz > 0 && Program(was, pc, true) && Decoded(was, now, pc, sz, next, bit)
    requires Program(now, next, true) && Executes(now, next, sz, trace)
    ensures Executes(was, pc, sz, [Done(was[pc], bit)] + trace)
  {
    hide Executes, Instruction, BitOf;
    DecodedProgram(was, now, pc, sz, next, bit);
    var w, n, d := Width(was[pc]), Times(was[pc+1]), Done(was[pc], bit);
    hide Program, Times, Decoded, Width;
    if next == pc { ExecutesIs(now, pc, sz, trace); }
    Prefixed(d, trace, n);
    var part, rest := trace[..n-1], trace[n-1..];
    InstructionStep(was, now, pc, sz, next, bit, part);
    ExecutesKept(was, now, pc + w, sz, rest);
    ExecutesIs(was, pc, sz, [d] + trace);
  }

  lemma Prefixed(d: Done, trace: seq<Done>, n: nat)
    requires 1 <= n <= |trace| + 1
    ensures ([d] + trace)[..n] == [d] + trace[..n-1] && ([d] + trace)[n..] == trace[n-1..]
    ensures n == 1 ==> trace[..n-1] == [] && trace[n-1..] == trace
  {
  }

  lemma DecodedProgram(was: seq<int>, now: seq<int>, pc: nat, sz: nat, next: nat, bit: nat)
    requires sz > 0 && Program(was, pc, true) && Decoded(was, now, pc, sz, next, bit)
    ensures var w := Width(was[pc]);
      && pc + w < |was| == |now| && was[pc] == now[pc] != 0 && was[pc+w..] == now[pc+w..]
      && Program(was, pc + w, true) && Program(now, pc + w, true)
      && (if next == pc then Program(now, pc, true) && Times(now[pc+1]) == Times(was[pc+1]) - 1
          else next == pc + w && Times(was[pc+1]) == 1)
  {
    ProgramKept(was, now, pc + Width(was[pc]), true);
    hide BitOf;
  }

  lemma ExecutesIs(ops: seq<int>, pc: nat, sz: nat, trace: seq<Done>)
    requires sz > 0 && Program(ops, pc, true) && ops[pc] != 0 && Program(ops, pc + Width(ops[pc]), true)
    ensures pc + Width(ops[pc]) < |ops|
    ensures var n := Times(ops[pc+1]);
      Executes(ops, pc, sz, trace) <==>
        n <= |trace| && Instruction(ops, pc, sz, trace[..n]) && Executes(ops, pc + Width(ops[pc]), sz, trace[n..])
  {
    hide Instruction;
  }

  lemma InstructionStep(was: seq<int>, now: seq<int>, pc: nat, sz: nat, next: nat, bit: nat, part: seq<Done>)
    requires sz > 0 && pc < |was| && Decoded(was, now, pc, sz, next, bit)
    requires part == [] || Instruction(now, pc, sz, part)
    ensures Instruction(was, pc, sz, [Done(was[pc], bit)] + part)
  {
    if Width(was[pc]) == 4 {
      RepeatsStep(was[pc], true, was[pc+2], was[pc+3], sz, bit, part);
    } else {
      RepeatsStep(was[pc], false, 0, 0, sz, bit, part);
    }
    hide Repeats;
  }

  lemma RepeatsStep(op: int, addressed: bool, first: int, step: int, sz: nat, bit: nat, part: seq<Done>)
    requires sz > 0 && 1 <= bit <= sz && (addressed ==> bit == BitOf(first, sz))
    requires Repeats(op, addressed, first + step, step, sz, part)
    ensures Repeats(op, addressed, first, step, sz, [Done(op, bit)] + part)
  {
    var all := [Done(op, bit)] + part;
    forall j | 0 < j < |all| ensures all[j] == part[j-1] && first + step + (j - 1) * step == first + j * step {}
    assert first + 0 * step == first;
    hide BitOf;
  }

  /** Reads the instruction at pc, steps its counter, and picks the 0-based bit it works on. */
  method Decode(aOp: array<int>, pc: nat, sz: nat, ghost faults: bool) returns (next: nat, i: nat)
    requires Program(aOp[..], pc, faults) && aOp[pc] != 0 && sz > 0
    modifies aOp
    ensures Program(aOp[..], next, faults) && i < sz
    ensures next > pc || (next == pc && 0 < aOp[pc + 1] < old(aOp[pc + 1]))
    ensures Decoded(old(aOp[..]), aOp[..], pc, sz, next, i + 1)
  {
    ghost var ops := aOp[..];
    var op := aOp[pc];
    var nx := Width(op);
    var word: int;
    if op == 1 || op == 2 || op == 5 {
      word := aOp[pc + 2] - 1;
      aOp[pc + 2] := aOp[pc + 2] + aOp[pc + 3];
    } else {
      word := *;
    }
    aOp[pc + 1] := aOp[pc + 1] - 1;
    ProgramKept(ops, aOp[..], pc + nx, faults);
    if aOp[pc + 1] > 0 { nx := 0; }
    next := pc + nx;
    i := (word % 0x8000_0000) % sz;
  }

  ghost predicate SameBits(v: Bitvec, bits: seq<bv8>)
    reads v
  {
    forall x :: 1 <= x <= v.iSize ==> (x in v.Contents <==> Bits.BitAt(bits, x))
  }

  /** Executes one decoded instruction on the vector and on the plain bit array. */
  method Apply(op: int, i: nat, v: Bitvec, pV: array<bv8>, mem: Allocator) returns (rc: nat)
    requires v.Valid() && pV !in v.Repr && mem !in v.Repr
    requires 1 <= i <= v.iSize < Bits.SZELEM * pV.Length && v.iSize + NPTR - 1 < U32
    modifies v.Repr, pV, mem
    ensures v.Valid() && fresh(v.Repr - old(v.Repr)) && mem !in v.Repr
    ensures mem.failures >= old(mem.failures)
    ensures rc == OK <==> mem.failures == old(mem.failures)
    ensures forall j: nat :: Bits.BitAt(pV[..], j) <==> if j == i then op % 2 != 0 else Bits.BitAt(old(pV[..]), j)
    ensures rc == OK ==>
      v.Contents == if op == 5 then old(v.Contents) else if op % 2 != 0 then old(v.Contents) + {i}
        else old(v.Contents) - {i}
    ensures rc == OK && op != 5 && old(SameBits(v, pV[..])) ==> SameBits(v, pV[..])
  {
    if op % 2 != 0 {
      Bits.Set(pV, i);
      rc := OK;
      if op != 5 {
        rc := SetBit(v, i, mem);
      }
    } else {
      Bits.Clear(pV, i);
      ClearBit(v, i);
      rc := OK;
    }
  }

  /** The closing comparison: 0, or the first bit on which the two disagree. */
  method Compare(sz: nat, v: Bitvec, pV: array<bv8>) returns (rc: int)
    requires v.Valid() && v.iSize == sz && sz < Bits.SZELEM * pV.Length
    ensures 0 <= rc <= sz
    ensures rc == 0 <==> SameBits(v, pV[..])
    ensures rc != 0 ==> !(rc in v.Contents <==> Bits.BitAt(pV[..], rc))
    ensures forall x :: 1 <= x < rc ==> (x in v.Contents <==> Bits.BitAt(pV[..], x))
  {
    var t0, _ := Test(null, 0);
    var t1, _ := Test(v, sz + 1);
    var t2, _ := Test(v, 0);
    rc := (if t0 then 1 else 0) + (if t1 then 1 else 0) + (if t2 then 1 else 0) + (v.iSize - sz);
    for i := 1 to sz + 1
      invariant rc == 0
      invariant forall x :: 1 <= x < i ==> (x in v.Contents <==> Bits.BitAt(pV[..], x))
    {
      var inArray := Bits.Test(pV, i);
      var inVector, _ := Test(v, i);
      if inArray != inVector {
        return i;
      }
    }
  }

  /** The vector and the array hold what the trace has left set, and the rest of the program is still to come. */
  ghost predicate Follows(ops: seq<int>, now: seq<int>, pc: nat, sz: nat, trace: seq<Done>)
    requires sz > 0 && Program(ops, 0, true) && Program(now, pc, true)
  {
    forall more :: Executes(now, pc, sz, more) ==> Executes(ops, 0, sz, trace + more)
  }

  lemma FollowsStep(ops: seq<int>, was: seq<int>, now: seq<int>, pc: nat, sz: nat, next: nat, bit: nat,
                    trace: seq<Done>)
    requires sz > 0 && Program(ops, 0, true) && Program(was, pc, true) && Program(now, next, true)
    requires Follows(ops, was, pc, sz, trace) && Decoded(was, now, pc, sz, next, bit)
    ensures Follows(ops, now, next, sz, trace + [Done(was[pc], bit)])
  {
    var d := Done(was[pc], bit);
    hide Executes, Program, Decoded;
    forall more | Executes(now, next, sz, more) ensures Executes(ops, 0, sz, trace + [d] + more) {
      ExecutesStep(was, now, pc, sz, next, bit, more);
      assert trace + ([d] + more) == trace + [d] + more;
    }
  }

  /** What a trace leaves set, bit by bit. */
  ghost predicate Holds(trace: seq<Done>, contents: set<nat>, bits: seq<bv8>) {
    && Marks(trace, true) == contents
    && forall x: nat :: Bits.BitAt(bits, x) <==> x in Marks(trace, false)
  }

  lemma MarksStep(trace: seq<Done>, d: Done, inVector: bool)
    ensures Marks(trace + [d], inVector) ==
      var was := Marks(trace, inVector);
      if d.op == 5 && inVector then was else if d.op % 2 != 0 then was + {d.bit} else was - {d.bit}
  {
    assert (trace + [d])[..|trace|] == trace;
  }

  lemma {:induction false} NoFaultsSame(trace: seq<Done>)
    requires forall k :: 0 <= k < |trace| ==> trace[k].op != 5
    ensures Marks(trace, true) == Marks(trace, false)
  {
    if trace != [] {
      NoFaultsSame(trace[..|trace|-1]);
    }
  }

  /** The interpreter loop of the built-in test, followed by the comparison. */
  method Run(sz: nat, aOp: array<int>, ghost faults: bool, v: Bitvec, pV: array<bv8>, mem: Allocator)
    returns (rc: int, ghost trace: seq<Done>)
    requires 1 <= sz < 0x8000_0000 && sz < Bits.SZELEM * pV.Length
    requires Program(aOp[..], 0, faults) && Program(aOp[..], 0, true)
    requires v.Valid() && v.iSize == sz && pV !in v.Repr && mem !in v.Repr && aOp !in v.Repr
    requires Holds([], v.Contents, pV[..]) && aOp as object != pV
    modifies aOp, v.Repr, pV, mem
    ensures mem.failures >= old(mem.failures)
    ensures rc == -1 <==> mem.failures != old(mem.failures)
    ensures rc != -1 ==> Executes(old(aOp[..]), 0, sz, trace) && FirstDifference(trace, sz, rc)
    ensures !faults && mem.failures == old(mem.failures) ==> rc == 0
    ensures -1 <= rc <= sz
  {
    hide Bitvec.Valid, Program, Executes, Follows, Holds, Marks, Bits.BitAt, FirstDifference;
    trace := [];
    ghost var ops := aOp[..];
    NothingDone(ops, sz);
    var pc: nat := 0;
    StillRuns(aOp[..], pc, faults);
    while aOp[pc] != 0
      invariant Program(aOp[..], pc, faults) && Program(aOp[..], pc, true) && pc < aOp.Length
      invariant v.Valid() && fresh(v.Repr - old(v.Repr)) && Follows(ops, aOp[..], pc, sz, trace)
      invariant pV !in v.Repr && mem !in v.Repr && aOp !in v.Repr
      invariant mem.failures == old(mem.failures)
      invariant Holds(trace, v.Contents, pV[..])
      invariant !faults ==> forall k :: 0 <= k < |trace| ==> trace[k].op != 5
      decreases aOp.Length - pc, if pc + 1 < aOp.Length then aOp[pc + 1] else 0
    {
      var op := aOp[pc];
      StillRuns(aOp[..], pc, faults);
      ghost var was, at := aOp[..], pc;
      var i;
      pc, i := Decode(aOp, pc, sz, faults);
      AnyProgram(aOp[..], pc, faults);
      FollowsStep(ops, was, aOp[..], at, sz, pc, i + 1, trace);
      StillRuns(aOp[..], pc, faults);
      ghost var contents, bits := v.Contents, pV[..];
      var r := Apply(op, i + 1, v, pV, mem);
      if r != OK { return -1, trace; }
      HoldsStep(trace, op, i + 1, contents, bits, v.Contents, pV[..]);
      trace := trace + [Done(op, i + 1)];
    }
    Halted(ops, aOp[..], pc, sz, trace);
    rc := Compare(sz, v, pV);
    Compared(trace, sz, v.Contents, pV[..], rc);
    if !faults { NoFaultsSame(trace); Same(trace, sz, rc); }
  }

  lemma NothingDone(ops: seq<int>, sz: nat)
    requires sz > 0 && Program(ops, 0, true)
    ensures Follows(ops, ops, 0, sz, [])
  {
    forall more | Executes(ops, 0, sz, more) ensures Executes(ops, 0, sz, [] + more) { assert [] + more == more; }
  }

  lemma StillRuns(ops: seq<int>, pc: nat, faults: bool)
    requires Program(ops, pc, faults)
    ensures pc < |ops| && (ops[pc] == 5 ==> faults)
  {
  }

  lemma HoldsStep(trace: seq<Done>, op: int, bit: nat, contents: set<nat>, bits: seq<bv8>, contents': set<nat>,
                  bits': seq<bv8>)
    requires Holds(trace, contents, bits)
    requires contents' == if op == 5 then contents else if op % 2 != 0 then contents + {bit} else contents - {bit}
    requires forall j: nat :: Bits.BitAt(bits', j) <==> if j == bit then op % 2 != 0 else Bits.BitAt(bits, j)
    ensures Holds(trace + [Done(op, bit)], contents', bits')
  {
    MarksStep(trace, Done(op, bit), true);
    MarksStep(trace, Done(op, bit), false);
    hide Marks, Bits.BitAt;
  }

  lemma Halted(ops: seq<int>, now: seq<int>, pc: nat, sz: nat, trace: seq<Done>)
    requires sz > 0 && Program(ops, 0, true) && Program(now, pc, true) && now[pc] == 0
    requires Follows(ops, now, pc, sz, trace)
    ensures Executes(ops, 0, sz, trace)
  {
    assert Executes(now, pc, sz, []) && trace + [] == trace;
  }

  lemma Compared(trace: seq<Done>, sz: nat, contents: set<nat>, bits: seq<bv8>, rc: int)
    requires Holds(trace, contents, bits) && 0 <= rc <= sz
    requires rc == 0 ==> forall x :: 1 <= x <= sz ==> (x in contents <==> Bits.BitAt(bits, x))
    requires rc != 0 ==> !(rc in contents <==> Bits.BitAt(bits, rc))
    requires forall x :: 1 <= x < rc ==> (x in contents <==> Bits.BitAt(bits, x))
    ensures FirstDifference(trace, sz, rc)
  {
    hide Marks, Bits.BitAt;
  }

  lemma Same(trace: seq<Done>, sz: nat, rc: int)
    requires FirstDifference(trace, sz, rc) && Marks(trace, true) == Marks(trace, false)
    ensures rc == 0
  {
  }

  /** sqlite3BitvecBuiltinTest: runs the program on a vector and on a plain bit array and compares them.
      It reports -1 exactly when memory ran out, and otherwise the first bit on which the executed operations leave the
      two different; so 0 for every program that plants no fault. */
  method BuiltinTest(sz: nat, aOp: array<int>, ghost faults: bool, mem: Allocator)
    returns (rc: int, ghost trace: seq<Done>)
    requires 1 <= sz < 0x8000_0000
    requires Program(aOp[..], 0, faults)
    modifies aOp, mem
    ensures rc == -1 <==> mem.failures != old(mem.failures)
    ensures Program(old(aOp[..]), 0, true)
    ensures rc != -1 ==> Executes(old(aOp[..]), 0, sz, trace) && FirstDifference(trace, sz, rc)
    ensures !faults && mem.failures == old(mem.failures) ==> rc == 0
    ensures -1 <= rc <= sz
  {
    hide SameBits, Bitvec.Valid, Program, Executes, FirstDifference, Holds;
    AnyProgram(aOp[..], 0, faults);
    trace := [];
    var ok1 := mem.Malloc();
    var ok2 := mem.Malloc();
    var ok3 := mem.Malloc();
    if !ok1 || !ok2 || !ok3 { return -1, []; }
    var v := new Bitvec(sz);
    var pV := new bv8[(sz + 7) / 8 + 1](_ => 0);
    var nothing := SetBit(null, 1, mem);
    ClearBit(null, 1);
    NoBits(v, pV[..]);
    assert v.iSize == sz < Bits.SZELEM * pV.Length;
    rc, trace := Run(sz, aOp, faults, v, pV, mem);
  }

  lemma OneFault(s: nat, x: int, sz: nat, trace: seq<Done>)
    requires 1 <= s <= sz < 0x8000_0000 && Program([5, 1, s, x, 0], 0, true)
    requires Executes([5, 1, s, x, 0], 0, sz, trace)
    ensures trace == [Done(5, s)]
  {
    var ops := [5, 1, s, x, 0];
    InstructionOnly(ops, sz, trace);
    hide Executes, Program, BitOf;
    assert trace[..1][0] == trace[0];
    assert trace[0].bit == BitOf(s + 0 * x, sz) && s + 0 * x == s;
    BitInRange(s, sz);
  }

  lemma BitInRange(s: nat, sz: nat)
    requires 1 <= s <= sz < 0x8000_0000
    ensures BitOf(s, sz) == s
  {
    SmallMod(s - 1, sz);
  }

  /** A program of one addressed instruction, executed once. */
  lemma InstructionOnly(ops: seq<int>, sz: nat, trace: seq<Done>)
    requires sz > 0 && |ops| == 5 && ops[0] == 5 && ops[1] == 1 && ops[4] == 0 && Program(ops, 0, true)
    requires Executes(ops, 0, sz, trace)
    ensures |trace| == 1 && Repeats(5, true, ops[2], ops[3], sz, trace[..1])
  {
    hide Repeats;
    assert Executes(ops, 4, sz, trace[1..]);
  }

  /** The fault that a single opcode 5 plants is found where it is, and nothing else is reported. */
  lemma PlantedFaultFound(s: nat, x: int, sz: nat)
    requires 1 <= s <= sz < 0x8000_0000
    ensures Program([5, 1, s, x, 0], 0, true)
    ensures forall trace, rc :: Executes([5, 1, s, x, 0], 0, sz, trace) && FirstDifference(trace, sz, rc) ==> rc == s
  {
    var ops := [5, 1, s, x, 0];
    assert Program(ops, 4, true);
    forall trace, rc | Executes(ops, 0, sz, trace) && FirstDifference(trace, sz, rc) ensures rc == s {
      hide Executes, BitOf, Program;
      OneFault(s, x, sz, trace);
      MarksStep([], Done(5, s), true);
      MarksStep([], Done(5, s), false);
      assert [] + [Done(5, s)] == trace;
    }
  }

  lemma NoBits(v: Bitvec, bits: seq<bv8>)
    requires v.Contents == {} && forall k :: 0 <= k < |bits| ==> bits[k] == 0
    ensures Holds([], v.Contents, bits)
  {
  }
}
