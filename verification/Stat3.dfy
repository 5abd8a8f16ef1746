/** src/analyze.c: the bounded streaming sampler behind sqlite_stat3. */
module Stat3 {
  import opened CBasics
  import opened Division

  datatype Sample = Sample(iRowid: int, nEq: nat, nLt: nat, nDLt: nat, isPSample: bool, iHash: nat)

  /** Eviction order of samples: fewer equal rows first, the hash breaks ties. */
  predicate Leq(s: Sample, t: Sample) {
    s.nEq < t.nEq || (s.nEq == t.nEq && s.iHash <= t.iHash)
  }

  function PeriodicCount(s: seq<Sample>): (n: nat)
    ensures n <= |s|
  {
    if s == [] then 0 else PeriodicCount(s[..|s|-1]) + if s[|s|-1].isPSample then 1 else 0
  }

  lemma PeriodicSnoc(s: seq<Sample>, x: Sample)
    ensures PeriodicCount(s + [x]) == PeriodicCount(s) + if x.isPSample then 1 else 0
  {
  }

  lemma {:induction false} PeriodicDrop(s: seq<Sample>, k: nat)
    requires k < |s| && !s[k].isPSample
    ensures PeriodicCount(s[..k] + s[k+1..]) == PeriodicCount(s)
  {
    var last := |s| - 1;
    if k == last {
      assert s[..k] + s[k+1..] == s[..last];
    } else {
      assert (s[..k] + s[k+1..])[..last-1] == s[..last][..k] + s[..last][k+1..];
      PeriodicDrop(s[..last], k);
    }
  }

  lemma {:induction false} NotAllPeriodic(s: seq<Sample>)
    requires PeriodicCount(s) < |s|
    ensures exists k :: 0 <= k < |s| && !s[k].isPSample
  {
    if s[|s|-1].isPSample {
      NotAllPeriodic(s[..|s|-1]);
      var k :| 0 <= k < |s| - 1 && !s[..|s|-1][k].isPSample;
      assert !s[k].isPSample;
    }
  }

  /** How often a periodic sample is due. */
  function Period(nRow: nat, mxSample: nat): (p: nat)
    ensures p > 0
  {
    nRow / (mxSample / 3 + 1) + 1
  }

  lemma PeriodBound(nRow: nat, mxSample: nat)
    ensures nRow / Period(nRow, mxSample) <= mxSample / 3
  {
    var q := mxSample / 3 + 1;
    var p := Period(nRow, mxSample);
    assert nRow < q * p by {
      assert nRow == q * (nRow / q) + nRow % q;
      assert q * p == q * (nRow / q) + q;
    }
    DivBelow(nRow, p, q);
  }

  /** With period p at most a third of the slots are due for periodic samples. */
  predicate WithinThird(nRow: nat, mxSample: nat, p: nat)
    requires p > 0
  {
    nRow / p <= mxSample / 3
  }

  /** The period is the least one that leaves two thirds of the slots free, so that periodic samples are taken as
      often as they can be. */
  lemma PeriodIsLeast(nRow: nat, mxSample: nat, p: nat)
    requires p > 0
    ensures WithinThird(nRow, mxSample, p) <==> Period(nRow, mxSample) <= p
  {
    var q: nat, least := mxSample / 3 + 1, Period(nRow, mxSample);
    PeriodBound(nRow, mxSample);
    if p < least {
      QuotientBounds(nRow, q);
      MulMonotone(p, nRow / q, q);
      PassesMultiple(0, nRow, p, q);
    } else {
      DivAntitone(nRow, least, p);
    }
  }

  /** At most a third of the slots can ever be taken by periodic samples. */
  lemma AtMostAThird(count: nat, end: nat, nRow: nat, mxSample: nat)
    requires end <= nRow && Budget(count, end, Period(nRow, mxSample))
    ensures count <= mxSample / 3
  {
    DivMonotone(end, nRow, Period(nRow, mxSample));
    PeriodBound(nRow, mxSample);
  }

  /** The kept runs are non-empty, disjoint, in increasing nLt order and end by `end`. */
  ghost predicate Ordered(kept: seq<Sample>, end: nat) {
    && (forall i :: 0 <= i < |kept| ==> kept[i].nEq > 0 && kept[i].nLt + kept[i].nEq <= end)
    && (forall i, j :: 0 <= i < j < |kept| ==> kept[i].nLt + kept[i].nEq <= kept[j].nLt)
  }

  /** No periodic sample was discarded, and no discarded sample beats a kept non-periodic one. */
  ghost predicate NoneBetter(kept: seq<Sample>, discarded: multiset<Sample>) {
    && (forall d :: d in discarded ==> !d.isPSample)
    && (forall d, k :: d in discarded && 0 <= k < |kept| && !kept[k].isPSample ==> Leq(d, kept[k]))
  }

  /** The table holds as many of the pushes as fit, and the best of them. */
  ghost predicate KeepsBest(kept: seq<Sample>, pushed: seq<Sample>, discarded: multiset<Sample>, mxSample: nat) {
    && multiset(pushed) == multiset(kept) + discarded
    && |kept| == (if |pushed| < mxSample then |pushed| else mxSample)
    && (|kept| < mxSample ==> discarded == multiset{})
    && NoneBetter(kept, discarded)
  }

  ghost predicate LeastNonPeriodic(kept: seq<Sample>, m: nat) {
    && m < |kept| && !kept[m].isPSample
    && forall k :: 0 <= k < |kept| && !kept[k].isPSample ==> Leq(kept[m], kept[k])
  }

  function Without(kept: seq<Sample>, m: nat): seq<Sample>
    requires m < |kept|
  {
    kept[..m] + kept[m+1..]
  }

  lemma WithoutMultiset(kept: seq<Sample>, m: nat)
    requires m < |kept|
    ensures multiset(kept) == multiset(Without(kept, m)) + multiset{kept[m]}
  {
    assert kept == kept[..m] + [kept[m]] + kept[m+1..];
  }

  lemma AppendKeeps(kept: seq<Sample>, pushed: seq<Sample>, mxSample: nat, s: Sample)
    requires KeepsBest(kept, pushed, multiset{}, mxSample) && |kept| < mxSample
    ensures KeepsBest(kept + [s], pushed + [s], multiset{}, mxSample)
  {
  }

  lemma ReplaceKeeps(kept: seq<Sample>, pushed: seq<Sample>, discarded: multiset<Sample>, m: nat, s: Sample)
    requires KeepsBest(kept, pushed, discarded, |kept|) && LeastNonPeriodic(kept, m)
    requires s.isPSample || Leq(kept[m], s)
    ensures KeepsBest(Without(kept, m) + [s], pushed + [s], discarded + multiset{kept[m]}, |kept|)
  {
    WithoutMultiset(kept, m);
    var now, out := Without(kept, m) + [s], discarded + multiset{kept[m]};
    forall d, k | d in out && 0 <= k < |now| && !now[k].isPSample ensures Leq(d, now[k]) {
      assert d in discarded || d == kept[m];
      var was := if k < m then k else if k < |now| - 1 then k + 1 else m;
      assert Leq(kept[m], now[k]);
      assert Leq(d, kept[was]);
    }
  }

  lemma RejectKeeps(kept: seq<Sample>, pushed: seq<Sample>, discarded: multiset<Sample>, m: nat, s: Sample)
    requires KeepsBest(kept, pushed, discarded, |kept|) && LeastNonPeriodic(kept, m)
    requires !s.isPSample && Leq(s, kept[m])
    ensures KeepsBest(kept, pushed + [s], discarded + multiset{s}, |kept|)
  {
  }

  /** The test that makes a run a periodic sample, on 32-bit row counts. */
  predicate Periodic(nLt: nat, nEq: nat, p: nat)
    requires p > 0
  {
    nLt / p != ((nEq + nLt) % U32) / p
  }

  /** The periodic samples are exactly the runs that reach a multiple of the period. */
  lemma PeriodicMeansMultiple(nLt: nat, nEq: nat, p: nat)
    requires p > 0 && nLt + nEq < U32
    ensures Periodic(nLt, nEq, p) <==> exists m: nat :: nLt < m * p <= nLt + nEq
  {
    var end := nLt + nEq;
    if Periodic(nLt, nEq, p) {
      DivMonotone(nLt, end, p);
      ReachesMultiple(nLt, end, p);
    }
    forall n: nat | nLt < n * p <= end ensures Periodic(nLt, nEq, p) {
      PassesMultiple(nLt, end, p, n);
    }
  }

  lemma ReachesMultiple(lo: nat, hi: nat, p: nat)
    requires p > 0 && lo / p < hi / p
    ensures lo < (hi / p) * p <= hi
  {
    QuotientBounds(lo, p);
    QuotientBounds(hi, p);
    MulMonotone(lo / p + 1, hi / p, p);
  }

  lemma PassesMultiple(lo: nat, hi: nat, p: nat, n: nat)
    requires p > 0 && lo < n * p <= hi
    ensures lo / p < n <= hi / p
  {
    DivBelow(lo, p, n);
    DivMonotone(n * p, hi, p);
    MulDiv(n, p);
  }

  /** `end` rows pay for at most end/p periodic samples. */
  predicate Budget(count: nat, end: nat, p: nat)
    requires p > 0
  {
    count <= end / p
  }

  /** One more periodic run costs one more period of rows. */
  lemma BudgetStep(count: nat, end: nat, nLt: nat, nEq: nat, p: nat)
    requires p > 0 && end <= nLt && nLt + nEq < U32 && Budget(count, end, p)
    ensures Budget(count + if Periodic(nLt, nEq, p) then 1 else 0, nLt + nEq, p)
  {
    DivMonotone(end, nLt, p);
    DivMonotone(nLt, nLt + nEq, p);
  }

  lemma AppendOrdered(kept: seq<Sample>, end: nat, s: Sample)
    requires Ordered(kept, end) && end <= s.nLt && s.nEq > 0
    ensures Ordered(kept + [s], s.nLt + s.nEq)
  {
  }

  lemma WithoutOrdered(kept: seq<Sample>, end: nat, m: nat)
    requires Ordered(kept, end) && m < |kept|
    ensures Ordered(Without(kept, m), end)
  {
  }

  lemma OrderedLater(kept: seq<Sample>, end: nat, later: nat)
    requires Ordered(kept, end) && end <= later
    ensures Ordered(kept, later)
  {
  }

  lemma FreeMeansNoneDiscarded(kept: seq<Sample>, pushed: seq<Sample>, discarded: multiset<Sample>, mxSample: nat)
    requires KeepsBest(kept, pushed, discarded, mxSample)
    ensures |kept| < mxSample ==> discarded == multiset{}
  {
  }

  /** What accepting s makes of the kept and the discarded samples. */
  lemma AcceptStep(was: seq<Sample>, pushed: seq<Sample>, discarded: multiset<Sample>, m: nat,
                   mxSample: nat, end: nat, nRow: nat, s: Sample)
    returns (kept: seq<Sample>, out: multiset<Sample>)
    requires mxSample > 0 && |was| <= mxSample && end <= s.nLt && s.nEq > 0 && s.nLt + s.nEq <= nRow < U32
    requires Ordered(was, end) && KeepsBest(was, pushed, discarded, mxSample)
    requires Budget(PeriodicCount(was), end, Period(nRow, mxSample))
    requires s.isPSample == Periodic(s.nLt, s.nEq, Period(nRow, mxSample))
    requires |was| == mxSample ==> LeastNonPeriodic(was, m) && (s.isPSample || Leq(was[m], s))
    ensures kept == (if |was| == mxSample then Without(was, m) else was) + [s]
    ensures Ordered(kept, s.nLt + s.nEq) && KeepsBest(kept, pushed + [s], out, mxSample)
    ensures Budget(PeriodicCount(kept), s.nLt + s.nEq, Period(nRow, mxSample))
    ensures PeriodicCount(kept) < mxSample
  {
    hide Ordered, KeepsBest, PeriodicCount, Budget, Periodic, Period;
    BudgetStep(PeriodicCount(was), end, s.nLt, s.nEq, Period(nRow, mxSample));
    if |was| == mxSample {
      var rest := Without(was, m);
      ReplaceKeeps(was, pushed, discarded, m, s);
      PeriodicDrop(was, m);
      PeriodicSnoc(rest, s);
      WithoutOrdered(was, end, m);
      AppendOrdered(rest, end, s);
      kept, out := rest + [s], discarded + multiset{was[m]};
    } else {
      FreeMeansNoneDiscarded(was, pushed, discarded, mxSample);
      AppendKeeps(was, pushed, mxSample, s);
      PeriodicSnoc(was, s);
      AppendOrdered(was, end, s);
      kept, out := was + [s], discarded;
    }
    AtMostAThird(PeriodicCount(kept), s.nLt + s.nEq, nRow, mxSample);
  }

  lemma MovedDown(was: seq<Sample>, now: seq<Sample>, m: nat, s: Sample)
    requires m < |was| == |now| && now[|now|-1] == s
    requires now[..m] == was[..m] && now[m..|now|-1] == was[m+1..]
    ensures now == Without(was, m) + [s]
  {
    assert now == now[..m] + now[m..|now|-1] + [now[|now|-1]];
  }

  /** One turn of the linear congruential generator. */
  function NextPrn(x: nat): (y: nat)
    ensures y < U32
  {
    (x * 1103515245 + 12345) % U32
  }

  /** The n-th value after the seed. */
  function Prn(seed: nat, n: nat): nat
  {
    if n == 0 then seed else NextPrn(Prn(seed, n - 1))
  }

  class Stat3Accum {
    const nRow: nat
    const nPSample: nat
    const mxSample: nat
    const seed: nat
    var iMin: nat
    var nSample: nat
    var iPrn: nat
    const a: array<Sample>
    ghost var pushed: seq<Sample>            // every non-empty push, in order
    ghost var discarded: multiset<Sample>    // those not kept
    ghost var end: nat                       // rows covered by the pushes so far

    ghost predicate Shape()
      reads this
    {
      && 0 < mxSample == a.Length && nRow < U32
      && nPSample == Period(nRow, mxSample)
      && nSample <= mxSample && end <= nRow
    }

    /** The n-th push got the n-th value of the generator as its hash. */
    ghost predicate Hashed()
      reads this`pushed, this`iPrn
    {
      && iPrn == Prn(seed, |pushed|)
      && forall k :: 0 <= k < |pushed| ==> pushed[k].iHash == Prn(seed, k + 1)
    }

    ghost function Kept(): seq<Sample>
      requires nSample <= a.Length
      reads this, a
    {
      a[..nSample]
    }

    /** The kept samples are in order, the best of the pushes, and the periodic ones within their budget. */
    ghost predicate Sampling()
      reads this, a
    {
      && Shape()
      && Ordered(Kept(), end)
      && KeepsBest(Kept(), pushed, discarded, mxSample)
      && Budget(PeriodicCount(Kept()), end, nPSample)
      && (nSample == mxSample ==> LeastNonPeriodic(Kept(), iMin))
    }

    ghost predicate Valid()
      reads this, a
    {
      Sampling() && Hashed()
    }

    /** stat3Init, with the random seed as a parameter. */
    constructor (nRow: nat, mxSample: nat, seed: nat)
      requires nRow < U32 && mxSample > 0 && seed < U32
      ensures Valid() && fresh(a)
      ensures this.nRow == nRow && this.mxSample == mxSample && this.seed == seed
      ensures pushed == [] && end == 0
      ensures forall p: nat | p > 0 :: WithinThird(nRow, mxSample, p) <==> nPSample <= p
    {
      forall p: nat | p > 0 ensures WithinThird(nRow, mxSample, p) <==> Period(nRow, mxSample) <= p {
        PeriodIsLeast(nRow, mxSample, p);
      }
      hide Period, WithinThird;
      this.seed := seed;
      this.nRow := nRow;
      this.mxSample := mxSample;
      nPSample := Period(nRow, mxSample);
      iMin, nSample, iPrn := 0, 0, seed;
      a := new Sample[mxSample](_ => Sample(0, 0, 0, 0, false, 0));
      pushed, discarded, end := [], multiset{}, 0;
    }

    /** Finds a least non-periodic sample of a full table; the scan never runs off the array. */
    method FindMin() returns (m: nat)
      requires Shape() && nSample == mxSample
      requires PeriodicCount(Kept()) < mxSample
      ensures LeastNonPeriodic(Kept(), m)
    {
      NotAllPeriodic(Kept());
      var i := 0;
      while a[i].isPSample
        invariant i < nSample
        invariant forall k :: 0 <= k < i ==> a[k].isPSample
        decreases nSample - i
      {
        i := i + 1;
        assert i < nSample;
      }
      var nEq, h := a[i].nEq, a[i].iHash;
      m := i;
      i := i + 1;
      while i < nSample
        invariant m < i <= nSample && !a[m].isPSample && nEq == a[m].nEq && h == a[m].iHash
        invariant forall k :: 0 <= k < i && !a[k].isPSample ==> Leq(a[m], a[k])
      {
        if !a[i].isPSample {
          if a[i].nEq < nEq || (a[i].nEq == nEq && a[i].iHash < h) {
            m, nEq, h := i, a[i].nEq, a[i].iHash;
          }
        }
        i := i + 1;
      }
    }

    /** Puts s into the next free slot, or over the sample at iMin when the table is full. */
    method Insert(s: Sample)
      requires Shape() && (nSample == mxSample ==> iMin < nSample)
      modifies `nSample, a
      ensures nSample == (if old(nSample) == mxSample then mxSample else old(nSample) + 1)
      ensures Kept() == (if old(nSample) == mxSample then Without(old(Kept()), iMin) else old(Kept())) + [s]
    {
      hide Without, Period;
      if nSample == mxSample {
        assert a[..nSample] == a[..];
        ReplaceMin(s);
        assert a[..nSample] == a[..];
      } else {
        a[nSample] := s;
        nSample := nSample + 1;
        assert a[..nSample] == old(a[..nSample]) + [s];
      }
    }

    /** The samples after iMin move down, and s takes the last slot. */
    method ReplaceMin(s: Sample)
      requires iMin < a.Length
      modifies a
      ensures a[..] == Without(old(a[..]), iMin) + [s]
    {
      ghost var was, m := a[..], iMin;
      forall k | iMin <= k < a.Length - 1 { a[k] := a[k + 1]; }
      a[a.Length - 1] := s;
      assert a[..m] == was[..m];
      assert a[m..a.Length - 1] == was[m + 1..];
      MovedDown(was, a[..], m, s);
    }

    /** The accepting half of stat3Push: s goes in, and a full table gets a new minimum. */
    method Accept(s: Sample)
      requires Sampling() && s.nEq > 0 && end <= s.nLt && s.nLt + s.nEq <= nRow
      requires s.isPSample == Periodic(s.nLt, s.nEq, nPSample)
      requires s.isPSample || nSample < mxSample || Leq(a[iMin], s)
      modifies this, a
      ensures Sampling() && iPrn == old(iPrn) && pushed == old(pushed) + [s] && end == s.nLt + s.nEq
    {
      hide Ordered, KeepsBest, PeriodicCount, Budget, Periodic, Period;
      ghost var was, full := Kept(), nSample == mxSample;
      var kept, out := AcceptStep(was, pushed, discarded, iMin, mxSample, end, nRow, s);
      Insert(s);
      assert Kept() == kept;
      pushed, discarded, end := pushed + [s], out, s.nLt + s.nEq;
      if nSample == mxSample {
        iMin := FindMin();
      }
    }

    /** stat3Push */
    method Push(nEq: nat, nLt: nat, nDLt: int, rowid: int)
      requires Valid()
      requires nEq > 0 ==> end <= nLt && nLt + nEq <= nRow && nDLt >= 0
      modifies this, a
      ensures Valid()
      ensures nEq == 0 ==> pushed == old(pushed) && end == old(end) && iPrn == old(iPrn) && Kept() == old(Kept())
      ensures nEq > 0 ==> end == nLt + nEq
      ensures nEq > 0 ==>
                pushed == old(pushed) + [Sample(rowid, nEq, nLt, nDLt, Periodic(nLt, nEq, nPSample), iPrn)]
    {
      hide Ordered, KeepsBest, PeriodicCount, Budget, Periodic, Period, NextPrn;
      if nEq == 0 { return; }
      var h := NextPrn(iPrn);
      iPrn := h;
      var isPSample := Periodic(nLt, nEq, nPSample);
      var s := Sample(rowid, nEq, nLt, nDLt, isPSample, h);
      var doInsert := false;
      if isPSample {
        doInsert := true;
      } else if nSample < mxSample {
        doInsert := true;
      } else if nEq > a[iMin].nEq || (nEq == a[iMin].nEq && h > a[iMin].iHash) {
        doInsert := true;
      }
      if doInsert {
        Accept(s);
      } else {
        BudgetStep(PeriodicCount(Kept()), end, nLt, nEq, nPSample);
        RejectKeeps(Kept(), pushed, discarded, iMin, s);
        OrderedLater(Kept(), end, nLt + nEq);
        pushed := pushed + [s];
        discarded := discarded + multiset{s};
        end := nLt + nEq;
      }
    }
  }

  function SumEq(s: seq<Sample>): nat {
    if s == [] then 0 else SumEq(s[..|s|-1]) + s[|s|-1].nEq
  }

  /** Kept runs are disjoint, so the ones before sample j fit into the rows before it. */
  lemma {:induction false} EarlierRunsFit(kept: seq<Sample>, end: nat, j: nat)
    requires Ordered(kept, end) && j <= |kept|
    ensures SumEq(kept[..j]) <= if j < |kept| then kept[j].nLt else end
    decreases j
  {
    if j > 0 {
      assert kept[..j][..j-1] == kept[..j-1];
      EarlierRunsFit(kept, end, j - 1);
    }
  }

  method SumEarlier(aSample: seq<Sample>, idx: nat, ghost end: nat) returns (sumEq: nat)
    requires idx <= |aSample| && Ordered(aSample, end) && end < U32
    ensures sumEq == SumEq(aSample[..idx])
  {
    sumEq := 0;
    for i := 0 to idx
      invariant sumEq == SumEq(aSample[..i])
    {
      assert aSample[..i+1][..i] == aSample[..i];
      EarlierRunsFit(aSample, end, i + 1);
      sumEq := (sumEq + aSample[i].nEq) % U32;
    }
  }

  /** A quotient that may be 0 is raised to 1. */
  lemma AtLeastOne(x: nat, d: nat)
    requires d > 0 && x < U32
    ensures (x % U32) / d == x / d && (x / d == 0 <==> x < d)
  {
  }

  /** The average of loadStat3: the rows before the last sample that no earlier sample accounts for, spread over the
      distinct keys before it, but at least 1. */
  ghost predicate IsAverage(aSample: seq<Sample>, aiRowEst1: nat, avgEq: nat)
    requires aSample != []
  {
    var last, earlier := aSample[|aSample|-1], SumEq(aSample[..|aSample|-1]);
    && earlier <= last.nLt
    && (last.nDLt > 0 ==> avgEq == if last.nLt - earlier < last.nDLt then 1 else (last.nLt - earlier) / last.nDLt)
    && (last.nDLt == 0 ==> avgEq == if aiRowEst1 == 0 then 1 else aiRowEst1)
  }

  /** The closing computation of loadStat3 for one index: on the samples the sampler keeps, the 32-bit
      subtraction never wraps. */
  method AverageEq(aSample: seq<Sample>, aiRowEst1: nat, ghost end: nat) returns (avgEq: nat)
    requires aSample != [] && Ordered(aSample, end) && end < U32
    ensures avgEq >= 1 && IsAverage(aSample, aiRowEst1, avgEq)
  {
    var idx := |aSample| - 1;
    var last := aSample[idx];
    avgEq := aiRowEst1;
    EarlierRunsFit(aSample, end, idx);
    assert last.nLt < U32;
    hide Ordered, SumEq;
    if last.nDLt > 0 {
      var sumEq := SumEarlier(aSample, idx, end);
      AtLeastOne(last.nLt - sumEq, last.nDLt);
      avgEq := ((last.nLt - sumEq) % U32) / last.nDLt;
    }
    if avgEq <= 0 { avgEq := 1; }
  }
}
