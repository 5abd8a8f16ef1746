/** The keys of an index and what ANALYZE counts about them. */
module IndexKeys {

  /** A column value up to the column's collation: NULLs are equal to each other and sort first. */
  datatype Val = Null | Key(rank: int)

  predicate Less(a: Val, b: Val) {
    b.Key? && (a.Null? || a.rank < b.rank)
  }

  datatype Row = Row(cols: seq<Val>, rowid: int)

  predicate KeyLeq(a: seq<Val>, b: seq<Val>) {
    a == [] || (b != [] && (Less(a[0], b[0]) || (a[0] == b[0] && KeyLeq(a[1..], b[1..]))))
  }

  ghost predicate IsIndex(rows: seq<Row>, nCol: nat) {
    && (forall j :: 0 <= j < |rows| ==> |rows[j].cols| == nCol)
    && (forall j, k :: 0 <= j < k < |rows| ==> KeyLeq(rows[j].cols, rows[k].cols))
  }

  /** The distinct i-column prefixes among the rows. */
  ghost function Prefixes(rows: seq<Row>, i: nat): set<seq<Val>>
    requires forall r :: r in rows ==> i <= |r.cols|
  {
    set r | r in rows :: r.cols[..i]
  }

  lemma {:induction false} PrefixLeq(a: seq<Val>, b: seq<Val>, i: nat)
    requires |a| == |b| && i <= |a| && KeyLeq(a, b)
    ensures KeyLeq(a[..i], b[..i])
  {
    if i > 0 && a[0] == b[0] {
      assert a[..i][1..] == a[1..][..i-1] && b[..i][1..] == b[1..][..i-1];
      PrefixLeq(a[1..], b[1..], i - 1);
    }
  }

  lemma {:induction false} Antisymmetric(a: seq<Val>, b: seq<Val>)
    requires |a| == |b| && KeyLeq(a, b) && KeyLeq(b, a)
    ensures a == b
  {
    if a != [] {
      Antisymmetric(a[1..], b[1..]);
    }
  }

  /** In sorted rows a prefix that differs from the previous row's has never been seen before. */
  lemma NewPrefix(rows: seq<Row>, nCol: nat, j: nat, i: nat)
    requires IsIndex(rows, nCol) && 0 < j < |rows| && i <= nCol
    ensures rows[j].cols[..i] in Prefixes(rows[..j], i) <==> rows[j].cols[..i] == rows[j-1].cols[..i]
  {
    var p := rows[j].cols[..i];
    assert rows[j-1] in rows[..j];
    if m :| 0 <= m < j && rows[..j][m].cols[..i] == p {
      if m < j - 1 {
        PrefixLeq(rows[m].cols, rows[j-1].cols, i);
        PrefixLeq(rows[j-1].cols, rows[j].cols, i);
        Antisymmetric(p, rows[j-1].cols[..i]);
      }
    }
  }

  lemma PrefixesSnoc(rows: seq<Row>, j: nat, i: nat)
    requires j < |rows| && forall r :: r in rows ==> i <= |r.cols|
    ensures Prefixes(rows[..j+1], i) == Prefixes(rows[..j], i) + {rows[j].cols[..i]}
  {
  }

  /** One more row adds one distinct prefix exactly when its prefix differs from its predecessor's. */
  lemma CountStep(rows: seq<Row>, nCol: nat, j: nat, i: nat)
    requires IsIndex(rows, nCol) && j < |rows| && i <= nCol
    ensures |Prefixes(rows[..j+1], i)| == |Prefixes(rows[..j], i)|
              + if j == 0 || rows[j].cols[..i] != rows[j-1].cols[..i] then 1 else 0
  {
    PrefixesSnoc(rows, j, i);
    if j > 0 {
      NewPrefix(rows, nCol, j, i);
    }
  }

  lemma NoPrefixes(rows: seq<Row>, i: nat)
    requires forall r :: r in rows ==> i <= |r.cols|
    ensures Prefixes(rows[..0], i) == {}
  {
  }

  /** Longer prefixes are at least as many, and no more than there are rows. */
  lemma {:induction false} CountsMonotone(rows: seq<Row>, nCol: nat, j: nat, i: nat)
    requires IsIndex(rows, nCol) && j <= |rows| && i < nCol
    ensures |Prefixes(rows[..j], i)| <= |Prefixes(rows[..j], i + 1)| <= j
    ensures j > 0 ==> |Prefixes(rows[..j], i)| >= 1
  {
    hide Prefixes;
    if j == 0 {
      NoPrefixes(rows, i);
      NoPrefixes(rows, i + 1);
    } else {
      CountsMonotone(rows, nCol, j - 1, i);
      CountStep(rows, nCol, j - 1, i);
      CountStep(rows, nCol, j - 1, i + 1);
      if j > 1 && rows[j-1].cols[..i] != rows[j-2].cols[..i] {
        assert rows[j-1].cols[..i] == rows[j-1].cols[..i+1][..i];
        assert rows[j-2].cols[..i] == rows[j-2].cols[..i+1][..i];
      }
    }
  }
}

/** The analysis loop that analyzeOneTable emits for one index, written as an ordinary loop. */
module IndexScan {
  import opened CBasics
  import opened IndexKeys
  import opened Stat3

  const STAT3_SAMPLES: nat := 24   // SQLITE_STAT3_SAMPLES

  ghost predicate SameFirst(rows: seq<Row>, lo: nat, hi: nat)
    requires hi <= |rows| && forall r :: r in rows ==> r.cols != []
  {
    forall k :: lo <= k < hi ==> rows[k].cols[0] == rows[lo].cols[0]
  }

  /** s describes a maximal run of rows that agree on the first column: its length, the rows and distinct
      keys before it, and its first rowid. */
  ghost predicate IsRun(rows: seq<Row>, s: Sample)
    requires forall r :: r in rows ==> r.cols != []
  {
    && s.nEq > 0 && s.nLt + s.nEq <= |rows|
    && SameFirst(rows, s.nLt, s.nLt + s.nEq)
    && (s.nLt > 0 ==> rows[s.nLt-1].cols[0] != rows[s.nLt].cols[0])
    && (s.nLt + s.nEq < |rows| ==> rows[s.nLt+s.nEq].cols[0] != rows[s.nLt].cols[0])
    && s.nDLt == |Prefixes(rows[..s.nLt], 1)|
    && s.iRowid == rows[s.nLt].rowid
  }

  /** The runs follow one another from row 0 up to row `upto`. */
  ghost predicate Tiles(pushed: seq<Sample>, upto: nat) {
    && (if pushed == [] then upto == 0
        else pushed[0].nLt == 0 && pushed[|pushed|-1].nLt + pushed[|pushed|-1].nEq == upto)
    && forall t :: 0 <= t < |pushed| - 1 ==> pushed[t].nLt + pushed[t].nEq == pushed[t+1].nLt
  }

  ghost predicate AllRuns(rows: seq<Row>, pushed: seq<Sample>)
    requires forall r :: r in rows ==> r.cols != []
  {
    forall t :: 0 <= t < |pushed| ==> IsRun(rows, pushed[t])
  }

  /** The registers regNumEq, regNumLt, regNumDLt and regRowid while row j is about to be read. */
  datatype Registers = Registers(numEq: nat, numLt: nat, numDLt: int, rowid: int)

  ghost predicate OpenRun(rows: seq<Row>, j: nat, g: Registers)
    requires j <= |rows| && forall r :: r in rows ==> r.cols != []
  {
    && g.numLt + g.numEq == j
    && g.numDLt + 1 == |Prefixes(rows[..j], 1)|
    && (j == 0 ==> g.numLt == 0)
    && (j > 0 ==>
          && g.numEq > 0
          && SameFirst(rows, g.numLt, j)
          && (g.numLt > 0 ==> rows[g.numLt-1].cols[0] != rows[g.numLt].cols[0])
          && g.numDLt == |Prefixes(rows[..g.numLt], 1)|
          && g.rowid == rows[g.numLt].rowid)
  }

  lemma FirstColumn(a: seq<Val>, b: seq<Val>)
    requires a != [] && b != []
    ensures a[..1] == b[..1] <==> a[0] == b[0]
  {
  }

  /** Row j repeats the first column of row j-1: the run grows. */
  lemma RunGrows(rows: seq<Row>, nCol: nat, j: nat, g: Registers)
    requires IsIndex(rows, nCol) && nCol > 0 && 0 < j < |rows|
    requires OpenRun(rows, j, g) && rows[j].cols[0] == rows[j-1].cols[0]
    ensures OpenRun(rows, j + 1, g.(numEq := g.numEq + 1))
  {
    FirstColumn(rows[j].cols, rows[j-1].cols);
    CountStep(rows, nCol, j, 1);
    hide Prefixes;
  }

  /** The registers hold a complete run. */
  ghost predicate ClosedRun(rows: seq<Row>, g: Registers)
    requires forall r :: r in rows ==> r.cols != []
  {
    g.numDLt >= 0 && IsRun(rows, Sample(g.rowid, g.numEq, g.numLt, g.numDLt, false, 0))
  }

  /** Row j starts a new run: the registers held a complete run, and now describe the new one. */
  lemma RunCloses(rows: seq<Row>, nCol: nat, j: nat, g: Registers)
    requires IsIndex(rows, nCol) && nCol > 0 && j < |rows|
    requires OpenRun(rows, j, g) && (j > 0 ==> rows[j].cols[0] != rows[j-1].cols[0])
    ensures OpenRun(rows, j + 1, Registers(1, j, g.numDLt + 1, rows[j].rowid))
    ensures j > 0 ==> ClosedRun(rows, g)
  {
    if j > 0 { FirstColumn(rows[j].cols, rows[j-1].cols); }
    CountStep(rows, nCol, j, 1);
    hide Prefixes;
  }

  lemma LastRunCloses(rows: seq<Row>, nCol: nat, g: Registers)
    requires IsIndex(rows, nCol) && nCol > 0 && rows != []
    requires OpenRun(rows, |rows|, g)
    ensures ClosedRun(rows, g)
  {
  }

  /** Column i is the first on which the two keys differ, so exactly the longer prefixes differ. */
  lemma FirstDifference(a: seq<Val>, b: seq<Val>, i: nat, m: nat)
    requires |a| == |b| && i <= |a| && m <= |a|
    requires forall k :: 0 <= k < i ==> a[k] == b[k]
    requires i < |a| ==> a[i] != b[i]
    ensures a[..m] != b[..m] <==> i < m
  {
  }

  /** The OP_Ne chain: the first column that changed; column 0 also counts as changed on the first row. */
  method FirstChange(cols: seq<Val>, prev: array<Val>, started: bool) returns (i: nat)
    requires |cols| == prev.Length > 0
    ensures i <= |cols|
    ensures !started ==> i == 0
    ensures started ==> (forall k :: 0 <= k < i ==> cols[k] == prev[k]) && (i < |cols| ==> cols[i] != prev[i])
  {
    i := 0;
    while i < |cols|
      invariant i <= |cols|
      invariant i > 0 ==> started
      invariant forall k :: 0 <= k < i ==> cols[k] == prev[k]
    {
      if i == 0 && !started { return; }
      if cols[i] != prev[i] { return; }
      i := i + 1;
    }
  }

  /** The fall-through tail: every column from i on gets a new distinct entry and a new previous value. */
  method BumpFrom(cols: seq<Val>, i: nat, iMem: array<nat>, prev: array<Val>)
    requires |cols| == prev.Length && iMem.Length == |cols| + 1 && i <= |cols|
    modifies iMem, prev
    ensures iMem[0] == old(iMem[0])
    ensures forall k :: 1 <= k <= |cols| ==> iMem[k] == old(iMem[k]) + if k > i then 1 else 0
    ensures forall k :: 0 <= k < |cols| ==> prev[k] == if k >= i then cols[k] else old(prev[k])
  {
    for c := i to |cols|
      invariant iMem[0] == old(iMem[0])
      invariant forall k :: 1 <= k <= |cols| ==> iMem[k] == old(iMem[k]) + if i < k <= c then 1 else 0
      invariant forall k :: 0 <= k < |cols| ==> prev[k] == if i <= k < c then cols[k] else old(prev[k])
    {
      iMem[c + 1] := iMem[c + 1] + 1;
      prev[c] := cols[c];
    }
  }

  /** The distinct counters while row j is about to be read. */
  ghost predicate CountsExact(rows: seq<Row>, nCol: nat, j: nat, mem: seq<nat>)
    requires IsIndex(rows, nCol) && j <= |rows|
  {
    && |mem| == nCol + 1 && mem[0] == j
    && forall i :: 1 <= i <= nCol ==> mem[i] == |Prefixes(rows[..j], i)|
  }

  lemma CountsStep(rows: seq<Row>, nCol: nat, j: nat, i: nat, mem: seq<nat>, now: seq<nat>)
    requires IsIndex(rows, nCol) && nCol > 0 && j < |rows| && i <= nCol
    requires CountsExact(rows, nCol, j, mem)
    requires j == 0 ==> i == 0
    requires j > 0 ==> (forall k :: 0 <= k < i ==> rows[j].cols[k] == rows[j-1].cols[k])
    requires j > 0 && i < nCol ==> rows[j].cols[i] != rows[j-1].cols[i]
    requires |now| == nCol + 1 && now[0] == j + 1
    requires forall m :: 1 <= m <= nCol ==> now[m] == mem[m] + if m > i then 1 else 0
    ensures CountsExact(rows, nCol, j + 1, now)
  {
    forall m | 1 <= m <= nCol ensures now[m] == |Prefixes(rows[..j+1], m)| {
      CountStep(rows, nCol, j, m);
      if j > 0 {
        FirstDifference(rows[j].cols, rows[j-1].cols, i, m);
      }
    }
  }

  ghost predicate Pushed(rows: seq<Row>, upto: nat, acc: Stat3Accum)
    requires forall r :: r in rows ==> r.cols != []
    reads acc, acc.a
  {
    acc.Valid() && acc.nRow == |rows| && acc.end == upto && Tiles(acc.pushed, upto) && AllRuns(rows, acc.pushed)
  }

  /** Hands the closed run in the registers to the sampler. */
  method PushRun(rows: seq<Row>, g: Registers, acc: Stat3Accum)
    requires forall r :: r in rows ==> r.cols != []
    requires Pushed(rows, g.numLt, acc) && g.numLt + g.numEq <= |rows|
    requires g.numEq > 0 ==> ClosedRun(rows, g)
    modifies acc, acc.a
    ensures Pushed(rows, g.numLt + g.numEq, acc)
  {
    hide IsRun, Ordered, KeepsBest, Budget, LeastNonPeriodic, PeriodicCount, Periodic;
    ghost var before := acc.pushed;
    acc.Push(g.numEq, g.numLt, g.numDLt, g.rowid);
    if g.numEq > 0 {
      RunsAppend(rows, before, g.numLt, acc.pushed[|before|], g);
    }
  }

  lemma RunsAppend(rows: seq<Row>, pushed: seq<Sample>, upto: nat, s: Sample, g: Registers)
    requires forall r :: r in rows ==> r.cols != []
    requires Tiles(pushed, upto) && AllRuns(rows, pushed) && ClosedRun(rows, g) && g.numLt == upto
    requires s.nEq == g.numEq && s.nLt == g.numLt && s.nDLt == g.numDLt && s.iRowid == g.rowid
    ensures Tiles(pushed + [s], upto + s.nEq) && AllRuns(rows, pushed + [s])
  {
    assert IsRun(rows, s);
    hide IsRun;
  }

  /** The counters, previous values, registers and sampler agree while row j is about to be read. */
  ghost predicate AtRow(rows: seq<Row>, nCol: nat, j: nat, g: Registers, iMem: array<nat>, prev: array<Val>,
                        acc: Stat3Accum)
    requires IsIndex(rows, nCol) && nCol > 0 && j <= |rows|
    reads iMem, prev, acc, acc.a
  {
    && CountsExact(rows, nCol, j, iMem[..])
    && prev.Length == nCol && (j > 0 ==> prev[..] == rows[j-1].cols)
    && OpenRun(rows, j, g) && g.numLt + g.numEq == j
    && Pushed(rows, g.numLt, acc)
  }

  /** The loop body for row j. */
  method ScanRow(rows: seq<Row>, nCol: nat, j: nat, g: Registers, iMem: array<nat>, prev: array<Val>, acc: Stat3Accum)
    returns (next: Registers)
    requires IsIndex(rows, nCol) && nCol > 0 && j < |rows|
    requires AtRow(rows, nCol, j, g, iMem, prev, acc)
    modifies iMem, prev, acc, acc.a
    ensures AtRow(rows, nCol, j + 1, next, iMem, prev, acc)
  {
    hide Prefixes, KeyLeq, OpenRun, ClosedRun, Pushed;
    var cols := rows[j].cols;
    ghost var mem := iMem[..];
    iMem[0] := iMem[0] + 1;
    CountsMonotone(rows, nCol, j, 0);
    var i := FirstChange(cols, prev, iMem[1] != 0);
    if i > 0 {
      RunGrows(rows, nCol, j, g);
      next := g.(numEq := g.numEq + 1);
    } else {
      RunCloses(rows, nCol, j, g);
      PushRun(rows, g, acc);
      next := Registers(1, g.numLt + g.numEq, g.numDLt + 1, rows[j].rowid);
    }
    BumpFrom(cols, i, iMem, prev);
    CountsStep(rows, nCol, j, i, mem, iMem[..]);
  }

  method StartScan(rows: seq<Row>, nCol: nat, seed: nat, ghost g: Registers)
    returns (iMem: array<nat>, prev: array<Val>, acc: Stat3Accum)
    requires IsIndex(rows, nCol) && nCol > 0 && |rows| < U32 && seed < U32
    requires g == Registers(0, 0, -1, 0)
    ensures AtRow(rows, nCol, 0, g, iMem, prev, acc) && acc.mxSample == STAT3_SAMPLES
    ensures fresh(acc) && fresh(acc.a) && fresh(iMem) && fresh(prev)
  {
    acc := new Stat3Accum(|rows|, STAT3_SAMPLES, seed);
    iMem := new nat[nCol + 1](_ => 0);
    prev := new Val[nCol](_ => Null);
    NoRowsYet(rows, nCol, g, iMem[..]);
    hide OpenRun, CountsExact;
  }

  /** The whole scan: iMem ends with the row count and the exact number of distinct prefixes of every
      length, and the sampler has been given the maximal runs of the first column, in order. */
  method ScanIndex(rows: seq<Row>, nCol: nat, seed: nat) returns (iMem: array<nat>, acc: Stat3Accum)
    requires IsIndex(rows, nCol) && nCol > 0 && |rows| < U32 && seed < U32
    ensures CountsExact(rows, nCol, |rows|, iMem[..])
    ensures Pushed(rows, |rows|, acc) && acc.mxSample == STAT3_SAMPLES
    ensures fresh(acc) && fresh(acc.a) && fresh(iMem)
  {
    hide Prefixes, KeyLeq, CountsExact, OpenRun, ClosedRun, Pushed;
    var prev;
    var g := Registers(0, 0, -1, 0);
    iMem, prev, acc := StartScan(rows, nCol, seed, g);
    var j := 0;
    while j < |rows|
      invariant j <= |rows| && fresh(acc) && fresh(acc.a) && fresh(iMem) && fresh(prev)
      invariant acc.mxSample == STAT3_SAMPLES
      invariant AtRow(rows, nCol, j, g, iMem, prev, acc)
    {
      hide AtRow;
      g := ScanRow(rows, nCol, j, g, iMem, prev, acc);
      j := j + 1;
    }
    if rows != [] { LastRunCloses(rows, nCol, g); }
    PushRun(rows, g, acc);
  }

  lemma NoRowsYet(rows: seq<Row>, nCol: nat, g: Registers, mem: seq<nat>)
    requires IsIndex(rows, nCol) && nCol > 0
    requires g.numEq == 0 && g.numLt == 0 && g.numDLt == -1
    requires |mem| == nCol + 1 && forall k :: 0 <= k <= nCol ==> mem[k] == 0
    ensures OpenRun(rows, 0, g) && CountsExact(rows, nCol, 0, mem)
  {
  }

  /** ANALYZE followed by a load of the samples: whatever the rows, the sampler keeps at least one sample, and the
      average computed from what it keeps is defined and at least 1. */
  method SampleAndAverage(rows: seq<Row>, nCol: nat, seed: nat, aiRowEst1: nat) returns (acc: Stat3Accum, avgEq: nat)
    requires IsIndex(rows, nCol) && nCol > 0 && 0 < |rows| < U32 && seed < U32
    ensures Pushed(rows, |rows|, acc) && acc.Kept() != []
    ensures avgEq >= 1 && IsAverage(acc.Kept(), aiRowEst1, avgEq)
  {
    var iMem;
    iMem, acc := ScanIndex(rows, nCol, seed);
    assert acc.pushed != [] && acc.Kept() != [];
    hide CountsExact, AllRuns, Tiles, KeepsBest, Budget, LeastNonPeriodic;
    avgEq := AverageEq(acc.a[..acc.nSample], aiRowEst1, acc.end);
  }
}
