/** src/analyze.c: the sqlite_stat1 text, how it is written after a scan and how it is loaded. */
module StatText {
  import opened CBasics
  import opened Division
  import opened IndexKeys
  import IndexScan

  predicate IsDigit(c: char) {
    '0' <= c <= '9'
  }

  predicate Digits(s: string) {
    forall k :: 0 <= k < |s| ==> IsDigit(s[k])
  }

  function Digit(d: nat): char
    requires d < 10
  {
    (48 + d) as char
  }

  function Decimal(n: nat): (s: string)
    ensures s != "" && Digits(s) && (n == 0 ==> s == "0") && (s[0] == '0' ==> n == 0)
  {
    if n < 10 then [Digit(n)] else Decimal(n / 10) + [Digit(n % 10)]
  }

  /** Estimated rows per distinct key: k rows over d keys, rounded up. */
  function Estimate(k: nat, d: nat): nat
    requires d > 0
  {
    (k + d - 1) / d
  }

  function Tail(nums: seq<nat>): string {
    if nums == [] then "" else " " + Decimal(nums[0]) + Tail(nums[1..])
  }

  function Text(nums: seq<nat>): string
    requires nums != []
  {
    Decimal(nums[0]) + Tail(nums[1..])
  }

  function Estimates(k: nat, ds: seq<nat>): (e: seq<nat>)
    requires forall i :: 0 <= i < |ds| ==> ds[i] > 0
    ensures |e| == |ds| && forall i :: 0 <= i < |ds| ==> e[i] == Estimate(k, ds[i])
  {
    if ds == [] then [] else [Estimate(k, ds[0])] + Estimates(k, ds[1..])
  }

  lemma {:induction false} TailSnoc(nums: seq<nat>, x: nat)
    ensures Tail(nums + [x]) == Tail(nums) + " " + Decimal(x)
  {
    if nums != [] {
      assert (nums + [x])[1..] == nums[1..] + [x];
      TailSnoc(nums[1..], x);
    }
  }

  lemma EstimatesSnoc(k: nat, ds: seq<nat>, i: nat)
    requires forall j :: 0 <= j < |ds| ==> ds[j] > 0
    requires i < |ds|
    ensures Estimates(k, ds[..i+1]) == Estimates(k, ds[..i]) + [Estimate(k, ds[i])]
  {
  }

  /** The statement after the scan: iMem[0] rows and iMem[1..] distinct counts become one line of text. */
  method StatColumn(iMem: array<nat>) returns (regStat1: string)
    requires iMem.Length > 0 && forall i :: 1 <= i < iMem.Length ==> iMem[i] > 0
    ensures regStat1 == Text([iMem[0]] + Estimates(iMem[0], iMem[1..]))
  {
    hide Decimal;
    var ds := iMem[1..];
    regStat1 := Decimal(iMem[0]);
    for i := 0 to iMem.Length - 1
      invariant regStat1 == Decimal(iMem[0]) + Tail(Estimates(iMem[0], ds[..i]))
    {
      var regTemp := iMem[0] + iMem[i + 1];
      regTemp := regTemp - 1;
      regTemp := regTemp / iMem[i + 1];
      EstimatesSnoc(iMem[0], ds, i);
      TailSnoc(Estimates(iMem[0], ds[..i]), regTemp);
      regStat1 := regStat1 + " ";
      regStat1 := regStat1 + Decimal(regTemp);
    }
    assert ds[..|ds|] == ds;
  }

  // ---------- Loading

  /** One step of v = v*10 + c - '0' on a 32-bit row count. */
  function AddDigit(v: nat, c: char): nat
    requires IsDigit(c)
  {
    (v * 10 + (c as int - 48)) % U32
  }

  /** The digit loop from position p: the value read and the position after it. */
  function Number(z: string, p: nat, v: nat): (r: (nat, nat))
    requires p <= |z|
    ensures p <= r.1 <= |z|
    decreases |z| - p
  {
    if p < |z| && IsDigit(z[p]) then Number(z, p + 1, AddDigit(v, z[p])) else (v, p)
  }

  /** memcmp(z, "unordered", 10) includes the terminating NUL: nothing may follow the word. */
  predicate WordAt(z: string, r: nat)
    requires r <= |z|
  {
    z[r..] == "unordered"
  }

  datatype Stat = Stat(nums: seq<nat>, unordered: bool)

  /** What analysisLoader takes from the text at position p when columns i..n are still open. */
  function Load(z: string, p: nat, i: nat, n: nat): Stat
    requires p <= |z|
    decreases n + 1 - i
  {
    if p == |z| || i > n then Stat([], false)
    else
      var (v, q) := Number(z, p, 0);
      var r := if q < |z| && z[q] == ' ' then q + 1 else q;
      if WordAt(z, r) then Stat([v], true)
      else var rest := Load(z, r, i + 1, n); Stat([v] + rest.nums, rest.unordered)
  }

  function Before(got: seq<nat>, rest: Stat): Stat {
    Stat(got + rest.nums, rest.unordered)
  }

  lemma LoadStep(z: string, p: nat, i: nat, n: nat)
    requires p < |z| && i <= n
    ensures var (v, q) := Number(z, p, 0);
      var r := if q < |z| && z[q] == ' ' then q + 1 else q;
      Load(z, p, i, n) == if WordAt(z, r) then Stat([v], true) else Before([v], Load(z, r, i + 1, n))
  {
  }

  lemma LoadEnd(z: string, p: nat, i: nat, n: nat)
    requires p == |z| || i > n
    ensures p <= |z| ==> Load(z, p, i, n) == Stat([], false)
  {
  }

  lemma {:induction false} LoadLength(z: string, p: nat, i: nat, n: nat)
    requires p <= |z|
    ensures |Load(z, p, i, n).nums| <= if i > n then 0 else n + 1 - i
    decreases n + 1 - i
  {
    hide Number;
    if p < |z| && i <= n {
      var (v, q) := Number(z, p, 0);
      LoadLength(z, if q < |z| && z[q] == ' ' then q + 1 else q, i + 1, n);
    }
  }

  method ReadNumber(z: string, p0: nat) returns (v: nat, p: nat)
    requires p0 <= |z|
    ensures p <= |z| && (v, p) == Number(z, p0, 0)
  {
    v, p := 0, p0;
    while p < |z| && IsDigit(z[p])
      invariant p <= |z| && Number(z, p0, 0) == Number(z, p, v)
    {
      v := AddDigit(v, z[p]);
      p := p + 1;
    }
  }

  /** Reads one number, the space after it, and looks for the word that may end the list. */
  method ReadColumn(z: string, p: nat, i: nat, n: nat, ghost got: seq<nat>) returns (v: nat, r: nat, word: bool)
    requires p < |z| && i <= n
    ensures r <= |z|
    ensures Before(got, Load(z, p, i, n)) == if word then Stat(got + [v], true)
      else Before(got + [v], Load(z, r, i + 1, n))
  {
    hide Load, Number, WordAt;
    LoadStep(z, p, i, n);
    v, r := ReadNumber(z, p);
    if r < |z| && z[r] == ' ' { r := r + 1; }
    word := WordAt(z, r);
    assert got + ([v] + Load(z, r, i + 1, n).nums) == got + [v] + Load(z, r, i + 1, n).nums;
  }

  function FirstOr(nums: seq<nat>, other: nat): nat {
    if nums == [] then other else nums[0]
  }

  /** The first |nums| entries come from nums, the others are what they were. */
  ghost predicate Overlay(now: seq<nat>, was: seq<nat>, nums: seq<nat>) {
    && |now| == |was|
    && forall k :: 0 <= k < |now| ==> now[k] == if k < |nums| then nums[k] else was[k]
  }

  lemma OverlayNothing(was: seq<nat>)
    ensures Overlay(was, was, [])
  {
  }

  lemma OverlayStep(now: seq<nat>, was: seq<nat>, nums: seq<nat>, v: nat)
    requires Overlay(now, was, nums) && |nums| < |now|
    ensures Overlay(now[|nums| := v], was, nums + [v])
  {
  }

  /** analysisLoader for one row of sqlite_stat1; `hasIndex` tells whether the row names a known index. */
  method AnalysisLoader(z: string, n: nat, hasIndex: bool, aiRowEst: array<nat>, nRowEst0: nat, bUnordered0: bool)
    returns (nRowEst: nat, bUnordered: bool)
    requires if hasIndex then aiRowEst.Length == n + 1 else n == 0
    modifies aiRowEst
    ensures nRowEst == FirstOr(Load(z, 0, 0, n).nums, nRowEst0)
    ensures |Load(z, 0, 0, n).nums| <= n + 1
    ensures bUnordered == (bUnordered0 || (hasIndex && Load(z, 0, 0, n).unordered))
    ensures Overlay(aiRowEst[..], old(aiRowEst[..]), if hasIndex then Load(z, 0, 0, n).nums else [])
  {
    LoadLength(z, 0, 0, n);
    hide Load, Number, WordAt, Overlay;
    nRowEst, bUnordered := nRowEst0, bUnordered0;
    var i: nat, p: nat := 0, 0;
    ghost var got: seq<nat> := [];
    ghost var s := Load(z, 0, 0, n);
    OverlayNothing(aiRowEst[..]);
    while p < |z| && i <= n
      invariant p <= |z| && i <= n + 1 && |got| == i && (!hasIndex ==> i == 0)
      invariant s == Before(got, Load(z, p, i, n))
      invariant bUnordered == bUnordered0 && nRowEst == FirstOr(got, nRowEst0)
      invariant Overlay(aiRowEst[..], old(aiRowEst[..]), got)
      decreases n + 1 - i
    {
      var v, word;
      v, p, word := ReadColumn(z, p, i, n, got);
      if i == 0 { nRowEst := v; }
      if !hasIndex { return; }
      OverlayStep(aiRowEst[..], old(aiRowEst[..]), got, v);
      aiRowEst[i] := v;
      got := got + [v];
      if word {
        bUnordered := true;
        return;
      }
      i := i + 1;
    }
    LoadEnd(z, p, i, n);
  }

  // ---------- Round trip

  /** The number a digit string denotes. */
  function Numeral(ds: string): nat
    requires Digits(ds)
  {
    if ds == "" then 0 else Numeral(ds[..|ds|-1]) * 10 + (ds[|ds|-1] as int - 48)
  }

  lemma {:induction false} NumeralPositive(ds: string)
    requires ds != "" && Digits(ds) && ds[0] != '0'
    ensures Numeral(ds) > 0
  {
    if |ds| > 1 {
      NumeralPositive(ds[..|ds|-1]);
    }
  }

  /** The decimal text of n is the one digit string without leading zeros that denotes n. */
  lemma {:induction false} DecimalExactly(ds: string, n: nat)
    requires ds != "" && Digits(ds) && (ds[0] == '0' ==> |ds| == 1)
    ensures Numeral(ds) == n <==> ds == Decimal(n)
    decreases |ds|
  {
    if |ds| == 1 {
      OneDigit(ds, n);
      return;
    }
    var init, last := ds[..|ds|-1], ds[|ds|-1] as int - 48;
    NumeralPositive(init);
    DecimalExactly(init, n / 10);
    assert Numeral(ds) == Numeral(init) * 10 + last;
    DecimalSteps(ds, n);
    hide Decimal, Numeral;
    if Numeral(ds) == n { assert Numeral(init) == n / 10 && last == n % 10; }
  }

  lemma OneDigit(ds: string, n: nat)
    requires |ds| == 1 && Digits(ds)
    ensures Numeral(ds) == n <==> ds == Decimal(n)
  {
    assert ds[..0] == "" && ds == [ds[0]];
    if n >= 10 { assert |Decimal(n)| > 1; }
  }

  lemma DecimalSteps(ds: string, n: nat)
    requires |ds| > 1 && Digits(ds)
    ensures ds == Decimal(n) <==> n >= 10 && ds[..|ds|-1] == Decimal(n / 10) && ds[|ds|-1] as int - 48 == n % 10
  {
    assert ds == ds[..|ds|-1] + [ds[|ds|-1]];
    if n >= 10 {
      var d := Decimal(n / 10);
      assert (d + [Digit(n % 10)])[..|d|] == d;
    }
  }

  lemma NumeralOfDecimal(n: nat)
    ensures Numeral(Decimal(n)) == n
  {
    DecimalExactly(Decimal(n), n);
  }

  /** The value a digit string adds to v, on 32 bits. */
  function Value(ds: string, v: nat): nat
    requires Digits(ds)
  {
    if ds == "" then v else AddDigit(Value(ds[..|ds|-1], v), ds[|ds|-1])
  }

  lemma ModStep(v: nat, d: nat)
    ensures (v % U32 * 10 + d) % U32 == (v * 10 + d) % U32
  {
  }

  lemma {:induction false} ValueIsNumeral(ds: string)
    requires Digits(ds)
    ensures Value(ds, 0) == Numeral(ds) % U32
  {
    if ds != "" {
      ValueIsNumeral(ds[..|ds|-1]);
      ModStep(Numeral(ds[..|ds|-1]), ds[|ds|-1] as int - 48);
    }
  }

  lemma {:induction false} NumberReads(z: string, p: nat, ds: string, v: nat)
    requires p + |ds| <= |z| && z[p..p+|ds|] == ds && Digits(ds)
    ensures Number(z, p, v) == Number(z, p + |ds|, Value(ds, v))
    decreases |ds|
  {
    if ds != "" {
      var last := |ds| - 1;
      assert z[p..p+last] == ds[..last];
      NumberReads(z, p, ds[..last], v);
      assert z[p + last] == ds[last];
    }
  }

  lemma NumberStops(z: string, p: nat, v: nat)
    requires p <= |z| && (p == |z| || !IsDigit(z[p]))
    ensures Number(z, p, v) == (v, p)
  {
  }

  /** A printed number followed by a non-digit is read back. */
  lemma ReadsBack(z: string, p: nat, n: nat)
    requires n < U32 && p + |Decimal(n)| <= |z| && z[p..p+|Decimal(n)|] == Decimal(n)
    requires p + |Decimal(n)| == |z| || z[p+|Decimal(n)|] == ' '
    ensures Number(z, p, 0) == (n, p + |Decimal(n)|)
  {
    hide Number, Decimal, Value, Numeral;
    NumberReads(z, p, Decimal(n), 0);
    ValueIsNumeral(Decimal(n));
    NumeralOfDecimal(n);
    NumberStops(z, p + |Decimal(n)|, n);
  }

  // ---------- What the loader takes from any text

  /** The text z starts with the longest digit string, ds, and the space after it, if there is one. */
  ghost predicate Entry(z: string, ds: string, gap: string, rest: string) {
    && z == ds + gap + rest && Digits(ds)
    && (gap == " " || (gap == "" && (rest == "" || (!IsDigit(rest[0]) && rest[0] != ' '))))
  }

  /** What `open` entries take from a text: the numbers on 32 bits, until the text ends or its rest is the word
      "unordered". A missing number counts as 0. */
  ghost predicate Takes(z: string, open: nat, st: Stat)
    decreases open
  {
    if z == "" || open == 0 then st == Stat([], false)
    else
      exists ds, gap, rest ::
        && Entry(z, ds, gap, rest) && st.nums != [] && st.nums[0] == Numeral(ds) % U32
        && (if rest == "unordered" then st == Stat(st.nums[..1], true)
            else Takes(rest, open - 1, Stat(st.nums[1..], st.unordered)))
  }

  lemma EntryEnds(z: string, ds: string, gap: string, rest: string)
    requires Entry(z, ds, gap, rest)
    ensures |ds| <= |z| && ds == z[..|ds|] && Digits(z[..|ds|]) && (|ds| == |z| || !IsDigit(z[|ds|]))
    ensures gap == (if |ds| < |z| && z[|ds|] == ' ' then " " else "") && rest == z[|ds| + |gap|..]
  {
  }

  lemma EntryIsUnique(z: string, ds: string, gap: string, rest: string, ds': string, gap': string, rest': string)
    requires Entry(z, ds, gap, rest) && Entry(z, ds', gap', rest')
    ensures ds == ds' && gap == gap' && rest == rest'
  {
    EntryEnds(z, ds, gap, rest);
    EntryEnds(z, ds', gap', rest');
    hide Entry;
    forall k | 0 <= k < |ds| ensures IsDigit(z[k]) { assert z[k] == z[..|ds|][k]; }
    forall k | 0 <= k < |ds'| ensures IsDigit(z[k]) { assert z[k] == z[..|ds'|][k]; }
    assert |ds| == |ds'|;
  }

  lemma TakesNothing(z: string, open: nat, st: Stat)
    requires z == "" || open == 0
    ensures Takes(z, open, st) <==> st == Stat([], false)
  {
  }

  lemma TakesStep(z: string, open: nat, st: Stat, ds: string, gap: string, rest: string)
    requires z != "" && open > 0 && Entry(z, ds, gap, rest)
    ensures Takes(z, open, st) <==>
      && st.nums != [] && st.nums[0] == Numeral(ds) % U32
      && if rest == "unordered" then st == Stat(st.nums[..1], true)
         else Takes(rest, open - 1, Stat(st.nums[1..], st.unordered))
  {
    forall ds', gap', rest' | Entry(z, ds', gap', rest') ensures ds' == ds && rest' == rest {
      EntryIsUnique(z, ds, gap, rest, ds', gap', rest');
    }
    hide Entry, Numeral;
  }

  /** The loop reads the first entry of any text. */
  lemma NumberIsEntry(z: string, p: nat) returns (ds: string, gap: string)
    requires p < |z|
    ensures var (v, q) := Number(z, p, 0); var r := if q < |z| && z[q] == ' ' then q + 1 else q;
      Entry(z[p..], ds, gap, z[r..]) && v == Numeral(ds) % U32
  {
    var (v, q) := Number(z, p, 0);
    ds := z[p..q];
    gap := if q < |z| && z[q] == ' ' then " " else "";
    NumberDigits(z, p, 0);
    NumberReads(z, p, ds, 0);
    ValueIsNumeral(ds);
    assert z[p..] == ds + gap + z[q + |gap|..];
  }

  /** The digit loop stops at the first character that is no digit. */
  lemma {:induction false} NumberDigits(z: string, p: nat, v: nat)
    requires p <= |z|
    ensures var q := Number(z, p, v).1; Digits(z[p..q]) && (q == |z| || !IsDigit(z[q])) && Number(z, q, v) == (v, q)
    decreases |z| - p
  {
    if p < |z| && IsDigit(z[p]) {
      var w := AddDigit(v, z[p]);
      NumberDigits(z, p + 1, w);
      var q := Number(z, p, v).1;
      assert z[p..q] == [z[p]] + z[p+1..q];
    }
  }

  /** The loader takes exactly this from any text. */
  lemma {:induction false} LoadsExactly(z: string, p: nat, i: nat, n: nat, st: Stat)
    requires p <= |z| && i <= n + 1
    ensures Load(z, p, i, n) == st <==> Takes(z[p..], n + 1 - i, st)
    decreases n + 1 - i
  {
    hide Takes, Numeral, Entry;
    if p == |z| || i > n {
      TakesNothing(z[p..], n + 1 - i, st);
      LoadEnd(z, p, i, n);
      return;
    }
    hide Load, Before;
    var (v, q) := Number(z, p, 0);
    var r := if q < |z| && z[q] == ' ' then q + 1 else q;
    var ds, gap := NumberIsEntry(z, p);
    LoadStep(z, p, i, n);
    TakesStep(z[p..], n + 1 - i, st, ds, gap, z[r..]);
    assert z[p..] != "" && (WordAt(z, r) <==> z[r..] == "unordered");
    BeforeOne(v, Load(z, r, i + 1, n), st);
    hide Number, WordAt;
    if st.nums != [] {
      LoadsExactly(z, r, i + 1, n, Stat(st.nums[1..], st.unordered));
    }
  }

  lemma BeforeOne(v: nat, rest: Stat, st: Stat)
    ensures st == Before([v], rest) <==>
      st.nums != [] && st.nums[0] == v && rest == Stat(st.nums[1..], st.unordered)
    ensures st == Stat([v], true) <==> st.nums != [] && st.nums[0] == v && st == Stat(st.nums[..1], true)
  {
    if st.nums != [] { assert st.nums == [st.nums[0]] + st.nums[1..]; }
  }

  /** The text of one or more numbers starts with the first one; a space follows it if anything does. */
  lemma TextSplits(nums: seq<nat>, suffix: string)
    requires nums != [] && (suffix == "" || suffix == " unordered")
    ensures var d := Decimal(nums[0]);
      Text(nums) + suffix == if |nums| == 1 then d + suffix else d + " " + (Text(nums[1..]) + suffix)
  {
  }

  lemma TextStartsWithDigit(nums: seq<nat>)
    requires nums != []
    ensures Text(nums) != "" && IsDigit(Text(nums)[0])
  {
  }

  /** The text of the numbers, with or without the hand-added suffix, loads as exactly these numbers. */
  lemma {:induction false} TextLoads(z: string, p: nat, nums: seq<nat>, suffix: string, i: nat, n: nat)
    requires nums != [] && (forall k :: 0 <= k < |nums| ==> nums[k] < U32)
    requires suffix == "" || suffix == " unordered"
    requires p <= |z| && z[p..] == Text(nums) + suffix && i + |nums| == n + 1
    ensures Load(z, p, i, n) == Stat(nums, suffix != "")
    decreases |nums|
  {
    hide Text, Decimal, Number, Load, WordAt;
    var d := Decimal(nums[0]);
    var q := p + |d|;
    TextSplits(nums, suffix);
    if |nums| == 1 {
      LastNumberLoads(z, p, nums[0], suffix, i, n);
    } else {
      var rest := Text(nums[1..]) + suffix;
      assert z[p..] == d + " " + rest;
      FirstNumberReads(z, p, d, rest);
      ReadsBack(z, p, nums[0]);
      TextLoads(z, q + 1, nums[1..], suffix, i + 1, n);
      TextStartsWithDigit(nums[1..]);
      NotTheWord(z, q + 1);
      LoadStep(z, p, i, n);
    }
  }

  lemma NotTheWord(z: string, r: nat)
    requires r < |z| && IsDigit(z[r..][0])
    ensures !WordAt(z, r)
  {
  }

  lemma FirstNumberReads(z: string, p: nat, d: string, rest: string)
    requires p <= |z| && z[p..] == d + " " + rest && d != ""
    ensures var q := p + |d|; q < |z| && z[p..q] == d && z[q] == ' ' && z[q+1..] == rest
  {
  }

  lemma LastNumberLoads(z: string, p: nat, v: nat, suffix: string, n0: nat, n: nat)
    requires v < U32 && p <= |z| && z[p..] == Decimal(v) + suffix && n0 == n
    requires suffix == "" || suffix == " unordered"
    ensures Load(z, p, n0, n) == Stat([v], suffix != "")
  {
    hide Decimal, Number;
    var d := Decimal(v);
    var q := p + |d|;
    assert z[p..q] == d by { assert z[p..q] == z[p..][..|d|]; }
    assert z[q..] == suffix by { assert z[q..] == z[p..][|d|..]; }
    if suffix == "" {
      assert q == |z|;
      LoadEnd(z, q, n + 1, n);
    } else {
      assert z[q] == z[q..][0];
      assert z[q+1..] == z[q..][1..] == "unordered";
    }
    ReadsBack(z, p, v);
    LoadStep(z, p, n0, n);
  }

  /** The estimate is the least number that times d reaches k. */
  lemma EstimateBounds(k: nat, d: nat)
    requires 0 < d <= k
    ensures 1 <= Estimate(k, d) <= k
    ensures (Estimate(k, d) - 1) * d < k <= Estimate(k, d) * d
  {
    QuotientBounds(k + d - 1, d);
    DivMonotone(d, k + d - 1, d);
    MulDiv(1, d);
    MulExceeds(k, d);
    DivBelow(k + d - 1, d, k + 1);
  }

  /** More distinct keys, fewer rows per key. */
  lemma EstimateAntitone(k: nat, d: nat, d': nat)
    requires 0 < d <= d' <= k
    ensures Estimate(k, d) >= Estimate(k, d')
  {
    EstimateBounds(k, d);
    EstimateBounds(k, d');
    var e, e' := Estimate(k, d), Estimate(k, d');
    if e < e' {
      MulMonotone(e, e' - 1, d);
      MulMonotone(d, d', e' - 1);
    }
  }

  /** ANALYZE followed by a schema load: for a non-empty index the loader gets back the row count and, for every
      prefix length, the rounded-up rows per distinct prefix; these are at least 1 and never increase with the
      length.  A hand-added "unordered" only raises the flag. */
  lemma AnalyzeThenLoad(rows: seq<Row>, nCol: nat, mem: seq<nat>, suffix: string)
    requires IsIndex(rows, nCol) && nCol > 0 && 0 < |rows| < U32
    requires IndexScan.CountsExact(rows, nCol, |rows|, mem)
    requires suffix == "" || suffix == " unordered"
    ensures forall i :: 1 <= i <= nCol ==> 0 < mem[i] <= |rows|
    ensures var nums := [|rows|] + Estimates(|rows|, mem[1..]);
      && Load(Text(nums) + suffix, 0, 0, nCol) == Stat(nums, suffix != "")
      && (forall i :: 1 <= i <= nCol ==>
            |Prefixes(rows, i)| == mem[i] && nums[i] == Estimate(|rows|, mem[i]) && 1 <= nums[i] <= |rows|)
      && (forall i :: 1 <= i < nCol ==> nums[i] >= nums[i + 1])
  {
    var k := |rows|;
    assert rows[..k] == rows;
    hide Prefixes, Text, Load;
    forall i | 1 <= i <= nCol ensures 0 < mem[i] <= k && (i < nCol ==> mem[i] <= mem[i + 1]) {
      CountsMonotone(rows, nCol, k, i - 1);
      if i < nCol { CountsMonotone(rows, nCol, k, i); }
      CountsPositive(rows, nCol, k, i);
    }
    var nums := [k] + Estimates(k, mem[1..]);
    forall i | 1 <= i <= nCol ensures 1 <= nums[i] <= k && (i < nCol ==> nums[i] >= nums[i + 1]) {
      EstimateBounds(k, mem[i]);
      if i < nCol { EstimateAntitone(k, mem[i], mem[i + 1]); }
    }
    TextLoads(Text(nums) + suffix, 0, nums, suffix, 0, nCol);
  }

  lemma CountsPositive(rows: seq<Row>, nCol: nat, j: nat, i: nat)
    requires IsIndex(rows, nCol) && 0 < j <= |rows| && i <= nCol
    ensures |Prefixes(rows[..j], i)| > 0
  {
    assert rows[..j][0].cols[..i] in Prefixes(rows[..j], i);
  }
}
