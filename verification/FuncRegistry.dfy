/** src/callback.c: the registry of SQL functions, a hash table of chains of chains. */
module FuncRegistry {
  import opened CBasics

  const HASH_SIZE: nat := 23
  const FUNC_PERFECT_MATCH: nat := 6

  /** A text encoding: SQLITE_UTF8, SQLITE_UTF16LE or SQLITE_UTF16BE. */
  type Enc = e: bv8 | e == 1 || e == 2 || e == 3 witness 1

  /** sqlite3StrNICmp(a, b, n)==0 with both names of length n */
  predicate SameName(a: string, b: string) {
    Lower(a) == Lower(b)
  }

  /** The slot of a name: its first character in lower case (0 for the empty name) plus its length. */
  function Slot(zName: string): (h: nat)
    ensures h < HASH_SIZE
  {
    ((if zName == "" then 0 else ToLower(zName[0]) as int) + |zName|) % HASH_SIZE
  }

  lemma LowerSlot(a: string, b: string)
    requires Lower(a) == Lower(b)
    ensures Slot(a) == Slot(b)
  {
    assert a != "" ==> Lower(a)[0] == ToLower(a[0]) && Lower(b)[0] == ToLower(b[0]);
  }

  class FuncDef {
    const zName: string
    const nArg: int
    const iPrefEnc: Enc
    var xFunc: bool          // a scalar implementation is there
    var xStep: bool          // an aggregate implementation is there
    var pNext: FuncDef?      // next function with the same name
    var pHash: FuncDef?      // next function with another name in the same slot

    constructor (zName: string, nArg: int, iPrefEnc: Enc)
      ensures this.zName == zName && this.nArg == nArg && this.iPrefEnc == iPrefEnc && !xFunc && !xStep
    {
      this.zName, this.nArg, this.iPrefEnc := zName, nArg, iPrefEnc;
      xFunc, xStep, pNext, pHash := false, false, null, null;
    }

    predicate Blank()
      reads this`xFunc, this`xStep
    {
      !xFunc && !xStep
    }
  }

  ghost function Elems(c: seq<FuncDef>): set<FuncDef> {
    set d | d in c
  }

  // ---------- Scores

  /** matchQuality; `blank` says that both implementations of p are missing. */
  function MatchQuality(p: FuncDef, blank: bool, nArg: int, enc: Enc): (score: nat) {
    if nArg == -2 then (if blank then 0 else FUNC_PERFECT_MATCH)
    else if p.nArg != nArg && p.nArg >= 0 then 0
    else
      (if p.nArg == nArg then 4 else 1)
      + (if enc == p.iPrefEnc then 2 else if (enc as bv8) & (p.iPrefEnc as bv8) & 2 != 0 then 1 else 0)
  }

  /** A perfect match is the same argument count and the same encoding. */
  lemma PerfectMatch(p: FuncDef, blank: bool, nArg: int, enc: Enc)
    requires nArg >= -1
    ensures MatchQuality(p, blank, nArg, enc) <= FUNC_PERFECT_MATCH
    ensures MatchQuality(p, blank, nArg, enc) == FUNC_PERFECT_MATCH <==> p.nArg == nArg && p.iPrefEnc == enc
    ensures MatchQuality(p, blank, nArg, enc) > 0 <==> p.nArg == nArg || p.nArg < 0
  {
  }

  /** Whatever the encodings, the exact number of arguments beats any number of arguments. */
  lemma ExactBeatsVariadic(p: FuncDef, q: FuncDef, blank: bool, other: bool, nArg: int, enc: Enc)
    requires nArg >= -1 && p.nArg == nArg && q.nArg != nArg
    ensures MatchQuality(p, blank, nArg, enc) > MatchQuality(q, other, nArg, enc)
  {
  }

  /** With equal argument counts, the same encoding beats the other byte order, and that beats a conversion. */
  lemma EncodingOrder(p: FuncDef, q: FuncDef, blank: bool, other: bool, nArg: int, enc: Enc)
    requires nArg >= -1 && p.nArg == q.nArg && (p.nArg == nArg || p.nArg < 0)
    ensures p.iPrefEnc == enc != q.iPrefEnc ==> MatchQuality(p, blank, nArg, enc) > MatchQuality(q, other, nArg, enc)
    ensures enc != 1 && p.iPrefEnc != 1 && q.iPrefEnc == 1 ==>
      MatchQuality(p, blank, nArg, enc) > MatchQuality(q, other, nArg, enc)
  {
  }

  /** The score of a definition, 0 if there is none; `blanks` are the definitions without an implementation. */
  ghost function Score(p: FuncDef?, blanks: set<FuncDef>, nArg: int, enc: Enc): nat {
    if p == null then 0 else MatchQuality(p, p in blanks, nArg, enc)
  }

  /** No definition scores higher than the i-th, and none before it as high. */
  ghost predicate Wins(c: seq<FuncDef>, blanks: set<FuncDef>, nArg: int, enc: Enc, i: nat)
    requires i < |c|
  {
    && (forall j | 0 <= j < |c| :: Score(c[j], blanks, nArg, enc) <= Score(c[i], blanks, nArg, enc))
    && (forall j | 0 <= j < i :: Score(c[j], blanks, nArg, enc) < Score(c[i], blanks, nArg, enc))
  }

  /** The first definition with the highest positive score, if any. */
  ghost predicate IsBest(c: seq<FuncDef>, blanks: set<FuncDef>, nArg: int, enc: Enc, best: FuncDef?) {
    if best == null then forall j | 0 <= j < |c| :: Score(c[j], blanks, nArg, enc) == 0
    else
      && Score(best, blanks, nArg, enc) > 0
      && exists i: nat :: i < |c| && c[i] == best && Wins(c, blanks, nArg, enc, i)
  }

  lemma BestIsUnique(c: seq<FuncDef>, blanks: set<FuncDef>, nArg: int, enc: Enc, p: FuncDef?, q: FuncDef?)
    requires IsBest(c, blanks, nArg, enc, p) && IsBest(c, blanks, nArg, enc, q)
    ensures p == q
  {
  }

  /** One turn of the search loop. */
  ghost function Better(best: FuncDef?, d: FuncDef, blanks: set<FuncDef>, nArg: int, enc: Enc): FuncDef? {
    if Score(d, blanks, nArg, enc) > Score(best, blanks, nArg, enc) then d else best
  }

  ghost function Best(c: seq<FuncDef>, blanks: set<FuncDef>, nArg: int, enc: Enc): FuncDef? {
    if c == [] then null
    else Better(Best(c[..|c| - 1], blanks, nArg, enc), c[|c| - 1], blanks, nArg, enc)
  }

  /** The best of a chain with one more definition. */
  lemma BetterIsBest(c: seq<FuncDef>, d: FuncDef, blanks: set<FuncDef>, nArg: int, enc: Enc, best: FuncDef?)
    requires IsBest(c, blanks, nArg, enc, best)
    ensures IsBest(c + [d], blanks, nArg, enc, Better(best, d, blanks, nArg, enc))
  {
    var r := c + [d];
    assert forall j | 0 <= j < |c| :: r[j] == c[j];
    if Score(d, blanks, nArg, enc) > Score(best, blanks, nArg, enc) {
      assert Wins(r, blanks, nArg, enc, |c|);
    } else if best != null {
      var i: nat :| i < |c| && c[i] == best && Wins(c, blanks, nArg, enc, i);
      assert Wins(r, blanks, nArg, enc, i);
    }
  }

  /** The loop finds the best definition of the chain. */
  lemma {:induction false} BestIsBest(c: seq<FuncDef>, blanks: set<FuncDef>, nArg: int, enc: Enc)
    ensures IsBest(c, blanks, nArg, enc, Best(c, blanks, nArg, enc))
  {
    if c != [] {
      var was, d := c[..|c| - 1], c[|c| - 1];
      BestIsBest(was, blanks, nArg, enc);
      BetterIsBest(was, d, blanks, nArg, enc, Best(was, blanks, nArg, enc));
      assert c == was + [d];
      hide IsBest, Better;
    }
  }

  lemma BestStep(c: seq<FuncDef>, i: nat, blanks: set<FuncDef>, nArg: int, enc: Enc)
    requires i < |c|
    ensures Best(c[..i + 1], blanks, nArg, enc) == Better(Best(c[..i], blanks, nArg, enc), c[i], blanks, nArg, enc)
  {
    assert c[..i + 1][..i] == c[..i];
  }

  /** No definition of the chain scores higher than the one that the loop finds. */
  lemma BestBounds(c: seq<FuncDef>, blanks: set<FuncDef>, nArg: int, enc: Enc, k: nat)
    requires k < |c| && Score(c[k], blanks, nArg, enc) > 0
    ensures var best := Best(c, blanks, nArg, enc);
      best != null && best in c && Score(c[k], blanks, nArg, enc) <= Score(best, blanks, nArg, enc)
  {
    BestIsBest(c, blanks, nArg, enc);
    hide Best, MatchQuality;
  }

  /** What a fitting definition says about the one that is chosen: an exact number of arguments is never passed over
      for any number, and among definitions with the chosen number of arguments neither is the encoding asked for
      passed over, nor, asked for UTF-16, the other byte order for UTF-8. */
  lemma ChosenFitsBest(c: seq<FuncDef>, blanks: set<FuncDef>, nArg: int, enc: Enc, k: nat)
    requires nArg >= -1 && k < |c| && (c[k].nArg == nArg || c[k].nArg < 0)
    ensures var best := Best(c, blanks, nArg, enc);
      && best != null
      && (c[k].nArg == nArg ==> best.nArg == nArg)
      && (c[k].nArg == best.nArg ==>
            && (c[k].iPrefEnc == enc ==> best.iPrefEnc == enc)
            && (enc != 1 && c[k].iPrefEnc != 1 ==> best.iPrefEnc != 1))
  {
    var p := c[k];
    PerfectMatch(p, p in blanks, nArg, enc);
    BestBounds(c, blanks, nArg, enc, k);
    var best := Best(c, blanks, nArg, enc);
    hide Best, MatchQuality;
    if p.nArg == nArg && best.nArg != nArg { ExactBeatsVariadic(p, best, p in blanks, best in blanks, nArg, enc); }
    if p.nArg == best.nArg { EncodingOrder(p, best, p in blanks, best in blanks, nArg, enc); }
  }

  // ---------- The chains as a function of the insertions

  ghost predicate Distinct(s: seq<FuncDef>) {
    forall i, j | 0 <= i < j < |s| :: s[i] != s[j]
  }

  /** The definitions under a (lower-case) name: the first one inserted, then the later ones, latest first. */
  ghost function Chain(log: seq<FuncDef>, key: string): seq<FuncDef> {
    if log == [] then [] else
      var c, d := Chain(log[..|log| - 1], key), log[|log| - 1];
      if Lower(d.zName) != key then c else if c == [] then [d] else [c[0], d] + c[1..]
  }

  /** The heads of the chains of one slot, latest first. */
  ghost function Heads(log: seq<FuncDef>, h: nat): seq<FuncDef> {
    if log == [] then [] else
      var r, d := Heads(log[..|log| - 1], h), log[|log| - 1];
      if Slot(d.zName) == h && Chain(log[..|log| - 1], Lower(d.zName)) == [] then [d] + r else r
  }

  lemma Spliced(c: seq<FuncDef>, d: FuncDef)
    requires c != []
    ensures forall x | x in [c[0], d] + c[1..] :: x in c || x == d
    ensures forall x | x in c || x == d :: x in [c[0], d] + c[1..]
    ensures Distinct(c) && d !in c ==> Distinct([c[0], d] + c[1..])
  {
  }

  /** The chain of a name holds exactly the definitions inserted under it, up to case, each once. */
  lemma {:induction false} ChainHolds(log: seq<FuncDef>, key: string)
    ensures forall d | d in Chain(log, key) :: d in log && Lower(d.zName) == key
    ensures forall d | d in log && Lower(d.zName) == key :: d in Chain(log, key)
    ensures Distinct(log) ==> Distinct(Chain(log, key))
  {
    if log != [] {
      var was, d := log[..|log| - 1], log[|log| - 1];
      ChainHolds(was, key);
      if Chain(was, key) != [] { Spliced(Chain(was, key), d); }
      assert log == was + [d];
      assert Distinct(log) ==> d !in was && Distinct(was);
      hide Lower, Distinct;
    }
  }

  /** The definitions inserted under a name, up to case, in the order of insertion. */
  ghost function Named(log: seq<FuncDef>, key: string): seq<FuncDef> {
    if log == [] then [] else
      Named(log[..|log| - 1], key) + if Lower(log[|log| - 1].zName) == key then [log[|log| - 1]] else []
  }

  /** In the chain of a name the first definition comes first, and then the later ones from the latest on; so among
      definitions of equal score the first one wins, or else the latest. */
  lemma {:induction false} ChainOrder(log: seq<FuncDef>, key: string)
    ensures var c, named := Chain(log, key), Named(log, key);
      && |c| == |named| && (c != [] ==> c[0] == named[0])
      && forall j | 0 < j < |c| :: c[j] == named[|named| - j]
  {
    if log != [] {
      var was, d := log[..|log| - 1], log[|log| - 1];
      ChainOrder(was, key);
      hide Lower;
      var c, named := Chain(was, key), Named(was, key);
      if Lower(d.zName) == key && c != [] {
        var now := [c[0], d] + c[1..];
        forall j | 1 < j < |now| ensures now[j] == (named + [d])[|named| + 1 - j] { assert now[j] == c[j - 1]; }
      }
    }
  }

  /** The chain of each inserted name starts in the slot of the name, and nothing else does. */
  lemma {:induction false} HeadsHold(log: seq<FuncDef>, h: nat)
    requires Distinct(log)
    ensures forall d :: d in Heads(log, h) <==>
      Slot(d.zName) == h && Chain(log, Lower(d.zName)) != [] && Chain(log, Lower(d.zName))[0] == d
    ensures Distinct(Heads(log, h))
  {
    if log != [] {
      var was, last := log[..|log| - 1], log[|log| - 1];
      HeadsHold(was, h);
      assert last !in was;
      ChainHolds(was, Lower(last.zName));
      forall d ensures d in Heads(log, h) <==>
        Slot(d.zName) == h && Chain(log, Lower(d.zName)) != [] && Chain(log, Lower(d.zName))[0] == d
      {
        ChainHolds(was, Lower(d.zName));
      }
      ChainHolds(was, Lower(last.zName));
    }
  }

  lemma {:induction false} HeadsIn(log: seq<FuncDef>, h: nat)
    ensures forall d :: d in Heads(log, h) ==> d in log
  {
    if log != [] { HeadsIn(log[..|log| - 1], h); }
  }

  /** The head of a chain is the only one in its slot with that name. */
  lemma SlotFinds(log: seq<FuncDef>, zName: string)
    requires Distinct(log)
    ensures var heads, c := Heads(log, Slot(zName)), Chain(log, Lower(zName));
      && (forall d | d in heads && Lower(d.zName) == Lower(zName) :: c != [] && d == c[0])
      && (c != [] ==> c[0] in heads && Lower(c[0].zName) == Lower(zName))
  {
    HeadsHold(log, Slot(zName));
    ChainHolds(log, Lower(zName));
    var c := Chain(log, Lower(zName));
    if c != [] {
      assert c[0] in c;
      LowerSlot(c[0].zName, zName);
    }
  }

  /** Chains and heads after one more insertion. */
  lemma OneMore(log: seq<FuncDef>, d: FuncDef, key: string, h: nat)
    ensures var c := Chain(log, key);
      Chain(log + [d], key) ==
        if Lower(d.zName) != key then c else if c == [] then [d] else [c[0], d] + c[1..]
    ensures Heads(log + [d], h) ==
      if Slot(d.zName) == h && Chain(log, Lower(d.zName)) == [] then [d] + Heads(log, h) else Heads(log, h)
  {
  }

  // ---------- The links

  type Links = map<FuncDef, FuncDef?>

  ghost function After(c: seq<FuncDef>, i: nat): FuncDef? {
    if i + 1 < |c| then c[i + 1] else null
  }

  ghost predicate Linked(c: seq<FuncDef>, links: Links) {
    forall i {:trigger After(c, i)} | 0 <= i < |c| :: c[i] in links && links[c[i]] == After(c, i)
  }

  ghost function First(c: seq<FuncDef>): FuncDef? {
    if c == [] then null else c[0]
  }

  ghost predicate ChainsOk(log: seq<FuncDef>, next: Links) {
    forall key :: Linked(Chain(log, key), next)
  }

  ghost predicate SlotsOk(log: seq<FuncDef>, hash: Links, slots: seq<FuncDef?>) {
    && |slots| == HASH_SIZE
    && forall h | 0 <= h < HASH_SIZE :: slots[h] == First(Heads(log, h)) && Linked(Heads(log, h), hash)
  }

  /** The later links agree with the earlier ones, except for those of the given definition. */
  ghost predicate Extends(was: Links, now: Links, x: FuncDef?) {
    forall d | d in was && d != x :: d in now && now[d] == was[d]
  }

  lemma StillLinked(c: seq<FuncDef>, was: Links, now: Links, x: FuncDef?)
    requires Linked(c, was) && Extends(was, now, x) && x !in c
    ensures Linked(c, now)
  {
    forall i | 0 <= i < |c| ensures c[i] in now && now[c[i]] == After(c, i) {
      var next := After(c, i);
      assert c[i] in c && was[c[i]] == next;
    }
  }

  lemma TookIn(c: seq<FuncDef>, d: FuncDef, was: Links, now: Links)
    requires c != [] && Linked(c, was) && Extends(was, now, c[0]) && Distinct(c)
    requires c[0] in was && c[0] in now && now[c[0]] == d && d in now && now[d] == was[c[0]]
    ensures Linked([c[0], d] + c[1..], now)
  {
    var r := [c[0], d] + c[1..];
    forall i | 0 <= i < |r| ensures r[i] in now && now[r[i]] == After(r, i) {
      if i >= 1 {
        var next := After(c, i - 1);
        assert was[c[i - 1]] == next == After(r, i);
      }
      if i >= 2 { assert r[i] == c[i - 1] != c[0]; }
    }
  }

  lemma PutInFront(c: seq<FuncDef>, d: FuncDef, links: Links)
    requires Linked(c, links) && d in links && links[d] == First(c)
    ensures Linked([d] + c, links)
  {
    var r := [d] + c;
    forall i | 0 <= i < |r| ensures r[i] in links && links[r[i]] == After(r, i) {
      if i >= 1 {
        var next := After(c, i - 1);
        assert r[i] == c[i - 1] && links[c[i - 1]] == next == After(r, i);
      }
    }
  }

  /** Behind the head of the chain of its name, a new definition fits into all chains. */
  lemma InsertKnown(log: seq<FuncDef>, d: FuncDef, was: Links, now: Links)
    requires Distinct(log) && ChainsOk(log, was)
    requires Chain(log, Lower(d.zName)) != []
    requires var head := Chain(log, Lower(d.zName))[0];
      && Extends(was, now, head) && head in now && now[head] == d
      && head in was && d in now && now[d] == was[head]
    ensures ChainsOk(log + [d], now)
  {
    var head := Chain(log, Lower(d.zName))[0];
    ChainHolds(log, Lower(d.zName));
    forall key ensures Linked(Chain(log + [d], key), now) {
      OneMore(log, d, key, 0);
      ChainHolds(log, key);
      if Lower(d.zName) == key {
        TookIn(Chain(log, key), d, was, now);
      } else {
        assert head in Chain(log, Lower(d.zName));
        StillLinked(Chain(log, key), was, now, head);
      }
    }
  }

  /** A chain of its own for a new definition leaves all chains as they are. */
  lemma InsertNew(log: seq<FuncDef>, d: FuncDef, was: Links, now: Links)
    requires ChainsOk(log, was) && Chain(log, Lower(d.zName)) == []
    requires Extends(was, now, null) && d in now && now[d] == null
    ensures ChainsOk(log + [d], now)
  {
    forall key ensures Linked(Chain(log + [d], key), now) {
      OneMore(log, d, key, 0);
      StillLinked(Chain(log, key), was, now, null);
    }
  }

  /** The slots after an insertion: only a new name changes one, which gets a new first head. */
  lemma InsertHead(log: seq<FuncDef>, d: FuncDef, was: Links, now: Links, slots: seq<FuncDef?>, h: nat)
    requires SlotsOk(log, was, slots) && h == Slot(d.zName) && Extends(was, now, null)
    ensures Chain(log, Lower(d.zName)) != [] ==> SlotsOk(log + [d], now, slots)
    ensures Chain(log, Lower(d.zName)) == [] && d in now && now[d] == slots[h] ==>
      SlotsOk(log + [d], now, slots[h := d])
  {
    forall k: nat | k < HASH_SIZE ensures Linked(Heads(log, k), now) {
      StillLinked(Heads(log, k), was, now, null);
    }
    forall k: nat | k < HASH_SIZE
      ensures Heads(log + [d], k) == if k == h && Chain(log, Lower(d.zName)) == [] then [d] + Heads(log, k)
        else Heads(log, k)
    {
      OneMore(log, d, "", k);
    }
    if Chain(log, Lower(d.zName)) == [] && d in now && now[d] == slots[h] {
      PutInFront(Heads(log, h), d, now);
    }
    hide Chain, Heads, Lower, Slot, Linked;
  }

  // ---------- The table

  class FuncDefHash {
    const a: array<FuncDef?>
    ghost var log: seq<FuncDef>      // the definitions in the order of their insertion

    constructor ()
      ensures Valid() && log == [] && fresh(a)
    {
      a := new FuncDef?[HASH_SIZE](_ => null);
      log := [];
    }

    ghost function Next(): Links
      reads this`log, Elems(log)`pNext
    {
      map d | d in log :: d.pNext
    }

    ghost function Hash(): Links
      reads this`log, Elems(log)`pHash
    {
      map d | d in log :: d.pHash
    }

    ghost predicate Valid()
      reads this, a, Elems(log)
    {
      a.Length == HASH_SIZE && Distinct(log) && ChainsOk(log, Next()) && SlotsOk(log, Hash(), a[..])
    }

    /** The heads of the slot of a name are linked, and the one with that name, if any, starts its chain. */
    lemma Spine(zFunc: string)
      requires Valid()
      ensures var heads, c := Heads(log, Slot(zFunc)), Chain(log, Lower(zFunc));
        && a[Slot(zFunc)] == First(heads)
        && (forall j {:trigger After(heads, j)} | 0 <= j < |heads| :: heads[j].pHash == After(heads, j))
        && (forall j | 0 <= j < |heads| && SameName(heads[j].zName, zFunc) :: heads[j] == First(c))
        && ((forall j | 0 <= j < |heads| :: !SameName(heads[j].zName, zFunc)) ==> c == [])
    {
      var heads, hash := Heads(log, Slot(zFunc)), Hash();
      SlotFinds(log, zFunc);
      HeadsIn(log, Slot(zFunc));
      assert Linked(heads, hash) && a[..][Slot(zFunc)] == First(heads);
      assert forall j | 0 <= j < |heads| :: heads[j] in heads;
    }

    /** functionSearch: the head of the chain of the name. */
    method FunctionSearch(h: nat, zFunc: string) returns (r: FuncDef?)
      requires Valid() && h == Slot(zFunc)
      ensures r == First(Chain(log, Lower(zFunc)))
    {
      ghost var heads, i := Heads(log, h), 0;
      Spine(zFunc);
      hide Chain, Heads, Lower, Slot, SameName, Valid;
      var p := a[h];
      while p != null
        invariant 0 <= i <= |heads| && p == (if i < |heads| then heads[i] else null)
        invariant forall j | 0 <= j < i :: !SameName(heads[j].zName, zFunc)
        decreases |heads| - i
      {
        if SameName(p.zName, zFunc) { return p; }
        assert p.pHash == After(heads, i);
        p := p.pHash;
        i := i + 1;
      }
      r := null;
    }

    /** A definition under a known name goes behind the head of the chain. */
    method LinkAfter(pOther: FuncDef, pDef: FuncDef)
      requires Valid() && pDef !in log && pOther == First(Chain(log, Lower(pDef.zName)))
      modifies this`log, Elems(log)`pNext, pDef`pNext
      ensures Valid() && log == old(log) + [pDef]
    {
      ghost var was, next, hash := log, Next(), Hash();
      ChainHolds(log, Lower(pDef.zName));
      assert pOther in Chain(log, Lower(pDef.zName)) && pOther in log;
      assert Distinct(log + [pDef]);
      hide Chain, Heads, Lower, Slot, ChainsOk, SlotsOk, Distinct;
      pDef.pNext := pOther.pNext;
      pOther.pNext := pDef;
      log := log + [pDef];
      InsertKnown(was, pDef, next, Next());
      InsertHead(was, pDef, hash, Hash(), a[..], Slot(pDef.zName));
    }

    /** A definition under a new name becomes the head of a chain of its own, in front of the other heads. */
    method LinkFirst(h: nat, pDef: FuncDef)
      requires Valid() && pDef !in log && h == Slot(pDef.zName) && Chain(log, Lower(pDef.zName)) == []
      modifies this`log, a, pDef`pNext, pDef`pHash
      ensures Valid() && log == old(log) + [pDef]
    {
      ghost var was, next, hash, slots := log, Next(), Hash(), a[..];
      assert Distinct(log + [pDef]);
      hide Chain, Heads, Lower, Slot, ChainsOk, SlotsOk, Distinct;
      pDef.pNext := null;
      pDef.pHash := a[h];
      a[h] := pDef;
      log := log + [pDef];
      InsertNew(was, pDef, next, Next());
      InsertHead(was, pDef, hash, Hash(), slots, h);
    }

    /** sqlite3FuncDefInsert */
    method FuncDefInsert(pDef: FuncDef)
      requires Valid() && pDef !in log
      modifies this`log, a, Elems(log)`pNext, pDef`pNext, pDef`pHash
      ensures Valid() && log == old(log) + [pDef]
    {
      var h := Slot(pDef.zName);
      var pOther := FunctionSearch(h, pDef.zName);
      hide Valid, Chain, Heads, Lower, Slot;
      if pOther != null {
        LinkAfter(pOther, pDef);
      } else {
        LinkFirst(h, pDef);
      }
    }

    /** The chain of a name is linked. */
    lemma Along(key: string)
      requires Valid()
      ensures var c := Chain(log, key);
        forall i {:trigger After(c, i)} | 0 <= i < |c| :: c[i] in log && c[i].pNext == After(c, i)
    {
      var c, next := Chain(log, key), Next();
      ChainHolds(log, key);
      assert Linked(c, next);
      assert forall i | 0 <= i < |c| :: c[i] in c;
    }

    /** The definitions without an implementation. */
    ghost function Blanks(): set<FuncDef>
      reads this`log, Elems(log)`xFunc, Elems(log)`xStep
    {
      set d | d in log && d.Blank()
    }

    /** The search loop of sqlite3FindFunction. */
    method BestMatch(h: nat, zName: string, nArg: int, enc: Enc) returns (pBest: FuncDef?, bestScore: nat)
      requires Valid() && h == Slot(zName)
      ensures pBest == Best(Chain(log, Lower(zName)), Blanks(), nArg, enc)
      ensures bestScore == Score(pBest, Blanks(), nArg, enc)
    {
      ghost var c, i, blanks := Chain(log, Lower(zName)), 0, Blanks();
      Along(Lower(zName));
      pBest, bestScore := null, 0;
      assert Best(c[..0], blanks, nArg, enc) == null;
      assert forall d | d in log :: d in blanks <==> d.Blank();
      var p := FunctionSearch(h, zName);
      assert Blanks() == blanks;
      hide Chain, Heads, Lower, Slot, Valid, Best, MatchQuality;
      while p != null
        invariant 0 <= i <= |c| && p == (if i < |c| then c[i] else null)
        invariant pBest == Best(c[..i], blanks, nArg, enc) && bestScore == Score(pBest, blanks, nArg, enc)
        decreases |c| - i
      {
        assert p.pNext == After(c, i);
        BestStep(c, i, blanks, nArg, enc);
        var score := MatchQuality(p, p.Blank(), nArg, enc);
        if score > bestScore {
          pBest := p;
          bestScore := score;
        }
        p := p.pNext;
        i := i + 1;
      }
      assert c[..i] == c;
      assert Blanks() == blanks;
    }

    /** A table whose links were not touched. */
    twostate lemma Untouched()
      requires old(Valid()) && log == old(log) && a[..] == old(a[..])
      requires forall d | d in log :: d.pNext == old(d.pNext) && d.pHash == old(d.pHash)
      requires forall d | d in log :: d.xFunc == old(d.xFunc) && d.xStep == old(d.xStep)
      ensures Valid() && Blanks() == old(Blanks())
    {
      assert Next() == old(Next()) && Hash() == old(Hash());
    }
  }

  /** What a lookup makes of its choice: a blank definition counts as no function. */
  ghost function Usable(p: FuncDef?, blanks: set<FuncDef>): FuncDef? {
    if p in blanks then null else p
  }

  /** The choice of a lookup: the best of the connection's own definitions, or the best built-in one if there is no
      own one or if built-in functions are preferred. */
  ghost function Choice(own: FuncDef?, builtin: FuncDef?, preferBuiltin: bool): FuncDef? {
    if (own == null || preferBuiltin) && builtin != null then builtin else own
  }

  /** Without an argument count, no score depends on whether a definition is blank. */
  lemma {:induction false} BlanksIrrelevant(c: seq<FuncDef>, some: set<FuncDef>, other: set<FuncDef>, nArg: int,
                                            enc: Enc)
    requires nArg >= -1
    ensures Best(c, some, nArg, enc) == Best(c, other, nArg, enc)
    ensures forall p: FuncDef? :: Score(p, some, nArg, enc) == Score(p, other, nArg, enc)
  {
    if c != [] { BlanksIrrelevant(c[..|c| - 1], some, other, nArg, enc); }
  }

  /** A new exact definition becomes the best of its chain if there was none. */
  lemma NewIsBest(log: seq<FuncDef>, d: FuncDef, blanks: set<FuncDef>)
    requires d.nArg >= -1
    requires var best := Best(Chain(log, Lower(d.zName)), blanks, d.nArg, d.iPrefEnc);
      Score(best, blanks, d.nArg, d.iPrefEnc) < FUNC_PERFECT_MATCH
    ensures Best(Chain(log + [d], Lower(d.zName)), blanks, d.nArg, d.iPrefEnc) == d
  {
    var c, nArg, enc := Chain(log, Lower(d.zName)), d.nArg, d.iPrefEnc;
    OneMore(log, d, Lower(d.zName), 0);
    BestIsBest(c, blanks, nArg, enc);
    PerfectMatch(d, d in blanks, nArg, enc);
    var now := Chain(log + [d], Lower(d.zName));
    BestIsBest(now, blanks, nArg, enc);
    hide Chain, Heads, Lower, Best, MatchQuality;
    TakesOver(c, d, blanks, nArg, enc);
    BestIsUnique(now, blanks, nArg, enc, d, Best(now, blanks, nArg, enc));
  }

  /** A definition that scores higher than all others of a chain is the best once it is in. */
  lemma TakesOver(c: seq<FuncDef>, d: FuncDef, blanks: set<FuncDef>, nArg: int, enc: Enc)
    requires forall j | 0 <= j < |c| :: Score(c[j], blanks, nArg, enc) < Score(d, blanks, nArg, enc)
    requires Score(d, blanks, nArg, enc) > 0
    ensures IsBest(if c == [] then [d] else [c[0], d] + c[1..], blanks, nArg, enc, d)
  {
    hide MatchQuality, Score;
    var now := if c == [] then [d] else [c[0], d] + c[1..];
    var i := if c == [] then 0 else 1;
    forall j: nat | j < |now| && j != i ensures Score(now[j], blanks, nArg, enc) < Score(d, blanks, nArg, enc) {
      assert now[j] == c[if j == 0 then 0 else j - 1];
    }
    assert now[i] == d && Wins(now, blanks, nArg, enc, i);
  }

  lemma BestInLog(log: seq<FuncDef>, key: string, blanks: set<FuncDef>, nArg: int, enc: Enc)
    ensures var best := Best(Chain(log, key), blanks, nArg, enc); best == null || best in log
  {
    BestIsBest(Chain(log, key), blanks, nArg, enc);
    ChainHolds(log, key);
    var best := Best(Chain(log, key), blanks, nArg, enc);
    if best != null { assert best in Chain(log, key); }
  }

  /** Asked for any number of arguments, the best definition is one with an implementation, if there is one. */
  lemma AnyArity(c: seq<FuncDef>, blanks: set<FuncDef>, enc: Enc)
    ensures var best := Best(c, blanks, -2, enc);
      && (best == null <==> forall j | 0 <= j < |c| :: c[j] in blanks)
      && best !in blanks
  {
  }

  /** Asked for any number of arguments, a lookup finds something exactly if some definition under that name, own or
      built-in, has an implementation. */
  lemma AnyArityFinds(own: seq<FuncDef>, builtin: seq<FuncDef>, blanks: set<FuncDef>, preferBuiltin: bool, enc: Enc)
    ensures Usable(Choice(Best(own, blanks, -2, enc), Best(builtin, blanks, -2, enc), preferBuiltin), blanks) == null
      <==> (forall j | 0 <= j < |own| :: own[j] in blanks) && (forall j | 0 <= j < |builtin| :: builtin[j] in blanks)
  {
    AnyArity(own, blanks, enc);
    AnyArity(builtin, blanks, enc);
  }

  /** No definition takes this number of arguments. */
  ghost predicate NoneFits(c: seq<FuncDef>, nArg: int) {
    forall j | 0 <= j < |c| :: c[j].nArg != nArg && c[j].nArg >= 0
  }

  /** The first definition with the highest positive score is left without an implementation. */
  ghost predicate BlankOnTop(c: seq<FuncDef>, blanks: set<FuncDef>, nArg: int, enc: Enc) {
    exists k: nat :: k < |c| && c[k] in blanks && Score(c[k], blanks, nArg, enc) > 0 && Wins(c, blanks, nArg, enc, k)
  }

  /** What the best definition says about a chain. */
  lemma BestMeans(c: seq<FuncDef>, blanks: set<FuncDef>, nArg: int, enc: Enc)
    requires nArg >= -1
    ensures var best := Best(c, blanks, nArg, enc);
      && (best == null <==> NoneFits(c, nArg))
      && (best != null ==> (best in blanks <==> BlankOnTop(c, blanks, nArg, enc)))
      && (best == null ==> !BlankOnTop(c, blanks, nArg, enc))
  {
    BestIsBest(c, blanks, nArg, enc);
    forall j | 0 <= j < |c| ensures Score(c[j], blanks, nArg, enc) > 0 <==> c[j].nArg == nArg || c[j].nArg < 0 {
      PerfectMatch(c[j], c[j] in blanks, nArg, enc);
    }
    hide MatchQuality, Best, Score;
    var best := Best(c, blanks, nArg, enc);
    if best != null {
      var i: nat :| i < |c| && c[i] == best && Wins(c, blanks, nArg, enc, i);
      if BlankOnTop(c, blanks, nArg, enc) {
        var k: nat :| k < |c| && c[k] in blanks && Score(c[k], blanks, nArg, enc) > 0 && Wins(c, blanks, nArg, enc, k);
        assert i == k;
      }
    }
  }

  /** When a lookup finds nothing: the chain that is asked first has a deleted definition on top, that is one left
      without an implementation, or it has none that fits and the same holds of the other chain, or none fits at
      all. Built-in functions are asked first only if they are preferred. */
  lemma LookupFails(own: seq<FuncDef>, builtin: seq<FuncDef>, blanks: set<FuncDef>, preferBuiltin: bool, nArg: int,
                    enc: Enc)
    requires nArg >= -1
    ensures var (first, second) := if preferBuiltin then (builtin, own) else (own, builtin);
      Usable(Choice(Best(own, blanks, nArg, enc), Best(builtin, blanks, nArg, enc), preferBuiltin), blanks) == null <==>
        || BlankOnTop(first, blanks, nArg, enc)
        || (NoneFits(first, nArg) && (NoneFits(second, nArg) || BlankOnTop(second, blanks, nArg, enc)))
  {
    BestMeans(own, blanks, nArg, enc);
    BestMeans(builtin, blanks, nArg, enc);
    hide Best, BlankOnTop, NoneFits;
  }

  /** The failing input: an own definition p that fits, even only with another encoding or with any number of
      arguments, was deleted. A usable built-in q that fits is not found, not even as an exact match. */
  lemma DeletedHides(p: FuncDef, q: FuncDef, blanks: set<FuncDef>, nArg: int, enc: Enc)
    requires nArg >= -1 && p in blanks && q !in blanks
    requires (p.nArg == nArg || p.nArg < 0) && (q.nArg == nArg || q.nArg < 0)
    ensures Usable(Best([q], blanks, nArg, enc), blanks) == q
    ensures Usable(Choice(Best([p], blanks, nArg, enc), Best([q], blanks, nArg, enc), false), blanks) == null
  {
    BestMeans([p], blanks, nArg, enc);
    BestMeans([q], blanks, nArg, enc);
    assert Best([p], blanks, nArg, enc) == p && Best([q], blanks, nArg, enc) == q by {
      BestIsBest([p], blanks, nArg, enc);
      BestIsBest([q], blanks, nArg, enc);
      assert [p][0] == p && [q][0] == q;
    }
  }

  /** A perfect score is only given to an exact match under the name that was asked for. */
  lemma PerfectFound(log: seq<FuncDef>, zName: string, blanks: set<FuncDef>, nArg: int, enc: Enc)
    requires nArg >= -1
    ensures var best := Best(Chain(log, Lower(zName)), blanks, nArg, enc);
      && Score(best, blanks, nArg, enc) <= FUNC_PERFECT_MATCH
      && (Score(best, blanks, nArg, enc) == FUNC_PERFECT_MATCH ==>
            best != null && best.nArg == nArg && best.iPrefEnc == enc && SameName(best.zName, zName))
  {
    var c := Chain(log, Lower(zName));
    var best := Best(c, blanks, nArg, enc);
    BestIsBest(c, blanks, nArg, enc);
    ChainHolds(log, Lower(zName));
    if best != null {
      assert best in c;
      PerfectMatch(best, best in blanks, nArg, enc);
    }
  }

  /** A database connection with its own functions, and the built-in ones. */
  class Connection {
    const aFunc: FuncDefHash
    const builtins: FuncDefHash
    var preferBuiltin: bool          // SQLITE_PreferBuiltin

    constructor (aFunc: FuncDefHash, builtins: FuncDefHash)
      requires aFunc.Valid() && builtins.Valid() && aFunc.log == []
      requires aFunc != builtins && aFunc.a != builtins.a
      ensures Valid() && this.aFunc == aFunc && this.builtins == builtins
    {
      this.aFunc, this.builtins, preferBuiltin := aFunc, builtins, false;
    }

    ghost predicate Valid()
      reads aFunc, aFunc.a, Elems(aFunc.log), builtins, builtins.a, Elems(builtins.log)
    {
      && aFunc.Valid() && builtins.Valid()
      && aFunc != builtins && aFunc.a != builtins.a && forall d | d in aFunc.log :: d !in builtins.log
    }

    ghost function Own(zName: string, nArg: int, enc: Enc): FuncDef?
      reads aFunc`log, Elems(aFunc.log)`xFunc, Elems(aFunc.log)`xStep
    {
      Best(Chain(aFunc.log, Lower(zName)), aFunc.Blanks(), nArg, enc)
    }

    ghost function Builtin(zName: string, nArg: int, enc: Enc): FuncDef?
      reads builtins`log, Elems(builtins.log)`xFunc, Elems(builtins.log)`xStep
    {
      Best(Chain(builtins.log, Lower(zName)), builtins.Blanks(), nArg, enc)
    }

    /** sqlite3FindFunction. A plain lookup changes nothing. A creating lookup ends with an exact match of name,
        argument count and encoding, added if it was not there; it fails only if memory runs out. */
    method FindFunction(zName: string, nArg: int, enc: Enc, createFlag: bool, mem: Allocator) returns (r: FuncDef?)
      requires Valid() && nArg >= -2 && (createFlag ==> nArg >= -1)
      modifies aFunc`log, aFunc.a, Elems(aFunc.log)`pNext, mem
      ensures Valid()
      ensures createFlag ==> mem.failures >= old(mem.failures) && (r == null <==> mem.failures != old(mem.failures))
      ensures !createFlag ==>
        && mem.failures == old(mem.failures) && aFunc.log == old(aFunc.log)
        && r == old(Usable(Choice(Own(zName, nArg, enc), Builtin(zName, nArg, enc), preferBuiltin),
                           aFunc.Blanks() + builtins.Blanks()))
      ensures createFlag ==>
        if old(Score(Own(zName, nArg, enc), {}, nArg, enc)) == FUNC_PERFECT_MATCH
        then r == old(Own(zName, nArg, enc)) && aFunc.log == old(aFunc.log)
        else aFunc.log == if r == null then old(aFunc.log) else old(aFunc.log) + [r]
      ensures createFlag && r != null ==>
        r.nArg == nArg && r.iPrefEnc == enc && SameName(r.zName, zName) && r == Own(zName, nArg, enc)
      ensures createFlag && aFunc.log != old(aFunc.log) ==> fresh(r)
    {
      if createFlag {
        PerfectFound(aFunc.log, zName, aFunc.Blanks(), nArg, enc);
        BlanksIrrelevant(Chain(aFunc.log, Lower(zName)), aFunc.Blanks(), {}, nArg, enc);
      }
      BestInLog(aFunc.log, Lower(zName), aFunc.Blanks(), nArg, enc);
      BestInLog(builtins.log, Lower(zName), builtins.Blanks(), nArg, enc);
      hide FuncDefHash.Valid, Chain, Best, Lower, Slot, Score;
      var h := Slot(zName);
      var pBest, bestScore := aFunc.BestMatch(h, zName, nArg, enc);
      aFunc.Untouched();
      builtins.Untouched();
      if !createFlag && (pBest == null || preferBuiltin) {
        var builtin;
        builtin, bestScore := builtins.BestMatch(h, zName, nArg, enc);
        aFunc.Untouched();
        builtins.Untouched();
        if builtin != null { pBest := builtin; }
      }
      if createFlag && bestScore < FUNC_PERFECT_MATCH {
        pBest := NewFunction(zName, nArg, enc, mem);
      }
      r := if pBest != null && (pBest.xStep || pBest.xFunc || createFlag) then pBest else null;
    }

    /** Two creating lookups of the same key end with the same definition, and the second adds nothing. */
    method CreateTwice(zName: string, nArg: int, enc: Enc, mem: Allocator) returns (p: FuncDef?, q: FuncDef?)
      requires Valid() && nArg >= -1
      modifies aFunc`log, aFunc.a, Elems(aFunc.log)`pNext, mem
      ensures p == null <==> mem.failures != old(mem.failures)
      ensures p != null ==> q == p && (aFunc.log == old(aFunc.log) || aFunc.log == old(aFunc.log) + [p])
    {
      p := FindFunction(zName, nArg, enc, true, mem);
      q := p;
      if p != null {
        PerfectMatch(p, false, nArg, enc);
        hide Valid, Own, MatchQuality;
        q := FindFunction(zName, nArg, enc, true, mem);
      }
    }

    /** A new blank definition, if there is memory for it. */
    method NewFunction(zName: string, nArg: int, enc: Enc, mem: Allocator) returns (r: FuncDef?)
      requires Valid() && nArg >= -1 && Score(Own(zName, nArg, enc), {}, nArg, enc) < FUNC_PERFECT_MATCH
      modifies aFunc`log, aFunc.a, Elems(aFunc.log)`pNext, mem
      ensures mem.failures >= old(mem.failures) && (r == null <==> mem.failures != old(mem.failures))
      ensures Valid() && aFunc.log == if r == null then old(aFunc.log) else old(aFunc.log) + [r]
      ensures r != null ==> fresh(r) && r.zName == zName && r.nArg == nArg && r.iPrefEnc == enc
      ensures r != null ==> r == Own(zName, nArg, enc)
    {
      hide Chain, Heads, Lower, Slot, Best, Score, MatchQuality;
      ghost var was, blanks := aFunc.log, aFunc.Blanks();
      BlanksIrrelevant(Chain(was, Lower(zName)), blanks, {}, nArg, enc);
      r := null;
      var memory := mem.Malloc();
      aFunc.Untouched();
      builtins.Untouched();
      if memory {
        r := new FuncDef(zName, nArg, enc);
        NewIsBest(was, r, {});
        hide FuncDefHash.Valid;
        aFunc.FuncDefInsert(r);
        builtins.Untouched();
        BlanksIrrelevant(Chain(aFunc.log, Lower(zName)), aFunc.Blanks(), {}, nArg, enc);
      }
    }
  }
}
