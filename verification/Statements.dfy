/** What it means for a token list to be a sequence of complete SQL statements, independent of any automaton. */
module Statements {

  datatype Token = Semi | Ws | Other | Explain | Create | Temp | Trigger | End

  function Rep(t: Token, n: nat): (r: seq<Token>)
    ensures |r| == n && forall i :: 0 <= i < n ==> r[i] == t
  {
    seq(n, _ => t)
  }

  /** CREATE TEMP* TRIGGER, possibly after EXPLAIN OTHER*. */
  ghost predicate Opening(p: seq<Token>) {
    exists a: nat, b: nat :: p == Prefix(a, b, false) || p == Prefix(a, b, true)
  }

  function Prefix(a: nat, b: nat, explain: bool): seq<Token> {
    (if explain then [Explain] + Rep(Other, a) else []) + [Create] + Rep(Temp, b) + [Trigger]
  }

  ghost predicate OpensTrigger(st: seq<Token>) {
    exists k :: 0 <= k <= |st| && Opening(st[..k])
  }

  /** SEMI END SEMI stands at position j. */
  ghost predicate MarkAt(body: seq<Token>, j: nat) {
    j + 3 <= |body| && body[j] == Semi && body[j+1] == End && body[j+2] == Semi
  }

  /** A trigger body stops at its first SEMI END SEMI. */
  ghost predicate EndsAtFirstMark(body: seq<Token>) {
    |body| >= 3 && MarkAt(body, |body| - 3) && forall j: nat :: j < |body| - 3 ==> !MarkAt(body, j)
  }

  ghost predicate TriggerStatement(st: seq<Token>) {
    exists k :: 0 <= k <= |st| && Opening(st[..k]) && EndsAtFirstMark(st[k..])
  }

  ghost predicate OrdinaryStatement(st: seq<Token>) {
    st != [] && st[|st|-1] == Semi && Semi !in st[..|st|-1] && !OpensTrigger(st)
  }

  ghost predicate Statement(st: seq<Token>) {
    OrdinaryStatement(st) || TriggerStatement(st)
  }

  /** One or more statements, one after the other. */
  ghost predicate Script(ts: seq<Token>)
    decreases |ts|
  {
    exists n :: 0 < n <= |ts| && Statement(ts[..n]) && (n == |ts| || Script(ts[n..]))
  }
}

/** The eight-state machine of src/complete.c and its equivalence with the grammar. */
module CompleteMachine {
  import opened Statements

  function TokenCode(t: Token): (c: nat)
    ensures c < 8
  {
    match t
    case Semi => 0 case Ws => 1 case Other => 2 case Explain => 3
    case Create => 4 case Temp => 5 case Trigger => 6 case End => 7
  }

  const INVALID: nat := 0
  const START: nat := 1
  const NORMAL: nat := 2
  const EXPLAIN: nat := 3
  const CREATE: nat := 4
  const TRIGGER: nat := 5
  const SEMI: nat := 6
  const END: nat := 7

  const TRANS: seq<seq<nat>> := [
    [1, 0, 2, 3, 4, 2, 2, 2],
    [1, 1, 2, 3, 4, 2, 2, 2],
    [1, 2, 2, 2, 2, 2, 2, 2],
    [1, 3, 3, 2, 4, 2, 2, 2],
    [1, 4, 2, 2, 2, 4, 5, 2],
    [6, 5, 5, 5, 5, 5, 5, 5],
    [6, 6, 5, 5, 5, 5, 5, 7],
    [1, 7, 5, 5, 5, 5, 5, 5]
  ]

  function Step(state: nat, t: Token): (next: nat)
    requires state < 8
    ensures next < 8
  {
    TRANS[state][TokenCode(t)]
  }

  function Run(state: nat, ts: seq<Token>): (last: nat)
    requires state < 8
    ensures last < 8
  {
    if ts == [] then state else Step(Run(state, ts[..|ts|-1]), ts[|ts|-1])
  }

  lemma RunLast(state: nat, ts: seq<Token>)
    requires state < 8 && ts != []
    ensures Run(state, ts) == Step(Run(state, ts[..|ts|-1]), ts[|ts|-1])
  {
  }

  lemma {:induction false} RunAppend(s: nat, a: seq<Token>, b: seq<Token>)
    requires s < 8
    ensures Run(s, a + b) == Run(Run(s, a), b)
  {
    if b == [] {
      assert a + b == a;
    } else {
      assert (a + b)[..|a + b| - 1] == a + b[..|b|-1];
      RunAppend(s, a, b[..|b|-1]);
    }
  }

  lemma {:induction false} RunRep(s: nat, t: Token, n: nat)
    requires s < 8 && Step(s, t) == s
    ensures Run(s, Rep(t, n)) == s
  {
    if n > 0 {
      assert Rep(t, n)[..n-1] == Rep(t, n - 1);
      RunRep(s, t, n - 1);
    }
  }

  lemma RunOne(s: nat, t: Token)
    requires s < 8
    ensures Run(s, [t]) == Step(s, t)
  {
    RunLast(s, [t]);
    assert [t][..0] == [];
  }

  /** CREATE TEMP* TRIGGER drives the machine from START or EXPLAIN into the trigger body. */
  lemma CreateReachesTrigger(s: nat, b: nat)
    requires s == START || s == EXPLAIN
    ensures Run(s, [Create] + Rep(Temp, b) + [Trigger]) == TRIGGER
  {
    RunOne(s, Create);
    RunOne(CREATE, Trigger);
    RunRep(CREATE, Temp, b);
    hide Run;
    RunAppend(s, [Create], Rep(Temp, b));
    RunAppend(s, [Create] + Rep(Temp, b), [Trigger]);
  }

  lemma PrefixReachesTrigger(a: nat, b: nat, explain: bool)
    ensures Run(START, Prefix(a, b, explain)) == TRIGGER
  {
    var head, create := [Explain] + Rep(Other, a), [Create] + Rep(Temp, b) + [Trigger];
    if explain {
      CreateReachesTrigger(EXPLAIN, b);
      RunOne(START, Explain);
      RunRep(EXPLAIN, Other, a);
      hide Run;
      RunAppend(START, [Explain], Rep(Other, a));
      RunAppend(START, head, create);
      assert Prefix(a, b, true) == head + create;
    } else {
      CreateReachesTrigger(START, b);
      assert Prefix(a, b, false) == create;
    }
  }

  /** An opening drives the machine into the trigger body. */
  lemma OpeningReachesTrigger(p: seq<Token>)
    requires Opening(p)
    ensures Run(START, p) == TRIGGER
  {
    hide Prefix, Run;
    var a: nat, b: nat :| p == Prefix(a, b, false) || p == Prefix(a, b, true);
    PrefixReachesTrigger(a, b, false);
    PrefixReachesTrigger(a, b, true);
  }

  ghost predicate ExplainShape(p: seq<Token>) {
    exists a: nat :: p == [Explain] + Rep(Other, a)
  }

  ghost predicate CreateShape(p: seq<Token>) {
    Opening(p + [Trigger])
  }

  lemma NoOpeningInPrefix(p: seq<Token>, n: nat)
    requires n <= |p| && !OpensTrigger(p)
    ensures !OpensTrigger(p[..n])
  {
    forall k | 0 <= k <= n ensures !Opening(p[..n][..k]) {
      assert p[..n][..k] == p[..k];
    }
  }

  /** Before any SEMI and any opening, the state says how far an opening has got. */
  lemma {:induction false} BeforeSemi(p: seq<Token>)
    requires p != [] && Semi !in p && Ws !in p && !OpensTrigger(p)
    ensures Run(START, p) in {NORMAL, EXPLAIN, CREATE}
    ensures Run(START, p) == EXPLAIN ==> ExplainShape(p)
    ensures Run(START, p) == CREATE ==> CreateShape(p)
  {
    var q, t := p[..|p|-1], p[|p|-1];
    assert p == q + [t];
    if q == [] {
      assert p == [Explain] + Rep(Other, 0) || t != Explain;
      assert p + [Trigger] == Prefix(0, 0, false) || t != Create;
    } else {
      NoOpeningInPrefix(p, |q|);
      BeforeSemi(q);
      BeforeSemiStep(q, t);
    }
  }

  lemma BeforeSemiStep(q: seq<Token>, t: Token)
    requires t != Semi && t != Ws && !OpensTrigger(q + [t])
    requires Run(START, q) in {NORMAL, EXPLAIN, CREATE}
    requires Run(START, q) == EXPLAIN ==> ExplainShape(q)
    requires Run(START, q) == CREATE ==> CreateShape(q)
    ensures var next := Step(Run(START, q), t);
      && next in {NORMAL, EXPLAIN, CREATE}
      && (next == EXPLAIN ==> ExplainShape(q + [t]))
      && (next == CREATE ==> CreateShape(q + [t]))
  {
    if Run(START, q) == EXPLAIN {
      ExplainGrows(q, t);
    } else if Run(START, q) == CREATE {
      CreateGrows(q, t);
    }
  }

  lemma ExplainGrows(q: seq<Token>, t: Token)
    requires ExplainShape(q)
    ensures t == Other ==> ExplainShape(q + [t])
    ensures t == Create ==> CreateShape(q + [t])
  {
    var a: nat :| q == [Explain] + Rep(Other, a);
    if t == Other {
      assert q + [t] == [Explain] + Rep(Other, a + 1);
    }
    if t == Create {
      assert q + [t] + [Trigger] == Prefix(a, 0, true);
    }
  }

  lemma CreateGrows(q: seq<Token>, t: Token)
    requires CreateShape(q)
    ensures t == Temp ==> CreateShape(q + [t])
    ensures t == Trigger ==> OpensTrigger(q + [t])
  {
    if t == Temp {
      var a: nat, b: nat :| q + [Trigger] == Prefix(a, b, false) || q + [Trigger] == Prefix(a, b, true);
      OneMoreTemp(q, a, b, q + [Trigger] == Prefix(a, b, true));
    }
    if t == Trigger {
      assert (q + [t])[..|q|+1] == q + [Trigger];
    }
    hide Prefix;
  }

  lemma OneMoreTemp(q: seq<Token>, a: nat, b: nat, explain: bool)
    requires q + [Trigger] == Prefix(a, b, explain)
    ensures q + [Temp] + [Trigger] == Prefix(a, b + 1, explain)
  {
    var r := Prefix(a, b, explain);
    assert q == (q + [Trigger])[..|q|] == r[..|r|-1];
    assert Rep(Temp, b + 1) == Rep(Temp, b) + [Temp];
  }

  ghost predicate NoMark(body: seq<Token>) {
    forall j: nat :: !MarkAt(body, j)
  }

  lemma MarksOfPrefix(body: seq<Token>, n: nat)
    requires n <= |body|
    ensures forall j: nat :: MarkAt(body[..n], j) <==> j + 3 <= n && MarkAt(body, j)
  {
  }

  /** Inside a trigger body the state remembers how much of SEMI END SEMI was just seen. */
  lemma {:induction false} InBody(body: seq<Token>)
    requires Ws !in body && NoMark(body)
    ensures Run(TRIGGER, body) ==
            if |body| >= 2 && body[|body|-2] == Semi && body[|body|-1] == End then END
            else if body != [] && body[|body|-1] == Semi then SEMI
            else TRIGGER
  {
    if body != [] {
      var q := body[..|body|-1];
      MarksOfPrefix(body, |q|);
      InBody(q);
      if |body| >= 3 {
        assert !MarkAt(body, |body| - 3);
      }
    }
  }

  lemma BodyEnds(body: seq<Token>)
    requires Ws !in body && EndsAtFirstMark(body)
    ensures Run(TRIGGER, body) == START
  {
    var q := body[..|body|-1];
    MarksOfPrefix(body, |q|);
    InBody(q);
  }

  /** No proper, non-empty prefix of ts takes the machine from `state` to START. */
  ghost predicate NoReturn(state: nat, ts: seq<Token>)
    requires state < 8
  {
    forall m :: 0 < m < |ts| ==> Run(state, ts[..m]) != START
  }

  lemma OnlyEndSemiReturns(state: nat, t: Token)
    requires state == TRIGGER || state == SEMI || state == END
    requires t != Ws
    ensures Step(state, t) == START <==> state == END && t == Semi
  {
  }

  /** A body on which the machine returns to START for the first time at its end. */
  lemma BodyEndsConverse(body: seq<Token>)
    requires Ws !in body && Run(TRIGGER, body) == START
    requires NoReturn(TRIGGER, body)
    ensures EndsAtFirstMark(body)
  {
    assert body != [];
    hide Run, Step, NoReturn;
    var q := body[..|body|-1];
    MarkFreePrefix(body, |q|);
    MarksOfPrefix(body, |q|);
    InBody(q);
    RunLast(TRIGGER, body);
    OnlyEndSemiReturns(Run(TRIGGER, q), body[|q|]);
  }

  lemma {:induction false} MarkFreePrefix(body: seq<Token>, n: nat)
    requires Ws !in body && n < |body|
    requires NoReturn(TRIGGER, body)
    ensures NoMark(body[..n])
  {
    hide Run;
    if n > 0 {
      MarkFreePrefix(body, n - 1);
      MarksOfPrefix(body, n - 1);
      MarksOfPrefix(body, n);
      if n >= 3 && MarkAt(body, n - 3) {
        assert MarkAt(body[..n], n - 3);
        BodyEnds(body[..n]);
      }
    }
  }

  /** A statement takes the machine back to START. */
  lemma StatementReturns(st: seq<Token>)
    requires Ws !in st && Statement(st)
    ensures Run(START, st) == START
  {
    if OrdinaryStatement(st) {
      var q := st[..|st|-1];
      NoOpeningInPrefix(st, |q|);
      if q != [] {
        BeforeSemi(q);
      }
    } else {
      TriggerReturns(st);
    }
  }

  lemma TriggerReturns(st: seq<Token>)
    requires Ws !in st && TriggerStatement(st)
    ensures Run(START, st) == START
  {
    hide Run, Opening, EndsAtFirstMark;
    var k :| 0 <= k <= |st| && Opening(st[..k]) && EndsAtFirstMark(st[k..]);
    OpeningReachesTrigger(st[..k]);
    BodyEnds(st[k..]);
    assert st == st[..k] + st[k..];
    RunAppend(START, st[..k], st[k..]);
  }

  ghost predicate FirstReturn(st: seq<Token>) {
    st != [] && Run(START, st) == START && NoReturn(START, st)
  }

  lemma FirstReturnIsStatement(st: seq<Token>)
    requires Ws !in st && FirstReturn(st)
    ensures Statement(st)
  {
    if k :| 0 <= k <= |st| && Opening(st[..k]) {
      TriggerReturnIsStatement(st, k);
    } else {
      SemiFreePrefix(st, |st| - 1);
      NoOpeningInPrefix(st, |st| - 1);
      if |st| > 1 {
        BeforeSemi(st[..|st|-1]);
      }
    }
  }

  /** After an opening, the first return ends the body at its first mark. */
  lemma TriggerReturnIsStatement(st: seq<Token>, k: nat)
    requires Ws !in st && FirstReturn(st) && k <= |st| && Opening(st[..k])
    ensures TriggerStatement(st)
  {
    var body := st[k..];
    BodyReturns(st, k);
    BodyEndsConverse(body);
    hide Run, Opening;
  }

  lemma BodyReturns(st: seq<Token>, k: nat)
    requires FirstReturn(st) && k <= |st| && Opening(st[..k])
    ensures Run(TRIGGER, st[k..]) == START && NoReturn(TRIGGER, st[k..])
  {
    var body := st[k..];
    OpeningReachesTrigger(st[..k]);
    hide Run, Opening;
    assert st == st[..k] + body;
    RunAppend(START, st[..k], body);
    forall m | 0 < m < |body| ensures Run(TRIGGER, body[..m]) != START {
      assert st[..k+m] == st[..k] + body[..m];
      RunAppend(START, st[..k], body[..m]);
    }
  }

  lemma {:induction false} SemiFreePrefix(st: seq<Token>, n: nat)
    requires Ws !in st && FirstReturn(st) && !OpensTrigger(st) && n < |st|
    ensures Semi !in st[..n]
  {
    if n > 0 {
      SemiFreePrefix(st, n - 1);
      NoOpeningInPrefix(st, n - 1);
      assert st[..n][..n-1] == st[..n-1];
      if n > 1 {
        BeforeSemi(st[..n-1]);
      }
      assert Run(START, st[..n]) != START;
    }
  }

  /** A non-empty run that ends in START has a shortest prefix that does. */
  lemma {:induction false} SplitAtReturn(ts: seq<Token>) returns (n: nat)
    requires ts != [] && Run(START, ts) == START
    ensures 0 < n <= |ts| && FirstReturn(ts[..n]) && Run(START, ts[n..]) == START
  {
    hide Run;
    n := 1;
    assert ts[..|ts|] == ts;
    while Run(START, ts[..n]) != START
      invariant 0 < n <= |ts|
      invariant forall m :: 0 < m < n ==> Run(START, ts[..m]) != START
      decreases |ts| - n
    {
      n := n + 1;
    }
    forall m | 0 < m < n ensures Run(START, ts[..n][..m]) != START {
      assert ts[..n][..m] == ts[..m];
    }
    assert ts == ts[..n] + ts[n..];
    RunAppend(START, ts[..n], ts[n..]);
  }

  /** The machine accepts exactly the scripts of the grammar. */
  lemma {:induction false} AcceptsExactlyScripts(ts: seq<Token>)
    requires Ws !in ts && ts != []
    ensures Run(START, ts) == START <==> Script(ts)
    decreases |ts|
  {
    assert Run(START, []) == START;
    hide Run, Statement, FirstReturn;
    if Run(START, ts) == START {
      var n := SplitAtReturn(ts);
      FirstReturnIsStatement(ts[..n]);
      if n < |ts| {
        AcceptsExactlyScripts(ts[n..]);
      }
    }
    if Script(ts) {
      var n :| 0 < n <= |ts| && Statement(ts[..n]) && (n == |ts| || Script(ts[n..]));
      StatementReturns(ts[..n]);
      assert ts == ts[..n] + ts[n..];
      RunAppend(START, ts[..n], ts[n..]);
      if n < |ts| {
        AcceptsExactlyScripts(ts[n..]);
      } else {
        assert ts[n..] == [];
      }
    }
  }

  /** INVALID and START have the same outgoing moves, so a run may start in either. */
  lemma {:induction false} InvalidActsAsStart(ts: seq<Token>)
    requires Ws !in ts && ts != []
    ensures Run(INVALID, ts) == Run(START, ts)
  {
    if |ts| > 1 {
      InvalidActsAsStart(ts[..|ts|-1]);
    }
  }
}
