/** src/btmutex.c: recursive counted locks over the non-recursive mutexes of shared B-trees, as interleaved
    steps of many threads.  One step is one statement that touches a mutex, a counter or a flag.

    Thread t uses one connection and holds that connection's own mutex.  Its sharable Btrees are numbered in
    list order (pNext); shared B-trees are identified by their address. */
module BtMutex {
  import opened CBasics

  /** An entry of db->aDb. */
  datatype Slot = Null | Private | Shared(k: nat)

  /** addr[t][k] is the pBt address of Btree k of thread t; aDb[t] its database list. */
  datatype Config = Config(addr: seq<seq<nat>>, aDb: seq<seq<Slot>>, bound: nat)

  ghost predicate GoodConfig(c: Config) {
    && |c.aDb| == |c.addr|
    && (forall t :: 0 <= t < |c.addr| ==> Ascending(c.addr[t], c.bound))
    && (forall t :: 0 <= t < |c.addr| ==> SlotsOf(c.aDb[t], |c.addr[t]|))
  }

  ghost predicate Ascending(a: seq<nat>, bound: nat) {
    && (forall k, m :: 0 <= k < m < |a| ==> a[k] < a[m])
    && (forall k :: 0 <= k < |a| ==> a[k] < bound)
  }

  /** Every sharable entry names a Btree of the list, and no Btree is listed twice. */
  ghost predicate SlotsOf(slots: seq<Slot>, n: nat) {
    && (forall i :: 0 <= i < |slots| && slots[i].Shared? ==> slots[i].k < n)
    && (forall i, j :: 0 <= i < j < |slots| && slots[i].Shared? ==> slots[i] != slots[j])
  }

  /** Where control goes once a Btree is locked: back to the caller, or on with relocking after Btree k. */
  datatype Then = Return | GoOn(k: nat)

  /** The statement a thread is about to execute. */
  datatype Pc =
    | Idle                           // outside, or between two calls of an All loop
    | Try(k: nat)                    // sqlite3_mutex_try on p
    | Release(k: nat, j: nat)        // first loop: look at pLater = j
    | Clear(k: nat, j: nat)          // pLater->locked = 0, its mutex already left
    | LockSelf(k: nat)               // sqlite3_mutex_enter on p
    | Relock(k: nat, j: nat)         // second loop: look at pLater = j
    | SetDb(j: nat, next: Then)      // pBt->db = p->db, mutex just acquired
    | SetLocked(j: nat, next: Then)  // p->locked = 1
    | Unlock(k: nat)                 // leave's sqlite3_mutex_leave
    | ClearLast(k: nat)              // leave's p->locked = 0

  /** The All loop a call belongs to, with the next index into aDb. */
  datatype Outer = NoLoop | EnterAll(i: nat) | LeaveAll(i: nat)

  datatype Thread = Thread(pc: Pc, outer: Outer, want: seq<nat>, locked: seq<bool>)

  /** holder maps the address of a held mutex to its thread; db is the BtShared.db field. */
  datatype State = State(threads: seq<Thread>, holder: map<nat, nat>, db: map<nat, nat>)

  ghost predicate Init(c: Config, s: State) {
    && |s.threads| == |c.addr| && s.holder == map[]
    && forall t :: 0 <= t < |s.threads| ==>
         s.threads[t] == Thread(Idle, NoLoop, seq(|c.addr[t]|, _ => 0), seq(|c.addr[t]|, _ => false))
  }

  /** What a step does besides running on: which call it starts. */
  datatype Event = Tau | Enter(k: nat) | Leave(k: nat) | StartEnterAll | StartLeaveAll

  predicate Fits(c: Config, s: State) {
    && |s.threads| == |c.addr| == |c.aDb|
    && forall t :: 0 <= t < |s.threads| ==> |s.threads[t].want| == |s.threads[t].locked| == |c.addr[t]|
  }

  function With(s: State, t: nat, th: Thread): State
    requires t < |s.threads|
  {
    s.(threads := s.threads[t := th])
  }

  /** sqlite3BtreeEnter on sharable Btree k up to the mutex operations. */
  function BeginEnter(th: Thread, k: nat, outer: Outer): Thread
    requires k < |th.want| == |th.locked|
  {
    Thread(if th.locked[k] then Idle else Try(k), outer, th.want[k := th.want[k] + 1], th.locked)
  }

  /** sqlite3BtreeLeave on sharable Btree k; its assert demands a positive count. */
  function BeginLeave(th: Thread, k: nat, outer: Outer): Thread
    requires k < |th.want| && th.want[k] > 0
  {
    Thread(if th.want[k] == 1 then Unlock(k) else Idle, outer, th.want[k := th.want[k] - 1], th.locked)
  }

  function Resume(j: nat, next: Then): Pc {
    match next
    case Return => Idle
    case GoOn(k) => Relock(k, j + 1)
  }

  /** The indices in a thread's program point are in range. */
  predicate Sized(th: Thread) {
    var n := |th.want|;
    && |th.locked| == n
    && match th.pc
       case Idle => true
       case Try(k) => k < n
       case Release(k, j) => k < j <= n
       case Clear(k, j) => k < j < n
       case LockSelf(k) => k < n
       case Relock(k, j) => k < j <= n
       case SetDb(j, next) => j < n && (next.GoOn? ==> next.k <= j)
       case SetLocked(j, next) => j < n && (next.GoOn? ==> next.k <= j)
       case Unlock(k) => k < n
       case ClearLast(k) => k < n
  }

  /** The Btree whose mutex the next statement tries to acquire. */
  function Target(th: Thread): (r: Option<nat>)
    requires Sized(th)
  {
    match th.pc
    case Try(k) => Some(k)
    case LockSelf(k) => Some(k)
    case Relock(k, j) => if j < |th.want| && th.want[j] > 0 then Some(j) else None
    case _ => None
  }

  /** What a statement does to the shared state. */
  datatype Effect = Nothing | Acquire(j: nat) | Drop(j: nat) | OwnDb(j: nat)

  /** The next statement waits: its mutex is taken and it is not a mere try. */
  predicate MustWait(th: Thread, busy: bool)
    requires Sized(th)
  {
    busy && Target(th).Some? && !th.pc.Try?
  }

  /** One statement of Enter or Leave; `busy` tells whether the target mutex is taken. */
  function Statement(th: Thread, busy: bool): (Thread, Effect)
    requires Sized(th) && th.pc != Idle && !MustWait(th, busy)
  {
    match th.pc
    case Try(k) =>
      if busy then (th.(pc := Release(k, k + 1)), Nothing) else (th.(pc := SetDb(k, Return)), Acquire(k))
    case Release(k, j) =>
      if j == |th.want| then (th.(pc := LockSelf(k)), Nothing)
      else if th.locked[j] then (th.(pc := Clear(k, j)), Drop(j))
      else (th.(pc := Release(k, j + 1)), Nothing)
    case Clear(k, j) => (th.(pc := Release(k, j + 1), locked := th.locked[j := false]), Nothing)
    case LockSelf(k) => (th.(pc := SetDb(k, GoOn(k))), Acquire(k))
    case Relock(k, j) =>
      if j == |th.want| then (th.(pc := Idle), Nothing)
      else if th.want[j] == 0 then (th.(pc := Relock(k, j + 1)), Nothing)
      else (th.(pc := SetDb(j, GoOn(k))), Acquire(j))
    case SetDb(j, next) => (th.(pc := SetLocked(j, next)), OwnDb(j))
    case SetLocked(j, next) => (th.(pc := Resume(j, next), locked := th.locked[j := true]), Nothing)
    case Unlock(k) => (th.(pc := ClearLast(k)), Drop(k))
    case ClearLast(k) => (th.(pc := Idle, locked := th.locked[k := false]), Nothing)
  }

  /** The shared state after an effect of thread t whose Btrees have addresses a. */
  function Apply(s: State, t: nat, a: seq<nat>, e: Effect): State
    requires e.Nothing? || e.j < |a|
  {
    match e
    case Nothing => s
    case Acquire(j) => s.(holder := s.holder[a[j] := t])
    case Drop(j) => s.(holder := s.holder - {a[j]})
    case OwnDb(j) => s.(db := s.db[a[j] := t])
  }

  predicate Busy(c: Config, s: State, t: nat)
    requires Fits(c, s) && t < |s.threads| && Sized(s.threads[t])
  {
    Target(s.threads[t]).Some? && c.addr[t][Target(s.threads[t]).value] in s.holder
  }

  /** Thread t has to wait for a mutex. */
  predicate Blocked(c: Config, s: State, t: nat)
    requires Fits(c, s) && t < |s.threads| && Sized(s.threads[t])
  {
    MustWait(s.threads[t], Busy(c, s, t))
  }

  /** One statement of thread t inside Enter or Leave. */
  function Run(c: Config, s: State, t: nat): (r: State)
    requires Fits(c, s) && t < |s.threads| && Sized(s.threads[t])
    requires s.threads[t].pc != Idle && !Blocked(c, s, t)
  {
    var (th, e) := Statement(s.threads[t], Busy(c, s, t));
    With(Apply(s, t, c.addr[t], e), t, th)
  }

  /** Thread t takes one step with event e. */
  ghost predicate Step(c: Config, s: State, t: nat, e: Event, s': State) {
    && Fits(c, s) && t < |s.threads| && Sized(s.threads[t])
    && var th, slots := s.threads[t], c.aDb[t];
       if th.pc != Idle then
         e == Tau && !Blocked(c, s, t) && s' == Run(c, s, t)
       else
         match th.outer
         case NoLoop =>
           (match e
            case Tau => false
            case Enter(k) => k < |th.want| && s' == With(s, t, BeginEnter(th, k, NoLoop))
            case Leave(k) => k < |th.want| && th.want[k] > 0 && s' == With(s, t, BeginLeave(th, k, NoLoop))
            case StartEnterAll => s' == With(s, t, th.(outer := EnterAll(0)))
            case StartLeaveAll => AllWanted(th, slots, 0) && s' == With(s, t, th.(outer := LeaveAll(0))))
         case EnterAll(i) =>
           if i == |slots| then e == Tau && s' == With(s, t, th.(outer := NoLoop))
           else if i < |slots| && slots[i].Shared? then
             slots[i].k < |th.want| && e == Enter(slots[i].k)
               && s' == With(s, t, BeginEnter(th, slots[i].k, EnterAll(i + 1)))
           else i < |slots| && e == Tau && s' == With(s, t, th.(outer := EnterAll(i + 1)))
         case LeaveAll(i) =>
           if i == |slots| then e == Tau && s' == With(s, t, th.(outer := NoLoop))
           else if i < |slots| && slots[i].Shared? then
             && slots[i].k < |th.want| && th.want[slots[i].k] > 0
             && e == Leave(slots[i].k) && s' == With(s, t, BeginLeave(th, slots[i].k, LeaveAll(i + 1)))
           else i < |slots| && e == Tau && s' == With(s, t, th.(outer := LeaveAll(i + 1)))
  }

  /** From index i on, every sharable database has a positive count. */
  ghost predicate AllWanted(th: Thread, slots: seq<Slot>, i: nat) {
    forall m :: i <= m < |slots| && slots[m].Shared? ==> slots[m].k < |th.want| && th.want[slots[m].k] > 0
  }

  // ---------- The invariant

  /** Thread t, whose Btrees have addresses a, holds the mutex of Btree m. */
  predicate Has(a: seq<nat>, s: State, t: nat, m: nat)
    requires m < |a|
  {
    a[m] in s.holder && s.holder[a[m]] == t
  }

  /** The locked flag of Btree m, as a function of the program point and the counts. */
  predicate FlagAt(pc: Pc, want: seq<nat>, m: nat)
    requires m < |want|
  {
    match pc
    case Idle => want[m] > 0
    case Try(k) => m != k && want[m] > 0
    case Release(k, j) => m != k && !(k < m < j) && want[m] > 0
    case Clear(k, j) => m == j || (m != k && !(k < m < j) && want[m] > 0)
    case LockSelf(k) => m < k && want[m] > 0
    case Relock(k, j) => m < j && want[m] > 0
    case SetDb(j, next) => (if next.Return? then m != j else m < j) && want[m] > 0
    case SetLocked(j, next) => (if next.Return? then m != j else m < j) && want[m] > 0
    case Unlock(k) => m == k || want[m] > 0
    case ClearLast(k) => m == k || want[m] > 0
  }

  /** Whether the mutex of Btree m is held: as the flag says, except next to the acquiring and leaving statements. */
  predicate HeldAt(pc: Pc, want: seq<nat>, m: nat)
    requires m < |want|
  {
    if pc.SetDb? && m == pc.j then true
    else if pc.SetLocked? && m == pc.j then true
    else if pc.Clear? && m == pc.j then false
    else if pc.ClearLast? && m == pc.k then false
    else FlagAt(pc, want, m)
  }

  /** Counts at the program points that rely on them. */
  predicate CountsAt(pc: Pc, want: seq<nat>) {
    match pc
    case Idle => true
    case Try(k) => k < |want| && want[k] > 0
    case Release(k, j) => k < |want| && want[k] > 0
    case Clear(k, j) => k < |want| && j < |want| && want[k] > 0 && want[j] > 0
    case LockSelf(k) => k < |want| && want[k] > 0
    case Relock(k, j) => k < |want| && want[k] > 0
    case SetDb(j, next) => j < |want| && want[j] > 0 && (next.GoOn? ==> next.k < |want| && want[next.k] > 0)
    case SetLocked(j, next) => j < |want| && want[j] > 0 && (next.GoOn? ==> next.k < |want| && want[next.k] > 0)
    case Unlock(k) => k < |want| && want[k] == 0
    case ClearLast(k) => k < |want| && want[k] == 0
  }

  /** What an All loop has done or still relies on. */
  ghost predicate LoopOk(th: Thread, slots: seq<Slot>) {
    match th.outer
    case NoLoop => true
    case EnterAll(i) => i <= |slots| && AllWanted(th, slots[..i], 0)
    case LeaveAll(i) => i <= |slots| && AllWanted(th, slots, i)
  }

  /** Everything the thread's own variables satisfy. */
  ghost predicate LocalOk(th: Thread) {
    && Sized(th) && CountsAt(th.pc, th.want)
    && forall m :: 0 <= m < |th.want| ==> th.locked[m] == FlagAt(th.pc, th.want, m)
  }

  /** The mutexes thread t holds, and the db fields under them. */
  ghost predicate SharedOk(a: seq<nat>, s: State, t: nat, th: Thread)
    requires |th.want| == |a|
  {
    forall m :: 0 <= m < |a| ==>
      && Has(a, s, t, m) == HeldAt(th.pc, th.want, m)
      && (HeldAt(th.pc, th.want, m) && !(th.pc.SetDb? && th.pc.j == m) ==> a[m] in s.db && s.db[a[m]] == t)
  }

  ghost predicate Inv(c: Config, s: State) {
    && GoodConfig(c) && Fits(c, s)
    && (forall t :: 0 <= t < |s.threads| ==>
          LocalOk(s.threads[t]) && LoopOk(s.threads[t], c.aDb[t]) && SharedOk(c.addr[t], s, t, s.threads[t]))
    && (forall a :: a in s.holder ==> s.holder[a] < |s.threads| && a in c.addr[s.holder[a]])
  }

  // ---------- Every step keeps the invariant

  /** A statement changes the thread's own variables as the flags table says. */
  lemma StatementKeepsLocal(th: Thread, busy: bool)
    requires LocalOk(th) && th.pc != Idle && !MustWait(th, busy)
    ensures LocalOk(Statement(th, busy).0)
  {
    var th' := Statement(th, busy).0;
    assert Sized(th') && CountsAt(th'.pc, th'.want);
    forall m | 0 <= m < |th'.want| { StatementFlag(th, busy, m); }
    hide Statement, FlagAt, CountsAt, Sized;
  }

  lemma StatementFlag(th: Thread, busy: bool, m: nat)
    requires LocalOk(th) && th.pc != Idle && !MustWait(th, busy) && m < |th.want|
    ensures var th' := Statement(th, busy).0;
      |th'.locked| == |th'.want| == |th.want| && th'.locked[m] == FlagAt(th'.pc, th'.want, m)
  {
  }

  /** The table of held mutexes changes from th to th' exactly by effect e. */
  ghost predicate Moves(th: Thread, th': Thread, e: Effect, m: nat)
    requires m < |th.want|
  {
    && |th'.want| == |th.want|
    && (e.Nothing? || e.j < |th.want|)
    && (e.OwnDb? <==> th.pc.SetDb?) && (e.OwnDb? ==> e.j == th.pc.j && HeldAt(th.pc, th.want, e.j))
    && (e.Drop? ==> HeldAt(th.pc, th.want, e.j))
    && (e.Acquire? ==> th'.pc.SetDb? && th'.pc.j == e.j)
    && (th'.pc.SetDb? ==> e.Acquire?)
    && HeldAt(th'.pc, th'.want, m) ==
       if e.Acquire? && e.j == m then true else if e.Drop? && e.j == m then false else HeldAt(th.pc, th.want, m)
  }

  lemma StatementMoves(th: Thread, busy: bool, m: nat)
    requires LocalOk(th) && th.pc != Idle && !MustWait(th, busy) && m < |th.want|
    ensures Moves(th, Statement(th, busy).0, Statement(th, busy).1, m)
  {
  }

  /** Only a free mutex is acquired. */
  lemma AcquiresTarget(th: Thread, busy: bool)
    requires LocalOk(th) && th.pc != Idle && !MustWait(th, busy)
    ensures var e := Statement(th, busy).1;
      (e.Nothing? || e.j < |th.want|) && (e.Acquire? ==> !busy && Target(th) == Some(e.j))
    ensures var th' := Statement(th, busy).0; th'.want == th.want && th'.outer == th.outer
  {
  }

  lemma AddrDistinct(a: seq<nat>, bound: nat, k: nat, m: nat)
    requires Ascending(a, bound) && k < |a| && m < |a| && k != m
    ensures a[k] != a[m]
  {
  }

  lemma EffectMatches(a: seq<nat>, bound: nat, s: State, t: nat, th: Thread, th': Thread, e: Effect)
    requires Ascending(a, bound) && |th.want| == |th'.want| == |a| && (e.Nothing? || e.j < |a|)
    requires SharedOk(a, s, t, th) && forall m :: 0 <= m < |a| ==> Moves(th, th', e, m)
    ensures SharedOk(a, Apply(s, t, a, e), t, th')
  {
    var s' := Apply(s, t, a, e);
    forall m | 0 <= m < |a|
      ensures Has(a, s', t, m) == HeldAt(th'.pc, th'.want, m)
      ensures HeldAt(th'.pc, th'.want, m) && !(th'.pc.SetDb? && th'.pc.j == m) ==> a[m] in s'.db && s'.db[a[m]] == t
    {
      assert Moves(th, th', e, m);
      hide HeldAt;
      if !e.Nothing? && e.j != m { AddrDistinct(a, bound, e.j, m); }
    }
  }

  /** The acting thread: its flags, mutexes and db fields match its new program point. */
  lemma RunKeepsOwn(c: Config, s: State, t: nat)
    requires Inv(c, s) && t < |s.threads| && s.threads[t].pc != Idle && !Blocked(c, s, t)
    ensures var s' := Run(c, s, t);
      && LocalOk(s'.threads[t]) && |s'.threads[t].want| == |c.addr[t]|
      && SharedOk(c.addr[t], s', t, s'.threads[t])
  {
    var a, th, busy := c.addr[t], s.threads[t], Busy(c, s, t);
    hide Statement, Moves, HeldAt, LocalOk, Busy, LoopOk;
    assert Ascending(a, c.bound) && LocalOk(th) && SharedOk(a, s, t, th) && !MustWait(th, busy);
    hide Inv, SharedOk, GoodConfig;
    StatementKeepsLocal(th, busy);
    forall m | 0 <= m < |a| { StatementMoves(th, busy, m); }
    AcquiresTarget(th, busy);
    var (th', e) := Statement(th, busy);
    EffectMatches(a, c.bound, s, t, th, th', e);
  }

  /** What another thread relies on: its own variables, its mutexes and the db fields under them. */
  ghost predicate OnlyBy(s: State, s': State, t: nat) {
    && |s'.threads| == |s.threads|
    && (forall u :: 0 <= u < |s.threads| && u != t ==> s'.threads[u] == s.threads[u])
    && (forall a :: a in s.holder && s.holder[a] != t ==> a in s'.holder && s'.holder[a] == s.holder[a])
    && (forall a :: a in s'.holder && s'.holder[a] != t ==> a in s.holder && s.holder[a] == s'.holder[a])
    && (forall a :: a in s.holder && s.holder[a] != t && a in s.db ==> a in s'.db && s'.db[a] == s.db[a])
  }

  /** A free mutex is acquired, an own one dropped, and only an own db field written. */
  ghost predicate Fair(a: seq<nat>, s: State, t: nat, e: Effect) {
    && (e.Nothing? || e.j < |a|)
    && (e.Acquire? ==> a[e.j] !in s.holder)
    && (e.Drop? || e.OwnDb? ==> Has(a, s, t, e.j))
  }

  lemma EffectIsLocal(a: seq<nat>, s: State, t: nat, th: Thread, e: Effect)
    requires t < |s.threads| && Fair(a, s, t, e)
    ensures var s' := With(Apply(s, t, a, e), t, th);
      && OnlyBy(s, s', t)
      && (forall b :: b in s'.holder ==> b in s.holder || (s'.holder[b] == t && b in a))
      && (forall b :: b in s'.holder && b in s.holder ==> s'.holder[b] == s.holder[b])
  {
  }

  lemma RunIsFair(c: Config, s: State, t: nat)
    requires Inv(c, s) && t < |s.threads| && s.threads[t].pc != Idle && !Blocked(c, s, t)
    ensures Fair(c.addr[t], s, t, Statement(s.threads[t], Busy(c, s, t)).1)
  {
    var a, th, busy := c.addr[t], s.threads[t], Busy(c, s, t);
    AcquiresTarget(th, busy);
    var (th', e) := Statement(th, busy);
    if !e.Nothing? {
      StatementMoves(th, busy, e.j);
      hide Statement, HeldAt, LocalOk;
      assert Has(a, s, t, e.j) == HeldAt(th.pc, th.want, e.j);
    }
  }

  lemma OthersKept(a: seq<nat>, s: State, s': State, t: nat, u: nat, th: Thread)
    requires u != t && OnlyBy(s, s', t) && |th.want| == |a| && SharedOk(a, s, u, th)
    ensures SharedOk(a, s', u, th)
  {
  }

  /** Starting Enter or Leave, or moving on in an All loop, touches counts only. */
  ghost predicate CallStep(th: Thread, th': Thread, e: Event) {
    && th.pc == Idle
    && match e
       case Enter(k) => k < |th.want| == |th.locked| && th' == BeginEnter(th, k, th'.outer)
       case Leave(k) => k < |th.want| && th.want[k] > 0 && th' == BeginLeave(th, k, th'.outer)
       case _ => th' == th.(outer := th'.outer)
  }

  lemma CallKeepsOwn(a: seq<nat>, s: State, t: nat, th: Thread, th': Thread, e: Event)
    requires LocalOk(th) && |th.want| == |a| && SharedOk(a, s, t, th) && CallStep(th, th', e)
    ensures LocalOk(th') && |th'.want| == |a| && SharedOk(a, s, t, th')
  {
    forall m | 0 <= m < |a| ensures HeldAt(th'.pc, th'.want, m) == HeldAt(th.pc, th.want, m) && !th'.pc.SetDb? {}
    hide HeldAt;
  }

  /** Every step is a statement of one thread inside a call, or a call step of that thread. */
  lemma StepShape(c: Config, s: State, t: nat, e: Event, s': State)
    requires Inv(c, s) && Step(c, s, t, e, s')
    ensures if s.threads[t].pc != Idle then e == Tau && !Blocked(c, s, t) && s' == Run(c, s, t)
            else
              && |s'.threads| == |s.threads| && s' == With(s, t, s'.threads[t])
              && CallStep(s.threads[t], s'.threads[t], e)
  {
  }

  /** EnterAll: the databases passed so far stay wanted, and the next one becomes it. */
  lemma PassedOneMore(th: Thread, slots: seq<Slot>, i: nat)
    requires i < |slots| && AllWanted(th, slots[..i], 0)
    requires slots[i].Shared? ==> slots[i].k < |th.want| == |th.locked|
    ensures AllWanted(if slots[i].Shared? then BeginEnter(th, slots[i].k, EnterAll(i + 1)) else th, slots[..i + 1], 0)
  {
    assert slots[..i + 1] == slots[..i] + [slots[i]];
  }

  /** LeaveAll: each database occurs once, so the ones to come stay wanted. */
  lemma LeftOne(th: Thread, slots: seq<Slot>, i: nat)
    requires i < |slots| && AllWanted(th, slots, i) && SlotsOf(slots, |th.want|)
    requires slots[i].Shared? ==> slots[i].k < |th.want| && th.want[slots[i].k] > 0
    ensures AllWanted(if slots[i].Shared? then BeginLeave(th, slots[i].k, LeaveAll(i + 1)) else th, slots, i + 1)
  {
  }

  /** A statement inside a call changes neither the counts nor the loop. */
  lemma CallKeepsLoop(c: Config, s: State, t: nat)
    requires Inv(c, s) && t < |s.threads| && s.threads[t].pc != Idle && !Blocked(c, s, t)
    ensures var s' := Run(c, s, t); t < |s'.threads| && LoopOk(s'.threads[t], c.aDb[t])
  {
    AcquiresTarget(s.threads[t], Busy(c, s, t));
    assert LoopOk(s.threads[t], c.aDb[t]);
    hide Statement, Inv, LocalOk, SharedOk;
  }

  /** The loop bookkeeping survives every step of its own thread. */
  lemma StepKeepsLoop(c: Config, s: State, t: nat, e: Event, s': State)
    requires Inv(c, s) && Step(c, s, t, e, s')
    ensures t < |s'.threads| && LoopOk(s'.threads[t], c.aDb[t])
  {
    var th, slots := s.threads[t], c.aDb[t];
    assert SlotsOf(slots, |th.want|) && LoopOk(th, slots);
    if th.pc != Idle {
      CallKeepsLoop(c, s, t);
    } else {
      hide Inv, AllWanted, SlotsOf, BeginEnter, BeginLeave, LocalOk, SharedOk;
      match th.outer
      case NoLoop =>
        assert slots[..0] == [];
        NothingPassed(th);
      case EnterAll(i) =>
        if i < |slots| { PassedOneMore(th, slots, i); }
      case LeaveAll(i) =>
        if i < |slots| { LeftOne(th, slots, i); }
    }
  }

  lemma NothingPassed(th: Thread)
    ensures AllWanted(th, [], 0)
  {
  }

  lemma RunKeepsRest(c: Config, s: State, t: nat)
    requires Inv(c, s) && t < |s.threads| && s.threads[t].pc != Idle && !Blocked(c, s, t)
    ensures RestKept(c, s, Run(c, s, t), t)
  {
    var e := Statement(s.threads[t], Busy(c, s, t));
    RunIsFair(c, s, t);
    EffectIsLocal(c.addr[t], s, t, e.0, e.1);
    hide Statement, LocalOk, LoopOk, SharedOk, Busy;
  }

  /** All but the acting thread's own obligations. */
  ghost predicate RestKept(c: Config, s: State, s': State, t: nat) {
    && |s'.threads| == |s.threads| && OnlyBy(s, s', t)
    && forall a :: a in s'.holder ==> s'.holder[a] < |s.threads| && s'.holder[a] < |c.addr| && a in c.addr[s'.holder[a]]
  }

  lemma Assemble(c: Config, s: State, s': State, t: nat)
    requires Inv(c, s) && t < |s.threads| && RestKept(c, s, s', t)
    requires |s'.threads[t].want| == |c.addr[t]|
    requires LocalOk(s'.threads[t]) && LoopOk(s'.threads[t], c.aDb[t]) && SharedOk(c.addr[t], s', t, s'.threads[t])
    ensures Inv(c, s')
  {
    assert |s'.threads[t].locked| == |c.addr[t]|;
    hide LocalOk, LoopOk, SharedOk;
    forall u | 0 <= u < |s.threads| && u != t ensures SharedOk(c.addr[u], s', u, s'.threads[u]) {
      OthersKept(c.addr[u], s, s', t, u, s.threads[u]);
    }
  }

  /** Whatever any thread does next, the invariant survives. */
  lemma StepKeepsInv(c: Config, s: State, t: nat, e: Event, s': State)
    requires Inv(c, s) && Step(c, s, t, e, s')
    ensures Inv(c, s')
  {
    StepShape(c, s, t, e, s');
    StepKeepsLoop(c, s, t, e, s');
    assert t < |s.threads| && t < |s'.threads|;
    hide Step, Run, LoopOk, Blocked;
    if s.threads[t].pc != Idle {
      RunKeepsOwn(c, s, t);
      RunKeepsRest(c, s, t);
    } else {
      CallKeepsOwn(c.addr[t], s, t, s.threads[t], s'.threads[t], e);
      SameShared(c.addr[t], s, s', t, s'.threads[t]);
    }
    hide CallStep, LocalOk, SharedOk;
    Assemble(c, s, s', t);
  }

  lemma SameShared(a: seq<nat>, s: State, s': State, t: nat, th: Thread)
    requires |th.want| == |a| && s'.holder == s.holder && s'.db == s.db && SharedOk(a, s, t, th)
    ensures SharedOk(a, s', t, th)
  {
  }

  // ---------- Runs

  /** One step of a run: which thread moved and what it started. */
  datatype Move = Move(t: nat, e: Event)

  /** states[i+1] follows states[i] by moves[i]. */
  ghost predicate IsRun(c: Config, states: seq<State>, moves: seq<Move>) {
    && |states| == |moves| + 1
    && GoodConfig(c) && Init(c, states[0])
    && forall i :: 0 <= i < |moves| ==> Step(c, states[i], moves[i].t, moves[i].e, states[i+1])
  }

  lemma InitInv(c: Config, s: State)
    requires GoodConfig(c) && Init(c, s)
    ensures Inv(c, s)
  {
  }

  lemma {:induction false} RunInv(c: Config, states: seq<State>, moves: seq<Move>, i: nat)
    requires IsRun(c, states, moves) && i < |states|
    ensures Inv(c, states[i])
  {
    if i == 0 {
      InitInv(c, states[0]);
    } else {
      RunInv(c, states, moves, i - 1);
      hide Inv, Step;
      StepKeepsInv(c, states[i-1], moves[i-1].t, moves[i-1].e, states[i]);
    }
  }

  /** Some run leads to s; so the invariant holds in s. */
  ghost predicate Reachable(c: Config, s: State): (r: bool)
    ensures r ==> Inv(c, s)
  {
    if exists states, moves :: IsRun(c, states, moves) && states[|moves|] == s then
      var states, moves :| IsRun(c, states, moves) && states[|moves|] == s;
      RunInv(c, states, moves, |moves|);
      true
    else false
  }

  lemma InitReachable(c: Config, s: State)
    requires GoodConfig(c) && Init(c, s)
    ensures Reachable(c, s)
  {
    var none: seq<Move> := [];
    assert IsRun(c, [s], none) && [s][|none|] == s;
  }

  lemma StepReachable(c: Config, s: State, t: nat, e: Event, s': State)
    requires Reachable(c, s) && Step(c, s, t, e, s')
    ensures Reachable(c, s')
  {
    var states, moves :| IsRun(c, states, moves) && states[|moves|] == s;
    var states', moves' := states + [s'], moves + [Move(t, e)];
    hide Step, Init, Inv, GoodConfig;
    forall i | 0 <= i < |moves'| ensures Step(c, states'[i], moves'[i].t, moves'[i].e, states'[i + 1]) {
      if i < |moves| { assert Step(c, states[i], moves[i].t, moves[i].e, states[i + 1]); }
    }
    assert IsRun(c, states', moves') && states'[|moves'|] == s';
  }

  // ---------- What holds in every reachable state

  /** A waiting thread waits for the mutex at this address. */
  function AwaitedAddr(c: Config, s: State, t: nat): nat
    requires Fits(c, s) && t < |s.threads| && Sized(s.threads[t]) && Blocked(c, s, t)
  {
    c.addr[t][Target(s.threads[t]).value]
  }

  /** A thread that waits for a mutex holds only mutexes at smaller addresses, and the one it waits for is
      held by another thread. */
  lemma WaitsUpwards(c: Config, s: State, t: nat)
    requires Reachable(c, s) && t < |s.threads| && Blocked(c, s, t)
    ensures forall a :: a in s.holder && s.holder[a] == t ==> a < AwaitedAddr(c, s, t)
    ensures AwaitedAddr(c, s, t) in s.holder && s.holder[AwaitedAddr(c, s, t)] != t
  {
  }

  /** Thread t waits for a mutex that thread u holds. */
  ghost predicate WaitsFor(c: Config, s: State, t: nat, u: nat)
    requires Fits(c, s) && t < |s.threads| && Sized(s.threads[t])
  {
    Blocked(c, s, t) && AwaitedAddr(c, s, t) in s.holder && s.holder[AwaitedAddr(c, s, t)] == u
  }

  ghost predicate Chain(c: Config, s: State, ts: seq<nat>)
    requires Fits(c, s) && forall t :: 0 <= t < |s.threads| ==> Sized(s.threads[t])
  {
    && (forall i :: 0 <= i < |ts| ==> ts[i] < |s.threads|)
    && forall i :: 0 <= i < |ts| - 1 ==> WaitsFor(c, s, ts[i], ts[i+1])
  }

  /** Along a chain of waiting threads the awaited addresses rise. */
  lemma {:induction false} ChainRises(c: Config, s: State, ts: seq<nat>, i: nat)
    requires Reachable(c, s) && Chain(c, s, ts) && 0 < i < |ts| && Blocked(c, s, ts[i])
    ensures Blocked(c, s, ts[0]) && AwaitedAddr(c, s, ts[0]) < AwaitedAddr(c, s, ts[i])
  {
    hide Reachable, SharedOk, LoopOk, GoodConfig, MustWait, Target;
    assert WaitsFor(c, s, ts[i-1], ts[i]);
    WaitsUpwards(c, s, ts[i]);
    if i > 1 {
      ChainRises(c, s, ts, i - 1);
    }
  }

  /** No deadlock: no reachable state has a cycle of threads each waiting for the next. */
  lemma NoWaitCycle(c: Config, s: State, ts: seq<nat>)
    requires Reachable(c, s) && |ts| > 1 && ts[0] == ts[|ts|-1]
    ensures !Chain(c, s, ts)
  {
    if Chain(c, s, ts) {
      hide Reachable, SharedOk, LoopOk, GoodConfig, MustWait, Target;
      assert WaitsFor(c, s, ts[0], ts[1]);
      ChainRises(c, s, ts, |ts| - 1);
    }
  }

  /** Something can always move: whoever waits, following the holders leads to a thread that holds a mutex
      and does not wait. */
  lemma {:induction false} SomeHolderRuns(c: Config, s: State, t: nat) returns (u: nat, a: nat)
    requires Reachable(c, s) && t < |s.threads| && Blocked(c, s, t)
    ensures a in s.holder && s.holder[a] == u && a >= AwaitedAddr(c, s, t)
    ensures u < |s.threads| && !Blocked(c, s, u)
    decreases c.bound - AwaitedAddr(c, s, t)
  {
    WaitsUpwards(c, s, t);
    a := AwaitedAddr(c, s, t);
    u := s.holder[a];
    assert Ascending(c.addr[u], c.bound);
    assert a < c.bound;
    if Blocked(c, s, u) {
      WaitsUpwards(c, s, u);
      hide Reachable, SharedOk, LoopOk, LocalOk, MustWait, Target;
      u, a := SomeHolderRuns(c, s, u);
    }
  }

  /** Outside Enter and Leave a Btree is locked, its mutex held and its db field its own exactly when it is wanted. */
  lemma OnReturn(c: Config, s: State, t: nat, m: nat)
    requires Reachable(c, s) && t < |s.threads| && m < |c.addr[t]| && s.threads[t].pc == Idle
    ensures s.threads[t].locked[m] <==> s.threads[t].want[m] > 0
    ensures s.threads[t].locked[m] <==> Has(c.addr[t], s, t, m)
    ensures s.threads[t].locked[m] ==> c.addr[t][m] in s.db && s.db[c.addr[t][m]] == t
  {
  }

  /** The thread is between leaving the mutex of Btree m and clearing its locked flag. */
  predicate Leaving(th: Thread, m: nat) {
    (th.pc.Clear? && th.pc.j == m) || (th.pc.ClearLast? && th.pc.k == m)
  }

  /** The thread holds the mutex of Btree m and has done everything that goes with it. */
  predicate Settled(a: seq<nat>, s: State, t: nat, th: Thread, m: nat)
    requires m < |a|
  {
    Has(a, s, t, m) && !(th.pc.SetDb? && th.pc.j == m) && !(th.pc.SetLocked? && th.pc.j == m)
  }

  /** A Btree is flagged locked exactly if its mutex is held and the entry is finished, or if the mutex was just
      left and the flag is about to be cleared. */
  lemma FlaggedExactly(c: Config, s: State, t: nat, m: nat)
    requires Reachable(c, s) && t < |s.threads| && m < |c.addr[t]|
    ensures var th := s.threads[t];
      th.locked[m] <==> Leaving(th, m) || Settled(c.addr[t], s, t, th, m)
  {
    hide Reachable;
  }

  /** Two Btrees of one shared B-tree are flagged at once exactly if one has just left the mutex and the other has
      entered or has just left it, too. */
  lemma BothLockedExactly(c: Config, s: State, t: nat, u: nat, m: nat, k: nat)
    requires Reachable(c, s) && t < |s.threads| && u < |s.threads| && t != u
    requires m < |c.addr[t]| && k < |c.addr[u]| && c.addr[t][m] == c.addr[u][k]
    ensures var x, y := s.threads[t], s.threads[u];
      x.locked[m] && y.locked[k] <==>
        || (Leaving(x, m) && (Leaving(y, k) || Settled(c.addr[u], s, u, y, k)))
        || (Leaving(y, k) && Settled(c.addr[t], s, t, x, m))
  {
    FlaggedExactly(c, s, t, m);
    FlaggedExactly(c, s, u, k);
    hide Reachable, Inv;
  }

  /** A flagged Btree is unwanted exactly inside the last Leave, and its mutex is not held exactly after it was left,
      by that Leave or by the back-off loop of Enter, and before the flag is cleared. Only then can the db field be
      another connection's; whether it is depends on what that one has done since, and not on this thread. */
  lemma LockedIsWanted(c: Config, s: State, t: nat, m: nat)
    requires Reachable(c, s) && t < |s.threads| && m < |c.addr[t]|
    ensures var th := s.threads[t]; th.locked[m] && th.want[m] == 0 <==> th.pc == Unlock(m) || th.pc == ClearLast(m)
    ensures var th := s.threads[t]; th.locked[m] && !Has(c.addr[t], s, t, m) <==> Leaving(th, m)
    ensures var th, x := s.threads[t], c.addr[t][m];
      th.locked[m] && !(x in s.db && s.db[x] == t) ==> Leaving(th, m)
  {
    hide Reachable;
  }

  /** The asserts of lockBtreeMutex, unlockBtreeMutex and sqlite3BtreeLeave at the statement a thread has reached. */
  ghost predicate AssertsHold(c: Config, s: State, t: nat)
    requires Fits(c, s) && t < |s.threads| && Sized(s.threads[t])
  {
    var a, th := c.addr[t], s.threads[t];
    match th.pc
    case LockSelf(k) => !th.locked[k] && !Has(a, s, t, k)
    case Relock(k, j) => j < |a| && th.want[j] > 0 ==> !th.locked[j] && !Has(a, s, t, j)
    case Release(k, j) =>
      j < |a| && th.locked[j] ==> th.want[j] > 0 && Has(a, s, t, j) && a[j] in s.db && s.db[a[j]] == t
    case Unlock(k) => th.locked[k] && Has(a, s, t, k) && a[k] in s.db && s.db[a[k]] == t
    case _ => true
  }

  lemma AssertsNeverFail(c: Config, s: State, t: nat)
    requires Reachable(c, s) && t < |s.threads|
    ensures AssertsHold(c, s, t)
  {
  }

  /** sqlite3BtreeHoldsAllMutexes */
  predicate HoldsAllMutexes(c: Config, s: State, t: nat)
    requires Fits(c, s) && t < |s.threads|
  {
    forall i :: 0 <= i < |c.aDb[t]| && c.aDb[t][i].Shared? ==>
      var k := c.aDb[t][i].k;
      k < |c.addr[t]| && s.threads[t].want[k] > 0 && Has(c.addr[t], s, t, k)
  }

  /** When the loop of sqlite3BtreeEnterAll ends, every mutex the connection needs is held. */
  lemma EnterAllHoldsAll(c: Config, s: State, t: nat)
    requires Reachable(c, s) && t < |s.threads|
    requires s.threads[t].pc == Idle && s.threads[t].outer == EnterAll(|c.aDb[t]|)
    ensures HoldsAllMutexes(c, s, t)
  {
  }

  // ---------- Counting

  function Starts(moves: seq<Move>, m: Move): nat {
    if moves == [] then 0 else Starts(moves[..|moves|-1], m) + if moves[|moves|-1] == m then 1 else 0
  }

  lemma CountStep(c: Config, s: State, t: nat, e: Event, s': State, u: nat, k: nat)
    requires Inv(c, s) && Step(c, s, t, e, s') && u < |s.threads| && k < |c.addr[u]|
    ensures |s'.threads| == |s.threads| && |s'.threads[u].want| == |c.addr[u]|
    ensures s'.threads[u].want[k] == s.threads[u].want[k]
              + (if t == u && e == Enter(k) then 1 else 0) - (if t == u && e == Leave(k) then 1 else 0)
  {
    StepShape(c, s, t, e, s');
    hide Step;
    if s.threads[t].pc != Idle {
      AcquiresTarget(s.threads[t], Busy(c, s, t));
      hide Statement;
    }
  }

  /** Over any run the count of a Btree is the calls of Enter on it minus the calls of Leave, those made by the
      All loops included: equally many of both restore it, whatever the other threads did meanwhile. */
  lemma {:induction false} CountsBalance(c: Config, states: seq<State>, moves: seq<Move>, n: nat, t: nat, k: nat)
    requires IsRun(c, states, moves) && n < |states| && t < |c.addr| && k < |c.addr[t]|
    ensures Inv(c, states[n])
    ensures states[n].threads[t].want[k] + Starts(moves[..n], Move(t, Leave(k))) ==
      Starts(moves[..n], Move(t, Enter(k)))
  {
    RunInv(c, states, moves, n);
    if n == 0 {
      assert moves[..0] == [];
    } else {
      CountsBalance(c, states, moves, n - 1, t, k);
      assert moves[..n][..n-1] == moves[..n-1];
      hide Inv, Step;
      var m := moves[n-1];
      assert Step(c, states[n-1], m.t, m.e, states[n]);
      CountStepOf(c, states[n-1], m, states[n], t, k);
    }
  }

  lemma CountStepOf(c: Config, s: State, m: Move, s': State, u: nat, k: nat)
    requires Inv(c, s) && Step(c, s, m.t, m.e, s') && u < |c.addr| && k < |c.addr[u]|
    ensures |s.threads| == |s'.threads| == |c.addr| && |s.threads[u].want| == |s'.threads[u].want| == |c.addr[u]|
    ensures s'.threads[u].want[k] + (if m == Move(u, Leave(k)) then 1 else 0)
              == s.threads[u].want[k] + (if m == Move(u, Enter(k)) then 1 else 0)
  {
    CountStep(c, s, m.t, m.e, s', u, k);
  }

  // ---------- What a whole All loop does to the counts

  /** Btree k is one of the first i entries of the list. */
  function Listed(slots: seq<Slot>, i: nat, k: nat): nat
    requires i <= |slots|
  {
    if Shared(k) in slots[..i] then 1 else 0
  }

  /** Since the loop was started with counts `was`, each Btree passed was entered or left once, and no other. */
  ghost predicate LoopCounts(was: seq<nat>, th: Thread, slots: seq<Slot>) {
    && |th.want| == |was|
    && match th.outer
       case NoLoop => true
       case EnterAll(i) => i <= |slots| && forall k :: 0 <= k < |was| ==> th.want[k] == was[k] + Listed(slots, i, k)
       case LeaveAll(i) => i <= |slots| && forall k :: 0 <= k < |was| ==> th.want[k] + Listed(slots, i, k) == was[k]
  }

  /** One more entry of a list in which no Btree occurs twice. */
  lemma ListedStep(slots: seq<Slot>, n: nat, i: nat, k: nat)
    requires SlotsOf(slots, n) && i < |slots|
    ensures Listed(slots, i + 1, k) == Listed(slots, i, k) + if slots[i] == Shared(k) then 1 else 0
  {
    assert slots[..i+1] == slots[..i] + [slots[i]];
  }

  /** Any step of any thread inside the loop of thread t, up to and including the one that ends it. */
  lemma LoopCountsStep(c: Config, s: State, m: Move, s': State, t: nat, was: seq<nat>)
    requires Inv(c, s) && Step(c, s, m.t, m.e, s') && t < |s.threads|
    requires s.threads[t].outer != NoLoop && LoopCounts(was, s.threads[t], c.aDb[t])
    ensures t < |s'.threads| && LoopCounts(was, s'.threads[t], c.aDb[t])
    ensures var th, th', n := s.threads[t], s'.threads[t], |c.aDb[t]|;
      th'.outer == NoLoop ==> th'.want == th.want && th'.pc == Idle && th.outer in {EnterAll(n), LeaveAll(n)}
    ensures s'.threads[t].outer != NoLoop ==> (s'.threads[t].outer.EnterAll? <==> s.threads[t].outer.EnterAll?)
  {
    StepShape(c, s, m.t, m.e, s');
    var th, slots := s.threads[t], c.aDb[t];
    assert SlotsOf(slots, |th.want|);
    if m.t != t {
      OthersUntouched(c, s, m, s', t);
    } else if th.pc != Idle {
      AcquiresTarget(th, Busy(c, s, t));
      hide Statement, Inv;
    } else {
      var i := th.outer.i;
      if i < |slots| {
        forall k: nat { ListedStep(slots, |th.want|, i, k); }
      }
      hide Inv, Listed, SlotsOf;
    }
  }

  lemma OthersUntouched(c: Config, s: State, m: Move, s': State, t: nat)
    requires Inv(c, s) && Step(c, s, m.t, m.e, s') && t < |s.threads| && m.t != t
    ensures t < |s'.threads| && s'.threads[t] == s.threads[t]
  {
    StepShape(c, s, m.t, m.e, s');
    if s.threads[m.t].pc != Idle { RunKeepsRest(c, s, m.t); }
    hide Step, Inv, Run;
  }

  /** From state i to state j, thread t is in one All loop, which move i starts and move j-1 ends. */
  ghost predicate Loop(states: seq<State>, moves: seq<Move>, t: nat, i: nat, j: nat, start: Event) {
    && i < j < |states| && |states| == |moves| + 1
    && moves[i] == Move(t, start) && start in {StartEnterAll, StartLeaveAll}
    && (forall n :: i < n <= j ==> t < |states[n].threads|)
    && (forall n :: i < n < j ==> states[n].threads[t].outer != NoLoop)
    && states[j].threads[t].outer == NoLoop
  }

  lemma LoopStarts(c: Config, s: State, t: nat, start: Event, s': State)
    requires Inv(c, s) && Step(c, s, t, start, s') && start in {StartEnterAll, StartLeaveAll}
    ensures t < |s'.threads| && LoopCounts(s.threads[t].want, s'.threads[t], c.aDb[t])
    ensures s'.threads[t].outer == if start == StartEnterAll then EnterAll(0) else LeaveAll(0)
  {
  }

  lemma RunStep(c: Config, states: seq<State>, moves: seq<Move>, n: nat)
    requires IsRun(c, states, moves) && n < |moves|
    ensures |states| == |moves| + 1 && |c.addr| == |c.aDb|
    ensures Inv(c, states[n]) && Inv(c, states[n+1]) && Step(c, states[n], moves[n].t, moves[n].e, states[n+1])
    ensures |states[n].threads| == |states[n+1].threads| == |c.addr|
    ensures forall t :: 0 <= t < |c.addr| ==> |states[n].threads[t].want| == |c.addr[t]|
    ensures forall t :: 0 <= t < |c.addr| ==> |states[n+1].threads[t].want| == |c.addr[t]|
  {
    RunInv(c, states, moves, n);
    RunInv(c, states, moves, n + 1);
    hide Step, LocalOk, LoopOk, SharedOk;
  }

  /** The loop is still in order in state n. */
  ghost predicate InLoop(c: Config, s: State, t: nat, was: seq<nat>, start: Event) {
    && t < |s.threads| && t < |c.aDb|
    && LoopCounts(was, s.threads[t], c.aDb[t]) && s.threads[t].outer.EnterAll? == (start == StartEnterAll)
  }

  lemma LoopFirst(c: Config, s: State, t: nat, start: Event, s': State)
    requires Inv(c, s) && Step(c, s, t, start, s') && start in {StartEnterAll, StartLeaveAll} && t < |s.threads|
    ensures InLoop(c, s', t, s.threads[t].want, start) && s'.threads[t].outer != NoLoop
  {
    LoopStarts(c, s, t, start, s');
    hide Inv, Step, LoopCounts;
  }

  lemma LoopNext(c: Config, s: State, m: Move, s': State, t: nat, was: seq<nat>, start: Event)
    requires Inv(c, s) && Step(c, s, m.t, m.e, s') && InLoop(c, s, t, was, start) && s.threads[t].outer != NoLoop
    ensures t < |s'.threads| && (s'.threads[t].outer != NoLoop ==> InLoop(c, s', t, was, start))
    ensures s'.threads[t].outer == NoLoop ==> LoopDone(was, s'.threads[t], c.aDb[t], start)
  {
    assert t < |c.aDb|;
    LoopCountsStep(c, s, m, s', t, was);
    var slots := c.aDb[t];
    assert slots[..|slots|] == slots;
    hide Inv, Step;
  }

  /** Every sharable Btree of the list was entered or left once. */
  ghost predicate LoopDone(was: seq<nat>, th: Thread, slots: seq<Slot>, start: Event) {
    && th.pc == Idle && |th.want| == |was|
    && forall k :: 0 <= k < |was| ==>
         if Shared(k) !in slots then th.want[k] == was[k]
         else if start == StartEnterAll then th.want[k] == was[k] + 1
         else th.want[k] + 1 == was[k]
  }

  lemma {:induction false} LoopGoesOn(c: Config, states: seq<State>, moves: seq<Move>, t: nat, i: nat, j: nat,
                                      start: Event, n: nat)
    requires IsRun(c, states, moves) && Loop(states, moves, t, i, j, start) && i < n < j
    ensures t < |states[i].threads| && InLoop(c, states[n], t, states[i].threads[t].want, start)
    decreases n
  {
    hide IsRun, Step, Inv, InLoop;
    RunStep(c, states, moves, n - 1);
    if n == i + 1 {
      StepsOwn(c, states[i], t, start, states[n]);
      LoopFirst(c, states[i], t, start, states[n]);
    } else {
      LoopGoesOn(c, states, moves, t, i, j, start, n - 1);
      LoopNext(c, states[n-1], moves[n-1], states[n], t, states[i].threads[t].want, start);
    }
  }

  lemma StepsOwn(c: Config, s: State, t: nat, e: Event, s': State)
    requires Step(c, s, t, e, s')
    ensures t < |s.threads|
  {
    hide Run, Blocked;
  }

  /** Over any run sqlite3BtreeEnterAll adds one to the count of every sharable Btree of the connection, and
      sqlite3BtreeLeaveAll takes one away, whatever the other threads do meanwhile. Then a Btree that was wanted once
      is no longer locked, and its mutex not held. */
  lemma AllLoopCounts(c: Config, states: seq<State>, moves: seq<Move>, t: nat, i: nat, j: nat, start: Event)
    requires IsRun(c, states, moves) && Loop(states, moves, t, i, j, start)
    ensures t < |states[i].threads| && t < |c.aDb|
    ensures LoopDone(states[i].threads[t].want, states[j].threads[t], c.aDb[t], start)
  {
    hide IsRun, Step, Inv, LoopDone, InLoop;
    RunStep(c, states, moves, i);
    RunStep(c, states, moves, j - 1);
    if j == i + 1 {
      StepsOwn(c, states[i], t, start, states[j]);
      LoopFirst(c, states[i], t, start, states[j]);
    } else {
      LoopGoesOn(c, states, moves, t, i, j, start, j - 1);
      LoopNext(c, states[j-1], moves[j-1], states[j], t, states[i].threads[t].want, start);
    }
  }

  /** After LeaveAll a Btree that was wanted once is no longer locked, and its mutex not held by this thread. */
  lemma LeaveAllReleases(c: Config, states: seq<State>, moves: seq<Move>, t: nat, i: nat, j: nat, k: nat)
    requires IsRun(c, states, moves) && Loop(states, moves, t, i, j, StartLeaveAll)
    requires t < |c.aDb| && Shared(k) in c.aDb[t]
    requires t < |states[i].threads| && k < |states[i].threads[t].want| && states[i].threads[t].want[k] == 1
    ensures t < |c.addr| && k < |c.addr[t]| && k < |states[j].threads[t].locked|
    ensures !states[j].threads[t].locked[k] && !Has(c.addr[t], states[j], t, k)
  {
    AllLoopCounts(c, states, moves, t, i, j, StartLeaveAll);
    RunInv(c, states, moves, j);
    hide IsRun, Loop;
  }

  /** EnterAll followed by LeaveAll restores every count, if the thread's counts are the same in between. */
  lemma LeaveAllUndoesEnterAll(c: Config, states: seq<State>, moves: seq<Move>, t: nat, i: nat, j: nat, p: nat, q: nat)
    requires IsRun(c, states, moves) && j <= p
    requires Loop(states, moves, t, i, j, StartEnterAll) && Loop(states, moves, t, p, q, StartLeaveAll)
    requires t < |states[p].threads| && states[j].threads[t].want == states[p].threads[t].want
    ensures t < |states[i].threads| && states[q].threads[t].want == states[i].threads[t].want
  {
    AllLoopCounts(c, states, moves, t, i, j, StartEnterAll);
    AllLoopCounts(c, states, moves, t, p, q, StartLeaveAll);
    hide IsRun, Loop;
  }

  // ---------- Every call and every loop comes to its end

  /** More than the statements of any one call among n Btrees. */
  function MaxCall(n: nat): nat {
    5 * n + 5
  }

  /** No more than this many statements are left in the call. */
  function CallWork(pc: Pc, n: nat): int {
    match pc
    case Idle => 0
    case Try(k) => 5 * (n - k) + 3
    case Release(k, j) => 2 * (n - j) + 3 * (n - k) + 2
    case Clear(k, j) => 2 * (n - j) + 3 * (n - k) + 1
    case LockSelf(k) => 3 * (n - k) + 1
    case Relock(k, j) => 3 * (n - j) + 1
    case SetDb(j, next) => if next.Return? then 2 else 3 * (n - j)
    case SetLocked(j, next) => if next.Return? then 1 else 3 * (n - j) - 1
    case Unlock(k) => 2
    case ClearLast(k) => 1
  }

  /** The same for a loop over `entries` databases. */
  function LoopWork(outer: Outer, entries: nat, n: nat): int {
    match outer
    case NoLoop => 0
    case EnterAll(i) => (entries - i + 1) * MaxCall(n)
    case LeaveAll(i) => (entries - i + 1) * MaxCall(n)
  }

  function Work(th: Thread, slots: seq<Slot>): int {
    CallWork(th.pc, |th.want|) + LoopWork(th.outer, |slots|, |th.want|)
  }

  predicate InCall(th: Thread) {
    th.pc != Idle || th.outer != NoLoop
  }

  lemma StatementWorks(th: Thread, busy: bool)
    requires LocalOk(th) && th.pc != Idle && !MustWait(th, busy)
    ensures 0 <= CallWork(Statement(th, busy).0.pc, |th.want|) < CallWork(th.pc, |th.want|) < MaxCall(|th.want|)
  {
  }

  /** One entry of a loop is worth a call. */
  lemma LoopWorks(i: nat, entries: nat, n: nat)
    requires i <= entries
    ensures LoopWork(EnterAll(i), entries, n) == LoopWork(LeaveAll(i), entries, n) >= MaxCall(n)
    ensures i < entries ==> LoopWork(EnterAll(i + 1), entries, n) == LoopWork(EnterAll(i), entries, n) - MaxCall(n)
  {
    var left, call := entries - i, MaxCall(n);
    assert (left + 1) * call == left * call + call;
    assert left * call >= 0;
  }

  /** A call begins with less to do than one entry of a loop is worth. */
  lemma CallWorks(pc: Pc, n: nat)
    requires pc == Idle || (pc.Try? && pc.k < n) || pc.Unlock?
    ensures 0 <= CallWork(pc, n) < MaxCall(n)
  {
  }

  lemma NoLoopWork(entries: nat, n: nat)
    ensures LoopWork(NoLoop, entries, n) == 0 && CallWork(Idle, n) == 0 && MaxCall(n) > 0
  {
  }

  lemma StatementStep(c: Config, s: State, t: nat, e: Event, s': State)
    requires Inv(c, s) && Step(c, s, t, e, s') && s.threads[t].pc != Idle
    ensures !Blocked(c, s, t) && t < |s'.threads|
    ensures s'.threads[t] == Statement(s.threads[t], Busy(c, s, t)).0
  {
    hide Inv, Statement, Busy;
  }

  /** A turn of a loop goes on to the next entry, or ends the loop behind the last one. */
  lemma LoopStep(c: Config, s: State, t: nat, e: Event, s': State)
    requires Inv(c, s) && Step(c, s, t, e, s') && s.threads[t].pc == Idle && s.threads[t].outer != NoLoop
    ensures t < |s'.threads| && |s'.threads[t].want| == |s.threads[t].want|
    ensures var pc, n := s'.threads[t].pc, |s.threads[t].want|;
      pc == Idle || (pc.Try? && pc.k < n) || pc.Unlock?
    ensures var th, th', i := s.threads[t], s'.threads[t], s.threads[t].outer.i;
      if i == |c.aDb[t]| then th'.outer == NoLoop && th'.pc == Idle
      else i < |c.aDb[t]| && th'.outer == (if th.outer.EnterAll? then EnterAll(i + 1) else LeaveAll(i + 1))
  {
    hide Inv;
  }

  /** Each own step inside a call or loop leaves fewer to do. */
  lemma StepWorks(c: Config, s: State, t: nat, e: Event, s': State)
    requires Inv(c, s) && Step(c, s, t, e, s') && InCall(s.threads[t])
    ensures t < |s'.threads| && 0 <= Work(s'.threads[t], c.aDb[t]) < Work(s.threads[t], c.aDb[t])
  {
    hide LoopWork, CallWork, MaxCall, Step, Statement;
    StepsOwn(c, s, t, e, s');
    var th, slots, n := s.threads[t], c.aDb[t], |s.threads[t].want|;
    assert LocalOk(th) && LoopOk(th, slots);
    if th.outer != NoLoop { LoopWorks(th.outer.i, |slots|, n); }
    if th.pc != Idle {
      StatementStep(c, s, t, e, s');
      StatementWorks(th, Busy(c, s, t));
      AcquiresTarget(th, Busy(c, s, t));
      NoLoopWork(|slots|, n);
    } else {
      LoopStep(c, s, t, e, s');
      CallWorks(s'.threads[t].pc, n);
      if th.outer.i < |slots| { LoopWorks(th.outer.i + 1, |slots|, n); }
      NoLoopWork(|slots|, n);
    }
    hide Inv;
  }

  /** A thread inside a call or loop that need not wait has a next step. */
  lemma NeverStuck(c: Config, s: State, t: nat) returns (e: Event, s': State)
    requires Reachable(c, s) && t < |s.threads| && InCall(s.threads[t]) && !Blocked(c, s, t)
    ensures Step(c, s, t, e, s')
  {
    var th, slots := s.threads[t], c.aDb[t];
    assert LocalOk(th) && LoopOk(th, slots) && SlotsOf(slots, |th.want|);
    hide Reachable, Inv;
    if th.pc != Idle {
      e, s' := Tau, Run(c, s, t);
    } else {
      var i := th.outer.i;
      if i == |slots| {
        e, s' := Tau, With(s, t, th.(outer := NoLoop));
      } else if th.outer.EnterAll? {
        if slots[i].Shared? {
          e, s' := Enter(slots[i].k), With(s, t, BeginEnter(th, slots[i].k, EnterAll(i + 1)));
        } else {
          e, s' := Tau, With(s, t, th.(outer := EnterAll(i + 1)));
        }
      } else {
        if slots[i].Shared? {
          e, s' := Leave(slots[i].k), With(s, t, BeginLeave(th, slots[i].k, LeaveAll(i + 1)));
        } else {
          e, s' := Tau, With(s, t, th.(outer := LeaveAll(i + 1)));
        }
      }
    }
  }

  /** The moves of thread t. */
  function MovesOf(moves: seq<Move>, t: nat): nat {
    if moves == [] then 0 else MovesOf(moves[..|moves|-1], t) + if moves[|moves|-1].t == t then 1 else 0
  }

  /** While a thread stays inside one call or loop, each of its steps takes one off what is left to do. */
  lemma {:induction false} WorkShrinks(c: Config, states: seq<State>, moves: seq<Move>, t: nat, i: nat, j: nat)
    requires IsRun(c, states, moves) && i <= j <= |moves| && t < |c.addr|
    requires forall n :: i <= n < j ==> t < |states[n].threads| && InCall(states[n].threads[t])
    ensures |c.aDb| == |c.addr| && t < |states[i].threads| && t < |states[j].threads|
    ensures 0 <= Work(states[j].threads[t], c.aDb[t]) <= Work(states[i].threads[t], c.aDb[t]) - MovesOf(moves[i..j], t)
    decreases j
  {
    hide IsRun, Inv, Step, Work, InCall;
    if j == i {
      assert moves[i..j] == [];
      WorkLeft(c, states, moves, t, j);
    } else {
      WorkShrinks(c, states, moves, t, i, j - 1);
      RunStep(c, states, moves, j - 1);
      assert moves[i..j][..j - i - 1] == moves[i..j - 1];
      var m := moves[j - 1];
      if m.t == t {
        StepWorks(c, states[j-1], t, m.e, states[j]);
      } else {
        OthersUntouched(c, states[j-1], m, states[j], t);
      }
    }
  }

  lemma WorkLeft(c: Config, states: seq<State>, moves: seq<Move>, t: nat, n: nat)
    requires IsRun(c, states, moves) && n <= |moves| && t < |c.addr|
    ensures |c.aDb| == |c.addr| && n < |states| && t < |states[n].threads|
    ensures 0 <= Work(states[n].threads[t], c.aDb[t])
  {
    hide LoopWork, CallWork, LocalOk;
    RunInv(c, states, moves, n);
    var th, slots := states[n].threads[t], c.aDb[t];
    assert LocalOk(th) && LoopOk(th, slots);
    hide IsRun, Inv;
    if th.outer != NoLoop { LoopWorks(th.outer.i, |slots|, |th.want|); }
    NoLoopWork(|slots|, |th.want|);
    WorkInCall(th);
  }

  /** No livelock: over any run, the steps a thread makes while it stays inside one call or loop are bounded, whatever
      the others do: with n Btrees a call takes fewer than 5n+5 of them, a loop over m databases (m+2)(5n+5). */
  lemma CallsEnd(c: Config, states: seq<State>, moves: seq<Move>, t: nat, i: nat, j: nat)
    requires IsRun(c, states, moves) && i <= j <= |moves| && t < |c.addr|
    requires forall n :: i <= n < j ==> t < |states[n].threads| && InCall(states[n].threads[t])
    ensures |c.aDb| == |c.addr| && t < |states[i].threads|
    ensures var n, m := |c.addr[t]|, |c.aDb[t]|;
      if states[i].threads[t].outer == NoLoop then MovesOf(moves[i..j], t) < 5 * n + 5
      else MovesOf(moves[i..j], t) < (m + 2) * (5 * n + 5)
  {
    hide IsRun, InCall, MovesOf, CallWork, LoopWork;
    WorkShrinks(c, states, moves, t, i, j);
    WorkLeft(c, states, moves, t, i);
    RunInv(c, states, moves, i);
    var th, m := states[i].threads[t], |c.aDb[t]|;
    WorkInCall(th);
    assert |th.want| == |c.addr[t]| && LoopOk(th, c.aDb[t]);
    LoopBound(th.outer, m, |th.want|);
    hide Inv, LoopOk;
  }

  lemma LoopBound(outer: Outer, entries: nat, n: nat)
    requires outer == NoLoop || outer.i <= entries
    ensures LoopWork(outer, entries, n) <= if outer == NoLoop then 0 else (entries + 2) * (5 * n + 5) - MaxCall(n)
  {
    var call := MaxCall(n);
    assert (entries + 2) * call == (entries + 1) * call + call;
    if outer != NoLoop { assert (entries - outer.i + 1) * call + outer.i * call == (entries + 1) * call; }
  }

  lemma WorkInCall(th: Thread)
    requires LocalOk(th)
    ensures 0 <= CallWork(th.pc, |th.want|) < MaxCall(|th.want|)
  {
  }

  // ---------- Two Btrees of one shared B-tree can be flagged locked at the same time

  /** The state after thread t has entered its Btree m while nobody else held the mutex. */
  function Entered(c: Config, s: State, t: nat, m: nat): State
    requires t < |s.threads| && t < |c.addr| && m < |c.addr[t]| && Sized(s.threads[t])
    requires |s.threads[t].want| == |c.addr[t]|
  {
    var th, x := s.threads[t], c.addr[t][m];
    State(s.threads[t := Thread(Idle, NoLoop, th.want[m := th.want[m] + 1], th.locked[m := true])], s.holder[x := t],
      s.db[x := t])
  }

  lemma RunReachable(c: Config, s: State, t: nat)
    requires Reachable(c, s) && t < |s.threads| && s.threads[t].pc != Idle && !Blocked(c, s, t)
    ensures Reachable(c, Run(c, s, t))
  {
    hide Run, Blocked, Reachable;
    StepReachable(c, s, t, Tau, Run(c, s, t));
  }

  /** The three statements that complete an entry into a Btree whose mutex is free. */
  lemma EntryRuns(c: Config, s: State, t: nat, m: nat)
    requires Fits(c, s) && t < |s.threads| && Sized(s.threads[t]) && m < |c.addr[t]|
    ensures var th, x, pc := s.threads[t], c.addr[t][m], s.threads[t].pc;
      && (pc == Try(m) && x !in s.holder ==>
            && !Blocked(c, s, t)
            && Run(c, s, t) == State(s.threads[t := th.(pc := SetDb(m, Return))], s.holder[x := t], s.db))
      && (pc == SetDb(m, Return) ==>
            && !Blocked(c, s, t)
            && Run(c, s, t) == State(s.threads[t := th.(pc := SetLocked(m, Return))], s.holder, s.db[x := t]))
      && (pc == SetLocked(m, Return) ==>
            && !Blocked(c, s, t)
            && Run(c, s, t) == State(s.threads[t := th.(pc := Idle, locked := th.locked[m := true])], s.holder, s.db))
  {
    hide Fits;
  }

  lemma CallReachable(c: Config, s: State, t: nat, m: nat)
    requires Reachable(c, s) && t < |s.threads| && m < |c.addr[t]|
    requires s.threads[t].pc == Idle && s.threads[t].outer == NoLoop
    ensures Reachable(c, With(s, t, BeginEnter(s.threads[t], m, NoLoop)))
    ensures s.threads[t].want[m] > 0 ==> Reachable(c, With(s, t, BeginLeave(s.threads[t], m, NoLoop)))
  {
    hide Reachable, With, BeginEnter, BeginLeave;
    StepReachable(c, s, t, Enter(m), With(s, t, BeginEnter(s.threads[t], m, NoLoop)));
    if s.threads[t].want[m] > 0 {
      StepReachable(c, s, t, Leave(m), With(s, t, BeginLeave(s.threads[t], m, NoLoop)));
    }
  }

  lemma TryToEnd(c: Config, s: State, t: nat, m: nat)
    requires Reachable(c, s) && t < |s.threads| && m < |c.addr[t]| && c.addr[t][m] !in s.holder
    requires s.threads[t].pc == Try(m) && m < |s.threads[t].locked|
    ensures var th, x := s.threads[t], c.addr[t][m];
      Reachable(c, State(s.threads[t := th.(pc := Idle, locked := th.locked[m := true])], s.holder[x := t],
        s.db[x := t]))
  {
    hide Reachable, Run, Blocked, LocalOk, LoopOk, SharedOk, GoodConfig;
    EntryRuns(c, s, t, m);
    RunReachable(c, s, t);
    var s2 := Run(c, s, t);
    EntryRuns(c, s2, t, m);
    RunReachable(c, s2, t);
    var s3 := Run(c, s2, t);
    EntryRuns(c, s3, t, m);
    RunReachable(c, s3, t);
    var th := s.threads[t];
    assert Run(c, s3, t).threads == s.threads[t := th.(pc := Idle, locked := th.locked[m := true])];
  }

  /** Entering is starting to enter, with the last three statements applied. */
  lemma EnteredIs(c: Config, s: State, t: nat, m: nat)
    requires t < |s.threads| && t < |c.addr| && m < |c.addr[t]| && Sized(s.threads[t])
    requires |s.threads[t].want| == |c.addr[t]|
    requires s.threads[t].pc == Idle && s.threads[t].outer == NoLoop && !s.threads[t].locked[m]
    ensures var s1, x := With(s, t, BeginEnter(s.threads[t], m, NoLoop)), c.addr[t][m]; var th := s1.threads[t];
      && s1.holder == s.holder && |s1.threads| == |s.threads| && th.pc == Try(m) && m < |th.locked|
      && Entered(c, s, t, m) ==
           State(s1.threads[t := th.(pc := Idle, locked := th.locked[m := true])], s1.holder[x := t], s1.db[x := t])
  {
    var s1 := With(s, t, BeginEnter(s.threads[t], m, NoLoop));
    assert Entered(c, s, t, m).threads == s1.threads[t := Entered(c, s, t, m).threads[t]];
  }

  lemma EnterFree(c: Config, s: State, t: nat, m: nat)
    requires Reachable(c, s) && t < |s.threads| && m < |c.addr[t]| && c.addr[t][m] !in s.holder
    requires s.threads[t].pc == Idle && s.threads[t].outer == NoLoop && !s.threads[t].locked[m]
    ensures Reachable(c, Entered(c, s, t, m))
  {
    assert Sized(s.threads[t]) && |s.threads[t].want| == |c.addr[t]| && t < |c.addr|;
    hide Reachable, Inv, Sized, With, BeginEnter, Entered;
    CallReachable(c, s, t, m);
    EnteredIs(c, s, t, m);
    TryToEnd(c, With(s, t, BeginEnter(s.threads[t], m, NoLoop)), t, m);
  }

  /** The state after thread t has left the mutex of its Btree m for good, but not yet cleared the flag. */
  function HalfLeft(c: Config, s: State, t: nat, m: nat): State
    requires t < |s.threads| && t < |c.addr| && m < |c.addr[t]| && Sized(s.threads[t])
    requires |s.threads[t].want| == |c.addr[t]|
  {
    var th := s.threads[t];
    s.(threads := s.threads[t := Thread(ClearLast(m), NoLoop, th.want[m := 0], th.locked)],
      holder := s.holder - {c.addr[t][m]})
  }

  lemma LeaveHalf(c: Config, s: State, t: nat, m: nat)
    requires Reachable(c, s) && t < |s.threads| && m < |c.addr[t]|
    requires s.threads[t].pc == Idle && s.threads[t].outer == NoLoop && s.threads[t].want[m] == 1
    ensures Reachable(c, HalfLeft(c, s, t, m))
  {
    CallReachable(c, s, t, m);
    var th := s.threads[t];
    var s1 := With(s, t, BeginLeave(th, m, NoLoop));
    assert Fits(c, s1) && Sized(s1.threads[t]);
    hide Reachable, Inv, GoodConfig, Fits;
    RunReachable(c, s1, t);
    assert HalfLeft(c, s, t, m).threads == s1.threads[t := HalfLeft(c, s, t, m).threads[t]];
  }

  function Start(c: Config): (s: State)
    ensures Init(c, s)
  {
    State(seq(|c.addr|, t requires 0 <= t < |c.addr| =>
      Thread(Idle, NoLoop, seq(|c.addr[t]|, _ => 0), seq(|c.addr[t]|, _ => false))), map[], map[])
  }

  /** unlockBtreeMutex leaves the mutex before it clears the flag: in between, another connection can lock its own
      Btree of the same shared B-tree. So whenever two connections share a B-tree at all, some run flags both; the
      first Btree is then flagged though it is not wanted and the db field is the other connection's. */
  lemma BothLockedReachable(c: Config, t: nat, u: nat, m: nat, k: nat) returns (s: State)
    requires GoodConfig(c) && t < |c.addr| && u < |c.addr| && t != u
    requires m < |c.addr[t]| && k < |c.addr[u]| && c.addr[t][m] == c.addr[u][k]
    ensures Reachable(c, s) && s.threads[t].locked[m] && s.threads[u].locked[k]
    ensures s.threads[t].want[m] == 0 && c.addr[t][m] in s.db && s.db[c.addr[t][m]] == u
  {
    hide Reachable, Inv, GoodConfig;
    var s0 := Start(c);
    InitReachable(c, s0);
    EnterFree(c, s0, t, m);
    var s1 := Entered(c, s0, t, m);
    LeaveHalf(c, s1, t, m);
    var s2 := HalfLeft(c, s1, t, m);
    EnterFree(c, s2, u, k);
    s := Entered(c, s2, u, k);
  }
}
