/**
 The first readers-writers lock that guards the proxy cache: any number of threads call rwlock_rdlock,
 rwlock_rdunlock, rwlock_wrlock and rwlock_wrunlock, and every P, V and readcnt step interleaves freely.
 */
module ReadersWriters {
  import opened ThreadCounts

  datatype Point =
    | Outside
    // rwlock_rdlock
    | RdMutex      // at P(&mutex)
    | RdInc        // at readcnt++
    | RdTest       // at if (readcnt == 1)
    | RdWaitW      // at P(&w)
    | RdExit       // at V(&mutex)
    | Reading      // holds the read lock
    // rwlock_rdunlock
    | UnMutex      // at P(&mutex)
    | UnDec        // at readcnt--
    | UnTest       // at if (readcnt == 0)
    | UnPostW      // at V(&w)
    | UnExit       // at V(&mutex)
    // rwlock_wrlock and rwlock_wrunlock
    | WrWaitW      // at P(&w)
    | Writing      // holds the write lock; its next step is V(&w)

  /** readers is history: whether some reader has taken w and none has given it back. */
  datatype State = State(mutex: nat, w: nat, readcnt: int, readers: bool, at: seq<Point>)

  /** rwlock_init, with the given threads outside. */
  ghost predicate Init(s: State) {
    && s.mutex == 1 && s.w == 1 && s.readcnt == 0 && !s.readers
    && forall t :: 0 <= t < |s.at| ==> s.at[t] == Outside
  }

  datatype Action = CallRead(t: nat) | CallWrite(t: nat) | Go(t: nat)

  predicate Enabled(s: State, a: Action) {
    && a.t < |s.at|
    && match a
       case CallRead(t) => s.at[t] == Outside
       case CallWrite(t) => s.at[t] == Outside
       case Go(t) =>
         match s.at[t]
         case Outside => false
         case RdMutex => s.mutex > 0
         case UnMutex => s.mutex > 0
         case RdWaitW => s.w > 0
         case WrWaitW => s.w > 0
         case _ => true
  }

  function Moved(s: State, t: nat, p: Point): State
    requires t < |s.at|
  {
    s.(at := s.at[t := p])
  }

  function Do(s: State, a: Action): State
    requires Enabled(s, a)
  {
    match a
    case CallRead(t) => Moved(s, t, RdMutex)
    case CallWrite(t) => Moved(s, t, WrWaitW)
    case Go(t) =>
      match s.at[t]
      case RdMutex => Moved(s, t, RdInc).(mutex := s.mutex - 1)
      case RdInc => Moved(s, t, RdTest).(readcnt := s.readcnt + 1)
      case RdTest => Moved(s, t, if s.readcnt == 1 then RdWaitW else RdExit)
      case RdWaitW => Moved(s, t, RdExit).(w := s.w - 1, readers := true)
      case RdExit => Moved(s, t, Reading).(mutex := s.mutex + 1)
      case Reading => Moved(s, t, UnMutex)
      case UnMutex => Moved(s, t, UnDec).(mutex := s.mutex - 1)
      case UnDec => Moved(s, t, UnTest).(readcnt := s.readcnt - 1)
      case UnTest => Moved(s, t, if s.readcnt == 0 then UnPostW else UnExit)
      case UnPostW => Moved(s, t, UnExit).(w := s.w + 1, readers := false)
      case UnExit => Moved(s, t, Outside).(mutex := s.mutex + 1)
      case WrWaitW => Moved(s, t, Writing).(w := s.w - 1)
      case Writing => Moved(s, t, Outside).(w := s.w + 1)
  }

  // ---- who holds what ----

  predicate InMutex(p: Point) {
    p.RdInc? || p.RdTest? || p.RdWaitW? || p.RdExit? || p.UnDec? || p.UnTest? || p.UnPostW? || p.UnExit?
  }

  /** Has counted itself in and not yet out. */
  predicate Counted(p: Point) {
    p.RdTest? || p.RdWaitW? || p.RdExit? || p.Reading? || p.UnMutex? || p.UnDec?
  }

  predicate IsWriting(p: Point) { p.Writing? }

  /** Between changing readcnt and settling w. */
  predicate Settling(p: Point) { p.RdTest? || p.RdWaitW? || p.UnTest? || p.UnPostW? }

  // ---- the invariant ----

  ghost predicate Balanced(s: State) {
    && s.mutex + Count(s.at, InMutex) == 1
    && s.readcnt == Count(s.at, Counted)
    && s.w + Count(s.at, IsWriting) + One(s.readers) == 1
  }

  /** What each settling point knows; when nobody is settling, w is held for readers exactly while some are counted. */
  ghost predicate PointOk(s: State, p: Point) {
    && (p.RdTest? ==> (s.readers <==> s.readcnt > 1))
    && (p.RdWaitW? ==> !s.readers && s.readcnt == 1)
    && (p.UnTest? ==> s.readers)
    && (p.UnPostW? ==> s.readers && s.readcnt == 0)
  }

  ghost predicate Settled(s: State) {
    && (forall t :: 0 <= t < |s.at| ==> PointOk(s, s.at[t]))
    && ((forall t :: 0 <= t < |s.at| ==> !Settling(s.at[t])) ==> (s.readers <==> s.readcnt > 0))
  }

  ghost predicate Inv(s: State) { Balanced(s) && Settled(s) }

  lemma InitInv(s: State)
    requires Init(s)
    ensures Inv(s)
  {
    CountNone(s.at, InMutex);
    CountNone(s.at, Counted);
    CountNone(s.at, IsWriting);
  }

  lemma StepBalanced(s: State, a: Action)
    requires Inv(s) && Enabled(s, a)
    ensures Balanced(Do(s, a))
  {
    hide *;
    StepMutex(s, a);
    StepReadcnt(s, a);
    StepW(s, a);
    BalancedIs(Do(s, a));
  }

  lemma BalancedIs(s: State)
    ensures Balanced(s) <==> MutexOk(s) && ReadcntOk(s) && WOk(s)
  {
  }

  ghost predicate MutexOk(s: State) { s.mutex + Count(s.at, InMutex) == 1 }
  ghost predicate ReadcntOk(s: State) { s.readcnt == Count(s.at, Counted) }
  ghost predicate WOk(s: State) { s.w + Count(s.at, IsWriting) + One(s.readers) == 1 }

  lemma StepMutex(s: State, a: Action)
    requires Inv(s) && Enabled(s, a)
    ensures MutexOk(Do(s, a))
  {
    hide Count, Settled;
    CountMove(s.at, a.t, Do(s, a).at[a.t], InMutex);
  }

  lemma StepReadcnt(s: State, a: Action)
    requires Inv(s) && Enabled(s, a)
    ensures ReadcntOk(Do(s, a))
  {
    hide Count, Settled;
    CountMove(s.at, a.t, Do(s, a).at[a.t], Counted);
  }

  lemma StepW(s: State, a: Action)
    requires Inv(s) && Enabled(s, a)
    ensures WOk(Do(s, a))
  {
    hide Count;
    assert PointOk(s, s.at[a.t]);
    CountMove(s.at, a.t, Do(s, a).at[a.t], IsWriting);
  }

  /** Only one thread at a time is between P(&mutex) and V(&mutex). */
  lemma Alone(s: State, t: nat)
    requires Balanced(s) && t < |s.at| && InMutex(s.at[t])
    ensures forall u :: 0 <= u < |s.at| && InMutex(s.at[u]) ==> u == t
  {
    forall u | 0 <= u < |s.at| && InMutex(s.at[u]) ensures u == t {
      CountUnique(s.at, InMutex, t, u);
    }
  }

  lemma StepSettled(s: State, a: Action)
    requires Inv(s) && Enabled(s, a)
    ensures Settled(Do(s, a))
  {
    hide Count;
    var t, s' := a.t, Do(s, a);
    CountRange(s.at, Counted);
    if a.Go? && InMutex(s.at[t]) {
      Alone(s, t);
      if Counted(s.at[t]) { CountOne(s.at, Counted, t); }
    }
    forall u | 0 <= u < |s'.at| ensures PointOk(s', s'.at[u]) {
      assert PointOk(s, s.at[u]) && PointOk(s, s.at[t]);
      assert u != t ==> s'.at[u] == s.at[u];
    }
    if forall u :: 0 <= u < |s'.at| ==> !Settling(s'.at[u]) {
      assert PointOk(s, s.at[t]);
      if !Settling(s.at[t]) {
        forall u | 0 <= u < |s.at| ensures !Settling(s.at[u]) {
          assert u != t ==> s'.at[u] == s.at[u];
        }
      }
      assert !Settling(s'.at[t]);
    }
  }

  lemma StepInv(s: State, a: Action)
    requires Inv(s) && Enabled(s, a)
    ensures Inv(Do(s, a))
  {
    StepBalanced(s, a);
    StepSettled(s, a);
  }

  // ---- what the lock is for ----

  /** From taking the read lock to giving it back. */
  predicate HoldsRead(p: Point) { p.RdExit? || p.Reading? || p.UnMutex? || p.UnDec? }

  /** While a thread holds the read lock, w is held on behalf of the readers. */
  lemma ReaderHoldsW(s: State, t: nat)
    requires Inv(s) && t < |s.at| && HoldsRead(s.at[t])
    ensures s.readers
  {
    CountOne(s.at, Counted, t);
    if u :| 0 <= u < |s.at| && Settling(s.at[u]) {
      assert PointOk(s, s.at[u]);
      if Counted(s.at[u]) {
        if t < u { CountTwo(s.at, Counted, t, u); } else { CountTwo(s.at, Counted, u, t); }
      }
    }
  }

  /** A writer is inside alone: no reader and no other writer. */
  lemma Exclusion(s: State, t: nat, u: nat)
    requires Inv(s) && t < |s.at| && u < |s.at| && s.at[t].Writing?
    ensures !HoldsRead(s.at[u]) && (s.at[u].Writing? ==> t == u)
  {
    CountOne(s.at, IsWriting, t);
    if HoldsRead(s.at[u]) {
      ReaderHoldsW(s, u);
    }
    if s.at[u].Writing? {
      CountUnique(s.at, IsWriting, t, u);
    }
  }

  /** Some thread is inside a call or holds a lock. */
  ghost predicate Busy(s: State) { exists t :: 0 <= t < |s.at| && s.at[t] != Outside }

  /** Some such thread can take its next step. */
  ghost predicate CanMove(s: State) { exists t :: 0 <= t < |s.at| && Enabled(s, Go(t)) }

  /** w is taken: by a writer, who can move, or by readers who are still counted. */
  lemma TakenWMoves(s: State)
    requires Inv(s) && s.w == 0 && (s.readers ==> s.mutex == 1)
    ensures CanMove(s)
  {
    if s.readers {
      CountRange(s.at, InMutex);
      forall t | 0 <= t < |s.at| ensures !Settling(s.at[t]) {
        if InMutex(s.at[t]) { CountOne(s.at, InMutex, t); }
      }
      var t := CountWitness(s.at, Counted);
      if InMutex(s.at[t]) { CountOne(s.at, InMutex, t); }
      assert Enabled(s, Go(t));
    } else {
      CountRange(s.at, IsWriting);
      var t := CountWitness(s.at, IsWriting);
      assert Enabled(s, Go(t));
    }
  }

  /** The holder of the mutex can move, or waits for a writer who can. */
  lemma TakenMutexMoves(s: State)
    requires Inv(s) && s.mutex == 0
    ensures CanMove(s)
  {
    var t := CountWitness(s.at, InMutex);
    assert PointOk(s, s.at[t]);
    if s.at[t].RdWaitW? && s.w == 0 {
      TakenWMoves(s);
    } else {
      assert Enabled(s, Go(t));
    }
  }

  /** No deadlock: as long as any thread is inside, some thread inside can take its next step. */
  lemma NoDeadlock(s: State)
    requires Inv(s) && Busy(s)
    ensures CanMove(s)
  {
    CountRange(s.at, InMutex);
    var t :| 0 <= t < |s.at| && s.at[t] != Outside;
    if s.mutex == 0 {
      TakenMutexMoves(s);
    } else if s.at[t].WrWaitW? && s.w == 0 {
      TakenWMoves(s);
    } else {
      if InMutex(s.at[t]) {
        CountOne(s.at, InMutex, t);
      }
      assert Enabled(s, Go(t));
    }
  }

  // ---- whole runs ----

  /** Running a schedule; a blocked action is skipped. */
  ghost function Run(s: State, schedule: seq<Action>): State
    decreases |schedule|
  {
    if schedule == [] then s
    else Run(if Enabled(s, schedule[0]) then Do(s, schedule[0]) else s, schedule[1..])
  }

  lemma {:induction false} RunInv(s: State, schedule: seq<Action>)
    requires Inv(s)
    ensures Inv(Run(s, schedule))
    decreases |schedule|
  {
    if schedule != [] {
      if Enabled(s, schedule[0]) {
        StepInv(s, schedule[0]);
        RunInv(Do(s, schedule[0]), schedule[1..]);
      } else {
        RunInv(s, schedule[1..]);
      }
    }
  }

  /**
   For any number of threads and any interleaving: a writer is inside alone, readcnt is the number of
   readers that have counted themselves in, and the threads inside are never all blocked.
   */
  lemma EveryRun(s: State, schedule: seq<Action>, t: nat, u: nat)
    requires Init(s) && t < |Run(s, schedule).at| && u < |Run(s, schedule).at|
    ensures var e := Run(s, schedule);
      && (e.at[t].Writing? ==> !HoldsRead(e.at[u]) && e.at[u] != Reading && (e.at[u].Writing? ==> t == u))
      && e.readcnt == Count(e.at, Counted)
      && (e.at[t] != Outside ==> CanMove(e))
  {
    InitInv(s);
    RunInv(s, schedule);
    var e := Run(s, schedule);
    if e.at[t].Writing? {
      Exclusion(e, t, u);
    }
    if e.at[t] != Outside {
      NoDeadlock(e);
    }
  }

  // ---- what a call leads to ----

  lemma {:induction false} RunCat(s: State, a: seq<Action>, b: seq<Action>)
    ensures Run(s, a + b) == Run(Run(s, a), b)
    decreases |a|
  {
    hide Enabled, Do;
    if a == [] {
      assert a + b == b;
    } else {
      assert (a + b)[0] == a[0] && (a + b)[1..] == a[1..] + b;
      RunCat(if Enabled(s, a[0]) then Do(s, a[0]) else s, a[1..], b);
    }
  }

  lemma RunOne(s: State, a: Action)
    requires Enabled(s, a)
    ensures Run(s, [a]) == Do(s, a)
  {
    hide Enabled, Do;
    assert [a][1..] == [];
  }

  /** A thread that is not in a write call gets into one by calling rwlock_wrlock only. */
  lemma {:induction false} StaysOffWriting(s: State, t: nat, rest: seq<Action>)
    requires t < |s.at| && s.at[t] != WrWaitW && s.at[t] != Writing && CallWrite(t) !in rest
    ensures var e := Run(s, rest); |e.at| == |s.at| && e.at[t] != WrWaitW && e.at[t] != Writing
    decreases |rest|
  {
    if rest != [] {
      var a := rest[0];
      assert a in rest && forall b :: b in rest[1..] ==> b in rest;
      StaysOffWriting(if Enabled(s, a) then Do(s, a) else s, t, rest[1..]);
    }
  }

  /** A thread whose last call is rwlock_rdlock is never at a step of a writer. */
  lemma ReadCallNeverWrites(s: State, t: nat, rest: seq<Action>)
    requires t < |s.at| && s.at[t] == Outside && CallWrite(t) !in rest
    ensures var e := Run(s, [CallRead(t)] + rest); |e.at| == |s.at| && e.at[t] != WrWaitW && e.at[t] != Writing
  {
    assert ([CallRead(t)] + rest)[1..] == rest;
    StaysOffWriting(Do(s, CallRead(t)), t, rest);
  }

  lemma {:induction false} StaysWriting(s: State, t: nat, rest: seq<Action>)
    requires t < |s.at| && s.at[t] in {Outside, WrWaitW, Writing} && CallRead(t) !in rest
    ensures var e := Run(s, rest); |e.at| == |s.at| && e.at[t] in {Outside, WrWaitW, Writing}
    decreases |rest|
  {
    if rest != [] {
      var a := rest[0];
      assert a in rest && forall b :: b in rest[1..] ==> b in rest;
      StaysWriting(if Enabled(s, a) then Do(s, a) else s, t, rest[1..]);
    }
  }

  /** A thread whose last call is rwlock_wrlock waits for w, holds the write lock, or has given it back. */
  lemma WriteCallNeverReads(s: State, t: nat, rest: seq<Action>)
    requires t < |s.at| && s.at[t] == Outside && CallRead(t) !in rest
    ensures var e := Run(s, [CallWrite(t)] + rest); |e.at| == |s.at| && e.at[t] in {Outside, WrWaitW, Writing}
  {
    assert ([CallWrite(t)] + rest)[1..] == rest;
    StaysWriting(Do(s, CallWrite(t)), t, rest);
  }

  ghost predicate NoWriter(s: State) { forall u :: 0 <= u < |s.at| ==> s.at[u] != Writing }

  /** Steps to V(&mutex), for a thread that holds it. */
  function Left(p: Point): nat {
    match p
    case RdInc => 4
    case RdTest => 3
    case RdWaitW => 2
    case RdExit => 1
    case UnDec => 4
    case UnTest => 3
    case UnPostW => 2
    case UnExit => 1
    case _ => 0
  }

  /** Without a writer inside, the holder of the mutex takes a step towards giving it back. */
  lemma HolderMoves(s: State, u: nat)
    requires Inv(s) && NoWriter(s) && u < |s.at| && InMutex(s.at[u])
    ensures Enabled(s, Go(u))
    ensures var e := Do(s, Go(u));
      Inv(e) && NoWriter(e) && |e.at| == |s.at| && e.at == s.at[u := e.at[u]]
      && (e.mutex == 1 || (InMutex(e.at[u]) && Left(e.at[u]) < Left(s.at[u])))
  {
    hide Count;
    assert PointOk(s, s.at[u]);
    CountNone(s.at, IsWriting);
    CountOne(s.at, InMutex, u);
    StepInv(s, Go(u));
  }

  /** Without a writer inside, the mutex becomes free without thread t. */
  lemma {:induction false} FreeMutex(s: State, t: nat) returns (schedule: seq<Action>)
    requires Inv(s) && NoWriter(s) && t < |s.at| && !InMutex(s.at[t])
    ensures var e := Run(s, schedule);
      Inv(e) && NoWriter(e) && e.mutex == 1 && |e.at| == |s.at| && e.at[t] == s.at[t]
    ensures forall a :: a in schedule ==> a.Go?
  {
    hide Count, Do, Enabled;
    if s.mutex == 1 {
      schedule := [];
    } else {
      MutexHeld(s);
      var u := CountWitness(s.at, InMutex);
      schedule := HolderLeaves(s, t, u);
    }
  }

  lemma MutexHeld(s: State)
    requires Inv(s) && s.mutex != 1
    ensures Count(s.at, InMutex) > 0
  {
    CountRange(s.at, InMutex);
  }

  lemma {:induction false} HolderLeaves(s: State, t: nat, u: nat) returns (schedule: seq<Action>)
    requires Inv(s) && NoWriter(s) && t < |s.at| && !InMutex(s.at[t]) && u < |s.at| && InMutex(s.at[u])
    ensures var e := Run(s, schedule);
      Inv(e) && NoWriter(e) && e.mutex == 1 && |e.at| == |s.at| && e.at[t] == s.at[t]
    ensures forall a :: a in schedule ==> a.Go?
    decreases Left(s.at[u])
  {
    hide Inv, Do, Enabled;
    HolderMoves(s, u);
    var e := Do(s, Go(u));
    var rest := [];
    if e.mutex != 1 {
      rest := HolderLeaves(e, t, u);
    }
    schedule := [Go(u)] + rest;
    assert schedule[1..] == rest;
  }

  /** Inside rwlock_rdlock, behind P(&mutex). */
  predicate Entering(p: Point) { p.RdInc? || p.RdTest? || p.RdWaitW? || p.RdExit? }

  lemma ReaderStep(s: State, t: nat)
    requires Inv(s) && NoWriter(s) && t < |s.at| && Entering(s.at[t])
    ensures Enabled(s, Go(t))
    ensures var p, e := s.at[t], Do(s, Go(t));
      && |e.at| == |s.at| && Inv(e) && NoWriter(e) && e.at == s.at[t := e.at[t]]
      && e.readcnt == s.readcnt + (if p == RdInc then 1 else 0)
      && (if p == RdExit then e.at[t] == Reading && e.mutex == 1
          else Entering(e.at[t]) && e.at[t] != RdInc && Left(e.at[t]) < Left(p))
  {
    hide Count;
    HolderMoves(s, t);
    CountOne(s.at, InMutex, t);
  }

  /** Without a writer inside, a reader that has taken the mutex walks in. */
  lemma {:induction false} ReaderWalksIn(s: State, t: nat) returns (schedule: seq<Action>)
    requires Inv(s) && NoWriter(s) && t < |s.at| && Entering(s.at[t])
    ensures var e := Run(s, schedule);
      && Inv(e) && NoWriter(e) && e.mutex == 1 && e.at == s.at[t := Reading]
      && e.readcnt == s.readcnt + (if s.at[t] == RdInc then 1 else 0)
    ensures forall a :: a in schedule ==> a == Go(t)
    decreases Left(s.at[t])
  {
    hide Inv, Do, Enabled;
    ReaderStep(s, t);
    var e := Do(s, Go(t));
    var rest := [];
    if s.at[t] != RdExit {
      rest := ReaderWalksIn(e, t);
    }
    schedule := [Go(t)] + rest;
    assert schedule[1..] == rest;
  }

  lemma TakesMutex(s: State, t: nat)
    requires Inv(s) && NoWriter(s) && s.mutex == 1 && t < |s.at| && s.at[t] == Outside
    ensures Enabled(s, CallRead(t)) && Enabled(Do(s, CallRead(t)), Go(t))
    ensures var e := Do(Do(s, CallRead(t)), Go(t));
      Inv(e) && NoWriter(e) && e.at == s.at[t := RdInc] && e.readcnt == s.readcnt
  {
    hide Count, Balanced, Settled;
    StepInv(s, CallRead(t));
    StepInv(Do(s, CallRead(t)), Go(t));
  }

  /** With the mutex free and no writer inside, a call of rwlock_rdlock ends with the read lock, and readcnt counts it. */
  lemma ReaderGetsIn(s: State, t: nat) returns (rest: seq<Action>)
    requires Inv(s) && NoWriter(s) && s.mutex == 1 && t < |s.at| && s.at[t] == Outside
    ensures var e := Run(s, [CallRead(t)] + rest);
      Inv(e) && NoWriter(e) && e.mutex == 1 && e.at == s.at[t := Reading] && e.readcnt == s.readcnt + 1
    ensures forall a :: a in rest ==> a == Go(t)
  {
    hide Inv, Do, Enabled;
    TakesMutex(s, t);
    var s1 := Do(s, CallRead(t));
    var s2 := Do(s1, Go(t));
    var more := ReaderWalksIn(s2, t);
    rest := [Go(t)] + more;
    assert rest[1..] == more && ([CallRead(t)] + rest)[1..] == rest;
    assert s2.at[t := Reading] == s.at[t := Reading];
  }

  /** From any reachable state without a writer inside, some schedule brings a read caller to the read lock. */
  lemma ReadCallSucceeds(s: State, t: nat) returns (rest: seq<Action>)
    requires Inv(s) && NoWriter(s) && t < |s.at| && s.at[t] == Outside
    ensures var e := Run(s, rest); |e.at| == |s.at| && e.at[t] == Reading
    ensures CallRead(t) in rest && forall a :: a in rest ==> a.Go? || a == CallRead(t)
  {
    hide Inv, Do, Enabled;
    var first := FreeMutex(s, t);
    var e := Run(s, first);
    var more := ReaderGetsIn(e, t);
    rest := first + ([CallRead(t)] + more);
    RunCat(s, first, [CallRead(t)] + more);
    assert rest[|first|] == CallRead(t);
  }

  /** The first k threads have called rwlock_rdlock, and all are in. */
  lemma {:induction false} ReadersGather(s: State, k: nat) returns (schedule: seq<Action>)
    requires Init(s) && k <= |s.at|
    ensures var e := Run(s, schedule);
      && Inv(e) && NoWriter(e) && e.mutex == 1 && |e.at| == |s.at| && e.readcnt == k
      && forall t :: 0 <= t < |e.at| ==> e.at[t] == if t < k then Reading else Outside
    decreases k
  {
    hide Inv, Do, Enabled;
    if k == 0 {
      InitInv(s);
      schedule := [];
    } else {
      var before := ReadersGather(s, k - 1);
      var more := ReaderGetsIn(Run(s, before), k - 1);
      schedule := before + ([CallRead(k - 1)] + more);
      RunCat(s, before, [CallRead(k - 1)] + more);
    }
  }

  /** Readers do not shut one another out: some run has every thread reading at once, and readcnt counts them all. */
  lemma AllReadAtOnce(s: State) returns (schedule: seq<Action>)
    requires Init(s)
    ensures var e := Run(s, schedule);
      |e.at| == |s.at| && e.readcnt == |s.at| && forall t :: 0 <= t < |s.at| ==> e.at[t] == Reading
  {
    hide Inv, Do, Enabled;
    schedule := ReadersGather(s, |s.at|);
  }

  /** With w free, a call of rwlock_wrlock ends with the write lock, and rwlock_wrunlock gives it back. */
  lemma WriterGetsIn(s: State, t: nat)
    requires Inv(s) && s.w == 1 && t < |s.at| && s.at[t] == Outside
    ensures var e := Run(s, [CallWrite(t), Go(t)]); e == s.(w := 0, at := s.at[t := Writing])
    ensures Run(s, [CallWrite(t), Go(t), Go(t)]) == s
  {
    hide Inv;
    var s1 := Do(s, CallWrite(t));
    var s2 := Do(s1, Go(t));
    var s3 := Do(s2, Go(t));
    assert s3.at == s.at;
    assert [CallWrite(t), Go(t)][1..] == [Go(t)];
    assert [CallWrite(t), Go(t), Go(t)][1..] == [Go(t), Go(t)] && [Go(t), Go(t)][1..] == [Go(t)];
    RunOne(s1, Go(t));
    RunOne(s2, Go(t));
  }

  /** Inside rwlock_rdunlock, behind P(&mutex). */
  predicate Leaving(p: Point) { p.UnDec? || p.UnTest? || p.UnPostW? || p.UnExit? }

  lemma LeaverStep(s: State, t: nat)
    requires Inv(s) && NoWriter(s) && t < |s.at| && Leaving(s.at[t])
    ensures Enabled(s, Go(t))
    ensures var p, e := s.at[t], Do(s, Go(t));
      && |e.at| == |s.at| && Inv(e) && NoWriter(e) && e.at == s.at[t := e.at[t]]
      && e.readcnt == s.readcnt - (if p == UnDec then 1 else 0)
      && (if p == UnExit then e.at[t] == Outside && e.mutex == 1
          else Leaving(e.at[t]) && e.at[t] != UnDec && Left(e.at[t]) < Left(p))
  {
    hide Count;
    HolderMoves(s, t);
    CountOne(s.at, InMutex, t);
  }

  lemma {:induction false} LeaverWalksOut(s: State, t: nat) returns (schedule: seq<Action>)
    requires Inv(s) && NoWriter(s) && t < |s.at| && Leaving(s.at[t])
    ensures var e := Run(s, schedule);
      && Inv(e) && NoWriter(e) && e.mutex == 1 && e.at == s.at[t := Outside]
      && e.readcnt == s.readcnt - (if s.at[t] == UnDec then 1 else 0)
    ensures forall a :: a in schedule ==> a == Go(t)
    decreases Left(s.at[t])
  {
    hide Inv, Do, Enabled;
    LeaverStep(s, t);
    var e := Do(s, Go(t));
    var rest := [];
    if s.at[t] != UnExit {
      rest := LeaverWalksOut(e, t);
    }
    schedule := [Go(t)] + rest;
    assert schedule[1..] == rest;
  }

  lemma UnlockTakesMutex(s: State, t: nat)
    requires Inv(s) && NoWriter(s) && s.mutex == 1 && t < |s.at| && s.at[t] == Reading
    ensures Enabled(s, Go(t)) && Enabled(Do(s, Go(t)), Go(t))
    ensures var e := Do(Do(s, Go(t)), Go(t));
      Inv(e) && NoWriter(e) && e.at == s.at[t := UnDec] && e.readcnt == s.readcnt
  {
    hide Count, Balanced, Settled;
    StepInv(s, Go(t));
    StepInv(Do(s, Go(t)), Go(t));
  }

  /** With nobody settling, w is free exactly when there is neither a writer nor a reader. */
  lemma WhenWIsFree(s: State)
    requires Inv(s) && NoWriter(s) && s.mutex == 1
    ensures s.w == 1 <==> s.readcnt == 0
  {
    hide Count;
    CountNone(s.at, IsWriting);
    CountRange(s.at, Counted);
    forall t | 0 <= t < |s.at| ensures !Settling(s.at[t]) {
      if InMutex(s.at[t]) { CountOne(s.at, InMutex, t); }
    }
  }

  /** A reader that unlocks is out and no longer counted, and the last one out frees w for a writer. */
  lemma ReaderGetsOut(s: State, t: nat) returns (schedule: seq<Action>)
    requires Inv(s) && NoWriter(s) && s.mutex == 1 && t < |s.at| && s.at[t] == Reading
    ensures var e := Run(s, schedule);
      && e.mutex == 1 && e.at == s.at[t := Outside] && e.readcnt == s.readcnt - 1 && (e.w == 1 <==> e.readcnt == 0)
    ensures forall a :: a in schedule ==> a == Go(t)
  {
    hide Inv, Do, Enabled;
    UnlockTakesMutex(s, t);
    var s1 := Do(s, Go(t));
    var s2 := Do(s1, Go(t));
    var more := LeaverWalksOut(s2, t);
    schedule := [Go(t), Go(t)] + more;
    assert schedule[1..][1..] == more && schedule[0] == Go(t) && schedule[1..][0] == Go(t);
    assert s2.at[t := Outside] == s.at[t := Outside];
    assert Run(s, schedule) == Run(s1, schedule[1..]) == Run(s2, more);
    WhenWIsFree(Run(s2, more));
  }
}
