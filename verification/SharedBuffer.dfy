/**
 The bounded producer-consumer buffer sbuf: any number of threads call sbuf_insert and sbuf_remove,
 and their individual semaphore and memory steps interleave in any order.
 */
module SharedBuffer {
  import opened ThreadCounts

  /** Where a thread is. */
  datatype Point =
    | Outside
    | InsWaitSlot(item: int)     // at P(&slots)
    | InsWaitLock(item: int)     // at P(&mutex)
    | InsBump(item: int)         // at ++rear
    | InsStore(item: int)        // at buf[rear % n] = item
    | InsUnlock                  // at V(&mutex)
    | InsPost                    // at V(&items)
    | RemWaitItem                // at P(&items)
    | RemWaitLock                // at P(&mutex)
    | RemBump                    // at ++front
    | RemLoad                    // at item = buf[front % n]
    | RemUnlock(item: int)       // at V(&mutex)
    | RemPost(item: int)         // at V(&slots)

  /** The shared buffer, the threads, and the items in the order they went in and came out. */
  datatype State = State(n: nat, buf: seq<int>, front: nat, rear: nat, mutex: nat, slots: nat, items: nat,
                         at: seq<Point>, ins: seq<int>, rem: seq<int>)

  /** sbuf_init, with the given threads outside. */
  ghost predicate Init(s: State) {
    && |s.buf| == s.n && s.front == 0 && s.rear == 0
    && s.mutex == 1 && s.slots == s.n && s.items == 0 && s.ins == [] && s.rem == []
    && forall t :: 0 <= t < |s.at| ==> s.at[t] == Outside
  }

  /** What a thread does next: enter a call, or take the step its program point stands for. */
  datatype Action = CallInsert(t: nat, item: int) | CallRemove(t: nat) | Go(t: nat)

  /** P waits for a positive semaphore, and an access needs a slot; everything else can always run. */
  predicate Enabled(s: State, a: Action)
  {
    && a.t < |s.at| && |s.buf| == s.n
    && match a
       case CallInsert(t, _) => s.at[t] == Outside
       case CallRemove(t) => s.at[t] == Outside
       case Go(t) =>
         match s.at[t]
         case Outside => false
         case InsWaitSlot(_) => s.slots > 0
         case InsWaitLock(_) => s.mutex > 0
         case RemWaitItem => s.items > 0
         case RemWaitLock => s.mutex > 0
         case InsStore(_) => s.n > 0
         case RemLoad => s.n > 0
         case _ => true
  }

  function Moved(s: State, t: nat, p: Point): State
    requires t < |s.at|
  { s.(at := s.at[t := p]) }

  function Do(s: State, a: Action): State
    requires Enabled(s, a)
  {
    match a
    case CallInsert(t, item) => Moved(s, t, InsWaitSlot(item))
    case CallRemove(t) => Moved(s, t, RemWaitItem)
    case Go(t) =>
      match s.at[t]
      case InsWaitSlot(item) => Moved(s, t, InsWaitLock(item)).(slots := s.slots - 1)
      case InsWaitLock(item) => Moved(s, t, InsBump(item)).(mutex := s.mutex - 1)
      case InsBump(item) => Moved(s, t, InsStore(item)).(rear := s.rear + 1)
      case InsStore(item) => Moved(s, t, InsUnlock).(buf := s.buf[s.rear % s.n := item], ins := s.ins + [item])
      case InsUnlock => Moved(s, t, InsPost).(mutex := s.mutex + 1)
      case InsPost => Moved(s, t, Outside).(items := s.items + 1)
      case RemWaitItem => Moved(s, t, RemWaitLock).(items := s.items - 1)
      case RemWaitLock => Moved(s, t, RemBump).(mutex := s.mutex - 1)
      case RemBump => Moved(s, t, RemLoad).(front := s.front + 1)
      case RemLoad =>
        var item := s.buf[s.front % s.n];
        Moved(s, t, RemUnlock(item)).(rem := s.rem + [item])
      case RemUnlock(item) => Moved(s, t, RemPost(item)).(mutex := s.mutex + 1)
      case RemPost(_) => Moved(s, t, Outside).(slots := s.slots + 1)
  }

  // ---- who holds what ----

  predicate InLock(p: Point) {
    p.InsBump? || p.InsStore? || p.InsUnlock? || p.RemBump? || p.RemLoad? || p.RemUnlock?
  }

  /** Has taken a slot that is not yet an announced item, or an item whose slot is not yet announced. */
  predicate InFlight(p: Point) { !(p.Outside? || p.InsWaitSlot? || p.RemWaitItem?) }

  /** Has stored an item and not yet announced it. */
  predicate Unannounced(p: Point) { p.InsUnlock? || p.InsPost? }

  /** Has claimed an item and not yet loaded it. */
  predicate Claiming(p: Point) { p.RemWaitLock? || p.RemBump? || p.RemLoad? }

  /** Has claimed a slot and not yet filled it. */
  predicate Filling(p: Point) { p.InsWaitLock? || p.InsBump? || p.InsStore? }

  /** Has emptied a slot and not yet announced it. */
  predicate Freeing(p: Point) { p.RemUnlock? || p.RemPost? }

  predicate Bumped(p: Point) { p.InsStore? }
  predicate Fronted(p: Point) { p.RemLoad? }

  // ---- the invariant ----

  /** Slots, items and threads in flight account for the whole buffer, and the lock for one thread. */
  ghost predicate Conserved(s: State) {
    && s.slots + s.items + Count(s.at, InFlight) == s.n
    && s.mutex + Count(s.at, InLock) == 1
  }

  /** The items in the buffer, and the room left in it, from the two semaphores' points of view. */
  ghost predicate Accounted(s: State) {
    && |s.ins| - |s.rem| == s.items + Count(s.at, Unannounced) + Count(s.at, Claiming)
    && s.n - (|s.ins| - |s.rem|) == s.slots + Count(s.at, Filling) + Count(s.at, Freeing)
  }

  /** front and rear count the items, one ahead while a thread is between the bump and the access. */
  ghost predicate Counters(s: State) {
    && s.rear == |s.ins| + Count(s.at, Bumped)
    && s.front == |s.rem| + Count(s.at, Fronted)
  }

  /** Every item that has gone in and not come out is in its slot; what came out is what went in first. */
  ghost predicate Fifo(s: State) {
    && |s.buf| == s.n && s.rem <= s.ins && |s.ins| - |s.rem| <= s.n
    && forall k :: |s.rem| <= k < |s.ins| && s.n > 0 ==> s.buf[(k + 1) % s.n] == s.ins[k]
  }

  /** A thread that has loaded an item and not yet left the lock holds the last item that came out. */
  ghost predicate Loaded(s: State) {
    forall t :: 0 <= t < |s.at| && s.at[t].RemUnlock? ==> s.rem != [] && s.at[t].item == s.rem[|s.rem| - 1]
  }

  ghost predicate Inv(s: State) { Conserved(s) && Accounted(s) && Counters(s) && Fifo(s) && Loaded(s) }

  // ---- every step keeps the invariant ----

  lemma InitInv(s: State)
    requires Init(s)
    ensures Inv(s)
  {
    CountNone(s.at, InFlight);
    CountNone(s.at, InLock);
    CountNone(s.at, Unannounced);
    CountNone(s.at, Claiming);
    CountNone(s.at, Filling);
    CountNone(s.at, Freeing);
    CountNone(s.at, Bumped);
    CountNone(s.at, Fronted);
  }

  lemma StepConserves(s: State, a: Action)
    requires Conserved(s) && Enabled(s, a)
    ensures Conserved(Do(s, a))
  {
    hide Count;
    CountMoves(s.at, a.t, Do(s, a).at[a.t]);
  }

  lemma StepAccounts(s: State, a: Action)
    requires Accounted(s) && Enabled(s, a)
    ensures Accounted(Do(s, a))
  {
    hide Count;
    StepItems(s, a);
    StepRoom(s, a);
  }

  lemma StepItems(s: State, a: Action)
    requires Accounted(s) && Enabled(s, a)
    ensures var e := Do(s, a); |e.ins| - |e.rem| == e.items + Count(e.at, Unannounced) + Count(e.at, Claiming)
  {
    hide Count;
    CountMove(s.at, a.t, Do(s, a).at[a.t], Unannounced);
    CountMove(s.at, a.t, Do(s, a).at[a.t], Claiming);
  }

  lemma StepRoom(s: State, a: Action)
    requires Accounted(s) && Enabled(s, a)
    ensures var e := Do(s, a); e.n - (|e.ins| - |e.rem|) == e.slots + Count(e.at, Filling) + Count(e.at, Freeing)
  {
    hide Count;
    CountMove(s.at, a.t, Do(s, a).at[a.t], Filling);
    CountMove(s.at, a.t, Do(s, a).at[a.t], Freeing);
  }

  lemma StepCounts(s: State, a: Action)
    requires Counters(s) && Enabled(s, a)
    ensures Counters(Do(s, a))
  {
    hide Count;
    CountMoves(s.at, a.t, Do(s, a).at[a.t]);
  }

  lemma SlotsDiffer(a: nat, b: nat, n: nat)
    requires a < b < a + n
    ensures a % n != b % n
  {
    var qa, qb, r := a / n, b / n, a % n;
    if a % n == b % n {
      assert a == n * qa + r && b == n * qb + r;
      assert b - a == n * (qb - qa);
      NoMultipleBetween(b - a, n, qb - qa);
    }
  }

  lemma NoMultipleBetween(d: int, n: nat, q: int)
    requires d == n * q
    ensures !(0 < d < n)
  {
    if q >= 1 {
      assert n * q >= n;
    } else {
      assert n * q <= 0;
    }
  }

  /** A thread about to store: the slot is the next one round, and there is room for it. */
  lemma StorePoint(s: State, t: nat)
    requires Inv(s) && t < |s.at| && s.at[t].InsStore?
    ensures s.rear == |s.ins| + 1 && |s.ins| - |s.rem| < s.n
  {
    CountOne(s.at, Bumped, t);
    CountLe(s.at, Bumped, InLock);
    CountOne(s.at, Filling, t);
    CountRange(s.at, Freeing);
  }

  /** A thread about to load: the slot is that of the oldest item still inside. */
  lemma LoadPoint(s: State, t: nat)
    requires Inv(s) && t < |s.at| && s.at[t].RemLoad?
    ensures s.front == |s.rem| + 1 && |s.rem| < |s.ins|
  {
    CountOne(s.at, Fronted, t);
    CountLe(s.at, Fronted, InLock);
    CountOne(s.at, Claiming, t);
    CountRange(s.at, Unannounced);
  }

  /** The slot about to be written holds no item that is still to be read. */
  lemma NeverOverwritten(s: State, t: nat, k: nat)
    requires Inv(s) && t < |s.at| && s.at[t].InsStore? && |s.rem| <= k < |s.ins|
    ensures s.rear % s.n != (k + 1) % s.n
  {
    StorePoint(s, t);
    SlotsDiffer(k + 1, |s.ins| + 1, s.n);
  }

  /** The slot about to be read holds the oldest item that has gone in and not come out. */
  lemma ReadsOldest(s: State, t: nat)
    requires Inv(s) && t < |s.at| && s.at[t].RemLoad?
    ensures |s.rem| < |s.ins| && s.buf[s.front % s.n] == s.ins[|s.rem|]
  {
    LoadPoint(s, t);
  }

  lemma StepFifo(s: State, a: Action)
    requires Inv(s) && Enabled(s, a)
    ensures Fifo(Do(s, a))
  {
    hide Count;
    if a.Go? && s.at[a.t].InsStore? {
      StorePoint(s, a.t);
      var s' := Do(s, a);
      forall k | |s'.rem| <= k < |s'.ins| ensures s'.buf[(k + 1) % s'.n] == s'.ins[k] {
        if k < |s.ins| {
          NeverOverwritten(s, a.t, k);
        }
      }
    } else if a.Go? && s.at[a.t].RemLoad? {
      ReadsOldest(s, a.t);
    }
  }

  lemma StepLoaded(s: State, a: Action)
    requires Inv(s) && Enabled(s, a)
    ensures Loaded(Do(s, a))
  {
    hide Count;
    var s' := Do(s, a);
    forall t | 0 <= t < |s'.at| && s'.at[t].RemUnlock?
      ensures s'.rem != [] && s'.at[t].item == s'.rem[|s'.rem| - 1]
    {
      if a.Go? && s.at[a.t].RemLoad? && t != a.t {
        CountUnique(s.at, InLock, t, a.t);
      }
    }
  }

  lemma StepInv(s: State, a: Action)
    requires Inv(s) && Enabled(s, a)
    ensures Inv(Do(s, a))
  {
    StepConserves(s, a);
    StepAccounts(s, a);
    StepCounts(s, a);
    StepFifo(s, a);
    StepLoaded(s, a);
  }

  // ---- progress ----

  /** Threads in flight do not block one another: one of them can take its next step. */
  lemma InFlightMoves(s: State, t: nat) returns (u: nat)
    requires Inv(s) && t < |s.at| && InFlight(s.at[t])
    ensures u < |s.at| && InFlight(s.at[u]) && Enabled(s, Go(u))
  {
    hide Count;
    CountOne(s.at, InFlight, t);
    u := t;
    if s.mutex == 0 {
      u := CountWitness(s.at, InLock);
    }
  }

  /**
   When nobody can move, every thread inside waits at its first semaphore: an insert because the buffer
   holds n unread items, a remove because it holds none.
   */
  lemma StalledOnlyByNeed(s: State, t: nat)
    requires Inv(s) && t < |s.at| && s.at[t] != Outside
    requires forall u :: 0 <= u < |s.at| ==> !Enabled(s, Go(u))
    ensures (s.at[t].InsWaitSlot? && |s.ins| - |s.rem| == s.n) || (s.at[t].RemWaitItem? && s.ins == s.rem)
  {
    hide Count;
    forall u | 0 <= u < |s.at| ensures !InFlight(s.at[u]) {
      if InFlight(s.at[u]) {
        var w := InFlightMoves(s, u);
        assert false;
      }
    }
    CountNone(s.at, InFlight);
    CountNone(s.at, Unannounced);
    CountNone(s.at, Claiming);
    assert !Enabled(s, Go(t));
  }

  // ---- whole runs ----

  /** Running a schedule; a blocked action is skipped. */
  ghost function Run(s: State, schedule: seq<Action>): State
    decreases |schedule|
  {
    if schedule == [] then s
    else Run(if Enabled(s, schedule[0]) then Do(s, schedule[0]) else s, schedule[1..])
  }

  lemma {:induction false} RunInv(s: State, schedule: seq<Action>)
    requires Inv(s)
    ensures Inv(Run(s, schedule))
    decreases |schedule|
  {
    if schedule != [] {
      if Enabled(s, schedule[0]) {
        StepInv(s, schedule[0]);
        RunInv(Do(s, schedule[0]), schedule[1..]);
      } else {
        RunInv(s, schedule[1..]);
      }
    }
  }

  // ---- items in, items out ----

  /** The item of an insert that has not yet stored it. */
  ghost function CarriedIn(p: Point): multiset<int> {
    if p.InsWaitSlot? || p.InsWaitLock? || p.InsBump? || p.InsStore? then multiset{p.item} else multiset{}
  }

  /** The item of a remove that has loaded it and not yet returned it. */
  ghost function HeldOut(p: Point): multiset<int> {
    if p.RemUnlock? || p.RemPost? then multiset{p.item} else multiset{}
  }

  /** The item that an action hands to sbuf_insert. */
  ghost function GivenBy(a: Action): multiset<int> { if a.CallInsert? then multiset{a.item} else multiset{} }

  /** The item with which an action makes sbuf_remove return: that of a thread at its last step. */
  ghost function ReturnedBy(s: State, a: Action): multiset<int> {
    if a.Go? && a.t < |s.at| && s.at[a.t].RemPost? then multiset{s.at[a.t].item} else multiset{}
  }

  /** Everything handed to inserts along a run. */
  ghost function Given(s: State, schedule: seq<Action>): multiset<int>
    decreases |schedule|
  {
    if schedule == [] then multiset{}
    else if Enabled(s, schedule[0]) then GivenBy(schedule[0]) + Given(Do(s, schedule[0]), schedule[1..])
    else Given(s, schedule[1..])
  }

  /** Everything returned by removes along a run. */
  ghost function Returned(s: State, schedule: seq<Action>): multiset<int>
    decreases |schedule|
  {
    if schedule == [] then multiset{}
    else if Enabled(s, schedule[0]) then ReturnedBy(s, schedule[0]) + Returned(Do(s, schedule[0]), schedule[1..])
    else Returned(s, schedule[1..])
  }

  /** A step moves one thread. */
  lemma StepMoves(s: State, a: Action)
    requires Enabled(s, a)
    ensures a.t < |s.at| && |Do(s, a).at| == |s.at| && Do(s, a).at == s.at[a.t := Do(s, a).at[a.t]]
  {
  }

  lemma Appended(s: seq<int>, x: int)
    ensures multiset(s + [x]) == multiset(s) + multiset{x}
  {
  }

  /** Whether a thread carries an item into the buffer. */
  predicate Carries(p: Point) { p.InsWaitSlot? || p.InsWaitLock? || p.InsBump? || p.InsStore? }

  /** Whether a thread holds an item on its way out. */
  predicate Holds(p: Point) { p.RemUnlock? || p.RemPost? }

  lemma StoresNothing(s: State, a: Action)
    requires Enabled(s, a) && !(a.Go? && s.at[a.t].InsStore?)
    ensures var p, q := s.at[a.t], Do(s, a).at[a.t];
      && Do(s, a).ins == s.ins
      && (Carries(q) <==> Carries(p) || a.CallInsert?) && (a.CallInsert? ==> !Carries(p) && q.item == a.item)
      && (Carries(p) ==> q.item == p.item)
  {
  }

  lemma LoadsNothing(s: State, a: Action)
    requires Enabled(s, a) && !(a.Go? && s.at[a.t].RemLoad?)
    ensures var p, q := s.at[a.t], Do(s, a).at[a.t];
      && Do(s, a).rem == s.rem
      && (Holds(p) <==> Holds(q) || (a.Go? && p.RemPost?)) && !(Holds(q) && a.Go? && p.RemPost?)
      && (Holds(q) ==> q.item == p.item)
  {
  }

  /** A step that stores nothing leaves its thread with the item it had, or was given. */
  lemma CarriesOn(s: State, a: Action)
    requires Enabled(s, a) && !(a.Go? && s.at[a.t].InsStore?)
    ensures Do(s, a).ins == s.ins && CarriedIn(Do(s, a).at[a.t]) == GivenBy(a) + CarriedIn(s.at[a.t])
  {
    StoresNothing(s, a);
    hide Do, Enabled;
  }

  /** A step that loads nothing leaves its thread with the item it held, or returns it. */
  lemma HoldsOn(s: State, a: Action)
    requires Enabled(s, a) && !(a.Go? && s.at[a.t].RemLoad?)
    ensures Do(s, a).rem == s.rem && ReturnedBy(s, a) + HeldOut(Do(s, a).at[a.t]) == HeldOut(s.at[a.t])
  {
    StepMoves(s, a);
    LoadsNothing(s, a);
    hide Do, Enabled;
  }

  lemma StoresOne(s: State, a: Action)
    requires Enabled(s, a) && a.Go? && s.at[a.t].InsStore?
    ensures var e := Do(s, a); e.ins == s.ins + [s.at[a.t].item] && CarriedIn(e.at[a.t]) == multiset{} == GivenBy(a)
    ensures CarriedIn(s.at[a.t]) == multiset{s.at[a.t].item}
  {
  }

  lemma LoadsOne(s: State, a: Action)
    requires Enabled(s, a) && a.Go? && s.at[a.t].RemLoad?
    ensures var e := Do(s, a); var x := s.buf[s.front % s.n];
      e.rem == s.rem + [x] && HeldOut(e.at[a.t]) == multiset{x} && ReturnedBy(s, a) == multiset{} == HeldOut(s.at[a.t])
  {
  }

  /** What one step moves from its thread into the buffer. */
  lemma MoveIn(s: State, a: Action)
    requires Enabled(s, a)
    ensures var e := Do(s, a);
      multiset(s.ins) + GivenBy(a) + CarriedIn(s.at[a.t]) == multiset(e.ins) + CarriedIn(e.at[a.t])
  {
    if a.Go? && s.at[a.t].InsStore? {
      StoresOne(s, a);
      hide Do, Enabled, CarriedIn, GivenBy;
      Appended(s.ins, s.at[a.t].item);
    } else {
      CarriesOn(s, a);
      hide Do, Enabled, CarriedIn, GivenBy;
      Grouped(multiset(s.ins), GivenBy(a), CarriedIn(s.at[a.t]));
    }
  }

  /** What one step moves from the buffer to its thread, and from its thread to the caller. */
  lemma MoveOut(s: State, a: Action)
    requires Enabled(s, a)
    ensures var e := Do(s, a);
      multiset(s.rem) + ReturnedBy(s, a) + HeldOut(e.at[a.t]) == multiset(e.rem) + HeldOut(s.at[a.t])
  {
    if a.Go? && s.at[a.t].RemLoad? {
      LoadsOne(s, a);
      hide Do, Enabled, HeldOut, ReturnedBy;
      Appended(s.rem, s.buf[s.front % s.n]);
    } else {
      HoldsOn(s, a);
      hide Do, Enabled, HeldOut, ReturnedBy;
      Grouped(multiset(s.rem), ReturnedBy(s, a), HeldOut(Do(s, a).at[a.t]));
    }
  }

  lemma Grouped(a: multiset<int>, b: multiset<int>, c: multiset<int>)
    ensures a + b + c == a + (b + c)
  {
  }

  lemma StepIn(s: State, a: Action)
    requires Enabled(s, a)
    ensures var e := Do(s, a);
      multiset(s.ins) + Sum(s.at, CarriedIn) + GivenBy(a) == multiset(e.ins) + Sum(e.at, CarriedIn)
  {
    hide Sum, Enabled, GivenBy, CarriedIn;
    StepMoves(s, a);
    var e := Do(s, a);
    hide Do;
    var c, c' := CarriedIn(s.at[a.t]), CarriedIn(e.at[a.t]);
    SumMove(s.at, a.t, e.at[a.t], CarriedIn);
    MoveIn(s, a);
    Transfer(multiset(s.ins), Sum(s.at, CarriedIn), GivenBy(a), multiset(e.ins), Sum(e.at, CarriedIn), c, c');
  }

  lemma StepOut(s: State, a: Action)
    requires Enabled(s, a)
    ensures var e := Do(s, a);
      multiset(s.rem) + Sum(e.at, HeldOut) + ReturnedBy(s, a) == multiset(e.rem) + Sum(s.at, HeldOut)
  {
    hide Sum, Enabled, ReturnedBy, HeldOut;
    StepMoves(s, a);
    var e := Do(s, a);
    hide Do;
    var c, c' := HeldOut(s.at[a.t]), HeldOut(e.at[a.t]);
    SumMove(s.at, a.t, e.at[a.t], HeldOut);
    MoveOut(s, a);
    Transfer(multiset(s.rem), Sum(e.at, HeldOut), ReturnedBy(s, a), multiset(e.rem), Sum(s.at, HeldOut), c', c);
  }

  /** Two stretches of a run account for the whole. */
  lemma Both(a: multiset<int>, b: multiset<int>, m: multiset<int>, c: multiset<int>, d: multiset<int>)
    requires a + b == m && m + c == d
    ensures a + (b + c) == d
  {
  }

  lemma {:induction false} ItemsIn(s: State, schedule: seq<Action>)
    ensures var e := Run(s, schedule);
      multiset(s.ins) + Sum(s.at, CarriedIn) + Given(s, schedule) == multiset(e.ins) + Sum(e.at, CarriedIn)
    decreases |schedule|
  {
    hide Sum, Do, Enabled, GivenBy;
    if schedule != [] {
      if Enabled(s, schedule[0]) {
        var d, e := Do(s, schedule[0]), Run(s, schedule);
        StepIn(s, schedule[0]);
        ItemsIn(d, schedule[1..]);
        Both(multiset(s.ins) + Sum(s.at, CarriedIn), GivenBy(schedule[0]), multiset(d.ins) + Sum(d.at, CarriedIn),
             Given(d, schedule[1..]), multiset(e.ins) + Sum(e.at, CarriedIn));
      } else {
        ItemsIn(s, schedule[1..]);
      }
    }
  }

  /** Two stretches of a run account for the whole: what is held cancels out in the middle. */
  lemma BothOut(r: multiset<int>, h: multiset<int>, x: multiset<int>, r1: multiset<int>, h1: multiset<int>,
                y: multiset<int>, r2: multiset<int>, h2: multiset<int>)
    requires r + h1 + x == r1 + h && r1 + h2 + y == r2 + h1
    ensures r + h2 + (x + y) == r2 + h
  {
    forall i ensures (r + h2 + (x + y))[i] == (r2 + h)[i] {
      assert (r + h1 + x)[i] == (r1 + h)[i] && (r1 + h2 + y)[i] == (r2 + h1)[i];
    }
  }

  lemma {:induction false} ItemsOut(s: State, schedule: seq<Action>)
    ensures var e := Run(s, schedule);
      multiset(s.rem) + Sum(e.at, HeldOut) + Returned(s, schedule) == multiset(e.rem) + Sum(s.at, HeldOut)
    decreases |schedule|
  {
    hide Sum, Do, Enabled, ReturnedBy;
    if schedule != [] {
      if Enabled(s, schedule[0]) {
        var d, e := Do(s, schedule[0]), Run(s, schedule);
        StepOut(s, schedule[0]);
        ItemsOut(d, schedule[1..]);
        BothOut(multiset(s.rem), Sum(s.at, HeldOut), ReturnedBy(s, schedule[0]), multiset(d.rem), Sum(d.at, HeldOut),
                Returned(d, schedule[1..]), multiset(e.rem), Sum(e.at, HeldOut));
      } else {
        ItemsOut(s, schedule[1..]);
      }
    }
  }

  /**
   No item is lost, made up or changed on the way: what inserts were given is what has gone in and what inserts
   still carry, and what has come out is what removes have returned and what removes still hold.
   */
  lemma ItemsConserved(s: State, schedule: seq<Action>)
    requires Init(s)
    ensures var e := Run(s, schedule);
      && Given(s, schedule) == multiset(e.ins) + Sum(e.at, CarriedIn)
      && multiset(e.rem) == Returned(s, schedule) + Sum(e.at, HeldOut)
  {
    hide Run, Given, Returned, Sum;
    SumNone(s.at, CarriedIn);
    SumNone(s.at, HeldOut);
    ItemsIn(s, schedule);
    ItemsOut(s, schedule);
    var e := Run(s, schedule);
    assert multiset(s.ins) + multiset{} + Given(s, schedule) == Given(s, schedule);
    assert multiset(s.rem) + Sum(e.at, HeldOut) + Returned(s, schedule) == Returned(s, schedule) + Sum(e.at, HeldOut);
    assert multiset(e.rem) + multiset{} == multiset(e.rem);
  }

  /** A loaded item stays with its thread, whoever moves, until the thread returns it. */
  lemma HeldItemKept(s: State, a: Action, t: nat)
    requires Enabled(s, a) && t < |s.at| && (s.at[t].RemUnlock? || s.at[t].RemPost?)
    ensures var e := Do(s, a);
      && (a.t != t ==> e.at[t] == s.at[t])
      && (a == Go(t) && s.at[t].RemUnlock? ==> e.at[t].RemPost? && e.at[t].item == s.at[t].item)
      && (a == Go(t) && s.at[t].RemPost? ==> e.at[t] == Outside && ReturnedBy(s, a) == multiset{s.at[t].item})
  {
  }

  /** An item handed to an insert stays with its thread until it is stored behind the others. */
  lemma CarriedItemKept(s: State, a: Action, t: nat)
    requires Enabled(s, a) && t < |s.at| && CarriedIn(s.at[t]) != multiset{}
    ensures var e := Do(s, a);
      && (a.t != t ==> e.at[t] == s.at[t])
      && (a == Go(t) && !s.at[t].InsStore? ==> CarriedIn(e.at[t]) == multiset{s.at[t].item} && e.ins == s.ins)
      && (a == Go(t) && s.at[t].InsStore? ==> e.ins == s.ins + [s.at[t].item] && CarriedIn(e.at[t]) == multiset{})
  {
  }

  // ---- one call after the other ----

  function Steps(t: nat, n: nat): seq<Action> { if n == 0 then [] else [Go(t)] + Steps(t, n - 1) }

  /** An insert that nobody interferes with, while there is room: the item is in, and announced. */
  lemma SoloInsert(s: State, t: nat, item: int)
    requires Inv(s) && t < |s.at| && s.at[t] == Outside && s.mutex == 1 && s.slots > 0
    ensures var e := Run(s, [CallInsert(t, item)] + Steps(t, 6));
      && e.ins == s.ins + [item] && e.rem == s.rem && e.at == s.at
      && e.items == s.items + 1 && e.slots == s.slots - 1 && e.mutex == 1 && e.n == s.n
  {
    hide Count;
    CountRange(s.at, InFlight);
    var s1 := Do(s, CallInsert(t, item));
    var s2 := Do(s1, Go(t));
    var s3 := Do(s2, Go(t));
    var s4 := Do(s3, Go(t));
    var s5 := Do(s4, Go(t));
    var s6 := Do(s5, Go(t));
    var s7 := Do(s6, Go(t));
    assert s7.at == s.at;
    SixSteps(s1, t, s2, s3, s4, s5, s6, s7);
    assert ([CallInsert(t, item)] + Steps(t, 6))[1..] == Steps(t, 6);
  }

  /** The first four steps of a remove that nobody interferes with. */
  lemma RemoveHead(s: State, t: nat) returns (s1: State, s2: State, s3: State, s4: State)
    requires t < |s.at| && |s.buf| == s.n && s.at[t] == Outside && s.mutex == 1 && s.items > 0
    ensures Enabled(s, CallRemove(t)) && s1 == Do(s, CallRemove(t)) && Enabled(s1, Go(t)) && s2 == Do(s1, Go(t))
    ensures Enabled(s2, Go(t)) && s3 == Do(s2, Go(t)) && Enabled(s3, Go(t)) && s4 == Do(s3, Go(t))
    ensures |s1.at| == |s2.at| == |s3.at| == |s.at| && s1.at[t].RemWaitItem? && s2.at[t].RemWaitLock? && s3.at[t].RemBump?
    ensures s4 == s.(items := s.items - 1, mutex := 0, front := s.front + 1, at := s.at[t := RemLoad])
  {
    s1 := Do(s, CallRemove(t));
    s2 := Do(s1, Go(t));
    s3 := Do(s2, Go(t));
    s4 := Do(s3, Go(t));
  }

  /** Its last three steps. */
  lemma RemoveRest(s: State, t: nat) returns (s5: State, s6: State, s7: State)
    requires t < |s.at| && |s.buf| == s.n > 0 && s.at[t] == RemLoad
    ensures Enabled(s, Go(t)) && s5 == Do(s, Go(t)) && Enabled(s5, Go(t)) && s6 == Do(s5, Go(t))
    ensures Enabled(s6, Go(t)) && s7 == Do(s6, Go(t)) && |s5.at| == |s6.at| == |s.at|
    ensures var x := s.buf[s.front % s.n];
      && s5.at[t] == RemUnlock(x) && s6.at[t] == RemPost(x)
      && s7 == s.(rem := s.rem + [x], mutex := s.mutex + 1, slots := s.slots + 1, at := s.at[t := Outside])
  {
    s5 := Do(s, Go(t));
    s6 := Do(s5, Go(t));
    s7 := Do(s6, Go(t));
  }

  /** A remove that nobody interferes with, while there is an item: it returns the oldest one. */
  lemma SoloRemove(s: State, t: nat)
    requires Inv(s) && t < |s.at| && s.at[t] == Outside && s.mutex == 1 && s.items > 0
    ensures |s.rem| < |s.ins|
    ensures var e := Run(s, [CallRemove(t)] + Steps(t, 6));
      && e.rem == s.rem + [s.ins[|s.rem|]] && e.ins == s.ins && e.at == s.at
      && e.items == s.items - 1 && e.slots == s.slots + 1 && e.mutex == 1 && e.n == s.n
    ensures Returned(s, [CallRemove(t)] + Steps(t, 6)) == multiset{s.ins[|s.rem|]}
  {
    hide *;
    InvSized(s);
    var s1, s2, s3, s4 := RemoveHead(s, t);
    AtLoad(s, t, s1, s2, s3, s4);
    var s5, s6, s7 := RemoveRest(s4, t);
    assert s7.at == s.at;
    SixSteps(s1, t, s2, s3, s4, s5, s6, s7);
    OnlyLast(s1, s2, s3, s4, s5, s6, t);
    NotReturning(s, CallRemove(t));
    FirstStep(s, CallRemove(t), Steps(t, 6));
  }

  lemma FirstStep(s: State, a: Action, rest: seq<Action>)
    requires Enabled(s, a)
    ensures Run(s, [a] + rest) == Run(Do(s, a), rest)
    ensures Returned(s, [a] + rest) == ReturnedBy(s, a) + Returned(Do(s, a), rest)
  {
    hide Enabled, Do, ReturnedBy;
    assert ([a] + rest)[0] == a && ([a] + rest)[1..] == rest;
  }

  lemma NotReturning(s: State, a: Action)
    requires !(a.Go? && a.t < |s.at| && s.at[a.t].RemPost?)
    ensures ReturnedBy(s, a) == multiset{}
  {
  }

  /** Of the six steps of a remove, the last returns. */
  lemma OnlyLast(s1: State, s2: State, s3: State, s4: State, s5: State, s6: State, t: nat)
    requires t < |s1.at| == |s2.at| == |s3.at| && t < |s4.at| == |s5.at| == |s6.at|
    requires s1.at[t].RemWaitItem? && s2.at[t].RemWaitLock? && s3.at[t].RemBump? && s4.at[t].RemLoad?
    requires s5.at[t].RemUnlock? && s6.at[t].RemPost?
    ensures ReturnedBy(s1, Go(t)) + ReturnedBy(s2, Go(t)) + ReturnedBy(s3, Go(t)) + ReturnedBy(s4, Go(t))
          + ReturnedBy(s5, Go(t)) + ReturnedBy(s6, Go(t)) == multiset{s6.at[t].item}
  {
  }

  lemma AtLoad(s: State, t: nat, s1: State, s2: State, s3: State, s4: State)
    requires Inv(s) && t < |s.at| && s.at[t] == Outside && s.mutex == 1 && s.items > 0
    requires s1 == Do(s, CallRemove(t)) && s1.at[t].RemWaitItem? && Enabled(s1, Go(t)) && s2 == Do(s1, Go(t))
    requires s2.at[t].RemWaitLock? && Enabled(s2, Go(t)) && s3 == Do(s2, Go(t))
    requires s3.at[t].RemBump? && Enabled(s3, Go(t)) && s4 == Do(s3, Go(t)) && |s4.at| == |s.at|
    requires s4.at[t].RemLoad?
    ensures Inv(s4) && s4.n > 0 && |s4.buf| == s4.n && |s4.rem| < |s4.ins| && s4.buf[s4.front % s4.n] == s4.ins[|s4.rem|]
  {
    hide Count, Conserved, Accounted, Counters, Fifo, Loaded, Do;
    InvSized(s);
    StepInv(s, CallRemove(t));
    StepInv(s1, Go(t));
    StepInv(s2, Go(t));
    StepInv(s3, Go(t));
    ReadsOldest(s4, t);
    LoadPoint(s4, t);
    RoomOf(s4, t);
  }

  lemma InvSized(s: State)
    requires Inv(s)
    ensures |s.buf| == s.n
  {
  }

  lemma RoomOf(s: State, t: nat)
    requires Inv(s) && t < |s.at| && InFlight(s.at[t])
    ensures s.n > 0 && |s.buf| == s.n
  {
    hide Count;
    CountOne(s.at, InFlight, t);
  }

  lemma SixSteps(s1: State, t: nat, s2: State, s3: State, s4: State, s5: State, s6: State, s7: State)
    requires Enabled(s1, Go(t)) && s2 == Do(s1, Go(t)) && Enabled(s2, Go(t)) && s3 == Do(s2, Go(t))
    requires Enabled(s3, Go(t)) && s4 == Do(s3, Go(t)) && Enabled(s4, Go(t)) && s5 == Do(s4, Go(t))
    requires Enabled(s5, Go(t)) && s6 == Do(s5, Go(t)) && Enabled(s6, Go(t)) && s7 == Do(s6, Go(t))
    ensures Run(s1, Steps(t, 6)) == s7
    ensures Returned(s1, Steps(t, 6)) == ReturnedBy(s1, Go(t)) + ReturnedBy(s2, Go(t)) + ReturnedBy(s3, Go(t))
                                       + ReturnedBy(s4, Go(t)) + ReturnedBy(s5, Go(t)) + ReturnedBy(s6, Go(t))
  {
    hide Enabled, Do, ReturnedBy;
    OneStep(s1, t, 5);
    OneStep(s2, t, 4);
    OneStep(s3, t, 3);
    OneStep(s4, t, 2);
    OneStep(s5, t, 1);
    OneStep(s6, t, 0);
    assert Steps(t, 0) == [];
  }

  lemma OneStep(s: State, t: nat, n: nat)
    requires Enabled(s, Go(t))
    ensures Run(s, Steps(t, n + 1)) == Run(Do(s, Go(t)), Steps(t, n))
    ensures Returned(s, Steps(t, n + 1)) == ReturnedBy(s, Go(t)) + Returned(Do(s, Go(t)), Steps(t, n))
  {
    hide Enabled, Do, ReturnedBy;
    assert Steps(t, n + 1)[0] == Go(t) && Steps(t, n + 1)[1..] == Steps(t, n);
  }

  /**
   For any number of threads and any interleaving: slots, items and threads in flight add up to n,
   the buffer never holds more than n items, and what has come out is a prefix of what has gone in.
   The slot a thread is about to write holds no unread item, the slot a thread is about to read holds the
   oldest one, and a run stalls only with every thread waiting for room in a full buffer or for an item in
   an empty one.  What inserts were given has gone in or is still carried, and what has come out has been
   returned or is still held.
   */
  lemma EveryRun(s: State, schedule: seq<Action>, t: nat, k: nat)
    requires Init(s)
    ensures var e := Run(s, schedule);
      && e.slots + e.items + Count(e.at, InFlight) == e.n && e.mutex + Count(e.at, InLock) == 1
      && 0 <= |e.ins| - |e.rem| <= e.n && e.rem <= e.ins
      && (t < |e.at| && e.at[t].InsStore? ==> e.n > 0 && (|e.rem| <= k < |e.ins| ==> e.rear % e.n != (k + 1) % e.n))
      && (t < |e.at| && e.at[t].RemLoad? ==> e.n > 0 && |e.buf| == e.n && |e.rem| < |e.ins| && e.buf[e.front % e.n] == e.ins[|e.rem|])
      && (t < |e.at| && e.at[t].RemUnlock? ==> e.rem != [] && e.at[t].item == e.rem[|e.rem| - 1])
      && Given(s, schedule) == multiset(e.ins) + Sum(e.at, CarriedIn)
      && multiset(e.rem) == Returned(s, schedule) + Sum(e.at, HeldOut)
      && (t < |e.at| && e.at[t] != Outside && (forall u :: 0 <= u < |e.at| ==> !Enabled(e, Go(u))) ==>
            (e.at[t].InsWaitSlot? && |e.ins| - |e.rem| == e.n) || (e.at[t].RemWaitItem? && e.ins == e.rem))
  {
    hide Count, Given, Returned, Sum;
    InitInv(s);
    RunInv(s, schedule);
    ItemsConserved(s, schedule);
    var e := Run(s, schedule);
    if t < |e.at| {
      if e.at[t].InsStore? {
        StorePoint(e, t);
        if |e.rem| <= k < |e.ins| {
          NeverOverwritten(e, t, k);
        }
      } else if e.at[t].RemLoad? {
        ReadsOldest(e, t);
        LoadPoint(e, t);
      }
      if e.at[t] != Outside && forall u :: 0 <= u < |e.at| ==> !Enabled(e, Go(u)) {
        StalledOnlyByNeed(e, t);
      }
    }
  }
}
