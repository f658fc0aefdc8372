/**
 * Semaphores, locks and conditions. Interrupts are off inside every operation, so what
 * happens between two Sleep calls is one atomic step; a woken thread only becomes ready
 * and has to test again. A step that ends in Sleep leaves its thread in the queue.
 */
module Synch {
  import opened Lists
  import opened Sequences

  type Thread = nat

  datatype ThreadRef = Null | Ref(thread: Thread)

  /** What one step leaves: the new state, and whether the thread went to sleep. */
  datatype Tried<+State> = Passed(state: State) | Asleep(state: State)

  /** What a waking step leaves: the new state, and the thread put on the ready list. */
  datatype Woke<+State> = Woke(state: State, woken: ThreadRef)

  datatype Sem = Sem(value: int, queue: seq<Thread>)

  /** One round of the loop of P. */
  function TryP(s: Sem, t: Thread): Tried<Sem> {
    if s.value == 0 then Asleep(s.(queue := s.queue + [t])) else Passed(s.(value := s.value - 1))
  }

  function DoV(s: Sem): Woke<Sem> {
    if s.queue == [] then Woke(s.(value := s.value + 1), Null)
    else Woke(Sem(s.value + 1, s.queue[1..]), Ref(s.queue[0]))
  }

  datatype LockState = LockState(available: bool, owner: ThreadRef, queue: seq<Thread>)

  const FREE_LOCK := LockState(true, Null, [])

  /** One round of the loop of Acquire. */
  function TryAcquire(l: LockState, t: Thread): Tried<LockState> {
    if l.available then Passed(l.(available := false, owner := Ref(t))) else Asleep(l.(queue := l.queue + [t]))
  }

  /** The owner stays on record. */
  function DoRelease(l: LockState): Woke<LockState> {
    if l.queue == [] then Woke(l.(available := true), Null)
    else Woke(l.(available := true, queue := l.queue[1..]), Ref(l.queue[0]))
  }

  predicate HeldBy(l: LockState, t: Thread) {
    l.owner == Ref(t)
  }

  datatype CondState = CondState(isBusy: bool, queue: seq<Thread>)

  const FRESH_COND := CondState(true, [])

  /** One round of the loop of Wait. */
  function TryWait(c: CondState, t: Thread): Tried<CondState> {
    if c.isBusy then Asleep(c.(queue := c.queue + [t])) else Passed(c.(isBusy := true))
  }

  function DoSignal(c: CondState, l: LockState, t: Thread): Woke<CondState> {
    if !HeldBy(l, t) || c.queue == [] then Woke(c, Null)
    else Woke(CondState(false, c.queue[1..]), Ref(c.queue[0]))
  }

  // ---- the classes ----

  ghost function Items(s: seq<Entry<Thread>>): (q: seq<Thread>)
    ensures |q| == |s|
  {
    seq(|s|, i requires 0 <= i < |s| => s[i].item)
  }

  method PutToSleep(queue: List<Thread>, current: Thread)
    requires queue.Valid()
    modifies queue, queue.spine
    ensures queue.Valid() && Items(queue.contents) == Items(old(queue.contents)) + [current]
    ensures queue.SameOrNew()
  {
    queue.Append(current);
  }

  /** The thread that goes to the ready list, if any. */
  method WakeFirst(queue: List<Thread>) returns (woken: ThreadRef)
    requires queue.Valid()
    modifies queue
    ensures queue.Valid() && queue.NoneNew()
    ensures var q := Items(old(queue.contents));
      if q == [] then woken == Null && Items(queue.contents) == []
        else woken == Ref(q[0]) && Items(queue.contents) == q[1..]
  {
    var removed, thread := queue.Remove();
    woken := if removed then Ref(thread) else Null;
  }

  class Semaphore {
    var value: int
    const queue: List<Thread>

    ghost predicate Valid()
      reads this, queue, queue.spine
    {
      queue.Valid()
    }

    ghost function Now(): Sem
      reads this, queue
    {
      Sem(value, Items(queue.contents))
    }

    constructor (initialValue: int)
      ensures Valid() && Now() == Sem(initialValue, []) && fresh(queue) && queue.spine == []
    {
      value := initialValue;
      queue := new List<Thread>();
    }

    /** From the call, or from waking up, to the return or to going to sleep. */
    method P(current: Thread) returns (asleep: bool)
      requires Valid()
      modifies this, queue, queue.spine
      ensures Valid() && TryP(old(Now()), current) == if asleep then Asleep(Now()) else Passed(Now())
      ensures queue.SameOrNew()
    {
      asleep := value == 0;
      if asleep {
        PutToSleep(queue, current);
      } else {
        value := value - 1;
      }
    }

    method V() returns (woken: ThreadRef)
      requires Valid()
      modifies this, queue
      ensures Valid() && DoV(old(Now())) == Woke(Now(), woken)
      ensures queue.NoneNew()
    {
      woken := WakeFirst(queue);
      value := value + 1;
    }
  }

  class Lock {
    var available: bool
    var owner: ThreadRef
    const queue: List<Thread>

    ghost predicate Valid()
      reads this, queue, queue.spine
    {
      queue.Valid()
    }

    ghost function Now(): LockState
      reads this, queue
    {
      LockState(available, owner, Items(queue.contents))
    }

    constructor ()
      ensures Valid() && Now() == FREE_LOCK && fresh(queue) && queue.spine == []
    {
      available, owner := true, Null;
      queue := new List<Thread>();
    }

    method Acquire(current: Thread) returns (asleep: bool)
      requires Valid()
      modifies this, queue, queue.spine
      ensures Valid() && TryAcquire(old(Now()), current) == if asleep then Asleep(Now()) else Passed(Now())
      ensures queue.SameOrNew()
    {
      asleep := !available;
      if asleep {
        PutToSleep(queue, current);
      } else {
        available, owner := false, Ref(current);
      }
    }

    method Release() returns (woken: ThreadRef)
      requires Valid()
      modifies this, queue
      ensures Valid() && DoRelease(old(Now())) == Woke(Now(), woken)
      ensures queue.NoneNew()
    {
      woken := WakeFirst(queue);
      available := true;
    }

    method IsHeldByCurrentThread(current: Thread) returns (held: bool)
      ensures held <==> HeldBy(Now(), current)
    {
      held := owner == Ref(current);
    }
  }

  class Condition {
    var isBusy: bool
    const queue: List<Thread>

    ghost predicate Valid()
      reads this, queue, queue.spine
    {
      queue.Valid()
    }

    ghost function Now(): CondState
      reads this, queue
    {
      CondState(isBusy, Items(queue.contents))
    }

    constructor ()
      ensures Valid() && Now() == FRESH_COND && fresh(queue) && queue.spine == []
    {
      isBusy := true;
      queue := new List<Thread>();
    }

    /** One round of the loop of Wait, after the lock was released. */
    method Wait(current: Thread) returns (asleep: bool)
      requires Valid()
      modifies this, queue, queue.spine
      ensures Valid() && TryWait(old(Now()), current) == if asleep then Asleep(Now()) else Passed(Now())
      ensures queue.SameOrNew()
    {
      asleep := isBusy;
      if asleep {
        PutToSleep(queue, current);
      } else {
        isBusy := true;
      }
    }

    method Signal(conditionLock: Lock, current: Thread) returns (woken: ThreadRef)
      requires Valid() && conditionLock.Valid()
      modifies this, queue
      ensures Valid() && DoSignal(old(Now()), old(conditionLock.Now()), current) == Woke(Now(), woken)
      ensures queue.NoneNew()
    {
      woken := Null;
      var held := conditionLock.IsHeldByCurrentThread(current);
      if held {
        woken := WakeFirst(queue);
        if woken.Ref? {
          isBusy := false;
        }
      }
    }
  }

  // ---- a condition with several waiters ----

  /** n signals in a row by thread t. */
  function Signals(c: CondState, l: LockState, t: Thread, n: nat): CondState
    decreases n
  {
    if n == 0 then c else Signals(DoSignal(c, l, t).state, l, t, n - 1)
  }

  datatype Retried = Retried(state: CondState, passed: seq<Thread>)

  /** The woken threads test again, one after the other. */
  function Retry(c: CondState, woken: seq<Thread>): Retried
    decreases |woken|
  {
    if woken == [] then Retried(c, [])
    else
      match TryWait(c, woken[0])
      case Asleep(d) => Retry(d, woken[1..])
      case Passed(d) => var rest := Retry(d, woken[1..]); Retried(rest.state, [woken[0]] + rest.passed)
  }

  /** Only a holder of the lock signals anything, and only when somebody waits. */
  lemma SignalNeedsHolder(c: CondState, l: LockState, t: Thread)
    ensures DoSignal(c, l, t).woken.Ref? <==> l.owner == Ref(t) && c.queue != []
    ensures DoSignal(c, l, t).woken == Null ==> DoSignal(c, l, t).state == c
  {
  }

  lemma {:induction false} SignalsWake(c: CondState, l: LockState, t: Thread, n: nat)
    requires HeldBy(l, t) && 1 <= n <= |c.queue|
    ensures Signals(c, l, t, n) == CondState(false, c.queue[n..])
    decreases n
  {
    if n > 1 {
      SignalsWake(CondState(false, c.queue[1..]), l, t, n - 1);
    }
  }

  lemma {:induction false} BusyPutsBack(c: CondState, woken: seq<Thread>)
    requires c.isBusy
    ensures Retry(c, woken) == Retried(c.(queue := c.queue + woken), [])
    decreases |woken|
  {
    if woken != [] {
      BusyPutsBack(c.(queue := c.queue + [woken[0]]), woken[1..]);
      assert c.queue + [woken[0]] + woken[1..] == c.queue + woken;
    } else {
      assert c.queue + woken == c.queue;
    }
  }

  /**
   * One flag stands for all signals: of the threads that n signals wake, the first gets
   * through and the others queue up again, so no signal is lost exactly when n is 1.
   */
  lemma SignalsLetOnePass(c: CondState, l: LockState, t: Thread, n: nat)
    requires HeldBy(l, t) && 1 <= n <= |c.queue|
    ensures var after := Retry(Signals(c, l, t, n), c.queue[..n]);
      && after == Retried(CondState(true, c.queue[n..] + c.queue[1..n]), [c.queue[0]])
      && (after.passed == c.queue[..n] <==> n == 1)
  {
    SignalsWake(c, l, t, n);
    BusyPutsBack(CondState(true, c.queue[n..]), c.queue[..n][1..]);
    assert c.queue[..n][1..] == c.queue[1..n];
  }

  lemma PopKeepsDistinct(q: seq<Thread>)
    requires Distinct(q) && q != []
    ensures Distinct(q[1..]) && q[0] !in q[1..] && forall t :: t in q <==> t == q[0] || t in q[1..]
  {
  }

  // ---- all runs of one semaphore ----

  datatype SemEvent = Try(thread: Thread) | Post

  /** A semaphore with the threads that were woken and have not tested again, and counts of completed calls. */
  datatype SemSystem = SemSystem(sem: Sem, woken: set<Thread>, passed: nat, posted: nat)

  predicate SemEnabled(s: SemSystem, e: SemEvent) {
    e.Try? ==> e.thread !in s.sem.queue
  }

  function SemNext(s: SemSystem, e: SemEvent): SemSystem {
    match e
    case Try(t) =>
      (match TryP(s.sem, t)
       case Passed(sem) => SemSystem(sem, s.woken - {t}, s.passed + 1, s.posted)
       case Asleep(sem) => SemSystem(sem, s.woken - {t}, s.passed, s.posted))
    case Post =>
      var w := DoV(s.sem);
      SemSystem(w.state, if w.woken.Ref? then s.woken + {w.woken.thread} else s.woken, s.passed, s.posted + 1)
  }

  function SemAfter(initial: nat, events: seq<SemEvent>): SemSystem {
    if events == [] then SemSystem(Sem(initial, []), {}, 0, 0)
    else SemNext(SemAfter(initial, events[..|events| - 1]), events[|events| - 1])
  }

  /** Only threads that are awake take steps. */
  ghost predicate SemLegal(initial: nat, events: seq<SemEvent>) {
    forall i | 0 <= i < |events| :: SemEnabled(SemAfter(initial, events[..i]), events[i])
  }

  /** Conservation, and no lost wake-up: sleepers and units together mean that enough threads are about to test. */
  ghost predicate SemSound(s: SemSystem, initial: nat) {
    && s.sem.value == initial + s.posted - s.passed && 0 <= s.sem.value
    && Distinct(s.sem.queue)
    && (forall t <- s.woken :: t !in s.sem.queue)
    && (s.sem.queue != [] ==> s.sem.value <= |s.woken|)
  }

  lemma SemStepKeepsSound(s: SemSystem, initial: nat, e: SemEvent)
    requires SemSound(s, initial) && SemEnabled(s, e)
    ensures SemSound(SemNext(s, e), initial)
  {
    var n := SemNext(s, e);
    match e
    case Try(t) =>
      if t in s.woken {
        assert |s.woken - {t}| == |s.woken| - 1;
      } else {
        assert s.woken - {t} == s.woken;
      }
    case Post =>
      if s.sem.queue != [] {
        PopKeepsDistinct(s.sem.queue);
        assert s.sem.queue[0] !in s.woken;
      }
  }

  lemma {:induction false} SemaphoreRuns(initial: nat, events: seq<SemEvent>)
    requires SemLegal(initial, events)
    ensures SemSound(SemAfter(initial, events), initial)
  {
    if events != [] {
      var before := events[..|events| - 1];
      assert SemLegal(initial, before) by {
        forall i | 0 <= i < |before|
          ensures SemEnabled(SemAfter(initial, before[..i]), before[i])
        {
          assert before[..i] == events[..i];
        }
      }
      SemaphoreRuns(initial, before);
      SemStepKeepsSound(SemAfter(initial, before), initial, events[|events| - 1]);
    }
  }

  /** The threads that found no unit, in the order in which they went to sleep. */
  function SemSlept(initial: nat, events: seq<SemEvent>): seq<Thread> {
    if events == [] then []
    else
      var before, e := events[..|events| - 1], events[|events| - 1];
      if e.Try? && SemAfter(initial, before).sem.value == 0 then SemSlept(initial, before) + [e.thread]
      else SemSlept(initial, before)
  }

  /** The threads that V woke, in the order in which it did. */
  function SemWoken(initial: nat, events: seq<SemEvent>): seq<Thread> {
    if events == [] then []
    else
      var before, e := events[..|events| - 1], events[|events| - 1];
      SemWoken(initial, before) + if e.Post? then Named(DoV(SemAfter(initial, before).sem).woken) else []
  }

  function Named(t: ThreadRef): seq<Thread> {
    if t.Ref? then [t.thread] else []
  }

  lemma JoinsLast(slept: seq<Thread>, woken: seq<Thread>, queue: seq<Thread>, t: Thread)
    requires slept == woken + queue
    ensures slept + [t] == woken + (queue + [t]) && woken + [] == woken
  {
  }

  lemma LeavesFirst(woken: seq<Thread>, queue: seq<Thread>)
    requires queue != []
    ensures woken + queue == woken + [queue[0]] + queue[1..]
  {
  }

  /** Sleepers are woken in the order in which they went to sleep, and those not woken yet wait in that order. */
  lemma {:induction false} SemaphoreIsFifo(initial: nat, events: seq<SemEvent>)
    ensures SemSlept(initial, events) == SemWoken(initial, events) + SemAfter(initial, events).sem.queue
  {
    if events != [] {
      var before, e := events[..|events| - 1], events[|events| - 1];
      SemaphoreIsFifo(initial, before);
      var sem := SemAfter(initial, before).sem;
      if e.Try? {
        JoinsLast(SemSlept(initial, before), SemWoken(initial, before), sem.queue, e.thread);
      } else if sem.queue != [] {
        LeavesFirst(SemWoken(initial, before), sem.queue);
      }
    }
  }

  /** The events done on a semaphore object: its value and its queue are those of the run. */
  method RunSemaphore(initial: nat, events: seq<SemEvent>) returns (s: Semaphore, woken: seq<Thread>)
    requires SemLegal(initial, events)
    ensures fresh(s) && s.Valid() && s.Now() == SemAfter(initial, events).sem
    ensures SemSound(SemAfter(initial, events), initial)
    ensures SemSlept(initial, events) == woken + s.Now().queue
  {
    hide SemSound, SemSlept, SemLegal;
    s := new Semaphore(initial);
    woken := [];
    for i := 0 to |events|
      invariant fresh(s) && fresh(s.queue) && s.Valid() && s.Now() == SemAfter(initial, events[..i]).sem
      invariant forall j | 0 <= j < |s.queue.spine| :: fresh(s.queue.spine[j])
      invariant woken == SemWoken(initial, events[..i])
    {
      assert events[..i + 1][..i] == events[..i];
      match events[i]
      case Try(t) => var asleep := s.P(t);
      case Post =>
        var w := s.V();
        woken := woken + Named(w);
    }
    assert events[..|events|] == events;
    SemaphoreRuns(initial, events);
    SemaphoreIsFifo(initial, events);
  }

  // ---- all runs of one lock ----

  datatype LockEvent = Acquire(thread: Thread) | Release(thread: Thread)

  /** A lock with the threads between a completed Acquire and their Release, and those woken but not yet testing
      again. */
  datatype LockSystem = LockSystem(lock: LockState, inside: set<Thread>, woken: set<Thread>)

  /** Only threads that are awake take steps, and only holders release. */
  predicate LockEnabled(s: LockSystem, e: LockEvent) {
    e.thread !in s.lock.queue && (e.Release? ==> e.thread in s.inside)
  }

  function LockNext(s: LockSystem, e: LockEvent): LockSystem {
    match e
    case Acquire(t) =>
      (match TryAcquire(s.lock, t)
       case Passed(l) => LockSystem(l, s.inside + {t}, s.woken - {t})
       case Asleep(l) => LockSystem(l, s.inside, s.woken - {t}))
    case Release(t) =>
      var w := DoRelease(s.lock);
      LockSystem(w.state, s.inside - {t}, if w.woken.Ref? then s.woken + {w.woken.thread} else s.woken)
  }

  function LockAfter(events: seq<LockEvent>): LockSystem {
    if events == [] then LockSystem(FREE_LOCK, {}, {})
    else LockNext(LockAfter(events[..|events| - 1]), events[|events| - 1])
  }

  ghost predicate LockLegal(events: seq<LockEvent>) {
    forall i | 0 <= i < |events| :: LockEnabled(LockAfter(events[..i]), events[i])
  }

  lemma LegalPrefix(events: seq<LockEvent>)
    requires LockLegal(events) && events != []
    ensures LockLegal(events[..|events| - 1]) && LockEnabled(LockAfter(events[..|events| - 1]), events[|events| - 1])
  {
    var before := events[..|events| - 1];
    forall i | 0 <= i < |before|
      ensures LockEnabled(LockAfter(before[..i]), before[i])
    {
      assert before[..i] == events[..i];
    }
  }

  /** Mutual exclusion, and no lost wake-up. */
  ghost predicate LockSound(s: LockSystem) {
    && (s.lock.available ==> s.inside == {})
    && (!s.lock.available ==> s.lock.owner.Ref? && s.inside == {s.lock.owner.thread})
    && Distinct(s.lock.queue)
    && (forall t <- s.woken :: t !in s.lock.queue)
    && (s.lock.queue != [] && s.lock.available ==> s.woken != {})
  }

  lemma LockStepKeepsSound(s: LockSystem, e: LockEvent)
    requires LockSound(s) && LockEnabled(s, e)
    ensures LockSound(LockNext(s, e))
  {
    if e.Release? && s.lock.queue != [] {
      PopKeepsDistinct(s.lock.queue);
      assert s.lock.queue[0] in LockNext(s, e).woken;
    }
  }

  lemma {:induction false} LockRuns(events: seq<LockEvent>)
    requires LockLegal(events)
    ensures LockSound(LockAfter(events))
  {
    if events != [] {
      var before := events[..|events| - 1];
      LegalPrefix(events);
      LockRuns(before);
      LockStepKeepsSound(LockAfter(before), events[|events| - 1]);
    }
  }

  /** The threads that found the lock taken, in the order in which they went to sleep. */
  function LockSlept(events: seq<LockEvent>): seq<Thread> {
    if events == [] then []
    else
      var before, e := events[..|events| - 1], events[|events| - 1];
      if e.Acquire? && !LockAfter(before).lock.available then LockSlept(before) + [e.thread] else LockSlept(before)
  }

  /** The threads that Release woke, in the order in which it did. */
  function LockWoken(events: seq<LockEvent>): seq<Thread> {
    if events == [] then []
    else
      var before, e := events[..|events| - 1], events[|events| - 1];
      LockWoken(before) + if e.Release? then Named(DoRelease(LockAfter(before).lock).woken) else []
  }

  /** As with semaphores, sleepers are woken in the order in which they went to sleep. */
  lemma {:induction false} LockIsFifo(events: seq<LockEvent>)
    ensures LockSlept(events) == LockWoken(events) + LockAfter(events).lock.queue
  {
    if events != [] {
      var before, e := events[..|events| - 1], events[|events| - 1];
      LockIsFifo(before);
      var lock := LockAfter(before).lock;
      if e.Acquire? {
        JoinsLast(LockSlept(before), LockWoken(before), lock.queue, e.thread);
      } else if lock.queue != [] {
        LeavesFirst(LockWoken(before), lock.queue);
      }
    }
  }

  /** The events done on a lock object. */
  method RunLock(events: seq<LockEvent>) returns (l: Lock, woken: seq<Thread>)
    requires LockLegal(events)
    ensures fresh(l) && l.Valid() && l.Now() == LockAfter(events).lock
    ensures LockSound(LockAfter(events))
    ensures LockSlept(events) == woken + l.Now().queue
  {
    hide LockSound, LockSlept, LockLegal;
    l := new Lock();
    woken := [];
    for i := 0 to |events|
      invariant fresh(l) && fresh(l.queue) && l.Valid() && l.Now() == LockAfter(events[..i]).lock
      invariant forall j | 0 <= j < |l.queue.spine| :: fresh(l.queue.spine[j])
      invariant woken == LockWoken(events[..i])
    {
      assert events[..i + 1][..i] == events[..i];
      match events[i]
      case Acquire(t) => var asleep := l.Acquire(t);
      case Release(t) =>
        var w := l.Release();
        woken := woken + Named(w);
    }
    assert events[..|events|] == events;
    LockRuns(events);
    LockIsFifo(events);
  }

  // ---- what the trace itself says about the holder ----

  datatype Holding = NeverTaken | TakenBy(thread: Thread) | ReturnedBy(thread: Thread)

  function HoldingAfter(events: seq<LockEvent>): Holding {
    if events == [] then NeverTaken
    else
      var before := HoldingAfter(events[..|events| - 1]);
      match events[|events| - 1]
      case Acquire(t) => if before.TakenBy? then before else TakenBy(t)
      case Release(t) => ReturnedBy(t)
  }

  lemma {:induction false} OwnerFollowsTrace(events: seq<LockEvent>)
    requires LockLegal(events)
    ensures var lock := LockAfter(events).lock;
      match HoldingAfter(events)
      case NeverTaken => lock.available && lock.owner == Null
      case TakenBy(t) => !lock.available && lock.owner == Ref(t)
      case ReturnedBy(t) => lock.available && lock.owner == Ref(t)
  {
    if events != [] {
      var before := events[..|events| - 1];
      LegalPrefix(events);
      OwnerFollowsTrace(before);
      LockRuns(before);
    }
  }

  /** isHeldByCurrentThread is wrong for just one thread at most: the one that returned the lock last. */
  lemma HeldIsExact(events: seq<LockEvent>, t: Thread)
    requires LockLegal(events)
    ensures var s := LockAfter(events); (HeldBy(s.lock, t) <==> t in s.inside) <==>
      HoldingAfter(events) != ReturnedBy(t)
  {
    OwnerFollowsTrace(events);
    LockRuns(events);
  }

  /** It is right for every thread exactly while the lock is held or has never been taken. */
  lemma HeldIsExactWhileHeld(events: seq<LockEvent>)
    requires LockLegal(events)
    ensures var s := LockAfter(events);
      (forall t :: HeldBy(s.lock, t) <==> t in s.inside) <==> !s.lock.available || s.lock.owner.Null?
  {
    LockRuns(events);
    var s := LockAfter(events);
    if s.lock.available && s.lock.owner.Ref? {
      assert HeldBy(s.lock, s.lock.owner.thread);
    }
  }

  lemma HeldOutlivesRelease()
    ensures var events := [Acquire(7), Release(7)];
      LockLegal(events) && HeldBy(LockAfter(events).lock, 7) && 7 !in LockAfter(events).inside
  {
  }
}
