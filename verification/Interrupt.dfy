/** Simulated time and the interrupts waiting for it. */
module Interrupts {
  import opened Lists

  const USER_TICK := 1
  const SYSTEM_TICK := 10

  datatype IntStatus = IntOff | IntOn
  datatype MachineStatus = IdleMode | SystemMode | UserMode
  datatype IntType = TimerInt | DiskInt | ConsoleWriteInt | ConsoleReadInt | NetworkSendInt | NetworkRecvInt

  datatype PendingInterrupt = PendingInterrupt(handler: int, arg: int, when: int, kind: IntType)

  type Delay = n: int | 0 < n witness 1

  datatype Firing = Firing(what: PendingInterrupt, at: int)

  type Queue = seq<Entry<PendingInterrupt>>

  function Bag(s: Queue): multiset<PendingInterrupt> {
    if s == [] then multiset{} else multiset{s[0].item} + Bag(s[1..])
  }

  function BagFired(log: seq<Firing>): multiset<PendingInterrupt> {
    if log == [] then multiset{} else BagFired(log[..|log| - 1]) + multiset{log[|log| - 1].what}
  }

  lemma {:induction false} BagInsert(s: Queue, e: Entry<PendingInterrupt>)
    ensures Bag(Insert(s, e)) == Bag(s) + multiset{e.item}
  {
    if s != [] && e.key >= s[0].key {
      BagInsert(s[1..], e);
      assert Insert(s, e)[1..] == Insert(s[1..], e);
    } else {
      assert ([e] + s)[1..] == s;
    }
  }

  /** How many waiting entries have a time that is not after now. */
  function DueCount(s: Queue, now: int): nat {
    if s == [] then 0 else (if s[0].key <= now then 1 else 0) + DueCount(s[1..], now)
  }

  lemma {:induction false} DueInsert(s: Queue, e: Entry<PendingInterrupt>, now: int)
    ensures DueCount(Insert(s, e), now) == DueCount(s, now) + if e.key <= now then 1 else 0
  {
    if s != [] && e.key >= s[0].key {
      DueInsert(s[1..], e, now);
      assert Insert(s, e)[1..] == Insert(s[1..], e);
    } else {
      assert ([e] + s)[1..] == s;
    }
  }

  ghost predicate KeyedByTime(s: Queue) {
    forall e <- s :: e.key == e.item.when
  }

  ghost predicate FiredInOrder(log: seq<Firing>) {
    forall i, j | 0 <= i < j < |log| :: log[i].what.when <= log[j].what.when && log[i].at <= log[j].at
  }

  ghost predicate NoneEarly(log: seq<Firing>, now: int) {
    forall f <- log :: f.what.when <= f.at <= now
  }

  ghost predicate FiredBeforeWaiting(log: seq<Firing>, s: Queue) {
    forall f <- log, e <- s :: f.what.when <= e.key
  }

  /** What holds of the queue and of everything fired so far, at every moment of every run. */
  ghost predicate Sound(s: Queue, log: seq<Firing>, scheduled: multiset<PendingInterrupt>, now: int) {
    && Sorted(s) && KeyedByTime(s)
    && FiredInOrder(log) && NoneEarly(log, now) && FiredBeforeWaiting(log, s)
    && BagFired(log) + Bag(s) == scheduled
  }

  lemma InsertMembers(s: Queue, e: Entry<PendingInterrupt>)
    ensures forall x :: x in Insert(s, e) <==> x == e || x in s
  {
    InsertAt(s, e, Place(s, e.key));
    var p := Place(s, e.key);
    assert s == s[..p] + s[p..];
  }

  lemma ScheduleSound(s: Queue, log: seq<Firing>, scheduled: multiset<PendingInterrupt>, now: int, p: PendingInterrupt)
    requires Sound(s, log, scheduled, now) && now < p.when
    ensures Sound(Insert(s, Entry(p.when, p)), log, scheduled + multiset{p}, now)
    ensures DueCount(Insert(s, Entry(p.when, p)), now) == DueCount(s, now)
  {
    var e := Entry(p.when, p);
    InsertKeepsSorted(s, e);
    InsertMembers(s, e);
    BagInsert(s, e);
    DueInsert(s, e, now);
    hide Insert, Sorted, Bag, BagFired, DueCount;
  }

  lemma PutBackSound(s: Queue, log: seq<Firing>, scheduled: multiset<PendingInterrupt>, now: int)
    requires s != [] && Sound(s, log, scheduled, now)
    ensures Sound(Insert(s[1..], s[0]), log, scheduled, now)
  {
    hide Insert, Sorted, Bag, BagFired, FiredInOrder, NoneEarly, KeyedByTime, FiredBeforeWaiting;
    PutBackSorted(s);
    BagInsert(s[1..], s[0]);
    BagTail(s);
    PutBackMembers(s);
    SameMembers(s, Insert(s[1..], s[0]), log);
  }

  lemma PutBackSorted(s: Queue)
    requires s != [] && Sorted(s)
    ensures Sorted(Insert(s[1..], s[0]))
  {
    TailSorted(s);
    hide Insert, Sorted;
    InsertKeepsSorted(s[1..], s[0]);
  }

  lemma PutBackMembers(s: Queue)
    requires s != []
    ensures forall x :: x in Insert(s[1..], s[0]) ==> x in s
  {
    hide Insert;
    InsertMembers(s[1..], s[0]);
    assert s == [s[0]] + s[1..];
  }

  lemma BagTail(s: Queue)
    requires s != []
    ensures Bag(s) == Bag(s[1..]) + multiset{s[0].item}
  {
  }

  lemma TailSorted(s: Queue)
    requires s != [] && Sorted(s)
    ensures Sorted(s[1..]) && forall e <- s :: s[0].key <= e.key
  {
  }

  lemma SameMembers(s: Queue, t: Queue, log: seq<Firing>)
    requires (forall x :: x in t ==> x in s) && KeyedByTime(s) && FiredBeforeWaiting(log, s)
    ensures KeyedByTime(t) && FiredBeforeWaiting(log, t)
  {
  }

  lemma FireInOrder(s: Queue, log: seq<Firing>, now: int)
    requires s != [] && s[0].item.when == s[0].key && FiredInOrder(log) && NoneEarly(log, now)
    requires FiredBeforeWaiting(log, s)
    ensures FiredInOrder(log + [Firing(s[0].item, now)])
  {
    assert forall f <- log :: f.what.when <= s[0].key && f.at <= now;
    hide NoneEarly, FiredBeforeWaiting;
  }

  lemma FireBeforeRest(s: Queue, log: seq<Firing>, now: int)
    requires s != [] && Sorted(s) && s[0].item.when == s[0].key && FiredBeforeWaiting(log, s)
    ensures FiredBeforeWaiting(log + [Firing(s[0].item, now)], s[1..])
  {
    TailSorted(s);
    hide Sorted;
  }

  lemma FireNotEarly(log: seq<Firing>, now: int, p: PendingInterrupt)
    requires NoneEarly(log, now) && p.when <= now
    ensures NoneEarly(log + [Firing(p, now)], now)
  {
  }

  lemma FireBag(log: seq<Firing>, f: Firing)
    ensures BagFired(log + [f]) == BagFired(log) + multiset{f.what}
  {
    assert (log + [f])[..|log|] == log;
  }

  lemma FireSound(s: Queue, log: seq<Firing>, scheduled: multiset<PendingInterrupt>, now: int)
    requires s != [] && Sound(s, log, scheduled, now) && s[0].key <= now
    ensures Sound(s[1..], log + [Firing(s[0].item, now)], scheduled, now)
    ensures DueCount(s[1..], now) < DueCount(s, now)
  {
    HeadFacts(s, log, scheduled, now);
    hide Sorted, Bag, BagFired, FiredInOrder, NoneEarly, KeyedByTime, FiredBeforeWaiting;
    FireInOrder(s, log, now);
    FireBeforeRest(s, log, now);
    FireNotEarly(log, now, s[0].item);
    FireBag(log, Firing(s[0].item, now));
    BagTail(s);
    TailSorted(s);
    SameMembers(s, s[1..], log);
  }

  lemma AdvanceSound(s: Queue, log: seq<Firing>, scheduled: multiset<PendingInterrupt>, now: int, later: int)
    requires Sound(s, log, scheduled, now) && now <= later
    ensures Sound(s, log, scheduled, later)
  {
  }

  ghost predicate NothingDue(s: Queue, now: int) {
    forall e <- s :: now < e.key
  }

  lemma HeadIsEarliest(s: Queue, now: int)
    requires s != [] && Sorted(s) && now < s[0].key
    ensures NothingDue(Insert(s[1..], s[0]), now)
  {
    InsertMembers(s[1..], s[0]);
    assert forall e <- s :: s[0].key <= e.key;
  }

  lemma HeadFacts(s: Queue, log: seq<Firing>, scheduled: multiset<PendingInterrupt>, now: int)
    requires s != [] && Sound(s, log, scheduled, now)
    ensures s[0].key == s[0].item.when
  {
  }

  /** Taking the earliest entry off and putting it back moves it behind its equals. */
  lemma PutBackGoesBehindEquals(s: Queue, n: nat)
    requires 0 < n <= |s| && (forall i | 0 <= i < n :: s[i].key == s[0].key) && (n < |s| ==> s[0].key < s[n].key)
    ensures Insert(s[1..], s[0]) == s[1..n] + [s[0]] + s[n..]
  {
    InsertAt(s[1..], s[0], n - 1);
  }

  /** So putting back keeps the order exactly when the entry has no equal behind it. */
  lemma PutBackKeepsOrder(s: Queue)
    requires s != [] && Sorted(s) && forall i, j | 0 <= i < j < |s| :: s[i] != s[j]
    ensures Insert(s[1..], s[0]) == s <==> |s| == 1 || s[0].key < s[1].key
  {
    if |s| > 1 {
      assert s[1..][0] == s[1];
      assert Insert(s[1..], s[0])[0] == if s[0].key < s[1].key then s[0] else s[1];
      assert s[0].key < s[1].key ==> [s[0]] + s[1..] == s;
    } else {
      assert s == [s[0]];
    }
  }

  lemma {:induction false} BagHolds(s: Queue, p: PendingInterrupt)
    requires p in Bag(s)
    ensures exists e :: e in s && e.item == p
  {
    if s[0].item != p {
      BagHolds(s[1..], p);
      var e :| e in s[1..] && e.item == p;
      assert e in s;
    } else {
      assert s[0] in s;
    }
  }

  /** Once nothing is due, every interrupt whose time has come has been fired exactly as often as it was scheduled. */
  lemma DueHasFired(s: Queue, log: seq<Firing>, scheduled: multiset<PendingInterrupt>, now: int, p: PendingInterrupt)
    requires Sound(s, log, scheduled, now) && NothingDue(s, now) && p.when <= now
    ensures BagFired(log)[p] == scheduled[p]
  {
    if p in Bag(s) {
      BagHolds(s, p);
    }
  }

  lemma {:induction false} BagFiredHolds(log: seq<Firing>, p: PendingInterrupt)
    requires p in BagFired(log)
    ensures exists f :: f in log && f.what == p
  {
    var n := |log| - 1;
    if log[n].what != p {
      BagFiredHolds(log[..n], p);
      var f :| f in log[..n] && f.what == p;
      assert f in log;
    } else {
      assert log[n] in log;
    }
  }

  /** A scheduled interrupt whose time has come has fired, once nothing is due. */
  lemma ScheduledHasFired(s: Queue, log: seq<Firing>, scheduled: multiset<PendingInterrupt>, now: int,
      p: PendingInterrupt)
    requires Sound(s, log, scheduled, now) && NothingDue(s, now) && p in scheduled && p.when <= now
    ensures exists f :: f in log && f.what == p
  {
    DueHasFired(s, log, scheduled, now, p);
    BagFiredHolds(log, p);
  }

  class Statistics {
    var totalTicks: int
    var idleTicks: int
    var systemTicks: int
    var userTicks: int

    constructor ()
      ensures totalTicks == idleTicks == systemTicks == userTicks == 0
    {
      totalTicks, idleTicks, systemTicks, userTicks := 0, 0, 0, 0;
    }

    /** Every tick is accounted for once. */
    ghost predicate Conserved()
      reads this
    {
      totalTicks == idleTicks + systemTicks + userTicks
    }
  }

  class Interrupt {
    var level: IntStatus
    const pending: List<PendingInterrupt>
    var inHandler: bool
    var yieldOnReturn: bool
    var status: MachineStatus
    const stats: Statistics
    ghost var log: seq<Firing>
    ghost var scheduled: multiset<PendingInterrupt>

    ghost predicate Valid()
      reads this, pending, pending.spine, stats
    {
      pending.Valid() && stats.Conserved() && Sound(pending.contents, log, scheduled, stats.totalTicks)
    }

    constructor ()
      ensures Valid() && level == IntOff && status == SystemMode && !inHandler && !yieldOnReturn
      ensures pending.contents == [] && log == [] && stats.totalTicks == 0
      ensures fresh(pending) && fresh(stats) && pending.spine == []
    {
      level, inHandler, yieldOnReturn, status := IntOff, false, false, SystemMode;
      pending := new List<PendingInterrupt>();
      stats := new Statistics();
      log, scheduled := [], multiset{};
    }

    /** An interrupt fromNow ticks ahead joins the queue behind those due no later. */
    method Schedule(handler: int, arg: int, fromNow: int, kind: IntType)
      requires Valid() && 0 < fromNow
      modifies this`scheduled, pending, pending.spine
      ensures Valid() && pending.SameOrNew()
      ensures var p := PendingInterrupt(handler, arg, stats.totalTicks + fromNow, kind);
        scheduled == old(scheduled) + multiset{p} && pending.contents == Insert(old(pending.contents), Entry(p.when, p))
      ensures DueCount(pending.contents, stats.totalTicks) == old(DueCount(pending.contents, stats.totalTicks))
    {
      hide Sound, DueCount, Insert;
      var when := stats.totalTicks + fromNow;
      var toOccur := PendingInterrupt(handler, arg, when, kind);
      ScheduleSound(pending.contents, log, scheduled, stats.totalTicks, toOccur);
      pending.SortedInsert(toOccur, when);
      scheduled := scheduled + multiset{toOccur};
    }

    /** A device handler: it may schedule any finite number of interrupts and ask for a context switch. */
    method CallHandler(toOccur: PendingInterrupt)
      requires Valid()
      modifies this`scheduled, this`yieldOnReturn, pending, pending.spine
      ensures Valid() && pending.SameOrNew()
      ensures DueCount(pending.contents, stats.totalTicks) == old(DueCount(pending.contents, stats.totalTicks))
      ensures old(scheduled) <= scheduled && (old(yieldOnReturn) ==> yieldOnReturn)
    {
      hide Sound, DueCount, Insert;
      var requests: int := *;
      var k := 0;
      while k < requests
        invariant Valid() && pending.SameOrNew()
        invariant DueCount(pending.contents, stats.totalTicks) == old(DueCount(pending.contents, stats.totalTicks))
        invariant old(scheduled) <= scheduled && yieldOnReturn == old(yieldOnReturn)
      {
        var handler: int, arg: int, fromNow: Delay, kind: IntType := *, *, *, *;
        Schedule(handler, arg, fromNow, kind);
        k := k + 1;
      }
      var preempt: bool := *;
      yieldOnReturn := yieldOnReturn || preempt;
    }

    /** Fires the earliest interrupt if its time has come, or if the clock may be moved on to it. */
    method CheckIfDue(advanceClock: bool) returns (fired: bool)
      requires Valid() && level == IntOff && !inHandler
      modifies this, pending, pending.spine, stats
      ensures Valid() && level == IntOff && !inHandler && status == old(status)
      ensures pending.SameOrNew()
      ensures stats.totalTicks - stats.idleTicks == old(stats.totalTicks - stats.idleTicks)
      ensures stats.userTicks == old(stats.userTicks) && stats.systemTicks == old(stats.systemTicks)
      ensures stats.totalTicks ==
        if advanceClock && old(pending.contents) != []
            && old(stats.totalTicks) < old(pending.contents[0].key)
        then old(pending.contents[0].key) else old(stats.totalTicks)
      ensures fired ==> old(pending.contents) != []
      ensures fired ==> log == old(log) + [Firing(old(pending.contents[0].item), stats.totalTicks)]
      ensures fired ==> old(scheduled) <= scheduled && (old(yieldOnReturn) ==> yieldOnReturn)
      ensures fired && !advanceClock ==>
        DueCount(pending.contents, stats.totalTicks) < old(DueCount(pending.contents, stats.totalTicks))
      ensures !fired ==> log == old(log) && scheduled == old(scheduled) && yieldOnReturn == old(yieldOnReturn)
      ensures !fired <==>
        || old(pending.contents) == [] || old(LoneTimer())
        || (!advanceClock && old(stats.totalTicks) < old(pending.contents[0].key))
      ensures !fired ==> NothingDue(pending.contents, stats.totalTicks) || LoneTimer()
    {
      hide Sound, DueCount, Insert, Sorted, List.Valid;
      ghost var queue := pending.contents;
      fired := false;
      var removed, when, toOccur := pending.SortedRemove();
      if !removed {
        return;
      }
      HeadFacts(queue, log, scheduled, stats.totalTicks);
      if advanceClock && stats.totalTicks < when {
        AdvanceSound(queue, log, scheduled, stats.totalTicks, when);
        stats.idleTicks := stats.idleTicks + (when - stats.totalTicks);
        stats.totalTicks := when;
      } else if stats.totalTicks < when {
        PutBack(queue, toOccur, when);
        return;
      }
      var alone := pending.IsEmpty();
      if status == IdleMode && toOccur.kind == TimerInt && alone {
        PutBack(queue, toOccur, when);
        return;
      }
      Fire(queue, toOccur);
      fired := true;
    }

    /** Calls the handler of the entry that was taken off. */
    method Fire(ghost queue: Queue, toOccur: PendingInterrupt)
      requires pending.Valid() && stats.Conserved() && Sound(queue, log, scheduled, stats.totalTicks)
      requires queue != [] && queue[0].item == toOccur && queue[1..] == pending.contents
      requires queue[0].key <= stats.totalTicks
      modifies this, pending, pending.spine
      ensures Valid() && pending.SameOrNew()
      ensures log == old(log) + [Firing(toOccur, stats.totalTicks)] && old(scheduled) <= scheduled
      ensures old(yieldOnReturn) ==> yieldOnReturn
      ensures DueCount(pending.contents, stats.totalTicks) < DueCount(queue, stats.totalTicks)
      ensures status == old(status) && level == old(level) && !inHandler
    {
      hide Sound, DueCount;
      FireSound(queue, log, scheduled, stats.totalTicks);
      var was := status;
      log := log + [Firing(toOccur, stats.totalTicks)];
      inHandler := true;
      status := SystemMode;
      CallHandler(toOccur);
      status := was;
      inHandler := false;
    }

    /** Puts back the entry that was taken off. */
    method PutBack(ghost queue: Queue, toOccur: PendingInterrupt, when: int)
      requires pending.Valid() && stats.Conserved() && Sound(queue, log, scheduled, stats.totalTicks)
      requires queue == [Entry(when, toOccur)] + pending.contents
      modifies pending, pending.spine
      ensures Valid() && pending.SameOrNew()
      ensures pending.contents == Insert(old(pending.contents), Entry(when, toOccur))
      ensures stats.totalTicks < when ==> NothingDue(pending.contents, stats.totalTicks)
      ensures old(pending.contents) == [] ==> pending.contents == [Entry(when, toOccur)]
    {
      PutBackSound(queue, log, scheduled, stats.totalTicks);
      if stats.totalTicks < when {
        HeadIsEarliest(queue, stats.totalTicks);
      }
      hide Sound, NothingDue;
      pending.SortedInsert(toOccur, when);
    }

    /** Fires until nothing is due: handlers only add interrupts that are not due yet, so this ends. */
    method Drain()
      requires Valid() && level == IntOff && !inHandler
      modifies this, pending, pending.spine, stats
      ensures Valid() && level == IntOff && !inHandler && status == old(status)
      ensures pending.SameOrNew()
      ensures SameClock(old(stats.totalTicks), old(stats.idleTicks), old(stats.systemTicks), old(stats.userTicks))
      ensures NothingDue(pending.contents, stats.totalTicks) || LoneTimer()
      ensures old(log) <= log && old(scheduled) <= scheduled
      ensures old(yieldOnReturn) ==> yieldOnReturn
      ensures log == old(log) ==> yieldOnReturn == old(yieldOnReturn)
    {
      hide Sound, DueCount, NothingDue, Sorted, List.Valid;
      var again := CheckIfDue(false);
      while again
        invariant Valid() && level == IntOff && !inHandler && status == old(status)
        invariant pending.SameOrNew()
        invariant SameClock(old(stats.totalTicks), old(stats.idleTicks), old(stats.systemTicks), old(stats.userTicks))
        invariant !again ==> NothingDue(pending.contents, stats.totalTicks) || LoneTimer()
        invariant old(log) <= log && old(scheduled) <= scheduled
        invariant (old(yieldOnReturn) ==> yieldOnReturn) && (log == old(log) ==> yieldOnReturn == old(yieldOnReturn))
        decreases again, DueCount(pending.contents, stats.totalTicks)
      {
        again := CheckIfDue(false);
      }
    }

    ghost predicate SameClock(total: int, idle: int, system: int, user: int)
      reads stats
    {
      stats.totalTicks == total && stats.idleTicks == idle && stats.systemTicks == system && stats.userTicks == user
    }

    method AdvanceClock()
      requires Valid()
      modifies stats
      ensures Valid() && stats.idleTicks == old(stats.idleTicks)
      ensures var tick := if status == SystemMode then SYSTEM_TICK else USER_TICK;
        stats.totalTicks == old(stats.totalTicks) + tick
        && stats.systemTicks == old(stats.systemTicks) + if status == SystemMode then tick else 0
    {
      hide Sound;
      AdvanceSound(pending.contents, log, scheduled, stats.totalTicks,
                   stats.totalTicks + if status == SystemMode then SYSTEM_TICK else USER_TICK);
      if status == SystemMode {
        stats.totalTicks := stats.totalTicks + SYSTEM_TICK;
        stats.systemTicks := stats.systemTicks + SYSTEM_TICK;
      } else {
        stats.totalTicks := stats.totalTicks + USER_TICK;
        stats.userTicks := stats.userTicks + USER_TICK;
      }
    }

    /** Advances the clock, fires what is due and says whether the running thread is to yield. */
    method OneTick() returns (preempted: bool)
      requires Valid() && !inHandler
      modifies this, pending, pending.spine, stats
      ensures Valid() && !inHandler && level == IntOn && !yieldOnReturn && status == old(status)
      ensures pending.SameOrNew()
      ensures stats.totalTicks == old(stats.totalTicks) + (if old(status) == SystemMode then 10 else 1)
      ensures stats.idleTicks == old(stats.idleTicks)
      ensures stats.systemTicks == old(stats.systemTicks) + (if old(status) == SystemMode then 10 else 0)
      ensures old(status) != IdleMode ==> NothingDue(pending.contents, stats.totalTicks)
      ensures old(log) <= log && old(scheduled) <= scheduled
      ensures old(yieldOnReturn) ==> preempted
      ensures preempted ==> old(yieldOnReturn) || log != old(log)
    {
      hide Sound, DueCount, NothingDue, Sorted, List.Valid;
      var was := status;
      AdvanceClock();
      level := IntOff;
      Drain();
      level := IntOn;
      preempted := yieldOnReturn;
      if yieldOnReturn {
        yieldOnReturn := false;
        status := SystemMode;
        // here the running thread yields the processor
        status := was;
      }
    }

    /** Turning interrupts on takes a tick, unless they were on. */
    method SetLevel(now: IntStatus) returns (before: IntStatus)
      requires Valid() && (now == IntOff || !inHandler)
      modifies this, pending, pending.spine, stats
      ensures Valid() && level == now && before == old(level) && status == old(status) && inHandler == old(inHandler)
      ensures pending.SameOrNew()
      ensures old(stats.totalTicks) <= stats.totalTicks
      ensures now == IntOff || old(level) == IntOn ==> log == old(log) && stats.totalTicks == old(stats.totalTicks)
      ensures now == IntOn && old(level) == IntOff && old(status) != IdleMode ==>
        NothingDue(pending.contents, stats.totalTicks)
      ensures now == IntOn && old(level) == IntOff ==>
        stats.totalTicks == old(stats.totalTicks) + (if old(status) == SystemMode then 10 else 1)
      ensures old(log) <= log && old(scheduled) <= scheduled
    {
      hide Sound, NothingDue;
      before := level;
      level := now;
      if now == IntOn && before == IntOff {
        var preempted := OneTick();
      }
    }

    /** Nobody can run: time moves on to the next interrupt, or the machine halts if none but the timer is left. */
    method Idle() returns (halted: bool)
      requires Valid() && level == IntOff && !inHandler
      modifies this, pending, pending.spine, stats
      ensures Valid() && level == IntOff && !inHandler
      ensures pending.SameOrNew()
      ensures halted <==>
        old(pending.contents) == [] || old(|pending.contents| == 1 && pending.contents[0].item.kind == TimerInt)
      ensures old(stats.totalTicks) <= stats.totalTicks && old(scheduled) <= scheduled
      ensures halted ==> status == IdleMode && log == old(log) && scheduled == old(scheduled)
      ensures !halted ==> status == SystemMode && !yieldOnReturn
      ensures !halted ==> old(log) + [Firing(old(pending.contents[0].item), stats.totalTicks)] <= log
      ensures !halted ==> var due := old(pending.contents[0].key);
        stats.totalTicks == if old(stats.totalTicks) < due then due else old(stats.totalTicks)
      ensures halted || NothingDue(pending.contents, stats.totalTicks)
        || (|pending.contents| == 1 && pending.contents[0].item.kind == TimerInt)
      ensures stats.systemTicks == old(stats.systemTicks) && stats.userTicks == old(stats.userTicks)
    {
      hide Sound, DueCount, NothingDue, Sorted, List.Valid;
      status := IdleMode;
      var fired := CheckIfDue(true);
      if fired {
        Drain();
        yieldOnReturn := false;
        status := SystemMode;
        return false;
      }
      return true;
    }

    /** Only the time-slice timer is left and nobody can run. */
    ghost predicate LoneTimer()
      reads this, pending
    {
      status == IdleMode && |pending.contents| == 1 && pending.contents[0].item.kind == TimerInt
    }
  }
}
