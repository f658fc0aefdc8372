/** The ready list and the dispatching of threads. Interrupts are off in all of it. */
module Schedulers {
  import opened Lists
  import opened Sequences
  import opened Synch

  datatype ThreadStatus = JustCreated | Running | Ready | Blocked

  type StatusTable = map<Thread, ThreadStatus>

  /** A thread nobody has forked yet was just created. */
  function StatusOf(table: StatusTable, t: Thread): ThreadStatus {
    if t in table then table[t] else JustCreated
  }

  function SetStatus(table: StatusTable, t: Thread, status: ThreadStatus): (r: StatusTable)
    ensures forall u :: StatusOf(r, u) == if u == t then status else StatusOf(table, u)
  {
    table[t := status]
  }

  datatype Cpu = Cpu(current: Thread, ready: seq<Thread>, status: StatusTable)

  function ReadyToRun(c: Cpu, t: Thread): Cpu {
    c.(ready := c.ready + [t], status := SetStatus(c.status, t, Ready))
  }

  function AllReady(c: Cpu, threads: seq<Thread>): Cpu
    decreases |threads|
  {
    if threads == [] then c else AllReady(ReadyToRun(c, threads[0]), threads[1..])
  }

  /** The first ready thread gets the processor. */
  function Dispatch(c: Cpu): Cpu
    requires c.ready != []
  {
    Cpu(c.ready[0], c.ready[1..], SetStatus(c.status, c.ready[0], Running))
  }

  /** Yield puts the running thread behind all that are ready, unless there is none. */
  function Yielded(c: Cpu): Cpu {
    if c.ready == [] then c
    else
      var status := SetStatus(SetStatus(c.status, c.current, Ready), c.ready[0], Running);
      Cpu(c.ready[0], c.ready[1..] + [c.current], status)
  }

  function BlockCurrent(c: Cpu): Cpu {
    c.(status := SetStatus(c.status, c.current, Blocked))
  }

  /** What the running thread or an interrupt does; idle lists the threads that interrupts wake while nobody can run. */
  datatype Event = Fork(thread: Thread) | Wake(thread: Thread) | Yield | Sleep(idle: seq<Thread>)

  ghost predicate Legal(c: Cpu, e: Event) {
    match e
    case Fork(t) => StatusOf(c.status, t) == JustCreated
    case Wake(t) => StatusOf(c.status, t) == Blocked
    case Yield => true
    case Sleep(idle) =>
      && (c.ready != [] <==> idle == [])
      && Distinct(idle) && forall t <- idle :: StatusOf(BlockCurrent(c).status, t) == Blocked
  }

  ghost function Next(c: Cpu, e: Event): Cpu
    requires Legal(c, e)
  {
    match e
    case Fork(t) => ReadyToRun(c, t)
    case Wake(t) => ReadyToRun(c, t)
    case Yield => Yielded(c)
    case Sleep(idle) =>
      AllReadyLists(BlockCurrent(c), idle);
      Dispatch(AllReady(BlockCurrent(c), idle))
  }

  lemma {:induction false} AllReadyLists(c: Cpu, threads: seq<Thread>)
    ensures AllReady(c, threads).ready == c.ready + threads && AllReady(c, threads).current == c.current
    decreases |threads|
  {
    if threads != [] {
      AllReadyLists(ReadyToRun(c, threads[0]), threads[1..]);
      assert c.ready + [threads[0]] + threads[1..] == c.ready + threads;
    } else {
      assert c.ready + threads == c.ready;
    }
  }

  /** READY means on the ready list, exactly once. */
  ghost predicate ListRight(c: Cpu) {
    Distinct(c.ready) && forall t :: t in c.ready <==> StatusOf(c.status, t) == Ready
  }

  /** Exactly the current thread is RUNNING. */
  ghost predicate Sound(c: Cpu) {
    ListRight(c) && forall t :: StatusOf(c.status, t) == Running <==> t == c.current
  }

  lemma ReadyKeepsList(c: Cpu, t: Thread)
    requires ListRight(c) && StatusOf(c.status, t) != Ready
    ensures ListRight(ReadyToRun(c, t))
  {
  }

  lemma {:induction false} AllReadyKeepsList(c: Cpu, threads: seq<Thread>)
    requires ListRight(c) && Distinct(threads) && forall t <- threads :: StatusOf(c.status, t) == Blocked
    ensures ListRight(AllReady(c, threads))
    ensures forall t ::
      StatusOf(AllReady(c, threads).status, t) == if t in threads then Ready else StatusOf(c.status, t)
    decreases |threads|
  {
    if threads != [] {
      ReadyKeepsList(c, threads[0]);
      PopKeepsDistinct(threads);
      AllReadyKeepsList(ReadyToRun(c, threads[0]), threads[1..]);
    }
  }

  lemma DispatchSound(c: Cpu)
    requires ListRight(c) && c.ready != [] && forall t :: StatusOf(c.status, t) != Running
    ensures Sound(Dispatch(c))
  {
    PopKeepsDistinct(c.ready);
  }

  lemma YieldSound(c: Cpu)
    requires Sound(c)
    ensures Sound(Yielded(c))
  {
    if c.ready != [] {
      PopKeepsDistinct(c.ready);
      assert StatusOf(c.status, c.current) == Running && c.current !in c.ready;
      assert Distinct(c.ready[1..] + [c.current]);
    }
  }

  /**
   * What each event does, field by field: Fork and Wake put a thread behind all ready ones;
   * Yield exchanges the running thread for the first ready one and puts it last; Sleep blocks
   * it, and the first of those ready, or else of those that idling wakes, runs.
   */
  ghost predicate Changes(c: Cpu, n: Cpu, e: Event) {
    match e
    case Fork(t) =>
      && n.current == c.current && n.ready == c.ready + [t]
      && forall u :: StatusOf(n.status, u) == if u == t then Ready else StatusOf(c.status, u)
    case Wake(t) =>
      && n.current == c.current && n.ready == c.ready + [t]
      && forall u :: StatusOf(n.status, u) == if u == t then Ready else StatusOf(c.status, u)
    case Yield =>
      if c.ready == [] then n == c
      else
        && n.current == c.ready[0] && n.ready == c.ready[1..] + [c.current]
        && (forall u :: StatusOf(n.status, u) ==
              if u == c.ready[0] then Running else if u == c.current then Ready else StatusOf(c.status, u))
    case Sleep(idle) =>
      var ready := c.ready + idle;
      && ready != [] && n.current == ready[0] && n.ready == ready[1..]
      && (forall u :: StatusOf(n.status, u) ==
            if u == ready[0] then Running
            else if u in idle then Ready
            else if u == c.current then Blocked
            else StatusOf(c.status, u))
  }

  lemma {:induction false} AllReadyStatus(c: Cpu, threads: seq<Thread>, u: Thread)
    ensures StatusOf(AllReady(c, threads).status, u) == if u in threads then Ready else StatusOf(c.status, u)
    decreases |threads|
  {
    if threads != [] {
      AllReadyStatus(ReadyToRun(c, threads[0]), threads[1..], u);
    }
  }

  lemma SleepChanges(c: Cpu, idle: seq<Thread>)
    requires AllReady(BlockCurrent(c), idle).ready != []
    ensures Changes(c, Dispatch(AllReady(BlockCurrent(c), idle)), Sleep(idle))
  {
    AllReadyLists(BlockCurrent(c), idle);
    forall u: Thread
      ensures StatusOf(AllReady(BlockCurrent(c), idle).status, u)
        == if u in idle then Ready else if u == c.current then Blocked else StatusOf(c.status, u)
    {
      AllReadyStatus(BlockCurrent(c), idle, u);
    }
  }

  lemma NextChanges(c: Cpu, e: Event)
    requires Legal(c, e)
    ensures Changes(c, Next(c, e), e)
  {
    if e.Sleep? {
      AllReadyLists(BlockCurrent(c), e.idle);
      SleepChanges(c, e.idle);
    }
  }

  lemma StepKeepsSound(c: Cpu, e: Event)
    requires Sound(c) && Legal(c, e)
    ensures Sound(Next(c, e))
  {
    match e
    case Fork(t) => ReadyKeepsList(c, t);
    case Wake(t) => ReadyKeepsList(c, t);
    case Yield =>
      YieldSound(c);
    case Sleep(idle) =>
      var b := BlockCurrent(c);
      AllReadyKeepsList(b, idle);
      AllReadyLists(b, idle);
      DispatchSound(AllReady(b, idle));
  }

  predicate Dispatches(c: Cpu, e: Event) {
    e.Sleep? || (e.Yield? && c.ready != [])
  }

  /** A thread at place k moves one place up with each dispatch, until it is the one dispatched. */
  lemma StepMovesUp(c: Cpu, e: Event, k: nat)
    requires Legal(c, e) && k < |c.ready|
    ensures var n := Next(c, e);
      if !Dispatches(c, e) then k < |n.ready| && n.ready[k] == c.ready[k]
      else if k == 0 then n.current == c.ready[0]
      else k - 1 < |n.ready| && n.ready[k - 1] == c.ready[k]
  {
  }

  ghost predicate LegalRun(c: Cpu, events: seq<Event>)
    decreases |events|
  {
    events == [] || (Legal(c, events[0]) && LegalRun(Next(c, events[0]), events[1..]))
  }

  ghost function After(c: Cpu, events: seq<Event>): Cpu
    requires LegalRun(c, events)
    decreases |events|
  {
    if events == [] then c else After(Next(c, events[0]), events[1..])
  }

  ghost function DispatchCount(c: Cpu, events: seq<Event>): nat
    requires LegalRun(c, events)
    decreases |events|
  {
    if events == [] then 0
    else (if Dispatches(c, events[0]) then 1 else 0) + DispatchCount(Next(c, events[0]), events[1..])
  }

  lemma {:induction false} SoundAlways(c: Cpu, events: seq<Event>)
    requires Sound(c) && LegalRun(c, events)
    ensures Sound(After(c, events))
    decreases |events|
  {
    if events != [] {
      StepKeepsSound(c, events[0]);
      SoundAlways(Next(c, events[0]), events[1..]);
    }
  }

  /**
   * First come, first served: however many others are forked or woken meanwhile, the thread
   * at place k of the ready list waits in it for k dispatches and is the one that the next dispatch picks.
   */
  lemma {:induction false} FirstComeFirstServed(c: Cpu, events: seq<Event>, last: Event, k: nat)
    requires k < |c.ready| && LegalRun(c, events) && DispatchCount(c, events) == k
    requires Legal(After(c, events), last) && Dispatches(After(c, events), last)
    ensures Next(After(c, events), last).current == c.ready[k]
    decreases |events|
  {
    if events == [] {
      StepMovesUp(c, last, k);
    } else {
      StepMovesUp(c, events[0], k);
      FirstComeFirstServed(Next(c, events[0]), events[1..], last, if Dispatches(c, events[0]) then k - 1 else k);
    }
  }

  // ---- nobody gets lost ----

  /** Running, or ready and hence on the list. */
  predicate InPlay(c: Cpu, t: Thread) {
    StatusOf(c.status, t) == Running || StatusOf(c.status, t) == Ready
  }

  /** Thread t does not sleep in the run. */
  ghost predicate StaysAwake(c: Cpu, events: seq<Event>, t: Thread)
    requires LegalRun(c, events)
    decreases |events|
  {
    events == [] || (!(events[0].Sleep? && c.current == t) && StaysAwake(Next(c, events[0]), events[1..], t))
  }

  /** A thread that runs or is ready goes on running or being ready, until it sleeps itself. */
  lemma {:induction false} LeavesOnlyBySleep(c: Cpu, events: seq<Event>, t: Thread)
    requires Sound(c) && LegalRun(c, events) && InPlay(c, t) && StaysAwake(c, events, t)
    ensures InPlay(After(c, events), t)
    decreases |events|
  {
    if events != [] {
      NextChanges(c, events[0]);
      StepKeepsSound(c, events[0]);
      LeavesOnlyBySleep(Next(c, events[0]), events[1..], t);
    }
  }

  /** A thread that yields to n ready ones is the n-th to be dispatched after that. */
  lemma YielderComesBack(c: Cpu, events: seq<Event>, last: Event)
    requires c.ready != [] && LegalRun(Next(c, Yield), events)
    requires DispatchCount(Next(c, Yield), events) == |c.ready| - 1
    requires Legal(After(Next(c, Yield), events), last) && Dispatches(After(Next(c, Yield), events), last)
    ensures Next(After(Next(c, Yield), events), last).current == c.current
  {
    NextChanges(c, Yield);
    FirstComeFirstServed(Next(c, Yield), events, last, |c.ready| - 1);
  }

  /** A thread that is forked or woken behind n ready ones is dispatched after them. */
  lemma WokenComesUp(c: Cpu, e: Event, events: seq<Event>, last: Event)
    requires (e.Fork? || e.Wake?) && Legal(c, e) && LegalRun(Next(c, e), events)
    requires DispatchCount(Next(c, e), events) == |c.ready|
    requires Legal(After(Next(c, e), events), last) && Dispatches(After(Next(c, e), events), last)
    ensures Next(After(Next(c, e), events), last).current == e.thread
  {
    NextChanges(c, e);
    FirstComeFirstServed(Next(c, e), events, last, |c.ready|);
  }

  class Scheduler {
    var currentThread: Thread
    var status: StatusTable
    const readyList: List<Thread>

    ghost predicate Valid()
      reads this, readyList, readyList.spine
    {
      readyList.Valid()
    }

    ghost function Now(): Cpu
      reads this, readyList
    {
      Cpu(currentThread, Items(readyList.contents), status)
    }

    /** The main thread runs, nothing else exists. */
    constructor (main: Thread)
      ensures Valid() && Now() == Cpu(main, [], map[main := Running]) && Sound(Now())
      ensures fresh(readyList) && readyList.spine == []
    {
      currentThread, status := main, map[main := Running];
      readyList := new List<Thread>();
    }

    method MakeReady(thread: Thread)
      requires Valid()
      modifies this`status, readyList, readyList.spine
      ensures Valid() && Now() == ReadyToRun(old(Now()), thread)
      ensures readyList.SameOrNew()
    {
      status := SetStatus(status, thread, Ready);
      readyList.Append(thread);
    }

    method FindNextToRun() returns (next: ThreadRef)
      requires Valid()
      modifies readyList
      ensures Valid() && readyList.NoneNew()
      ensures var q := old(Now()).ready;
        if q == [] then next == Null && Now() == old(Now())
          else next == Ref(q[0]) && Now() == old(Now()).(ready := q[1..])
    {
      next := WakeFirst(readyList);
    }

    method Run(nextThread: Thread)
      modifies this
      ensures Valid() <==> old(Valid())
      ensures Now() == old(Now()).(current := nextThread, status := SetStatus(old(status), nextThread, Running))
    {
      currentThread := nextThread;
      status := SetStatus(status, currentThread, Running);
    }

    method Yield()
      requires Valid()
      modifies this, readyList, readyList.spine
      ensures Valid() && Now() == Yielded(old(Now())) && Changes(old(Now()), Now(), Event.Yield)
      ensures readyList.SameOrNew()
    {
      var next := FindNextToRun();
      if next.Ref? {
        MakeReady(currentThread);
        Run(next.thread);
      }
    }

    /**
     * idle says which threads each further round of idling wakes; without a thread to run
     * after all of them the machine has halted.
     */
    method Sleep(idle: seq<seq<Thread>>) returns (halted: bool, ghost woken: seq<Thread>)
      requires Valid()
      modifies this, readyList, readyList.spine
      ensures Valid()
      ensures !halted ==> (woken == [] <==> old(Now()).ready != []) && (woken != [] ==> woken in idle)
      ensures !halted ==> AllReady(BlockCurrent(old(Now())), woken).ready != []
      ensures !halted ==> Now() == Dispatch(AllReady(BlockCurrent(old(Now())), woken))
      ensures !halted ==> Changes(old(Now()), Now(), Event.Sleep(woken))
      ensures readyList.SameOrNew()
      ensures halted <==> old(Now()).ready == [] && forall round <- idle :: round == []
    {
      status := SetStatus(status, currentThread, Blocked);
      ghost var blocked := Now();
      woken := [];
      var next := FindNextToRun();
      var rounds := 0;
      while next == Null && rounds < |idle|
        invariant Valid() && rounds <= |idle|
        invariant readyList.SameOrNew()
        invariant next == Null ==>
          woken == [] && blocked.ready == [] && Now() == blocked && forall i | 0 <= i < rounds :: idle[i] == []
        invariant next.Ref? ==> (woken == [] <==> blocked.ready != []) && (woken != [] ==> woken in idle)
        invariant next.Ref? ==> var a := AllReady(blocked, woken);
          a.ready != [] && next == Ref(a.ready[0]) && Now() == a.(ready := a.ready[1..])
        decreases |idle| - rounds
      {
        MakeAllReady(idle[rounds]);
        AllReadyLists(blocked, idle[rounds]);
        woken := idle[rounds];
        next := FindNextToRun();
        rounds := rounds + 1;
      }
      halted := next == Null;
      if next.Ref? {
        Run(next.thread);
        SleepChanges(old(Now()), woken);
      }
    }

    /** One event. */
    method Do(e: Event)
      requires Valid() && Legal(Now(), e)
      modifies this, readyList, readyList.spine
      ensures Valid() && Now() == Next(old(Now()), e) && Changes(old(Now()), Now(), e)
      ensures readyList.SameOrNew()
    {
      NextChanges(Now(), e);
      match e
      case Fork(t) => MakeReady(t);
      case Wake(t) => MakeReady(t);
      case Yield => Yield();
      case Sleep(idle) =>
        var halted, woken := Sleep([idle]);
        assert idle in [idle] && woken == idle;
    }

    method MakeAllReady(threads: seq<Thread>)
      requires Valid()
      modifies this`status, readyList, readyList.spine
      ensures Valid() && Now() == AllReady(old(Now()), threads)
      ensures readyList.SameOrNew()
    {
      var k := 0;
      while k < |threads|
        invariant Valid() && k <= |threads|
        invariant AllReady(old(Now()), threads) == AllReady(Now(), threads[k..])
        invariant readyList.SameOrNew()
      {
        MakeReady(threads[k]);
        k := k + 1;
      }
    }
  }

  /** A run of events done on a scheduler object, from the main thread on. */
  method RunScheduler(main: Thread, events: seq<Event>) returns (s: Scheduler)
    requires LegalRun(Cpu(main, [], map[main := Running]), events)
    ensures fresh(s) && s.Valid() && s.Now() == After(Cpu(main, [], map[main := Running]), events) && Sound(s.Now())
  {
    s := new Scheduler(main);
    ghost var first := s.Now();
    SoundAlways(first, events);
    hide Sound, Legal;
    for i := 0 to |events|
      invariant fresh(s) && fresh(s.readyList) && s.Valid()
      invariant forall j | 0 <= j < |s.readyList.spine| :: fresh(s.readyList.spine[j])
      invariant LegalRun(s.Now(), events[i..]) && After(s.Now(), events[i..]) == After(first, events)
    {
      assert events[i..][0] == events[i] && events[i..][1..] == events[i + 1..];
      s.Do(events[i]);
    }
  }
}
