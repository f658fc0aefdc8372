/**
 * The synchronous disk shared by any number of threads: lock, request, wait for the
 * completion interrupt, unlock. Each event is one atomic step of one thread, or the interrupt.
 */
module SynchDiskProtocol {
  import opened Sequences
  import opened Synch

  /** Where a thread is in ReadSector or WriteSector. */
  datatype Stage = Idle | AtLock | LockAsleep | HasLock | AtSem | SemAsleep | HasData

  datatype System = System(
    stages: map<Thread, Stage>,
    lock: LockState,
    sem: Sem,
    active: bool,
    serving: Thread)

  function StageOf(stages: map<Thread, Stage>, t: Thread): Stage {
    if t in stages then stages[t] else Idle
  }

  function Put(stages: map<Thread, Stage>, t: Thread, stage: Stage): (r: map<Thread, Stage>)
    ensures forall u :: StageOf(r, u) == if u == t then stage else StageOf(stages, u)
  {
    stages[t := stage]
  }

  function Wake(stages: map<Thread, Stage>, woken: ThreadRef, stage: Stage): (r: map<Thread, Stage>)
    ensures forall u :: StageOf(r, u) == if woken == Ref(u) then stage else StageOf(stages, u)
  {
    if woken.Ref? then Put(stages, woken.thread, stage) else stages
  }

  datatype Event =
    | Call(thread: Thread)
    | TakeLock(thread: Thread)
    | Request(thread: Thread)
    | Await(thread: Thread)
    | Return(thread: Thread)
    | Interrupt

  const INITIAL := System(map[], FREE_LOCK, Sem(0, []), false, 0)

  predicate Enabled(s: System, e: Event) {
    match e
    case Call(t) => StageOf(s.stages, t) == Idle
    case TakeLock(t) => StageOf(s.stages, t) == AtLock
    case Request(t) => StageOf(s.stages, t) == HasLock
    case Await(t) => StageOf(s.stages, t) == AtSem
    case Return(t) => StageOf(s.stages, t) == HasData
    case Interrupt => s.active
  }

  function Next(s: System, e: Event): System {
    match e
    case Call(t) => s.(stages := Put(s.stages, t, AtLock))
    case TakeLock(t) =>
      (match TryAcquire(s.lock, t)
       case Passed(l) => s.(stages := Put(s.stages, t, HasLock), lock := l)
       case Asleep(l) => s.(stages := Put(s.stages, t, LockAsleep), lock := l))
    case Request(t) =>
      s.(stages := Put(s.stages, t, AtSem), active := true, serving := t)
    case Await(t) =>
      (match TryP(s.sem, t)
       case Passed(sem) => s.(stages := Put(s.stages, t, HasData), sem := sem)
       case Asleep(sem) => s.(stages := Put(s.stages, t, SemAsleep), sem := sem))
    case Return(t) =>
      var w := DoRelease(s.lock);
      s.(stages := Wake(Put(s.stages, t, Idle), w.woken, AtLock), lock := w.state)
    case Interrupt =>
      var w := DoV(s.sem);
      s.(stages := Wake(s.stages, w.woken, AtSem), sem := w.state, active := false)
  }

  function After(events: seq<Event>): System {
    if events == [] then INITIAL else Next(After(events[..|events| - 1]), events[|events| - 1])
  }

  ghost predicate Legal(events: seq<Event>) {
    forall i | 0 <= i < |events| :: Enabled(After(events[..i]), events[i])
  }

  predicate Inside(stage: Stage) {
    stage.HasLock? || stage.AtSem? || stage.SemAsleep? || stage.HasData?
  }

  ghost predicate Exclusive(s: System) {
    && (s.lock.available ==> forall t :: !Inside(StageOf(s.stages, t)))
    && (!s.lock.available ==> s.lock.owner.Ref?)
    && (!s.lock.available ==> forall t :: Inside(StageOf(s.stages, t)) <==> t == s.lock.owner.thread)
  }

  ghost predicate QueueRight(s: System) {
    && Distinct(s.lock.queue)
    && (forall t :: t in s.lock.queue <==> StageOf(s.stages, t) == LockAsleep)
    && (s.lock.available && s.lock.queue != [] ==> exists t :: StageOf(s.stages, t) == AtLock)
  }

  /** The state of disk and semaphore at each stage of the holder of the lock. */
  ghost predicate DiskRight(s: System) {
    if s.lock.available || !s.lock.owner.Ref? then !s.active && s.sem == Sem(0, [])
    else
      var h := s.lock.owner.thread;
      match StageOf(s.stages, h)
      case AtSem =>
        if s.active then s.serving == h && s.sem == Sem(0, []) else s.sem == Sem(1, [])
      case SemAsleep => s.active && s.serving == h && s.sem == Sem(0, [h])
      case HasData => !s.active && s.sem == Sem(0, [])
      case _ => !s.active && s.sem == Sem(0, [])
  }

  ghost predicate Sound(s: System) {
    Exclusive(s) && QueueRight(s) && DiskRight(s)
  }

  lemma TakeLockSound(s: System, t: Thread)
    requires Sound(s) && Enabled(s, TakeLock(t))
    ensures Sound(Next(s, TakeLock(t)))
  {
    if !s.lock.available {
      assert Next(s, TakeLock(t)).lock.queue == s.lock.queue + [t];
    }
  }

  lemma ReturnSound(s: System, t: Thread)
    requires Sound(s) && Enabled(s, Return(t))
    ensures Sound(Next(s, Return(t)))
  {
    if s.lock.queue != [] {
      PopKeepsDistinct(s.lock.queue);
      assert StageOf(Next(s, Return(t)).stages, s.lock.queue[0]) == AtLock;
    }
  }

  lemma AwaitSound(s: System, t: Thread)
    requires Sound(s) && Enabled(s, Await(t))
    ensures Sound(Next(s, Await(t)))
  {
    assert !s.lock.available && s.lock.owner == Ref(t);
  }

  lemma InterruptSound(s: System)
    requires Sound(s) && Enabled(s, Interrupt)
    ensures Sound(Next(s, Interrupt))
  {
    assert !s.lock.available && s.lock.owner == Ref(s.serving);
  }

  lemma StepKeepsSound(s: System, e: Event)
    requires Sound(s) && Enabled(s, e)
    ensures Sound(Next(s, e))
  {
    match e {
      case TakeLock(t) => TakeLockSound(s, t);
      case Await(t) => AwaitSound(s, t);
      case Return(t) => ReturnSound(s, t);
      case Interrupt => InterruptSound(s);
      case _ =>
    }
  }

  // ---- what the trace itself says about the last request ----

  datatype Flight = Unused | Pending(thread: Thread) | Completed(thread: Thread)

  function FlightNext(f: Flight, e: Event): Flight {
    match e
    case Request(t) => Pending(t)
    case Interrupt => if f.Pending? then Completed(f.thread) else f
    case _ => f
  }

  function LastFlight(events: seq<Event>): Flight {
    if events == [] then Unused else FlightNext(LastFlight(events[..|events| - 1]), events[|events| - 1])
  }

  ghost predicate FlightRight(s: System, f: Flight) {
    && (if s.active then f == Pending(s.serving) else !f.Pending?)
    && (forall t | StageOf(s.stages, t) in {AtSem, SemAsleep} :: f == if s.active then Pending(t) else Completed(t))
    && (forall t | StageOf(s.stages, t) == HasData :: f == Completed(t))
  }

  lemma StepKeepsFlight(s: System, f: Flight, e: Event)
    requires Sound(s) && FlightRight(s, f) && Enabled(s, e)
    ensures FlightRight(Next(s, e), FlightNext(f, e))
  {
  }

  lemma {:induction false} SoundAlways(events: seq<Event>)
    requires Legal(events)
    ensures Sound(After(events)) && FlightRight(After(events), LastFlight(events))
  {
    if events != [] {
      var before := events[..|events| - 1];
      assert Legal(before) by {
        forall i | 0 <= i < |before|
          ensures Enabled(After(before[..i]), before[i])
        {
          assert before[..i] == events[..i];
        }
      }
      SoundAlways(before);
      hide Sound, FlightRight, Next, FlightNext;
      StepKeepsSound(After(before), events[|events| - 1]);
      StepKeepsFlight(After(before), LastFlight(before), events[|events| - 1]);
    }
  }

  /** A request is only made of an idle disk. */
  lemma RequestFindsDiskIdle(events: seq<Event>, t: Thread)
    requires Legal(events) && Enabled(After(events), Request(t))
    ensures !After(events).active
  {
    SoundAlways(events);
  }

  /** A call returns only once its own request, which is the last one made, has completed. */
  lemma ReturnMeansCompleted(events: seq<Event>, t: Thread)
    requires Legal(events) && Enabled(After(events), Return(t))
    ensures LastFlight(events) == Completed(t)
  {
    SoundAlways(events);
  }

  lemma SemaphoreZeroWhenFree(events: seq<Event>)
    requires Legal(events) && After(events).lock.available
    ensures After(events).sem == Sem(0, []) && !After(events).active
  {
    SoundAlways(events);
  }

  /** While any call is in progress the disk will interrupt or some thread inside a call can take a step. */
  lemma NeverStuck(events: seq<Event>, t: Thread)
    requires Legal(events) && StageOf(After(events).stages, t) != Idle
    ensures exists e :: Enabled(After(events), e) && !e.Call?
  {
    SoundAlways(events);
    hide Sound;
    SomeoneMoves(After(events), t);
  }

  lemma SomeoneMoves(s: System, t: Thread)
    requires Sound(s) && StageOf(s.stages, t) != Idle
    ensures exists e :: Enabled(s, e) && !e.Call?
  {
    if s.active {
      assert Enabled(s, Interrupt);
    } else if !s.lock.available {
      var h := s.lock.owner.thread;
      assert Inside(StageOf(s.stages, h));
      assert Enabled(s, Request(h)) || Enabled(s, Await(h)) || Enabled(s, Return(h));
    } else {
      assert !Inside(StageOf(s.stages, t));
      var u :| StageOf(s.stages, u) == AtLock;
      assert Enabled(s, TakeLock(u));
    }
  }
}
