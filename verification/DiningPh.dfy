/**
 * Five dining philosophers on a monitor: one lock, one condition each. Philosopher i is
 * thread i and alternates pickup and putdown; the stages are the places where another thread may run.
 */
module DiningPh {
  import opened Sequences
  import opened Synch

  datatype Phase = Thinking | Hungry | Eating

  type Seat = i: nat | i < 5

  function Left(i: Seat): Seat { (i + 4) % 5 }

  function Right(i: Seat): Seat { (i + 1) % 5 }

  /** The fields of the monitor. */
  datatype Monitor = Monitor(state: seq<Phase>, dp: LockState, self: seq<CondState>)

  type Table = m: Monitor | |m.state| == 5 && |m.self| == 5
    witness Monitor([Thinking, Thinking, Thinking, Thinking, Thinking], FREE_LOCK,
                    [FRESH_COND, FRESH_COND, FRESH_COND, FRESH_COND, FRESH_COND])

  /** A hungry philosopher between two that do not eat starts to eat; its thread is woken if it waits. */
  function Test(m: Table, i: Seat, current: Seat): Woke<Table> {
    if m.state[Left(i)] != Eating && m.state[i] == Hungry && m.state[Right(i)] != Eating then
      var w := DoSignal(m.self[i], m.dp, current);
      Woke(m.(state := m.state[i := Eating], self := m.self[i := w.state]), w.woken)
    else
      Woke(m, Null)
  }

  /** The monitor itself, its fields updated in place; the states of its lock and conditions are Synch's. */
  class DiningPhilosophers {
    const state: array<Phase>
    var dp: LockState
    const self: array<CondState>

    ghost predicate Valid()
      reads this
    {
      state.Length == 5 && self.Length == 5
    }

    ghost function Now(): Table
      requires Valid()
      reads this, state, self
    {
      Monitor(state[..], dp, self[..])
    }

    constructor ()
      ensures Valid() && Now() == INITIAL.m
    {
      state := new Phase[5](_ => Thinking);
      self := new CondState[5](_ => FRESH_COND);
      dp := FREE_LOCK;
    }

    method TestPhilosopher(i: Seat, current: Seat) returns (woken: ThreadRef)
      requires Valid()
      modifies state, self
      ensures Valid() && Test(old(Now()), i, current) == Woke(Now(), woken)
    {
      woken := Null;
      if state[(i + 4) % 5] != Eating && state[i] == Hungry && state[(i + 1) % 5] != Eating {
        state[i] := Eating;
        var w := DoSignal(self[i], dp, current);
        self[i], woken := w.state, w.woken;
      }
    }

    /** What pickup does between taking the lock and deciding whether to wait. */
    method TryToEat(who: Seat) returns (woken: ThreadRef)
      requires Valid()
      modifies state, self
      ensures Valid() && var m := old(Now()); Test(m.(state := m.state[who := Hungry]), who, who) == Woke(Now(), woken)
    {
      state[who] := Hungry;
      woken := TestPhilosopher(who, who);
    }

    /** What putdown does between taking the lock and releasing it; both neighbours may be woken. */
    method PutForksDown(who: Seat) returns (left: ThreadRef, right: ThreadRef)
      requires Valid()
      modifies state, self
      ensures Valid() && var m := old(Now());
        var w := Test(m.(state := m.state[who := Thinking]), Left(who), who);
        w.woken == left && Test(w.state, Right(who), who) == Woke(Now(), right)
    {
      state[who] := Thinking;
      left := TestPhilosopher((who + 4) % 5, who);
      right := TestPhilosopher((who + 1) % 5, who);
    }
  }

  datatype Stage =
    | Resting
    | PickLock | PickLockAsleep | PickIn | PickTested
    | CondAsleep | CondWoken | BackLock | BackLockAsleep | PickOut
    | Dining
    | PutLock | PutLockAsleep | PutIn | PutMid | PutOut

  datatype System = System(m: Table, stages: seq<Stage>)

  type Dinner = s: System | |s.stages| == 5
    witness System(Monitor([Thinking, Thinking, Thinking, Thinking, Thinking], FREE_LOCK,
                           [FRESH_COND, FRESH_COND, FRESH_COND, FRESH_COND, FRESH_COND]),
                   [Resting, Resting, Resting, Resting, Resting])

  const INITIAL: Dinner :=
    System(Monitor([Thinking, Thinking, Thinking, Thinking, Thinking], FREE_LOCK,
                   [FRESH_COND, FRESH_COND, FRESH_COND, FRESH_COND, FRESH_COND]),
           [Resting, Resting, Resting, Resting, Resting])

  predicate LockSleeper(stage: Stage) { stage.PickLockAsleep? || stage.BackLockAsleep? || stage.PutLockAsleep? }

  predicate AtLock(stage: Stage) { stage.PickLock? || stage.BackLock? || stage.PutLock? }

  predicate Inside(stage: Stage) {
    stage.PickIn? || stage.PickTested? || stage.PickOut? || stage.PutIn? || stage.PutMid? || stage.PutOut?
  }

  /** The stage of a thread that is taken off a queue. */
  function Awake(stage: Stage): Stage {
    match stage
    case PickLockAsleep => PickLock
    case BackLockAsleep => BackLock
    case PutLockAsleep => PutLock
    case CondAsleep => CondWoken
    case _ => stage
  }

  function Wake(stages: seq<Stage>, woken: ThreadRef): (r: seq<Stage>)
    ensures |r| == |stages|
  {
    if woken.Ref? && woken.thread < |stages| then stages[woken.thread := Awake(stages[woken.thread])] else stages
  }

  function TakeLock(s: Dinner, i: Seat, got: Stage, asleep: Stage): Dinner {
    match TryAcquire(s.m.dp, i)
    case Passed(l) => System(s.m.(dp := l), s.stages[i := got])
    case Asleep(l) => System(s.m.(dp := l), s.stages[i := asleep])
  }

  function LeaveLock(s: Dinner, i: Seat, next: Stage): Dinner {
    var w := DoRelease(s.m.dp);
    System(s.m.(dp := w.state), Wake(s.stages[i := next], w.woken))
  }

  /** The loop of Wait, and taking the lock back once it ends. */
  function WaitRound(s: Dinner, i: Seat): Dinner {
    match TryWait(s.m.self[i], i)
    case Passed(c) => TakeLock(System(s.m.(self := s.m.self[i := c]), s.stages), i, PickOut, BackLockAsleep)
    case Asleep(c) => System(s.m.(self := s.m.self[i := c]), s.stages[i := CondAsleep])
  }

  function TestThen(m: Table, stages: seq<Stage>, tested: Seat, i: Seat, next: Stage): Dinner
    requires |stages| == 5
  {
    var w := Test(m, tested, i);
    System(w.state, Wake(stages[i := next], w.woken))
  }

  predicate Enabled(s: Dinner, i: Seat) {
    !LockSleeper(s.stages[i]) && !s.stages[i].CondAsleep?
  }

  /** The next step of philosopher i. */
  function Next(s: Dinner, i: Seat): Dinner
    requires Enabled(s, i)
  {
    match s.stages[i]
    case Resting => System(s.m, s.stages[i := PickLock])
    case PickLock => TakeLock(s, i, PickIn, PickLockAsleep)
    case PickIn => TestThen(s.m.(state := s.m.state[i := Hungry]), s.stages, i, i, PickTested)
    case PickTested =>
      if s.m.state[i] != Hungry then System(s.m, s.stages[i := PickOut])
      else WaitRound(if HeldBy(s.m.dp, i) then LeaveLock(s, i, PickTested) else s, i)
    case CondWoken => WaitRound(s, i)
    case BackLock => TakeLock(s, i, PickOut, BackLockAsleep)
    case PickOut => LeaveLock(s, i, Dining)
    case Dining => System(s.m, s.stages[i := PutLock])
    case PutLock => TakeLock(s, i, PutIn, PutLockAsleep)
    case PutIn => TestThen(s.m.(state := s.m.state[i := Thinking]), s.stages, Left(i), i, PutMid)
    case PutMid => TestThen(s.m, s.stages, Right(i), i, PutOut)
    case PutOut => LeaveLock(s, i, Resting)
  }

  /** Mutual exclusion inside the monitor, and the sleepers of the lock with no lost wake-up. */
  ghost predicate LockRight(dp: LockState, stages: seq<Stage>)
    requires |stages| == 5
  {
    && (dp.available ==> forall i: Seat :: !Inside(stages[i]))
    && (!dp.available ==> dp.owner.Ref? && dp.owner.thread < 5)
    && (!dp.available ==> forall i: Seat :: Inside(stages[i]) <==> i == dp.owner.thread)
    && QueueRight(dp.queue, stages)
    && (dp.available && dp.queue != [] ==> exists i: Seat :: AtLock(stages[i]))
  }

  ghost predicate QueueRight(queue: seq<Thread>, stages: seq<Stage>)
    requires |stages| == 5
  {
    Distinct(queue) && (forall t <- queue :: t < 5) && forall i: Seat :: i in queue <==> LockSleeper(stages[i])
  }

  /** What a philosopher's phase is at each stage. */
  predicate Fits(stage: Stage, phase: Phase) {
    match stage
    case Resting | PickLock | PickLockAsleep | PickIn | PutMid | PutOut => phase == Thinking
    case PickTested => phase != Thinking
    case CondAsleep => phase == Hungry
    case _ => phase == Eating
  }

  /** A condition has at most its own philosopher waiting, and is not busy just while that one is on its way back. */
  function CondAt(stage: Stage, i: Seat): CondState {
    if stage.CondAsleep? then CondState(true, [i]) else CondState(!stage.CondWoken?, [])
  }

  ghost predicate EachRight(m: Table, stages: seq<Stage>)
    requires |stages| == 5
  {
    forall i: Seat :: Fits(stages[i], m.state[i]) && m.self[i] == CondAt(stages[i], i)
  }

  ghost predicate NeighboursApart(state: seq<Phase>)
    requires |state| == 5
  {
    forall i: Seat :: state[i] == Eating ==> state[Right(i)] != Eating
  }

  /** Nobody is hungry without reason, except next to one who is half way through putdown. */
  ghost predicate HungryBlocked(state: seq<Phase>, stages: seq<Stage>)
    requires |state| == 5 && |stages| == 5
  {
    forall i: Seat :: state[i] == Hungry ==>
      state[Left(i)] == Eating || state[Right(i)] == Eating || stages[Left(i)] == PutMid
  }

  ghost predicate Sound(s: Dinner) {
    && LockRight(s.m.dp, s.stages) && EachRight(s.m, s.stages)
    && NeighboursApart(s.m.state) && HungryBlocked(s.m.state, s.stages)
  }

  /** Threads that move without touching the lock. */
  lemma LockUntouched(dp: LockState, stages: seq<Stage>, more: seq<Stage>)
    requires |stages| == |more| == 5 && LockRight(dp, stages)
    requires forall i: Seat ::
      (Inside(stages[i]) <==> Inside(more[i])) && (LockSleeper(stages[i]) <==> LockSleeper(more[i]))
    requires forall i: Seat :: AtLock(stages[i]) ==> AtLock(more[i])
    ensures LockRight(dp, more)
  {
  }

  lemma TakeLockRight(dp: LockState, stages: seq<Stage>, i: Seat, got: Stage, asleep: Stage)
    requires |stages| == 5 && LockRight(dp, stages) && !Inside(stages[i]) && !LockSleeper(stages[i])
    requires Inside(got) && LockSleeper(asleep)
    ensures TryAcquire(dp, i).Passed? ==> LockRight(TryAcquire(dp, i).state, stages[i := got])
    ensures TryAcquire(dp, i).Asleep? ==> LockRight(TryAcquire(dp, i).state, stages[i := asleep])
  {
  }

  lemma LeaveLockRight(dp: LockState, stages: seq<Stage>, i: Seat, next: Stage)
    requires |stages| == 5 && LockRight(dp, stages) && Inside(stages[i]) && !Inside(next) && !LockSleeper(next)
    ensures var w := DoRelease(dp); LockRight(w.state, Wake(stages[i := next], w.woken))
  {
    var w := DoRelease(dp);
    var more := Wake(stages[i := next], w.woken);
    LeaveQueueRight(dp, stages, i, next, more);
    LeaveNobodyInside(dp, stages, i, next, more);
    hide QueueRight, DoRelease, Wake;
  }

  lemma LeaveQueueRight(dp: LockState, stages: seq<Stage>, i: Seat, next: Stage, more: seq<Stage>)
    requires |stages| == 5 && QueueRight(dp.queue, stages) && Inside(stages[i]) && !LockSleeper(next)
    requires more == Wake(stages[i := next], DoRelease(dp).woken)
    ensures QueueRight(DoRelease(dp).state.queue, more)
    ensures DoRelease(dp).state.queue != [] ==> exists j: Seat :: AtLock(more[j])
  {
    if dp.queue != [] {
      PopKeepsDistinct(dp.queue);
      assert dp.queue[0] in dp.queue;
      var j: Seat := dp.queue[0];
      assert AtLock(more[j]);
    }
  }

  lemma LeaveNobodyInside(dp: LockState, stages: seq<Stage>, i: Seat, next: Stage, more: seq<Stage>)
    requires |stages| == 5 && LockRight(dp, stages) && Inside(stages[i]) && !Inside(next)
    requires more == Wake(stages[i := next], DoRelease(dp).woken)
    ensures DoRelease(dp).state.available && forall j: Seat :: !Inside(more[j])
  {
    hide QueueRight;
  }

  /** A hungry philosopher stays blocked while nobody stops eating and nobody leaves the middle of putdown. */
  lemma HungryStays(state: seq<Phase>, stages: seq<Stage>, more: seq<Stage>)
    requires |state| == |stages| == |more| == 5 && HungryBlocked(state, stages)
    requires forall i: Seat :: stages[i] == PutMid ==> more[i] == PutMid
    ensures HungryBlocked(state, more)
  {
  }

  lemma TakeLockSound(s: Dinner, i: Seat, got: Stage, asleep: Stage)
    requires Sound(s) && AtLock(s.stages[i]) && Inside(got) && LockSleeper(asleep)
    requires Fits(got, s.m.state[i]) && Fits(asleep, s.m.state[i])
    ensures Sound(TakeLock(s, i, got, asleep))
  {
    hide LockRight, HungryBlocked, NeighboursApart;
    TakeLockRight(s.m.dp, s.stages, i, got, asleep);
    HungryStays(s.m.state, s.stages, TakeLock(s, i, got, asleep).stages);
  }

  lemma WokenSleeps(dp: LockState, stages: seq<Stage>)
    requires |stages| == 5 && LockRight(dp, stages)
    ensures DoRelease(dp).woken.Ref? ==>
      DoRelease(dp).woken.thread < 5 && LockSleeper(stages[DoRelease(dp).woken.thread])
  {
    assert dp.queue != [] ==> dp.queue[0] in dp.queue;
  }

  /** Waking a thread that sleeps for the lock changes nothing else about it. */
  lemma WakeLocal(m: Table, stages: seq<Stage>, woken: ThreadRef)
    requires |stages| == 5 && EachRight(m, stages)
    requires woken.Ref? ==> woken.thread < 5 && LockSleeper(stages[woken.thread])
    ensures EachRight(m, Wake(stages, woken))
    ensures forall i: Seat :: stages[i] == PutMid ==> Wake(stages, woken)[i] == PutMid
  {
  }

  lemma LeaveLockSound(s: Dinner, i: Seat, next: Stage)
    requires Sound(s) && Inside(s.stages[i]) && s.stages[i] != PutMid
    requires !Inside(next) && !LockSleeper(next) && Fits(next, s.m.state[i]) && !next.CondAsleep? && !next.CondWoken?
    ensures Sound(LeaveLock(s, i, next))
  {
    hide LockRight, HungryBlocked, NeighboursApart;
    LeaveLockRight(s.m.dp, s.stages, i, next);
    WokenSleeps(s.m.dp, s.stages);
    var w := DoRelease(s.m.dp);
    WakeLocal(s.m, s.stages[i := next], w.woken);
    HungryStays(s.m.state, s.stages, s.stages[i := next]);
    HungryStays(s.m.state, s.stages[i := next], LeaveLock(s, i, next).stages);
  }

  /** A philosopher who has to wait releases the lock and goes to sleep in one step. */
  lemma WaitSound(s: Dinner, i: Seat)
    requires Sound(s) && s.stages[i] == PickTested && s.m.state[i] == Hungry
    ensures HeldBy(s.m.dp, i) && Sound(WaitRound(LeaveLock(s, i, PickTested), i))
  {
    assert HeldBy(s.m.dp, i);
    assert s.m.self[i] == FRESH_COND;
    LeaveLockRight(s.m.dp, s.stages, i, CondAsleep);
    WokenSleeps(s.m.dp, s.stages);
    hide LockRight, HungryBlocked, NeighboursApart;
    var w := DoRelease(s.m.dp);
    var m := s.m.(dp := w.state, self := s.m.self[i := CondState(true, [i])]);
    assert EachRight(m, s.stages[i := CondAsleep]);
    WakeLocal(m, s.stages[i := CondAsleep], w.woken);
    HungryStays(s.m.state, s.stages, s.stages[i := CondAsleep]);
    HungryStays(s.m.state, s.stages[i := CondAsleep], Wake(s.stages[i := CondAsleep], w.woken));
    WaitIs(s, i);
    hide WaitRound, LeaveLock, Wake, EachRight;
  }

  /** Release and sleep: the waiter is asleep on its condition, and the lock's sleeper is awake. */
  lemma WaitIs(s: Dinner, i: Seat)
    requires s.stages[i] == PickTested && s.m.self[i] == FRESH_COND
    requires var woken := DoRelease(s.m.dp).woken;
      woken.Ref? ==> woken.thread < 5 && LockSleeper(s.stages[woken.thread])
    ensures var w := DoRelease(s.m.dp);
      WaitRound(LeaveLock(s, i, PickTested), i)
      == System(s.m.(dp := w.state, self := s.m.self[i := CondState(true, [i])]),
                Wake(s.stages[i := CondAsleep], w.woken))
  {
    var w := DoRelease(s.m.dp);
    assert LeaveLock(s, i, PickTested).stages[i := CondAsleep] == Wake(s.stages[i := CondAsleep], w.woken);
    assert FRESH_COND.queue + [i] == [i];
    assert TryWait(s.m.self[i], i) == Asleep(CondState(true, [i]));
  }

  /** A signalled philosopher finds the condition not busy and goes for the lock. */
  lemma ComeBackSound(s: Dinner, i: Seat)
    requires Sound(s) && s.stages[i] == CondWoken
    ensures Sound(WaitRound(s, i))
  {
    hide HungryBlocked, NeighboursApart;
    assert s.m.self[i] == CondState(false, []);
    var mid := System(s.m.(self := s.m.self[i := FRESH_COND]), s.stages[i := BackLock]);
    LockUntouched(s.m.dp, s.stages, mid.stages);
    HungryStays(s.m.state, s.stages, mid.stages);
    hide LockRight;
    assert EachRight(mid.m, mid.stages);
    TakeLockSound(mid, i, PickOut, BackLockAsleep);
    assert WaitRound(s, i) == TakeLock(mid, i, PickOut, BackLockAsleep);
  }

  lemma MoveSound(s: Dinner, i: Seat, next: Stage)
    requires Sound(s) && Fits(next, s.m.state[i]) && CondAt(next, i) == CondAt(s.stages[i], i) && s.stages[i] != PutMid
    requires (Inside(next) <==> Inside(s.stages[i])) && !LockSleeper(next) && !LockSleeper(s.stages[i])
    requires !AtLock(s.stages[i])
    ensures Sound(System(s.m, s.stages[i := next]))
  {
    LockUntouched(s.m.dp, s.stages, s.stages[i := next]);
    HungryStays(s.m.state, s.stages, s.stages[i := next]);
    hide LockRight, HungryBlocked, NeighboursApart;
  }

  /** The signal wakes exactly the philosopher who starts to eat, if that one waits. */
  lemma TestEach(m: Table, stages: seq<Stage>, i: Seat, current: Seat)
    requires |stages| == 5 && EachRight(m, stages) && HeldBy(m.dp, current)
    requires m.state[i] == Hungry ==> stages[i] in {CondAsleep, PickTested}
    ensures var w := Test(m, i, current);
      EachRight(w.state, Wake(stages, w.woken))
      && (w.woken.Ref? ==> w.woken == Ref(i) && stages[i] == CondAsleep)
  {
  }

  lemma TestApart(m: Table, i: Seat, current: Seat)
    requires NeighboursApart(m.state)
    ensures NeighboursApart(Test(m, i, current).state.state)
  {
    forall j: Seat | Test(m, i, current).state.state[j] == Eating
      ensures Test(m, i, current).state.state[Right(j)] != Eating
    {
      if Right(j) == i {
        assert Left(i) == j;
      }
    }
  }

  /** After the test of i, i is not hungry without an eating neighbour; others stay as they were. */
  lemma TestBlocks(m: Table, stages: seq<Stage>, more: seq<Stage>, i: Seat, current: Seat)
    requires |stages| == |more| == 5
    requires forall j: Seat | j != i && m.state[j] == Hungry ::
      m.state[Left(j)] == Eating || m.state[Right(j)] == Eating || more[Left(j)] == PutMid
    ensures HungryBlocked(Test(m, i, current).state.state, more)
  {
  }

  lemma TestThenSound(m: Table, stages: seq<Stage>, tested: Seat, i: Seat, next: Stage)
    requires |stages| == 5 && LockRight(m.dp, stages) && HeldBy(m.dp, i) && Inside(stages[i]) && Inside(next)
    requires EachRight(m, stages[i := next]) && NeighboursApart(m.state)
    requires m.state[tested] == Hungry ==> stages[i := next][tested] in {CondAsleep, PickTested}
    requires forall j: Seat | j != tested && m.state[j] == Hungry ::
      m.state[Left(j)] == Eating || m.state[Right(j)] == Eating || stages[i := next][Left(j)] == PutMid
    ensures Sound(TestThen(m, stages, tested, i, next))
  {
    var w := Test(m, tested, i);
    TestEach(m, stages[i := next], tested, i);
    TestApart(m, tested, i);
    WakeCondRight(m.dp, stages, i, next, w.woken);
    hide EachRight, NeighboursApart, HungryBlocked, LockRight, Wake;
    TestBlocks(m, stages, Wake(stages[i := next], w.woken), tested, i);
  }

  lemma WakeCondRight(dp: LockState, stages: seq<Stage>, i: Seat, next: Stage, woken: ThreadRef)
    requires |stages| == 5 && LockRight(dp, stages) && Inside(stages[i]) && Inside(next)
    requires woken.Ref? ==> woken.thread < 5 && stages[i := next][woken.thread] == CondAsleep
    ensures LockRight(dp, Wake(stages[i := next], woken))
    ensures var mid, more := stages[i := next], Wake(stages[i := next], woken);
      forall j: Seat :: mid[j] == PutMid ==> more[j] == PutMid
  {
    LockUntouched(dp, stages, Wake(stages[i := next], woken));
    hide LockRight;
  }

  lemma PickInSound(s: Dinner, i: Seat)
    requires Sound(s) && s.stages[i] == PickIn
    ensures Sound(Next(s, i))
  {
    var m: Table := s.m.(state := s.m.state[i := Hungry]);
    assert HeldBy(m.dp, i) && EachRight(m, s.stages[i := PickTested]);
    hide LockRight;
    TestThenSound(m, s.stages, i, i, PickTested);
  }

  /** Only the neighbours of one who stops eating may lose what blocks them, and the left one is tested at once. */
  lemma ForksDownBlocks(state: seq<Phase>, stages: seq<Stage>, i: Seat)
    requires |state| == |stages| == 5 && HungryBlocked(state, stages) && NeighboursApart(state) && stages[i] == PutIn
    ensures NeighboursApart(state[i := Thinking])
    ensures var after, mid := state[i := Thinking], stages[i := PutMid];
      forall j: Seat | j != Left(i) && after[j] == Hungry ::
        after[Left(j)] == Eating || after[Right(j)] == Eating || mid[Left(j)] == PutMid
  {
  }

  lemma PutInSound(s: Dinner, i: Seat)
    requires Sound(s) && s.stages[i] == PutIn
    ensures Sound(Next(s, i))
  {
    var m: Table := s.m.(state := s.m.state[i := Thinking]);
    assert HeldBy(m.dp, i) && EachRight(m, s.stages[i := PutMid]);
    OnlyHolderTested(s, i);
    ForksDownBlocks(s.m.state, s.stages, i);
    hide LockRight, HungryBlocked, NeighboursApart;
    TestThenSound(m, s.stages, Left(i), i, PutMid);
  }

  lemma PutMidSound(s: Dinner, i: Seat)
    requires Sound(s) && s.stages[i] == PutMid
    ensures Sound(Next(s, i))
  {
    assert HeldBy(s.m.dp, i) && EachRight(s.m, s.stages[i := PutOut]);
    OnlyHolderTested(s, i);
    hide LockRight;
    TestThenSound(s.m, s.stages, Right(i), i, PutOut);
  }

  /** While somebody else is in the monitor, a hungry philosopher is asleep. */
  lemma OnlyHolderTested(s: Dinner, i: Seat)
    requires Sound(s) && Inside(s.stages[i]) && s.stages[i] != PickTested
    ensures forall j: Seat | s.m.state[j] == Hungry :: s.stages[j] == CondAsleep
  {
  }

  lemma StepKeepsSound(s: Dinner, i: Seat)
    requires Sound(s) && Enabled(s, i)
    ensures Sound(Next(s, i))
  {
    assert Fits(s.stages[i], s.m.state[i]);
    hide Sound;
    match s.stages[i]
    case Resting => MoveSound(s, i, PickLock);
    case PickLock => TakeLockSound(s, i, PickIn, PickLockAsleep);
    case PickIn => PickInSound(s, i);
    case PickTested =>
      if s.m.state[i] == Hungry {
        WaitSound(s, i);
      } else {
        MoveSound(s, i, PickOut);
      }
    case CondWoken => ComeBackSound(s, i);
    case BackLock => TakeLockSound(s, i, PickOut, BackLockAsleep);
    case PickOut => LeaveLockSound(s, i, Dining);
    case Dining => MoveSound(s, i, PutLock);
    case PutLock => TakeLockSound(s, i, PutIn, PutLockAsleep);
    case PutIn => PutInSound(s, i);
    case PutMid => PutMidSound(s, i);
    case PutOut => LeaveLockSound(s, i, Resting);
  }

  function After(steps: seq<Seat>): Option
    decreases |steps|
  {
    if steps == [] then Some(INITIAL)
    else
      match After(steps[..|steps| - 1])
      case None => None
      case Some(s) => if Enabled(s, steps[|steps| - 1]) then Some(Next(s, steps[|steps| - 1])) else None
  }

  /** None when the steps include one of a sleeping thread, which is no run. */
  datatype Option = None | Some(dinner: Dinner)

  lemma {:induction false} SoundAlways(steps: seq<Seat>)
    requires After(steps).Some?
    ensures Sound(After(steps).dinner)
  {
    if steps == [] {
      InitialSound();
    } else {
      SoundAlways(steps[..|steps| - 1]);
      hide Sound, Next;
      StepKeepsSound(After(steps[..|steps| - 1]).dinner, steps[|steps| - 1]);
    }
  }

  lemma InitialSound()
    ensures Sound(INITIAL)
  {
    forall i: Seat
      ensures INITIAL.stages[i] == Resting && INITIAL.m.state[i] == Thinking && INITIAL.m.self[i] == FRESH_COND
    {
      assert i == 0 || i == 1 || i == 2 || i == 3 || i == 4;
    }
  }

  /** In every reachable state no two neighbours eat. */
  lemma NoTwoNeighboursEat(steps: seq<Seat>, i: Seat)
    requires After(steps).Some?
    ensures var state := After(steps).dinner.m.state; !(state[i] == Eating && state[(i + 1) % 5] == Eating)
  {
    SoundAlways(steps);
    hide LockRight, EachRight, HungryBlocked, After;
    assert Right(i) == (i + 1) % 5;
  }

  /** Whenever the monitor is free, a hungry philosopher has an eating neighbour. */
  lemma HungryHasEatingNeighbour(steps: seq<Seat>, i: Seat)
    requires After(steps).Some?
    requires var s := After(steps).dinner; s.m.dp.available && s.m.state[i] == Hungry
    ensures var state := After(steps).dinner.m.state; state[(i + 4) % 5] == Eating || state[(i + 1) % 5] == Eating
  {
    SoundAlways(steps);
    var s := After(steps).dinner;
    hide EachRight, QueueRight, NeighboursApart, After;
    assert !Inside(s.stages[Left(i)]);
    assert Left(i) == (i + 4) % 5 && Right(i) == (i + 1) % 5;
  }

  /** When pickup has returned, and until putdown takes the forks back, the caller eats. */
  lemma PickupReturnsEating(steps: seq<Seat>, i: Seat)
    requires After(steps).Some? && After(steps).dinner.stages[i] in {Dining, PutLock, PutLockAsleep, PutIn}
    ensures After(steps).dinner.m.state[i] == Eating
  {
    SoundAlways(steps);
    assert Fits(After(steps).dinner.stages[i], After(steps).dinner.m.state[i]);
  }

  /** While somebody is not resting, somebody who is not resting can take a step. */
  lemma NeverStuck(steps: seq<Seat>, i: Seat)
    requires After(steps).Some? && After(steps).dinner.stages[i] != Resting
    ensures var s := After(steps).dinner; exists j: Seat :: Enabled(s, j) && s.stages[j] != Resting
  {
    SoundAlways(steps);
    MoverExists(After(steps).dinner, i);
  }

  /** While the lock is held, or somebody sleeps for it, the holder or a woken thread can take a step. */
  lemma LockMoves(dp: LockState, stages: seq<Stage>)
    requires |stages| == 5 && LockRight(dp, stages) && (!dp.available || dp.queue != [])
    ensures exists j: Seat :: Inside(stages[j]) || AtLock(stages[j])
  {
    if !dp.available {
      var h: Seat := dp.owner.thread;
      assert Inside(stages[h]);
    }
  }

  lemma MoverExists(s: Dinner, i: Seat)
    requires Sound(s) && s.stages[i] != Resting
    ensures exists j: Seat :: Enabled(s, j) && s.stages[j] != Resting
  {
    if !s.m.dp.available || s.m.dp.queue != [] {
      LockMoves(s.m.dp, s.stages);
      var j: Seat :| Inside(s.stages[j]) || AtLock(s.stages[j]);
      assert Enabled(s, j);
    } else {
      assert forall j: Seat :: !LockSleeper(s.stages[j]) && !Inside(s.stages[j]);
      hide LockRight;
      var l, r := Left(i), Right(i);
      assert forall j <- [i, l, r] :: Fits(s.stages[j], s.m.state[j]);
      hide EachRight;
      if s.stages[i] == CondAsleep {
        var j: Seat := if s.m.state[l] == Eating then l else r;
        assert s.m.state[j] == Eating;
        assert Enabled(s, j);
      } else {
        assert Enabled(s, i);
      }
    }
  }
}
