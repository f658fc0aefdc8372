/** How long the simulated disk takes: head position, rotation and track buffer. */
module DiskTiming {
  import opened DiskImage
  import opened Interrupts

  const ROTATION_TIME := 500
  const SEEK_TIME := 500

  /** Stands for the handler that a completed request runs. */
  const DISK_DONE := 1

  function Track(sector: int): int { sector / SECTORS_PER_TRACK }

  lemma WholeSlots(n: int)
    ensures (n * ROTATION_TIME) % ROTATION_TIME == 0
  {
  }

  function SeekDistance(from: int, to: int): (ticks: int)
    ensures 0 <= ticks && ticks % ROTATION_TIME == 0 && (ticks == 0 <==> Track(from) == Track(to))
    ensures 0 <= from < NUM_SECTORS && 0 <= to < NUM_SECTORS ==> ticks <= 31 * SEEK_TIME
  {
    var tracks := if Track(from) < Track(to) then Track(to) - Track(from) else Track(from) - Track(to);
    WholeSlots(tracks);
    tracks * SEEK_TIME
  }

  /** 500 ticks for each track between the two sectors, 32 sectors to a track. */
  lemma SeekIs(from: int, to: int)
    requires 0 <= from && 0 <= to
    ensures SeekDistance(from, to)
      == 500 * if from / 32 <= to / 32 then to / 32 - from / 32 else from / 32 - to / 32
  {
  }

  /**
   * Time is cut into slots of ROTATION_TIME ticks; in slot q the head passes over the
   * sectors whose number is q modulo SECTORS_PER_TRACK.
   */
  ghost predicate Passes(q: int, sector: int) {
    q % SECTORS_PER_TRACK == sector % SECTORS_PER_TRACK
  }

  /** The first slot that starts at t or later. */
  function SlotFrom(t: int): (q: int)
    ensures t <= q * ROTATION_TIME < t + ROTATION_TIME
  {
    (t + ROTATION_TIME - 1) / ROTATION_TIME
  }

  function ModuloDiff(to: int, from: int): (d: int)
    requires 0 <= to && 0 <= from
    ensures 0 <= d < SECTORS_PER_TRACK
  {
    (to % SECTORS_PER_TRACK - from % SECTORS_PER_TRACK + SECTORS_PER_TRACK) % SECTORS_PER_TRACK
  }

  /** ModuloDiff counts the slots to wait: the first slot from q on that passes the sector. */
  lemma ModuloDiffIsFirst(sector: int, q: int)
    requires 0 <= sector && 0 <= q
    ensures Passes(q + ModuloDiff(sector, q), sector)
    ensures forall p | q <= p < q + ModuloDiff(sector, q) :: !Passes(p, sector)
  {
    var a, x, y := q / SECTORS_PER_TRACK, q % SECTORS_PER_TRACK, sector % SECTORS_PER_TRACK;
    var d := if y >= x then y - x else y - x + SECTORS_PER_TRACK;
    assert ModuloDiff(sector, q) == d;
    hide ModuloDiff;
    SlotOffset(a, x, d);
    forall p | q <= p < q + d
      ensures !Passes(p, sector)
    {
      SlotOffset(a, x, p - q);
    }
  }

  lemma SlotOffset(a: int, x: int, e: int)
    requires 0 <= x < SECTORS_PER_TRACK && 0 <= e < SECTORS_PER_TRACK
    ensures (a * SECTORS_PER_TRACK + x + e) % SECTORS_PER_TRACK
      == if x + e < SECTORS_PER_TRACK then x + e else x + e - SECTORS_PER_TRACK
  {
  }

  datatype Access = Access(sector: int, writing: bool, start: int, latency: int)

  /** The sector of the last request, and with it the track the head is on. */
  function LastSector(log: seq<Access>): int {
    if log == [] then 0 else log[|log| - 1].sector
  }

  function SeekOf(log: seq<Access>, sector: int): int {
    SeekDistance(LastSector(log), sector)
  }

  /** The first slot that the head spends on its present track from beginning to end. */
  function Settled(log: seq<Access>): int {
    if log == [] then 0
    else
      var before, a := log[..|log| - 1], log[|log| - 1];
      if SeekOf(before, a.sector) == 0 then Settled(before) else SlotFrom(a.start + SeekOf(before, a.sector))
  }

  /** In slot q, over before the access ends, the head passes all of the sector, on its track and not between tracks. */
  ghost predicate Under(before: seq<Access>, a: Access, q: int) {
    && Passes(q, a.sector)
    && Settled(before + [a]) <= q && (q + 1) * ROTATION_TIME <= a.start + a.latency
  }

  /** The access waits for the sector: the first slot after the seek that passes it is the transfer. */
  ghost predicate Direct(before: seq<Access>, a: Access, q: int) {
    && Under(before, a, q)
    && a.start + SeekOf(before, a.sector) <= q * ROTATION_TIME && (q + 1) * ROTATION_TIME == a.start + a.latency
    && forall p | a.start + SeekOf(before, a.sector) <= p * ROTATION_TIME && p < q :: !Passes(p, a.sector)
  }

  /** The read finds the sector in the track buffer: it passed by since the head came to the track. */
  ghost predicate Buffered(before: seq<Access>, a: Access, q: int) {
    && !a.writing && SeekOf(before, a.sector) == 0
    && Under(before, a, q) && q < SlotFrom(a.start) && a.latency == ROTATION_TIME
  }

  ghost predicate Served(before: seq<Access>, a: Access) {
    && 0 <= a.sector < NUM_SECTORS && 0 <= a.start
    && ROTATION_TIME <= a.latency <= 31999
    && exists q :: Direct(before, a, q) || Buffered(before, a, q)
  }

  /** Requests do not overlap, and each is served by the sector passing under the head. */
  ghost predicate Run(log: seq<Access>) {
    forall i | 0 <= i < |log| ::
      Served(log[..i], log[i]) && (0 < i ==> log[i - 1].start + log[i - 1].latency <= log[i].start)
  }

  function Finished(log: seq<Access>): int {
    if log == [] then 0 else log[|log| - 1].start + log[|log| - 1].latency
  }

  lemma RunExtends(log: seq<Access>, a: Access)
    requires Run(log) && Served(log, a) && Finished(log) <= a.start
    ensures Run(log + [a])
  {
    hide Served;
    var more := log + [a];
    assert more[..|log|] == log;
    forall i | 0 <= i < |more|
      ensures Served(more[..i], more[i]) && (0 < i ==> more[i - 1].start + more[i - 1].latency <= more[i].start)
    {
      if i < |log| {
        assert more[..i] == log[..i] && more[i] == log[i];
      }
    }
  }

  lemma SettledAfter(log: seq<Access>, a: Access)
    ensures LastSector(log + [a]) == a.sector
    ensures Settled(log + [a]) ==
      if SeekOf(log, a.sector) == 0 then Settled(log) else SlotFrom(a.start + SeekOf(log, a.sector))
  {
  }

  lemma {:induction false} StartsInOrder(log: seq<Access>, i: nat, j: nat)
    requires Run(log) && i <= j < |log|
    ensures log[i].start <= log[j].start
    decreases j - i
  {
    if i < j {
      StartsInOrder(log, i, j - 1);
      assert Served(log[..j - 1], log[j - 1]);
    }
  }

  /** Every access that started since the head settled was to the track the head is on. */
  lemma {:induction false} SettledMeansStill(log: seq<Access>, j: nat)
    requires Run(log) && j < |log| && Settled(log) * ROTATION_TIME <= log[j].start
    ensures Track(log[j].sector) == Track(LastSector(log))
  {
    hide Run, Track, SeekDistance, SlotFrom, Settled;
    var n := |log| - 1;
    var before, a := log[..n], log[n];
    if j < n {
      assert log == before + [a];
      SettledAfter(before, a);
      if SeekOf(before, a.sector) == 0 {
        RunPrefix(before, a);
        SettledMeansStill(before, j);
      } else {
        StartsInOrder(log, j, n);
        assert false;
      }
    }
  }

  lemma RunPrefix(log: seq<Access>, a: Access)
    requires Run(log + [a])
    ensures Run(log)
  {
    var more := log + [a];
    forall i | 0 <= i < |log|
      ensures Served(log[..i], log[i]) && (0 < i ==> log[i - 1].start + log[i - 1].latency <= log[i].start)
    {
      assert more[..i] == log[..i] && more[i] == log[i];
      assert Served(more[..i], more[i]);
    }
  }

  lemma DirectServes(log: seq<Access>, a: Access, q: int)
    requires 0 <= LastSector(log) < NUM_SECTORS && 0 <= a.sector < NUM_SECTORS
    requires 0 <= a.start && 0 <= Settled(log) && Settled(log) * ROTATION_TIME <= a.start
    requires var free := SlotFrom(a.start + SeekOf(log, a.sector));
      q == free + ModuloDiff(a.sector, free) && a.start + a.latency == (q + 1) * ROTATION_TIME
    ensures Served(log, a)
  {
    hide Passes, ModuloDiff, Settled, SeekDistance, SlotFrom, Under, Buffered;
    DirectUnder(log, a, q);
    forall p | a.start + SeekOf(log, a.sector) <= p * ROTATION_TIME && p < q
      ensures !Passes(p, a.sector)
    {
      DirectIsFirst(a.sector, a.start + SeekOf(log, a.sector), p);
    }
    assert Direct(log, a, q);
    hide Direct;
  }

  lemma DirectUnder(log: seq<Access>, a: Access, q: int)
    requires 0 <= LastSector(log) < NUM_SECTORS && 0 <= a.sector < NUM_SECTORS
    requires 0 <= a.start && 0 <= Settled(log) && Settled(log) * ROTATION_TIME <= a.start
    requires var free := SlotFrom(a.start + SeekOf(log, a.sector));
      q == free + ModuloDiff(a.sector, free) && a.start + a.latency == (q + 1) * ROTATION_TIME
    ensures Under(log, a, q) && ROTATION_TIME <= a.latency <= 31999
    ensures a.start + SeekOf(log, a.sector) <= q * ROTATION_TIME
  {
    hide Passes, ModuloDiff, Settled, SlotFrom, SeekDistance;
    var seek, free := SeekOf(log, a.sector), SlotFrom(a.start + SeekOf(log, a.sector));
    ModuloDiffIsFirst(a.sector, free);
    SettledAfter(log, a);
    DirectTimes(a.start, seek, free, ModuloDiff(a.sector, free), Settled(log), a.latency);
  }

  /** From the first slot at or after time t the sector does not pass before ModuloDiff slots are over. */
  lemma DirectIsFirst(sector: int, t: int, p: int)
    requires 0 <= sector && 0 <= t
    requires t <= p * ROTATION_TIME && p < SlotFrom(t) + ModuloDiff(sector, SlotFrom(t))
    ensures !Passes(p, sector)
  {
    hide Passes, ModuloDiff;
    ModuloDiffIsFirst(sector, SlotFrom(t));
    SlotAtLeast(p, SlotFrom(t), t);
  }

  lemma SlotAtLeast(p: int, free: int, t: int)
    requires t <= p * ROTATION_TIME && free * ROTATION_TIME < t + ROTATION_TIME
    ensures free <= p
  {
  }

  lemma DirectTimes(start: int, seek: int, free: int, wait: int, settled: int, latency: int)
    requires 0 <= start && 0 <= seek <= 31 * SEEK_TIME && 0 <= wait < SECTORS_PER_TRACK
    requires start + seek <= free * ROTATION_TIME < start + seek + ROTATION_TIME
    requires settled * ROTATION_TIME <= start && start + latency == (free + wait + 1) * ROTATION_TIME
    ensures settled <= free && ROTATION_TIME <= latency <= 31999 && start + seek <= (free + wait) * ROTATION_TIME
  {
  }

  lemma BufferServes(log: seq<Access>, a: Access)
    requires 0 <= LastSector(log) < NUM_SECTORS && 0 <= a.sector < NUM_SECTORS
    requires 0 <= a.start && 0 <= Settled(log) && Settled(log) * ROTATION_TIME <= a.start
    requires !a.writing && SeekOf(log, a.sector) == 0 && a.latency == ROTATION_TIME
    requires ModuloDiff(a.sector, Settled(log)) < SlotFrom(a.start) - Settled(log)
    ensures Served(log, a)
  {
    hide Passes, ModuloDiff, Settled, SeekDistance, SlotFrom, Direct;
    var q := Settled(log) + ModuloDiff(a.sector, Settled(log));
    ModuloDiffIsFirst(a.sector, Settled(log));
    SettledAfter(log, a);
    SlotBefore(q, a.start);
    assert Under(log, a, q);
    hide Under;
    assert Buffered(log, a, q);
    hide Buffered;
  }

  lemma SlotBefore(q: int, t: int)
    requires q < SlotFrom(t)
    ensures q * ROTATION_TIME <= t
  {
  }

  // ---- the latency in plain terms ----

  /** Slot q began after the track buffer was started and before now, and the sector passed in it. */
  ghost predicate InBuffer(sector: int, bufferInit: int, now: int, q: int) {
    bufferInit <= 500 * q < now && q % 32 == sector % 32
  }

  /**
   * How long a request takes: one slot if the sector is in the track buffer, otherwise the
   * head moves 500 ticks for each track and the transfer fills the first slot of the sector after that.
   */
  ghost predicate Takes(lastSector: int, bufferInit: int, now: int, sector: int, writing: bool, ticks: int) {
    if !writing && sector / 32 == lastSector / 32 && exists q :: InBuffer(sector, bufferInit, now, q) then ticks == 500
    else
      var there := now + 500 * if lastSector / 32 <= sector / 32 then sector / 32 - lastSector / 32
                               else lastSector / 32 - sector / 32;
      var transfer := now + ticks - 500;
      there <= transfer < there + 16000 && transfer % 500 == 0 && transfer / 500 % 32 == sector % 32
  }

  lemma BufferHolds(sector: int, settled: int, now: int)
    requires 0 <= sector && 0 <= settled
    ensures (exists q :: InBuffer(sector, settled * 500, now, q))
      <==> ModuloDiff(sector, settled) < SlotFrom(now) - settled
  {
    hide ModuloDiff;
    var first := settled + ModuloDiff(sector, settled);
    ModuloDiffIsFirst(sector, settled);
    if first < SlotFrom(now) {
      assert InBuffer(sector, settled * 500, now, first);
    }
    forall q | InBuffer(sector, settled * 500, now, q)
      ensures first <= q < SlotFrom(now)
    {
      assert settled <= q && Passes(q, sector);
    }
  }

  lemma DirectIs(sector: int, there: int)
    requires 0 <= sector && 0 <= there
    ensures var transfer := (SlotFrom(there) + ModuloDiff(sector, SlotFrom(there))) * 500;
      there <= transfer < there + 16000 && transfer % 500 == 0 && transfer / 500 % 32 == sector % 32
  {
    hide ModuloDiff, SlotFrom;
    ModuloDiffIsFirst(sector, SlotFrom(there));
    WholeSlots(SlotFrom(there) + ModuloDiff(sector, SlotFrom(there)));
  }

  class Disk {
    var active: bool
    var lastSector: int
    var bufferInit: int
    const interrupt: Interrupt
    const stats: Statistics
    ghost var log: seq<Access>

    /**
     * bufferInit is the start of the slot in which the head settled on its track; it
     * is never later than the completion of the request in progress, hence never
     * later than the clock when a new request may come.
     */
    ghost predicate Valid()
      reads this, stats
    {
      && stats == interrupt.stats
      && lastSector == LastSector(log) && 0 <= lastSector < NUM_SECTORS
      && bufferInit == Settled(log) * ROTATION_TIME
      && 0 <= bufferInit <= Finished(log)
      && Run(log)
      && 0 <= stats.totalTicks
      && (!active ==> Finished(log) <= stats.totalTicks)
    }

    constructor (interrupt: Interrupt)
      requires 0 <= interrupt.stats.totalTicks
      ensures Valid() && !active && log == [] && this.interrupt == interrupt
    {
      lastSector, bufferInit, active, log := 0, 0, false, [];
      this.interrupt, stats := interrupt, interrupt.stats;
    }

    method TimeToSeek(newSector: int) returns (seek: int, rotation: int)
      requires 0 <= newSector < NUM_SECTORS && Valid()
      ensures seek == SeekOf(log, newSector)
      ensures seek == 500 *
        if lastSector / 32 <= newSector / 32 then newSector / 32 - lastSector / 32 else lastSector / 32 - newSector / 32
      ensures stats.totalTicks + seek + rotation == SlotFrom(stats.totalTicks + seek) * ROTATION_TIME
      ensures 0 <= rotation < 500 && (stats.totalTicks + seek + rotation) % 500 == 0
    {
      hide Run, Settled, SlotFrom, SeekDistance;
      SeekIs(lastSector, newSector);
      seek := HeadTravel(lastSector, newSector);
      rotation := ToNextSlot(stats.totalTicks + seek);
    }

    /** The time the head takes from one track to another. */
    static method HeadTravel(oldSector: int, newSector: int) returns (seek: int)
      requires 0 <= oldSector < NUM_SECTORS && 0 <= newSector < NUM_SECTORS
      ensures seek == SeekDistance(oldSector, newSector)
    {
      var newTrack, oldTrack := newSector / SECTORS_PER_TRACK, oldSector / SECTORS_PER_TRACK;
      seek := (if newTrack < oldTrack then oldTrack - newTrack else newTrack - oldTrack) * SEEK_TIME;
    }

    /** How long until the head is at a slot boundary. */
    static method ToNextSlot(t: int) returns (rotation: int)
      requires 0 <= t
      ensures t + rotation == SlotFrom(t) * ROTATION_TIME
      ensures 0 <= rotation < 500 && (t + rotation) % 500 == 0
    {
      var over := t % ROTATION_TIME;
      rotation := 0;
      if over > 0 {
        rotation := ROTATION_TIME - over;
      }
      RoundedUp(t, rotation);
    }

    static lemma RoundedUp(t: int, rotation: int)
      requires 0 <= t && rotation == if t % ROTATION_TIME == 0 then 0 else ROTATION_TIME - t % ROTATION_TIME
      ensures t + rotation == SlotFrom(t) * ROTATION_TIME
      ensures 0 <= rotation < 500 && (t + rotation) % 500 == 0
    {
      WholeSlots(SlotFrom(t));
    }

    method ComputeLatency(newSector: int, writing: bool) returns (ticks: int)
      requires Valid() && !active && 0 <= newSector < NUM_SECTORS
      ensures Served(log, Access(newSector, writing, stats.totalTicks, ticks))
      ensures Takes(lastSector, bufferInit, stats.totalTicks, newSector, writing, ticks)
    {
      hide Run, Served, Settled, Passes, SlotFrom, SeekDistance, ModuloDiff, InBuffer;
      var seek, rotation := TimeToSeek(newSector);
      var timeAfter := stats.totalTicks + seek + rotation;
      ghost var settled, free := Settled(log), SlotFrom(stats.totalTicks + seek);
      BufferHolds(newSector, settled, stats.totalTicks);
      if !writing && seek == 0
        && (timeAfter - bufferInit) / ROTATION_TIME > ModuloDiff(newSector, bufferInit / ROTATION_TIME)
      {
        BufferServes(log, Access(newSector, writing, stats.totalTicks, ROTATION_TIME));
        return ROTATION_TIME;
      }
      rotation := rotation + ModuloDiff(newSector, timeAfter / ROTATION_TIME) * ROTATION_TIME;
      ticks := seek + rotation + ROTATION_TIME;
      DirectServes(log, Access(newSector, writing, stats.totalTicks, ticks), free + ModuloDiff(newSector, free));
      DirectIs(newSector, stats.totalTicks + seek);
    }

    method UpdateLast(newSector: int, ghost ticks: int, ghost writing: bool)
      requires Valid() && Finished(log) <= stats.totalTicks && 0 <= newSector < NUM_SECTORS
      requires Served(log, Access(newSector, writing, stats.totalTicks, ticks))
      modifies this`bufferInit, this`lastSector, this`log
      ensures log == old(log) + [Access(newSector, writing, stats.totalTicks, ticks)]
      ensures lastSector == LastSector(log) == newSector && bufferInit == Settled(log) * ROTATION_TIME
      ensures 0 <= bufferInit
      ensures bufferInit <= Finished(log) && Run(log)
      ensures var from, to := old(lastSector) / 32, newSector / 32;
        if from == to then bufferInit == old(bufferInit)
        else
          var there := stats.totalTicks + 500 * if from <= to then to - from else from - to;
          there <= bufferInit < there + 500 && bufferInit % 500 == 0
    {
      hide Run, Settled, SlotFrom, SeekDistance, Served;
      ghost var a := Access(newSector, writing, stats.totalTicks, ticks);
      RunExtends(log, a);
      SettledAfter(log, a);
      SettledInTime(log, a);
      var seek, rotate := TimeToSeek(newSector);
      if seek != 0 {
        bufferInit := stats.totalTicks + seek + rotate;
      }
      lastSector := newSector;
      log := log + [a];
    }

    static lemma SettledInTime(log: seq<Access>, a: Access)
      requires Served(log, a)
      ensures Settled(log + [a]) * ROTATION_TIME <= a.start + a.latency
    {
    }

    method ReadRequest(sectorNumber: int) returns (ticks: int)
      requires Valid() && interrupt.Valid() && !active && 0 <= sectorNumber < NUM_SECTORS
      modifies this, interrupt`scheduled, interrupt.pending, interrupt.pending.spine
      ensures Valid() && interrupt.Valid() && active && ROTATION_TIME <= ticks <= 31999
      ensures interrupt.pending.SameOrNew()
      ensures log == old(log) + [Access(sectorNumber, false, stats.totalTicks, ticks)]
      ensures Takes(old(lastSector), old(bufferInit), stats.totalTicks, sectorNumber, false, ticks)
      ensures interrupt.scheduled
        == old(interrupt.scheduled) + multiset{PendingInterrupt(DISK_DONE, 0, Finished(log), DiskInt)}
    {
      hide Run, Settled, SeekDistance, Sound, DueCount, Takes;
      ticks := ComputeLatency(sectorNumber, false);
      active := true;
      UpdateLast(sectorNumber, ticks, false);
      interrupt.Schedule(DISK_DONE, 0, ticks, DiskInt);
    }

    method WriteRequest(sectorNumber: int) returns (ticks: int)
      requires Valid() && interrupt.Valid() && !active && 0 <= sectorNumber < NUM_SECTORS
      modifies this, interrupt`scheduled, interrupt.pending, interrupt.pending.spine
      ensures Valid() && interrupt.Valid() && active && ROTATION_TIME <= ticks <= 31999
      ensures interrupt.pending.SameOrNew()
      ensures log == old(log) + [Access(sectorNumber, true, stats.totalTicks, ticks)]
      ensures Takes(old(lastSector), old(bufferInit), stats.totalTicks, sectorNumber, true, ticks)
      ensures interrupt.scheduled
        == old(interrupt.scheduled) + multiset{PendingInterrupt(DISK_DONE, 0, Finished(log), DiskInt)}
    {
      hide Run, Settled, SeekDistance, Sound, DueCount, Takes;
      ticks := ComputeLatency(sectorNumber, true);
      active := true;
      UpdateLast(sectorNumber, ticks, true);
      interrupt.Schedule(DISK_DONE, 0, ticks, DiskInt);
    }

    /** The interrupt that ends the last request. */
    ghost function Completion(): PendingInterrupt
      reads this
    {
      PendingInterrupt(DISK_DONE, 0, Finished(log), DiskInt)
    }

    ghost predicate Completed()
      reads this, interrupt
    {
      exists f :: f in interrupt.log && f.what == Completion()
    }

    /** Called when the completion has fired; since nothing fires early, the request's time is over. */
    method HandleInterrupt()
      requires Valid() && interrupt.Valid() && Completed()
      modifies this`active
      ensures Valid() && !active && Finished(log) <= stats.totalTicks
    {
      assert NoneEarly(interrupt.log, stats.totalTicks);
      active := false;
    }

    /** The disk's invariant outlives a tick of the clock. */
    method Tick()
      requires Valid() && interrupt.Valid() && !interrupt.inHandler
      modifies interrupt, interrupt.pending, interrupt.pending.spine, stats
      ensures Valid() && interrupt.Valid() && !interrupt.inHandler && interrupt.status == old(interrupt.status)
      ensures interrupt.pending.SameOrNew()
      ensures old(stats.totalTicks) < stats.totalTicks && old(interrupt.scheduled) <= interrupt.scheduled
      ensures interrupt.status != IdleMode ==> NothingDue(interrupt.pending.contents, stats.totalTicks)
    {
      hide Run, Settled, Sound, NothingDue;
      var preempted := interrupt.OneTick();
    }

    /** And turning interrupts on or off. */
    method SetLevel(now: IntStatus) returns (before: IntStatus)
      requires Valid() && interrupt.Valid() && (now == IntOff || !interrupt.inHandler)
      modifies interrupt, interrupt.pending, interrupt.pending.spine, stats
      ensures Valid() && interrupt.Valid()
    {
      hide Run, Settled, Sound, NothingDue;
      before := interrupt.SetLevel(now);
    }

    /** And idling. */
    method Idle() returns (halted: bool)
      requires Valid() && interrupt.Valid() && interrupt.level == IntOff && !interrupt.inHandler
      modifies interrupt, interrupt.pending, interrupt.pending.spine, stats
      ensures Valid() && interrupt.Valid()
    {
      hide Run, Settled, Sound, NothingDue;
      halted := interrupt.Idle();
    }

    /**
     * One request from its start to its end: the completion does fire, not early, and
     * leaves the disk ready for the next request.
     */
    method Serve(sectorNumber: int, writing: bool)
      requires Valid() && interrupt.Valid() && !active && 0 <= sectorNumber < NUM_SECTORS
      requires !interrupt.inHandler && interrupt.status != IdleMode
      modifies this, interrupt, interrupt.pending, interrupt.pending.spine, stats
      ensures Valid() && interrupt.Valid() && !active && !interrupt.inHandler
      ensures interrupt.status == old(interrupt.status)
      ensures interrupt.pending.SameOrNew()
      ensures |log| == |old(log)| + 1 && log[..|old(log)|] == old(log)
      ensures log[|old(log)|].sector == sectorNumber && log[|old(log)|].writing == writing
      ensures log[|old(log)|].start == old(stats.totalTicks) && Finished(log) <= stats.totalTicks
    {
      hide Run, Settled, Sound, NothingDue, DueCount;
      var ticks;
      if writing {
        ticks := WriteRequest(sectorNumber);
      } else {
        ticks := ReadRequest(sectorNumber);
      }
      var finish := stats.totalTicks + ticks;
      ghost var served, waiting := log, Completion();
      assert finish == Finished(log);
      while stats.totalTicks < finish
        invariant Valid() && interrupt.Valid() && log == served && Finished(log) == finish
        invariant !interrupt.inHandler && interrupt.status == old(interrupt.status)
        invariant interrupt.pending.SameOrNew()
        invariant waiting in interrupt.scheduled
        invariant stats.totalTicks < finish || NothingDue(interrupt.pending.contents, stats.totalTicks)
        decreases finish - stats.totalTicks
      {
        Tick();
      }
      ScheduledHasFired(interrupt.pending.contents, interrupt.log, interrupt.scheduled, stats.totalTicks, waiting);
      HandleInterrupt();
    }
  }
}
