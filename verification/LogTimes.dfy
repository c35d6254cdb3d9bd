/**
 * When segments are closed, and since when the active one has been open: the rotation rule told by what
 * a run leaves in the directory and when its events happened, not by the writer's fields.
 */
module LogTimes {
  import opened Segments
  import opened Rotation
  import opened LogInvariant
  import opened LogRuns

  /** A closed body has appeared. */
  ghost predicate NewClosed(disk: Dir, disk': Dir) {
    exists name :: name in disk' && name !in disk && IsClosedSegmentName(name)
  }

  /** How many bytes the active file holds; none when it is missing. */
  function ActiveBytes(disk: Dir): nat {
    if ACTIVE_SEGMENT_NAME in disk then |disk[ACTIVE_SEGMENT_NAME]| else 0
  }

  /** The bytes a record takes: one more when it lacks its newline. */
  function StoredBytes(record: Bytes): nat
    requires record != []
  {
    if record[|record| - 1] == 10 then |record| else |record| + 1
  }

  /** The segment is full: adding the record would pass the size limit, or it has been open for the age limit. */
  predicate Full(cfg: Config, bytes: nat, next: nat, age: int) {
    (cfg.maxSizeBytes > 0 && bytes + next > cfg.maxSizeBytes) || (cfg.maxAge > 0 && age >= cfg.maxAge)
  }

  /** The second clock reading of a call that may rotate, the one taken when the next segment is opened. */
  function ReopenedAt(e: Event, since: Instant): Instant {
    match e
    case WriteEvent(_, _, _, reopenedAt, _) => reopenedAt
    case RotateEvent(_, reopenedAt, _) => reopenedAt
    case CloseEvent(_, reopenedAt, _) => reopenedAt
    case _ => since
  }

  function ClosedAt(e: Event, since: Instant): Instant {
    match e
    case WriteEvent(_, _, closedAt, _, _) => closedAt
    case RotateEvent(closedAt, _, _) => closedAt
    case CloseEvent(closedAt, _, _) => closedAt
    case _ => since
  }

  /** Since when the active segment has been open after n events: the last opening, or the last closing of a segment. */
  ghost function OpenedSince(states: seq<Sys>, events: seq<Event>, n: nat): Instant
    requires n <= |events| < |states|
  {
    if n == 0 then Instant(0, "20260101T000000Z")
    else
      var before := OpenedSince(states, events, n - 1);
      if events[n - 1].OpenEvent? then events[n - 1].now
      else if NewClosed(states[n - 1].disk, states[n].disk) then ReopenedAt(events[n - 1], before)
      else before
  }

  // ---- one rotation ----

  lemma NextNameIsClosed(lib: Lib, disk: Dir, log: Log, stamp: Stamp)
    requires Holds(lib, disk, log) && |log.closed| < 999_999
    ensures IsClosedSegmentName(NextName(log.closed, stamp)) && NextName(log.closed, stamp) !in disk
  {
    hide FormatSegmentName, ManifestFits, Concat, ManifestNameFor, IsClosedSegmentName;
    var name := NextName(log.closed, stamp);
    ClosedName(|log.closed| + 1, stamp);
    if name in disk {
      var i :| 0 <= i < |log.closed| && name == SegName(log.closed, i);
      NextNameIsNew(log.closed, stamp, i);
    }
  }

  /** The clock of an effect: the next segment's if a body was closed, and else as it was. */
  ghost predicate Clocked(disk: Dir, mem: Mem, e: Effect, reopenedAt: Instant) {
    e.mem.isOpen ==> e.mem.openedAt == if NewClosed(disk, e.disk) then reopenedAt else mem.openedAt
  }

  /** The manifest of a body closed by the effect says since when the segment was open, and when it was closed. */
  ghost predicate Dated(lib: Lib, disk: Dir, since: Instant, closedAt: Instant, disk': Dir) {
    forall name | name in disk' && name !in disk && IsClosedSegmentName(name) ::
      && ManifestNameFor(name) in disk'
      && var m := lib.decode(disk'[ManifestNameFor(name)]);
        m.Some? && m.value.createdAt == since && m.value.closedAt == closedAt
  }

  lemma ReopenQuiet(lib: Lib, disk: Dir, mem: Mem, now: Instant, log: Log)
    requires Holds(lib, disk, log) && log.active != []
    ensures var e := ReopenActive(disk, mem, now);
      e.disk == disk && e.mem.openedAt == mem.openedAt
  {
    CountsRecords(log.active);
  }

  lemma PublishClocked(lib: Lib, disk: Dir, mem: Mem, man: SegmentManifest, closedAt: Instant, reopenedAt: Instant, stop: Stop, log: Log)
    requires lib.Sound() && Holds(lib, disk, log) && |log.closed| < 999_999
    requires ACTIVE_SEGMENT_NAME in disk && log.active != [] && !mem.isOpen
    requires man.segment == NextName(log.closed, closedAt.stamp) && man.createdAt == mem.openedAt && man.closedAt == closedAt
    requires ManifestNameFor(man.segment) in disk && disk[ManifestNameFor(man.segment)] == lib.encode(man)
    ensures var e := PublishSegment(disk, mem, man, closedAt, reopenedAt, stop);
      && Clocked(disk, mem, e, reopenedAt) && Dated(lib, disk, mem.openedAt, closedAt, e.disk)
      && (e.outcome.Done? ==> NewClosed(disk, e.disk))
      && (stop.Never? ==> e.outcome.Done?)
  {
    hide Holds, FormatSegmentName, ManifestNameFor, IsClosedSegmentName, IsManifestName, CountRecords;
    var e := PublishSegment(disk, mem, man, closedAt, reopenedAt, stop);
    NextNameIsClosed(lib, disk, log, closedAt.stamp);
    NextManifestIsOutside(log.closed, closedAt.stamp);
    ActiveIsNotClosed();
    if !StopsAt(stop, RotateAfterManifest) && !StopsAt(stop, RotateBeforeSegmentRename) {
      if stop.RenameFails? {
        ManifestWriteKeeps(lib, disk, log, closedAt.stamp, []);
        ReopenQuiet(lib, disk - {ManifestNameFor(man.segment)}, mem, reopenedAt, log);
      } else {
        assert man.segment in e.disk;
      }
    }
  }

  lemma RotateClocked(lib: Lib, disk: Dir, mem: Mem, closedAt: Instant, reopenedAt: Instant, stop: Stop, log: Log)
    requires lib.Sound() && Holds(lib, disk, log) && Agrees(lib, disk, mem, log)
    requires mem.isOpen && mem.size > 0 ==> mem.nextSeq <= 999_999
    requires stop.Crash? ==> IsRandom(stop.random)
    ensures var e := Rotate(lib, disk, mem, closedAt, reopenedAt, stop);
      && Clocked(disk, mem, e, reopenedAt) && Dated(lib, disk, mem.openedAt, closedAt, e.disk)
      && (e.outcome.Done? && mem.isOpen ==> (NewClosed(disk, e.disk) <==> mem.size > 0))
      && (stop.Never? && mem.isOpen ==> e.outcome.Done?)
  {
    hide Holds, FormatSegmentName, ManifestNameFor, IsClosedSegmentName, IsManifestName, CountRecords, TempName, NewClosed;
    if mem.isOpen && mem.size != 0 && !StopsAt(stop, RotateAfterCloseActive)
       && !StopsAt(stop, RotateAfterHash) && !StopsAt(stop, RotateBeforeManifest) {
      RotateWrites(lib, disk, mem, closedAt, reopenedAt, stop, log);
    } else {
      Unchanged(lib, disk, mem.openedAt, closedAt);
    }
  }

  lemma Unchanged(lib: Lib, disk: Dir, since: Instant, closedAt: Instant)
    ensures !NewClosed(disk, disk) && Dated(lib, disk, since, closedAt, disk)
  {
  }

  lemma RotateWrites(lib: Lib, disk: Dir, mem: Mem, closedAt: Instant, reopenedAt: Instant, stop: Stop, log: Log)
    requires lib.Sound() && Holds(lib, disk, log) && Agrees(lib, disk, mem, log)
    requires mem.isOpen && mem.size > 0 && mem.nextSeq <= 999_999
    requires stop.Crash? ==> IsRandom(stop.random)
    requires !StopsAt(stop, RotateAfterCloseActive) && !StopsAt(stop, RotateAfterHash) && !StopsAt(stop, RotateBeforeManifest)
    ensures var e := Rotate(lib, disk, mem, closedAt, reopenedAt, stop);
      && Clocked(disk, mem, e, reopenedAt) && Dated(lib, disk, mem.openedAt, closedAt, e.disk)
      && (e.outcome.Done? ==> NewClosed(disk, e.disk))
      && (stop.Never? ==> e.outcome.Done?)
  {
    hide Holds, FormatSegmentName, ManifestNameFor, IsClosedSegmentName, IsManifestName, CountRecords, TempName, PublishSegment;
    assert log.active != [] by { assert Concat([]) == []; }
    var man := NewManifest(lib, disk, mem, closedAt);
    var manName := ManifestNameFor(man.segment);
    NextManifestIsOutside(log.closed, closedAt.stamp);
    assert man.segment == NextName(log.closed, closedAt.stamp);
    var data := lib.encode(man);
    var closed := mem.(isOpen := false);
    if stop.Crash? && InAtomicWrite(stop.stage) {
      TempIsInert(manName, stop.random);
    } else if stop.Fault? && InAtomicWrite(stop.stage) {
      ReopenQuiet(lib, disk, closed, reopenedAt, log);
    } else {
      ManifestWriteKeeps(lib, disk, log, closedAt.stamp, data);
      PublishClocked(lib, disk[manName := data], closed, man, closedAt, reopenedAt, stop, log);
    }
  }

  // ---- one write ----

  /** Appending closes nothing. */
  lemma AppendClocked(disk: Dir, mem: Mem, payload: Bytes)
    ensures var e := Append(disk, mem, payload);
      !NewClosed(disk, e.disk) && e.mem.openedAt == mem.openedAt && e.mem.isOpen == mem.isOpen
    ensures forall d: Dir :: NewClosed(d, disk) <==> NewClosed(d, Append(disk, mem, payload).disk)
  {
  }

  /** Something is in the active file, and the record to come finds the segment full. */
  predicate Due(cfg: Config, disk: Dir, record: Bytes, age: int)
    requires record != []
  {
    ActiveBytes(disk) > 0 && Full(cfg, ActiveBytes(disk), StoredBytes(record), age)
  }

  /**
   * A write that succeeds closes a segment exactly when the active file holds something and the segment
   * is full, by its size or by how long the writer has had it open. A write that nothing stops succeeds.
   */
  lemma WriteClosesExact(lib: Lib, disk: Dir, mem: Mem, record: Bytes, now: Instant, closedAt: Instant, reopenedAt: Instant, stop: Stop, log: Log)
    requires lib.Sound() && Holds(lib, disk, log) && Agrees(lib, disk, mem, log) && mem.isOpen && record != []
    requires Due(mem.cfg, disk, record, now.nanos - mem.openedAt.nanos) ==> mem.nextSeq <= 999_999
    requires stop.Crash? ==> IsRandom(stop.random)
    ensures var e := WriteRecord(lib, disk, mem, record, now, closedAt, reopenedAt, stop);
      && (e.outcome.Done? ==>
           (NewClosed(disk, e.disk) <==> Due(mem.cfg, disk, record, now.nanos - mem.openedAt.nanos)))
      && (stop.Never? ==> e.outcome.Done?)
      && Clocked(disk, mem, e, reopenedAt) && Dated(lib, disk, mem.openedAt, closedAt, e.disk)
  {
    hide Holds, Rotate, Append, NewClosed, IsClosedSegmentName, ManifestNameFor;
    var payload := Payload(record);
    Unchanged(lib, disk, mem.openedAt, closedAt);
    assert ActiveBytes(disk) == mem.size by { ActiveHeld(lib, disk, mem, log); }
    if MustRotate(mem, |payload|, now) {
      var r := Rotate(lib, disk, mem, closedAt, reopenedAt, stop);
      RotateClocked(lib, disk, mem, closedAt, reopenedAt, stop, log);
      if r.outcome.Done? {
        AppendClocked(r.disk, r.mem, payload);
        AppendCfg(r.disk, r.mem, payload);
        AppendDates(lib, disk, mem.openedAt, closedAt, r.disk, r.mem, payload);
      }
    } else {
      AppendClocked(disk, mem, payload);
      AppendCfg(disk, mem, payload);
      AppendDates(lib, disk, mem.openedAt, closedAt, disk, mem, payload);
    }
  }

  lemma ActiveHeld(lib: Lib, disk: Dir, mem: Mem, log: Log)
    requires Holds(lib, disk, log) && Agrees(lib, disk, mem, log) && mem.isOpen
    ensures ActiveBytes(disk) == mem.size
  {
  }

  lemma AppendDates(lib: Lib, disk: Dir, since: Instant, closedAt: Instant, disk': Dir, mem: Mem, payload: Bytes)
    requires Dated(lib, disk, since, closedAt, disk')
    ensures Dated(lib, disk, since, closedAt, Append(disk', mem, payload).disk)
  {
    hide IsClosedSegmentName, ManifestNameFor;
    ActiveIsNotClosed();
    forall name | name in disk' && name !in disk && IsClosedSegmentName(name) ensures ManifestNameFor(name) != ACTIVE_SEGMENT_NAME {
      ClosedNameEnds(name);
      ManifestLeadsBack(name);
    }
  }

  // ---- closing ----

  /**
   * A writer that survives Close is closed. A Close that succeeds has closed a segment exactly when an
   * open writer's file held something, and one that nothing stops succeeds.
   */
  lemma CloseExact(lib: Lib, disk: Dir, mem: Mem, closedAt: Instant, reopenedAt: Instant, stop: Stop, log: Log)
    requires lib.Sound() && Holds(lib, disk, log) && Agrees(lib, disk, mem, log)
    requires mem.isOpen && mem.size > 0 ==> mem.nextSeq <= 999_999
    requires stop.Crash? ==> IsRandom(stop.random)
    ensures var e := Close(lib, disk, mem, closedAt, reopenedAt, stop);
      && (!e.outcome.Crashed? ==> !e.mem.isOpen)
      && (e.outcome.Done? ==> (NewClosed(disk, e.disk) <==> mem.isOpen && ActiveBytes(disk) > 0))
      && (stop.Never? ==> e.outcome.Done?)
  {
    hide Holds, Rotate, NewClosed;
    Unchanged(lib, disk, mem.openedAt, closedAt);
    if mem.isOpen {
      ActiveHeld(lib, disk, mem, log);
      RotateClocked(lib, disk, mem, closedAt, reopenedAt, stop, log);
    }
  }

  /** A closed writer refuses to write and to rotate, and closing it again does nothing. */
  lemma ClosedRefuses(lib: Lib, disk: Dir, mem: Mem, record: Bytes, now: Instant, closedAt: Instant, reopenedAt: Instant, stop: Stop)
    requires !mem.isOpen
    ensures WriteRecord(lib, disk, mem, record, now, closedAt, reopenedAt, stop) == Effect(disk, mem, Failed)
    ensures Rotate(lib, disk, mem, closedAt, reopenedAt, stop) == Effect(disk, mem, Failed)
    ensures Close(lib, disk, mem, closedAt, reopenedAt, stop) == Effect(disk, mem, Done)
  {
  }

  // ---- runs ----

  /** The configuration of the last writer opened. */
  function LastConfig(events: seq<Event>, n: nat): Config
    requires n <= |events|
  {
    if n == 0 then Config(0, 0)
    else if events[n - 1].OpenEvent? then events[n - 1].cfg
    else LastConfig(events, n - 1)
  }

  /** What one event does to the writer's clock and to the dates in the directory. */
  ghost predicate KeepsTime(lib: Lib, s: Sys, e: Event, s': Sys) {
    && (s'.proc.Some? && s'.proc.value.isOpen ==>
         if e.OpenEvent? then s'.proc.value.openedAt == e.now
         else
           && s.proc.Some? && s.proc.value.isOpen
           && s'.proc.value.openedAt
              == if NewClosed(s.disk, s'.disk) then ReopenedAt(e, s.proc.value.openedAt) else s.proc.value.openedAt)
    && (NewClosed(s.disk, s'.disk) ==> s.proc.Some? && s.proc.value.isOpen)
    && (s.proc.Some? ==> Dated(lib, s.disk, s.proc.value.openedAt, ClosedAt(e, s.proc.value.openedAt), s'.disk))
    && (s'.proc.Some? && !e.OpenEvent? ==> s.proc.Some? && s'.proc.value.cfg == s.proc.value.cfg)
    && (s'.proc.Some? && e.OpenEvent? ==> s'.proc.value.cfg == e.cfg)
  }

  /** Creating an empty active file closes nothing. */
  lemma OpenQuiet(disk: Dir)
    ensures !NewClosed(disk, WithActive(disk))
  {
    ActiveIsNotClosed();
  }

  /** What holds of the state before an event of a live writer. */
  lemma GoodMeans(lib: Lib, s: Sys, log: Log)
    requires Good(lib, s, log) && s.proc.Some?
    ensures Holds(lib, s.disk, log) && Agrees(lib, s.disk, s.proc.value, log)
  {
  }

  lemma RotateTimes(lib: Lib, s: Sys, e: Event, s': Sys, log: Log)
    requires lib.Sound() && Good(lib, s, log) && HasRoom(s, e) && Step(lib, s, e, s') && e.RotateEvent?
    ensures KeepsTime(lib, s, e, s')
  {
    hide Holds, Agrees, Rotate, NewClosed, Dated, Good;
    var mem := s.proc.value;
    var after := StepKeeps(lib, s, e, s', log);
    Unchanged(lib, s.disk, mem.openedAt, e.closedAt);
    GoodMeans(lib, s, log);
    if mem.isOpen {
      RotateClocked(lib, s.disk, mem, e.closedAt, e.reopenedAt, e.stop, log);
    } else {
      ClosedWriterIdle(lib, s.disk, mem, e.closedAt, e.reopenedAt, e.stop);
    }
  }

  lemma CloseTimes(lib: Lib, s: Sys, e: Event, s': Sys, log: Log)
    requires lib.Sound() && Good(lib, s, log) && HasRoom(s, e) && Step(lib, s, e, s') && e.CloseEvent?
    ensures KeepsTime(lib, s, e, s')
  {
    hide Holds, Agrees, Rotate, NewClosed, Dated, Good;
    var mem := s.proc.value;
    var after := StepKeeps(lib, s, e, s', log);
    Unchanged(lib, s.disk, mem.openedAt, e.closedAt);
    GoodMeans(lib, s, log);
    if mem.isOpen {
      RotateClocked(lib, s.disk, mem, e.closedAt, e.reopenedAt, e.stop, log);
    }
  }

  lemma WriteTimes(lib: Lib, s: Sys, e: Event, s': Sys, log: Log)
    requires lib.Sound() && Good(lib, s, log) && HasRoom(s, e) && Step(lib, s, e, s') && e.WriteEvent?
    ensures KeepsTime(lib, s, e, s')
  {
    hide Holds, Agrees, NewClosed, Dated, Good, Clocked;
    var mem := s.proc.value;
    var after := StepKeeps(lib, s, e, s', log);
    Unchanged(lib, s.disk, mem.openedAt, e.closedAt);
    GoodMeans(lib, s, log);
    if mem.isOpen && e.record != [] {
      WriteHasRoom(lib, s, e, log);
      hide WriteRecord;
      WriteClosesExact(lib, s.disk, mem, e.record, e.now, e.closedAt, e.reopenedAt, e.stop, log);
      ClockedMeans(s.disk, mem, WriteRecord(lib, s.disk, mem, e.record, e.now, e.closedAt, e.reopenedAt, e.stop), e.reopenedAt);
    }
  }

  lemma ClockedMeans(disk: Dir, mem: Mem, e: Effect, reopenedAt: Instant)
    requires Clocked(disk, mem, e, reopenedAt)
    ensures e.mem.isOpen ==> e.mem.openedAt == if NewClosed(disk, e.disk) then reopenedAt else mem.openedAt
  {
    hide NewClosed;
  }

  lemma WriteHasRoom(lib: Lib, s: Sys, e: Event, log: Log)
    requires Good(lib, s, log) && HasRoom(s, e) && e.WriteEvent? && e.record != []
    requires s.proc.Some? && s.proc.value.isOpen
    ensures Due(s.proc.value.cfg, s.disk, e.record, e.now.nanos - s.proc.value.openedAt.nanos) ==> s.proc.value.nextSeq <= 999_999
  {
    GoodMeans(lib, s, log);
    hide Holds, Good, Agrees;
    ActiveHeld(lib, s.disk, s.proc.value, log);
  }

  lemma StepKeepsTime(lib: Lib, s: Sys, e: Event, s': Sys, log: Log)
    requires lib.Sound() && Good(lib, s, log) && HasRoom(s, e) && Step(lib, s, e, s')
    ensures KeepsTime(lib, s, e, s')
  {
    match e
    case OpenEvent(cfg, now) => OpenQuiet(s.disk);
    case WriteEvent(_, _, _, _, _) => WriteTimes(lib, s, e, s', log);
    case RotateEvent(_, _, _) => RotateTimes(lib, s, e, s', log);
    case CloseEvent(_, _, _) => CloseTimes(lib, s, e, s', log);
    case Kill =>
  }

  /** A live writer's clock and configuration are those the history of the run gives. */
  lemma {:induction false} ClockOfRun(lib: Lib, states: seq<Sys>, events: seq<Event>, n: nat)
    requires lib.Sound() && Run(lib, states, events) && n <= |events|
    ensures states[n].proc.Some? ==> states[n].proc.value.cfg == LastConfig(events, n)
    ensures states[n].proc.Some? && states[n].proc.value.isOpen ==> states[n].proc.value.openedAt == OpenedSince(states, events, n)
  {
    hide Step, HasRoom, NewClosed, Dated;
    if n > 0 {
      ClockOfRun(lib, states, events, n - 1);
      StepTimed(lib, states, events, n - 1);
    }
  }

  /** Every step of a run starts from a state that holds a log. */
  lemma StepReached(lib: Lib, states: seq<Sys>, events: seq<Event>, i: nat) returns (log: Log)
    requires lib.Sound() && Run(lib, states, events) && i < |events|
    ensures |states| == |events| + 1
    ensures Good(lib, states[i], log) && HasRoom(states[i], events[i]) && Step(lib, states[i], events[i], states[i + 1])
  {
    hide Step, HasRoom, Good;
    log := Conservation(lib, states[..i + 1], events[..i]);
  }

  lemma StepTimed(lib: Lib, states: seq<Sys>, events: seq<Event>, i: nat)
    requires lib.Sound() && Run(lib, states, events) && i < |events|
    ensures KeepsTime(lib, states[i], events[i], states[i + 1])
  {
    hide Step, HasRoom, KeepsTime, Good;
    var log := StepReached(lib, states, events, i);
    StepKeepsTime(lib, states[i], events[i], states[i + 1], log);
  }

  /**
   * In every run, a write that is acknowledged closes a segment exactly when the active file holds
   * something and is full under the last configuration, counted from the time it was opened.
   */
  lemma RotationRule(lib: Lib, states: seq<Sys>, events: seq<Event>, i: nat)
    requires lib.Sound() && Run(lib, states, events) && i < |events| && events[i].WriteEvent?
    requires states[i + 1].acked != states[i].acked
    ensures events[i].record != []
    ensures NewClosed(states[i].disk, states[i + 1].disk) <==>
      Due(LastConfig(events, i), states[i].disk, events[i].record, events[i].now.nanos - OpenedSince(states, events, i).nanos)
  {
    hide Run, Good, NewClosed, Due, OpenedSince, LastConfig, Step, HasRoom;
    ClockOfRun(lib, states, events, i);
    var log := StepReached(lib, states, events, i);
    AckedWrite(lib, states[i], events[i], states[i + 1], log);
  }

  lemma AckedWrite(lib: Lib, s: Sys, e: Event, s': Sys, log: Log)
    requires lib.Sound() && Good(lib, s, log) && HasRoom(s, e) && Step(lib, s, e, s') && e.WriteEvent?
    requires s'.acked != s.acked
    ensures e.record != [] && s.proc.Some? && s.proc.value.isOpen
    ensures NewClosed(s.disk, s'.disk) <==> Due(s.proc.value.cfg, s.disk, e.record, e.now.nanos - s.proc.value.openedAt.nanos)
  {
    hide Holds, Agrees, NewClosed, Dated, Good, Clocked, Due, Rotate, Append, MustRotate;
    GoodMeans(lib, s, log);
    assert e.record != [] && s.proc.value.isOpen;
    hide WriteRecord;
    WriteHasRoom(lib, s, e, log);
    WriteClosesExact(lib, s.disk, s.proc.value, e.record, e.now, e.closedAt, e.reopenedAt, e.stop, log);
  }

  /** Under an age limit no record is appended to a segment that has been open for as long as the limit. */
  lemma NoLateAppend(lib: Lib, states: seq<Sys>, events: seq<Event>, i: nat)
    requires lib.Sound() && Run(lib, states, events) && i < |events| && events[i].WriteEvent?
    requires states[i + 1].acked != states[i].acked
    requires LastConfig(events, i).maxAge > 0
    requires ActiveBytes(states[i].disk) > 0 && !NewClosed(states[i].disk, states[i + 1].disk)
    ensures events[i].now.nanos - OpenedSince(states, events, i).nanos < LastConfig(events, i).maxAge
  {
    hide Run, NewClosed, OpenedSince, LastConfig;
    RotationRule(lib, states, events, i);
  }

  /** The manifest of every segment a run closes says since when it had been open and when it was closed. */
  lemma ManifestsDated(lib: Lib, states: seq<Sys>, events: seq<Event>, i: nat)
    requires lib.Sound() && Run(lib, states, events) && i < |events|
    requires NewClosed(states[i].disk, states[i + 1].disk)
    ensures var since := OpenedSince(states, events, i);
      Dated(lib, states[i].disk, since, ClosedAt(events[i], since), states[i + 1].disk)
  {
    ClockOfRun(lib, states, events, i);
    hide Step, HasRoom, NewClosed, Dated, OpenedSince, Run;
    StepTimed(lib, states, events, i);
  }

  // ---- what is stored and counted ----

  /** The record as stored is the shortest text that starts with the record and ends in a line feed. */
  lemma PayloadLeast(record: Bytes, other: Bytes)
    requires record != []
    ensures var p := Payload(record);
      record <= p && p[|p| - 1] == 10 && |p| == StoredBytes(record)
    ensures record <= other && other[|other| - 1] == 10 ==> |Payload(record)| <= |other|
  {
    if record <= other && |other| == |record| {
      assert other == record;
    }
  }

  /** One line: it ends in its only line feed. */
  predicate OneLine(r: Bytes) {
    r != [] && r[|r| - 1] == 10 && forall i | 0 <= i < |r| - 1 :: r[i] != 10
  }

  lemma {:induction false} NoNewlines(r: Bytes)
    requires forall i | 0 <= i < |r| :: r[i] != 10
    ensures NewlinesIn(r) == 0
  {
    if r != [] {
      NoNewlines(r[..|r| - 1]);
    }
  }

  lemma {:induction false} LinesCounted(lines: seq<Bytes>)
    requires forall i | 0 <= i < |lines| :: OneLine(lines[i])
    ensures NewlinesIn(Concat(lines)) == |lines|
    ensures Concat(lines) != [] ==> Concat(lines)[|Concat(lines)| - 1] == 10
  {
    if lines != [] {
      var front, last := lines[..|lines| - 1], lines[|lines| - 1];
      LinesCounted(front);
      NewlinesConcat(Concat(front), last);
      NoNewlines(last[..|last| - 1]);
    }
  }

  /** A file of whole lines and an unfinished one counts as many records as it has lines, the unfinished one included. */
  lemma UnfinishedCounted(lines: seq<Bytes>, rest: Bytes)
    requires forall i | 0 <= i < |lines| :: OneLine(lines[i])
    requires forall i | 0 <= i < |rest| :: rest[i] != 10
    ensures CountRecords(Concat(lines) + rest) == |lines| + if rest == [] then 0 else 1
  {
    hide Concat;
    var data := Concat(lines) + rest;
    LinesCounted(lines);
    NoNewlines(rest);
    NewlinesConcat(Concat(lines), rest);
    assert rest == [] ==> data == Concat(lines);
    assert rest != [] ==> data[|data| - 1] == rest[|rest| - 1];
  }
}
