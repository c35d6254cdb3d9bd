/** Whole runs of the audit log: opens, writes, rotations, closes, faults, crashes and reopens in any order. */
module LogRuns {
  import opened Wrappers
  import opened Segments
  import opened Rotation
  import opened LogInvariant

  /** The directory, the writer process if one is alive, and the records acknowledged so far. */
  datatype Sys = Sys(disk: Dir, proc: Option<Mem>, acked: seq<Bytes>)

  datatype Event =
    | OpenEvent(cfg: Config, now: Instant)
    | WriteEvent(record: Bytes, now: Instant, closedAt: Instant, reopenedAt: Instant, stop: Stop)
    | RotateEvent(closedAt: Instant, reopenedAt: Instant, stop: Stop)
    | CloseEvent(closedAt: Instant, reopenedAt: Instant, stop: Stop)
    | Kill

  function After(s: Sys, e: Effect): Sys {
    Sys(e.disk, if e.outcome.Crashed? then None else Some(e.mem), s.acked)
  }

  function StopOf(e: Event): Stop {
    match e
    case WriteEvent(_, _, _, _, stop) => stop
    case RotateEvent(_, _, stop) => stop
    case CloseEvent(_, _, stop) => stop
    case _ => Never
  }

  /** One event; a write acknowledges its record when it returns without error. */
  ghost predicate Step(lib: Lib, s: Sys, e: Event, s': Sys) {
    && (StopOf(e).Crash? ==> IsRandom(StopOf(e).random))
    && match e
       case OpenEvent(cfg, now) =>
         s.proc.None? && s'.proc.Some? && Opens(lib, s.disk, cfg, now, s'.disk, s'.proc.value) && s'.acked == s.acked
       case WriteEvent(record, now, closedAt, reopenedAt, stop) =>
         && s.proc.Some?
         && var r := WriteRecord(lib, s.disk, s.proc.value, record, now, closedAt, reopenedAt, stop);
           s' == if r.outcome.Done? && record != [] then After(s, r).(acked := s.acked + [Payload(record)]) else After(s, r)
       case RotateEvent(closedAt, reopenedAt, stop) =>
         s.proc.Some? && s' == After(s, Rotate(lib, s.disk, s.proc.value, closedAt, reopenedAt, stop))
       case CloseEvent(closedAt, reopenedAt, stop) =>
         s.proc.Some? && s' == After(s, Close(lib, s.disk, s.proc.value, closedAt, reopenedAt, stop))
       case Kill => s' == s.(proc := None)
  }

  /** The event closes a segment. */
  predicate Rotates(s: Sys, e: Event) {
    && s.proc.Some? && s.proc.value.isOpen && s.proc.value.size > 0
    && match e
       case WriteEvent(record, now, _, _, _) => record != [] && MustRotate(s.proc.value, |Payload(record)|, now)
       case RotateEvent(_, _, _) => true
       case CloseEvent(_, _, _) => true
       case _ => false
  }

  /** Sequence numbers still fit the six digits of a segment name. */
  predicate HasRoom(s: Sys, e: Event) {
    Rotates(s, e) ==> s.proc.value.nextSeq <= 999_999
  }

  const START := Sys(map[], None, [])

  /** A run from an empty directory in which no rotation starts without room. */
  ghost predicate Run(lib: Lib, states: seq<Sys>, events: seq<Event>) {
    && |states| == |events| + 1 && states[0] == START
    && forall i | 0 <= i < |events| :: HasRoom(states[i], events[i]) && Step(lib, states[i], events[i], states[i + 1])
  }

  /** The directory and the process hold this log, and the log is what was acknowledged. */
  ghost predicate Good(lib: Lib, s: Sys, log: Log) {
    && Holds(lib, s.disk, log)
    && (s.proc.Some? ==> Agrees(lib, s.disk, s.proc.value, log))
    && AllRecords(log) == s.acked
  }

  lemma StartGood(lib: Lib)
    ensures Good(lib, START, EMPTY_LOG)
  {
  }

  /** Every event keeps the log. */
  lemma StepKeeps(lib: Lib, s: Sys, e: Event, s': Sys, log: Log) returns (log': Log)
    requires lib.Sound() && Good(lib, s, log) && HasRoom(s, e) && Step(lib, s, e, s')
    ensures Good(lib, s', log')
    ensures forall max :: SizeBound(max, log) && (s.proc.Some? ==> s.proc.value.cfg.maxSizeBytes == max) ==> SizeBound(max, log')
    ensures s.proc.Some? && s'.proc.Some? ==> s'.proc.value.cfg == s.proc.value.cfg
  {
    hide Holds, Agrees, SizeBound, WriteRecord, Rotate, Close, Opens;
    match e
    case OpenEvent(cfg, now) =>
      log' := log;
      OpenKeeps(lib, s.disk, cfg, now, s'.disk, s'.proc.value, log);
    case WriteEvent(record, now, closedAt, reopenedAt, stop) =>
      log' := WriteKeeps(lib, s.disk, s.proc.value, record, now, closedAt, reopenedAt, stop, log);
    case RotateEvent(closedAt, reopenedAt, stop) =>
      log' := RotateKeeps(lib, s.disk, s.proc.value, closedAt, reopenedAt, stop, log);
      forall max ensures SizeBound(max, log) ==> SizeBound(max, log') {
        RotationBound(max, log, log');
      }
    case CloseEvent(closedAt, reopenedAt, stop) =>
      log' := CloseKeeps(lib, s.disk, s.proc.value, closedAt, reopenedAt, stop, log);
    case Kill => log' := log;
  }

  /** After any run, whatever was stopped or crashed, the directory holds exactly the acknowledged records. */
  lemma {:induction false} Conservation(lib: Lib, states: seq<Sys>, events: seq<Event>) returns (log: Log)
    requires lib.Sound() && Run(lib, states, events)
    ensures Good(lib, states[|events|], log)
  {
    if events == [] {
      log := EMPTY_LOG;
      StartGood(lib);
    } else {
      var n := |events| - 1;
      hide Step, Good, HasRoom;
      var before := Conservation(lib, states[..n + 1], events[..n]);
      log := StepKeeps(lib, states[n], events[n], states[n + 1], before);
    }
  }

  /** The bodies of the closed segments, joined in order. */
  function Bodies(closed: seq<Closed>): Bytes {
    if closed == [] then [] else Bodies(closed[..|closed| - 1]) + Concat(closed[|closed| - 1].records)
  }

  lemma {:induction false} ConcatJoins(a: seq<Bytes>, b: seq<Bytes>)
    ensures Concat(a + b) == Concat(a) + Concat(b)
  {
    if b == [] {
      assert a + b == a;
    } else {
      ConcatJoins(a, b[..|b| - 1]);
      assert (a + b)[..|a + b| - 1] == a + b[..|b| - 1];
    }
  }

  /** Byte for byte, the closed bodies followed by the active file are the acknowledged records. */
  lemma {:induction false} BytesConserved(log: Log)
    ensures Concat(AllRecords(log)) == Bodies(log.closed) + Concat(log.active)
  {
    ConcatJoins(ClosedRecords(log.closed), log.active);
    ClosedBytes(log.closed);
  }

  lemma {:induction false} ClosedBytes(closed: seq<Closed>)
    ensures Concat(ClosedRecords(closed)) == Bodies(closed)
  {
    if closed != [] {
      ClosedBytes(closed[..|closed| - 1]);
      ConcatJoins(ClosedRecords(closed[..|closed| - 1]), closed[|closed| - 1].records);
    }
  }

  // ---- segment sizes ----

  ghost predicate FixedLimit(max: int, events: seq<Event>) {
    forall i | 0 <= i < |events| && events[i].OpenEvent? :: events[i].cfg.maxSizeBytes == max
  }

  ghost predicate ProcLimit(max: int, s: Sys) {
    s.proc.Some? ==> s.proc.value.cfg.maxSizeBytes == max
  }

  /** With one limit throughout, only a segment with a single record exceeds it, and no record is split. */
  lemma {:induction false} SegmentSizes(lib: Lib, states: seq<Sys>, events: seq<Event>, max: int) returns (log: Log)
    requires lib.Sound() && Run(lib, states, events) && FixedLimit(max, events)
    ensures Good(lib, states[|events|], log) && SizeBound(max, log) && ProcLimit(max, states[|events|])
  {
    if events == [] {
      log := EMPTY_LOG;
      StartGood(lib);
    } else {
      var n := |events| - 1;
      var before := SegmentSizes(lib, states[..n + 1], events[..n], max);
      hide Good, HasRoom, SizeBound;
      log := StepKeeps(lib, states[n], events[n], states[n + 1], before);
    }
  }

  /** When no acknowledged record has a newline inside, every manifest counts its records right. */
  lemma {:induction false} ManifestsCount(lib: Lib, s: Sys, log: Log, i: nat)
    requires Good(lib, s, log) && i < |log.closed| && Lines(s.acked)
    ensures log.closed[i].manifest.recordCount == |log.closed[i].records|
    ensures log.closed[i].manifest.sizeBytes == |Concat(log.closed[i].records)|
  {
    assert ClosedOnDisk(lib, s.disk, log.closed, i);
    forall r | r in log.closed[i].records ensures NewlinesIn(r) == 1 {
      ClosedRecordsHave(log.closed, i, r);
      assert r in AllRecords(log);
    }
  }

  lemma {:induction false} ClosedRecordsHave(closed: seq<Closed>, i: nat, r: Bytes)
    requires i < |closed| && r in closed[i].records
    ensures r in ClosedRecords(closed)
  {
    if i < |closed| - 1 {
      ClosedRecordsHave(closed[..|closed| - 1], i, r);
    }
  }

  // ---- the directory determines the log's bytes, and where the six digits run out ----

  lemma SameSegments(lib: Lib, disk: Dir, log: Log, other: Log, i: nat)
    requires Holds(lib, disk, log) && Holds(lib, disk, other) && i < |log.closed|
    ensures i < |other.closed| && SegName(other.closed, i) == SegName(log.closed, i)
    ensures Concat(other.closed[i].records) == Concat(log.closed[i].records)
  {
    hide FormatSegmentName, Concat, ManifestFits, ManifestNameFor;
    SequenceReadsBack(i + 1, log.closed[i].stamp);
    assert ClosedOnDisk(lib, disk, log.closed, i);
    var j :| 0 <= j < |other.closed| && SegName(log.closed, i) == SegName(other.closed, j);
    SequenceReadsBack(j + 1, other.closed[j].stamp);
    assert ClosedOnDisk(lib, disk, other.closed, j);
  }

  lemma {:induction false} SameBodies(lib: Lib, disk: Dir, log: Log, other: Log, n: nat)
    requires Holds(lib, disk, log) && Holds(lib, disk, other) && n <= |log.closed| && n <= |other.closed|
    ensures Bodies(log.closed[..n]) == Bodies(other.closed[..n])
  {
    if n > 0 {
      SameSegments(lib, disk, log, other, n - 1);
      SameBodies(lib, disk, log, other, n - 1);
      assert log.closed[..n][..n - 1] == log.closed[..n - 1];
      assert other.closed[..n][..n - 1] == other.closed[..n - 1];
    }
  }

  /** Two logs held by one directory have the same segments and the same bytes. */
  lemma HoldsSameBytes(lib: Lib, disk: Dir, log: Log, other: Log)
    requires Holds(lib, disk, log) && Holds(lib, disk, other)
    ensures |log.closed| == |other.closed|
    ensures Concat(AllRecords(log)) == Concat(AllRecords(other))
  {
    var n, m := |log.closed|, |other.closed|;
    if n > m {
      SameSegments(lib, disk, log, other, m);
    } else if m > n {
      SameSegments(lib, disk, other, log, n);
    } else {
      SameBodies(lib, disk, log, other, n);
      assert log.closed[..n] == log.closed && other.closed[..n] == other.closed;
      BytesConserved(log);
      BytesConserved(other);
    }
  }

  lemma ClosedName(sequence: nat, stamp: Stamp)
    ensures IsClosedSegmentName(FormatSegmentName(sequence, stamp)) <==> sequence <= 999_999
  {
    SequenceReadsBack(sequence, stamp);
  }

  lemma ConcatNone()
    ensures Concat([]) == []
  {
  }

  /** The files of segment 1000000 and later are not those of any recognised segment. */
  lemma LateNameIsOutside(closed: seq<Closed>, sequence: nat, stamp: Stamp, i: nat)
    requires i < |closed| <= 999_999 < sequence
    ensures var late := FormatSegmentName(sequence, stamp);
      late != SegName(closed, i) && late != ManName(closed, i)
      && ManifestNameFor(late) != SegName(closed, i) && ManifestNameFor(late) != ManName(closed, i)
  {
    var late := FormatSegmentName(sequence, stamp);
    ClosedName(sequence, stamp);
    ClosedName(i + 1, closed[i].stamp);
    SegmentNameEnds(sequence, stamp);
    SegmentNameEnds(i + 1, closed[i].stamp);
    ManifestLeadsBack(late);
    ManifestLeadsBack(SegName(closed, i));
  }

  /** Rotating a millionth segment succeeds, but the directory no longer shows what was in it. */
  lemma PastTheLimit(lib: Lib, disk: Dir, mem: Mem, closedAt: Instant, reopenedAt: Instant, log: Log)
    requires Holds(lib, disk, log) && Agrees(lib, disk, mem, log) && mem.isOpen && mem.size > 0
    requires mem.nextSeq > 999_999
    ensures var e := Rotate(lib, disk, mem, closedAt, reopenedAt, Never);
      e.outcome == Done && Holds(lib, e.disk, Log(log.closed, []))
  {
    hide FormatSegmentName, ManifestNameFor, ManifestFits, Concat, IsManifestName, IsClosedSegmentName, CountRecords;
    var man := NewManifest(lib, disk, mem, closedAt);
    var manName := ManifestNameFor(man.segment);
    ClosedName(mem.nextSeq, closedAt.stamp);
    SegmentNameEnds(mem.nextSeq, closedAt.stamp);
    ManifestLeadsBack(man.segment);
    ManifestNameIsNotClosed(manName);
    ActiveIsNotClosed();
    ConcatNone();
    var e := Rotate(lib, disk, mem, closedAt, reopenedAt, Never);
    assert e.disk == (disk[manName := lib.encode(man)] - {ACTIVE_SEGMENT_NAME})[man.segment := disk[ACTIVE_SEGMENT_NAME]][ACTIVE_SEGMENT_NAME := []];
    forall i | 0 <= i < |log.closed| ensures ClosedOnDisk(lib, e.disk, log.closed, i) {
      NamesAreNotActive(log.closed, i);
      LateNameIsOutside(log.closed, mem.nextSeq, closedAt.stamp, i);
      ClosedStays(lib, disk, e.disk, log.closed, log.closed, i);
    }
  }

  /** A complete rotation keeps every record in a recognised place exactly while six digits suffice. */
  lemma RotationLimitExact(lib: Lib, disk: Dir, mem: Mem, closedAt: Instant, reopenedAt: Instant, log: Log)
    requires Holds(lib, disk, log) && Agrees(lib, disk, mem, log) && mem.isOpen && mem.size > 0
    ensures var e := Rotate(lib, disk, mem, closedAt, reopenedAt, Never);
      (exists log' :: Holds(lib, e.disk, log') && AllRecords(log') == AllRecords(log)) <==> mem.nextSeq <= 999_999
  {
    hide Holds, Rotate;
    var e := Rotate(lib, disk, mem, closedAt, reopenedAt, Never);
    if mem.nextSeq <= 999_999 {
      var log' := RotateKeeps(lib, disk, mem, closedAt, reopenedAt, Never, log);
    } else {
      PastTheLimit(lib, disk, mem, closedAt, reopenedAt, log);
      var left := Log(log.closed, []);
      BytesConserved(left);
      BytesConserved(log);
      assert |Concat(AllRecords(left))| < |Concat(AllRecords(log))| by { ConcatNone(); }
      forall log' | Holds(lib, e.disk, log') ensures AllRecords(log') != AllRecords(log) {
        HoldsSameBytes(lib, e.disk, log', left);
      }
    }
  }

  // ---- manifests left without a body ----

  /** A manifest file whose segment body is missing. */
  predicate Orphan(disk: Dir, n: string) {
    n in disk && IsManifestName(n) && !(BodyNameFor(n) in disk && IsClosedSegmentName(BodyNameFor(n)))
  }

  /** The call was stopped between writing the manifest and renaming the body. */
  predicate LeavesManifest(stop: Stop) {
    StopsAt(stop, RotateAfterManifest) || StopsAt(stop, RotateBeforeSegmentRename)
  }

  lemma OrphansRotate(lib: Lib, disk: Dir, mem: Mem, closedAt: Instant, reopenedAt: Instant, stop: Stop, n: string)
    requires mem.isOpen && mem.size > 0 ==> mem.nextSeq <= 999_999
    requires stop.Crash? ==> IsRandom(stop.random)
    requires Orphan(Rotate(lib, disk, mem, closedAt, reopenedAt, stop).disk, n)
    ensures Orphan(disk, n)
      || (LeavesManifest(stop) && n == ManifestNameFor(FormatSegmentName(mem.nextSeq, closedAt.stamp)))
  {
    hide FormatSegmentName, ManifestNameFor, IsManifestName, IsClosedSegmentName, BodyNameFor, CountRecords, TempName;
    if mem.isOpen && mem.size != 0 && ACTIVE_SEGMENT_NAME in disk {
      var man := NewManifest(lib, disk, mem, closedAt);
      var manName := ManifestNameFor(man.segment);
      SegmentNameEnds(mem.nextSeq, closedAt.stamp);
      ManifestLeadsBack(man.segment);
      ManifestNameIsNotClosed(manName);
      ClosedName(mem.nextSeq, closedAt.stamp);
      ActiveIsNotClosed();
      if stop.Crash? {
        TempIsInert(manName, stop.random);
      }
    }
  }

  lemma OrphansStep(lib: Lib, s: Sys, e: Event, s': Sys, n: string)
    requires HasRoom(s, e) && Step(lib, s, e, s') && !LeavesManifest(StopOf(e))
    requires Orphan(s'.disk, n)
    ensures Orphan(s.disk, n)
  {
    hide IsManifestName, IsClosedSegmentName, BodyNameFor, Rotate, MustRotate;
    ActiveIsNotClosed();
    match e
    case WriteEvent(record, now, closedAt, reopenedAt, stop) =>
      var mem := s.proc.value;
      if mem.isOpen && record != [] && MustRotate(mem, |Payload(record)|, now) {
        assert Orphan(Rotate(lib, s.disk, mem, closedAt, reopenedAt, stop).disk, n);
        OrphansRotate(lib, s.disk, mem, closedAt, reopenedAt, stop, n);
      }
    case RotateEvent(closedAt, reopenedAt, stop) =>
      if s.proc.value.isOpen {
        OrphansRotate(lib, s.disk, s.proc.value, closedAt, reopenedAt, stop, n);
      } else {
        ClosedWriterIdle(lib, s.disk, s.proc.value, closedAt, reopenedAt, stop);
      }
    case CloseEvent(closedAt, reopenedAt, stop) =>
      if s.proc.value.isOpen && s.proc.value.size > 0 {
        OrphansRotate(lib, s.disk, s.proc.value, closedAt, reopenedAt, stop, n);
      }
    case _ =>
  }

  lemma ClosedWriterIdle(lib: Lib, disk: Dir, mem: Mem, closedAt: Instant, reopenedAt: Instant, stop: Stop)
    requires !mem.isOpen
    ensures Rotate(lib, disk, mem, closedAt, reopenedAt, stop) == Effect(disk, mem, Failed)
  {
  }

  /** In a run never stopped between manifest and rename, every manifest has its body. */
  lemma {:induction false} NoOrphans(lib: Lib, states: seq<Sys>, events: seq<Event>, n: string)
    requires Run(lib, states, events)
    requires forall i | 0 <= i < |events| :: !LeavesManifest(StopOf(events[i]))
    ensures !Orphan(states[|events|].disk, n)
  {
    if events != [] {
      var k := |events| - 1;
      NoOrphans(lib, states[..k + 1], events[..k], n);
      hide Step, Orphan, HasRoom, LeavesManifest;
      if Orphan(states[k + 1].disk, n) {
        OrphansStep(lib, states[k], events[k], states[k + 1], n);
      }
    }
  }
}
