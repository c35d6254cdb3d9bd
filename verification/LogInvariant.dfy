/** What every writer call, crash and reopen keeps: the records, the segments they sit in, and the chain. */
module LogInvariant {
  import opened Wrappers
  import opened Sorting
  import opened Segments
  import opened Rotation

  /** A closed segment: its close stamp, the records in it, and the manifest written for it. */
  datatype Closed = Closed(stamp: Stamp, records: seq<Bytes>, manifest: SegmentManifest)

  /** The log as its author thinks of it; segment i has sequence number i + 1. */
  datatype Log = Log(closed: seq<Closed>, active: seq<Bytes>)

  const EMPTY_LOG := Log([], [])

  function Concat(records: seq<Bytes>): Bytes {
    if records == [] then [] else Concat(records[..|records| - 1]) + records[|records| - 1]
  }

  function ClosedRecords(closed: seq<Closed>): seq<Bytes> {
    if closed == [] then [] else ClosedRecords(closed[..|closed| - 1]) + closed[|closed| - 1].records
  }

  /** Every record, oldest first. */
  function AllRecords(log: Log): seq<Bytes> {
    ClosedRecords(log.closed) + log.active
  }

  function SegName(closed: seq<Closed>, i: nat): string
    requires i < |closed|
  {
    FormatSegmentName(i + 1, closed[i].stamp)
  }

  function ManName(closed: seq<Closed>, i: nat): string
    requires i < |closed|
  {
    ManifestNameFor(SegName(closed, i))
  }

  function LastHash(lib: Lib, closed: seq<Closed>): string {
    if closed == [] then "" else lib.hash(Concat(closed[|closed| - 1].records))
  }

  /** A stored record: it ends with a newline. */
  predicate IsRecord(r: Bytes) {
    r != [] && r[|r| - 1] == NEWLINE
  }

  /** No record has a newline inside. */
  predicate Lines(records: seq<Bytes>) {
    forall i | 0 <= i < |records| :: NewlinesIn(records[i]) == 1
  }

  predicate AreRecords(records: seq<Bytes>) {
    forall i | 0 <= i < |records| :: IsRecord(records[i])
  }

  /** The manifest describes its segment and links to the one before. */
  ghost predicate ManifestFits(lib: Lib, closed: seq<Closed>, i: nat)
    requires i < |closed|
  {
    var m, body := closed[i].manifest, Concat(closed[i].records);
    && m.schemaVersion == SCHEMA_VERSION
    && m.segment == SegName(closed, i)
    && m.sequence == i + 1
    && m.closedAt.stamp == closed[i].stamp
    && m.sha256 == lib.hash(body)
    && m.previousSegmentHash == LastHash(lib, closed[..i])
    && m.sizeBytes == |body|
    && (Lines(closed[i].records) ==> m.recordCount == |closed[i].records|)
  }

  ghost predicate ClosedOnDisk(lib: Lib, disk: Dir, closed: seq<Closed>, i: nat)
    requires i < |closed|
  {
    && SegName(closed, i) in disk && disk[SegName(closed, i)] == Concat(closed[i].records)
    && ManName(closed, i) in disk && disk[ManName(closed, i)] == lib.encode(closed[i].manifest)
    && ManifestFits(lib, closed, i)
    && AreRecords(closed[i].records) && closed[i].records != []
  }

  /** The directory holds exactly this log. */
  ghost predicate Holds(lib: Lib, disk: Dir, log: Log) {
    && |log.closed| <= 999_999
    && (forall i | 0 <= i < |log.closed| :: ClosedOnDisk(lib, disk, log.closed, i))
    && (forall name | name in disk && IsClosedSegmentName(name) ::
         exists i | 0 <= i < |log.closed| :: name == SegName(log.closed, i))
    && AreRecords(log.active)
    && (if ACTIVE_SEGMENT_NAME in disk then disk[ACTIVE_SEGMENT_NAME] == Concat(log.active) else log.active == [])
  }

  /** The writer's fields agree with the log while it holds the file. */
  ghost predicate Agrees(lib: Lib, disk: Dir, mem: Mem, log: Log) {
    mem.isOpen ==>
      && mem.nextSeq == |log.closed| + 1
      && mem.prevHash == LastHash(lib, log.closed)
      && ACTIVE_SEGMENT_NAME in disk
      && mem.size == |Concat(log.active)|
      && (Lines(log.active) ==> mem.records == |log.active|)
  }

  // ---- counting newlines ----

  lemma {:induction false} NewlinesConcat(a: Bytes, b: Bytes)
    ensures NewlinesIn(a + b) == NewlinesIn(a) + NewlinesIn(b)
  {
    if b == [] {
      assert a + b == a;
    } else {
      NewlinesConcat(a, b[..|b| - 1]);
      assert (a + b)[..|a + b| - 1] == a + b[..|b| - 1];
    }
  }

  /** A recount of the file gives the number of records when none has a newline inside. */
  lemma {:induction false} CountsRecords(records: seq<Bytes>)
    requires AreRecords(records)
    ensures Concat(records) == [] <==> records == []
    ensures records != [] ==> Concat(records)[|Concat(records)| - 1] == NEWLINE
    ensures Lines(records) ==> CountRecords(Concat(records)) == |records|
  {
    if records != [] {
      var front, last := records[..|records| - 1], records[|records| - 1];
      CountsRecords(front);
      NewlinesConcat(Concat(front), last);
      assert IsRecord(last);
      if Lines(records) {
        assert Lines(front);
        assert NewlinesIn(last) == 1;
      }
    }
  }

  // ---- adding a record, closing a segment ----

  lemma {:induction false} ConcatAppend(records: seq<Bytes>, r: Bytes)
    ensures Concat(records + [r]) == Concat(records) + r
  {
    assert (records + [r])[..|records|] == records;
  }

  lemma ClosedRecordsAppend(closed: seq<Closed>, c: Closed)
    ensures ClosedRecords(closed + [c]) == ClosedRecords(closed) + c.records
  {
    assert (closed + [c])[..|closed|] == closed;
  }

  /** Facts about the segments already closed do not depend on later ones or on unrelated files. */
  lemma ClosedStays(lib: Lib, disk: Dir, disk': Dir, closed: seq<Closed>, closed': seq<Closed>, i: nat)
    requires i < |closed| && closed <= closed'
    requires ClosedOnDisk(lib, disk, closed, i)
    requires forall n | n == SegName(closed, i) || n == ManName(closed, i) :: n in disk' && disk'[n] == disk[n]
    ensures ClosedOnDisk(lib, disk', closed', i)
  {
    assert closed'[i] == closed[i] && closed'[..i] == closed[..i];
  }

  /** Changes to files that are neither bodies, nor their manifests, nor the active file. */
  lemma HoldsOutside(lib: Lib, disk: Dir, disk': Dir, log: Log)
    requires Holds(lib, disk, log)
    requires forall n :: IsClosedSegmentName(n) || n == ACTIVE_SEGMENT_NAME || Documents(n, log.closed) ==>
      (n in disk' <==> n in disk) && (n in disk ==> disk'[n] == disk[n])
    ensures Holds(lib, disk', log)
  {
    forall i | 0 <= i < |log.closed| ensures ClosedOnDisk(lib, disk', log.closed, i) {
      SequenceReadsBack(i + 1, log.closed[i].stamp);
      ClosedStays(lib, disk, disk', log.closed, log.closed, i);
    }
  }

  /** n is the manifest of one of the closed segments. */
  ghost predicate Documents(n: string, closed: seq<Closed>) {
    exists i | 0 <= i < |closed| :: n == ManName(closed, i)
  }

  // ---- rotation, stage by stage ----

  function NextName(closed: seq<Closed>, stamp: Stamp): string {
    FormatSegmentName(|closed| + 1, stamp)
  }

  /** The next segment's files clash with no file of the segments already closed. */
  lemma NextNameIsNew(closed: seq<Closed>, stamp: Stamp, i: nat)
    requires i < |closed| < 999_999
    ensures NextName(closed, stamp) != SegName(closed, i)
    ensures ManifestNameFor(NextName(closed, stamp)) != ManName(closed, i)
  {
    SegmentNameEnds(|closed| + 1, stamp);
    SegmentNameEnds(i + 1, closed[i].stamp);
    ManifestLeadsBack(NextName(closed, stamp));
    ManifestLeadsBack(SegName(closed, i));
    if NextName(closed, stamp) == SegName(closed, i) {
      SegmentNameInjective(|closed| + 1, stamp, i + 1, closed[i].stamp);
    }
  }

  lemma NextManifestIsOutside(closed: seq<Closed>, stamp: Stamp)
    requires |closed| < 999_999
    ensures var man := ManifestNameFor(NextName(closed, stamp));
      IsManifestName(man) && !IsClosedSegmentName(man) && man != ACTIVE_SEGMENT_NAME && !Documents(man, closed)
  {
    var man := ManifestNameFor(NextName(closed, stamp));
    SegmentNameEnds(|closed| + 1, stamp);
    ManifestLeadsBack(NextName(closed, stamp));
    ManifestNameIsNotClosed(man);
    forall i | 0 <= i < |closed| ensures man != ManName(closed, i) {
      NextNameIsNew(closed, stamp, i);
    }
  }

  lemma ManifestWriteKeeps(lib: Lib, disk: Dir, log: Log, stamp: Stamp, data: Bytes)
    requires Holds(lib, disk, log) && |log.closed| < 999_999
    ensures Holds(lib, disk[ManifestNameFor(NextName(log.closed, stamp)) := data], log)
    ensures Holds(lib, disk - {ManifestNameFor(NextName(log.closed, stamp))}, log)
  {
    hide Holds, FormatSegmentName, ManifestNameFor, IsClosedSegmentName, IsManifestName;
    NextManifestIsOutside(log.closed, stamp);
    var man := ManifestNameFor(NextName(log.closed, stamp));
    HoldsOutside(lib, disk, disk[man := data], log);
    HoldsOutside(lib, disk, disk - {man}, log);
  }

  lemma DocumentsManifest(n: string, closed: seq<Closed>)
    requires Documents(n, closed)
    ensures IsManifestName(n)
  {
    var i :| 0 <= i < |closed| && n == ManName(closed, i);
    SegmentNameEnds(i + 1, closed[i].stamp);
    ManifestLeadsBack(SegName(closed, i));
  }

  lemma TempWriteKeeps(lib: Lib, disk: Dir, log: Log, manName: string, random: string, data: Bytes)
    requires Holds(lib, disk, log) && IsManifestName(manName) && IsRandom(random)
    ensures Holds(lib, disk[TempName(manName, random) := data], log)
  {
    hide Holds, IsClosedSegmentName, IsManifestName, Documents, TempName;
    TempIsInert(manName, random);
    var t := TempName(manName, random);
    if Documents(t, log.closed) {
      DocumentsManifest(t, log.closed);
    }
    HoldsOutside(lib, disk, disk[t := data], log);
  }

  /** Opening the active file again loses nothing and resets the counters to what the file holds. */
  lemma ReopenKeeps(lib: Lib, disk: Dir, mem: Mem, now: Instant, log: Log)
    requires Holds(lib, disk, log)
    requires mem.nextSeq == |log.closed| + 1 && mem.prevHash == LastHash(lib, log.closed)
    ensures var e := ReopenActive(disk, mem, now);
      Holds(lib, e.disk, log) && Agrees(lib, e.disk, e.mem, log)
  {
    ActiveIsNotClosed();
    CountsRecords(log.active);
    WithActiveKeeps(lib, disk, log);
  }

  lemma WithActiveKeeps(lib: Lib, disk: Dir, log: Log)
    requires Holds(lib, disk, log)
    ensures Holds(lib, WithActive(disk), log)
  {
    ActiveIsNotClosed();
    if ACTIVE_SEGMENT_NAME !in disk {
      var disk' := WithActive(disk);
      forall i | 0 <= i < |log.closed| ensures ClosedOnDisk(lib, disk', log.closed, i) {
        NamesAreNotActive(log.closed, i);
        ClosedStays(lib, disk, disk', log.closed, log.closed, i);
      }
    }
  }

  lemma NamesAreNotActive(closed: seq<Closed>, i: nat)
    requires i < |closed|
    ensures SegName(closed, i) != ACTIVE_SEGMENT_NAME && ManName(closed, i) != ACTIVE_SEGMENT_NAME
    ensures SegName(closed, i) != ManName(closed, i) && !IsManifestName(SegName(closed, i))
    ensures IsManifestName(ManName(closed, i))
  {
    SegmentNameEnds(i + 1, closed[i].stamp);
    ManifestLeadsBack(SegName(closed, i));
    ManifestNameIsNotClosed(ManName(closed, i));
  }

  /** The log after the active file has become the next closed segment. */
  function Published(log: Log, stamp: Stamp, man: SegmentManifest): Log {
    Log(log.closed + [Closed(stamp, log.active, man)], [])
  }

  lemma PublishedRecords(log: Log, stamp: Stamp, man: SegmentManifest)
    ensures AllRecords(Published(log, stamp, man)) == AllRecords(log)
  {
    ClosedRecordsAppend(log.closed, Closed(stamp, log.active, man));
  }

  lemma RenameKeeps(lib: Lib, disk: Dir, log: Log, stamp: Stamp, man: SegmentManifest)
    requires Holds(lib, disk, log) && |log.closed| < 999_999
    requires ACTIVE_SEGMENT_NAME in disk && log.active != []
    requires man.segment == NextName(log.closed, stamp)
    requires ManifestNameFor(man.segment) in disk && disk[ManifestNameFor(man.segment)] == lib.encode(man)
    requires ManifestFits(lib, Published(log, stamp, man).closed, |log.closed|)
    ensures Holds(lib, (disk - {ACTIVE_SEGMENT_NAME})[man.segment := disk[ACTIVE_SEGMENT_NAME]], Published(log, stamp, man))
  {
    hide FormatSegmentName, ManifestNameFor, IsClosedSegmentName, IsManifestName, ManifestFits, Concat;
    var log' := Published(log, stamp, man);
    var disk' := (disk - {ACTIVE_SEGMENT_NAME})[man.segment := disk[ACTIVE_SEGMENT_NAME]];
    var n := |log.closed|;
    NamesAreNotActive(log'.closed, n);
    forall i | 0 <= i < n ensures ClosedOnDisk(lib, disk', log'.closed, i) {
      NamesAreNotActive(log.closed, i);
      NextNameIsNew(log.closed, stamp, i);
      ClosedStays(lib, disk, disk', log.closed, log'.closed, i);
    }
    forall name | name in disk' && IsClosedSegmentName(name)
      ensures exists i | 0 <= i < |log'.closed| :: name == SegName(log'.closed, i)
    {
      if name == man.segment {
        assert name == SegName(log'.closed, n);
      } else {
        var i :| 0 <= i < n && name == SegName(log.closed, i);
        assert name == SegName(log'.closed, i);
      }
    }
  }

  /** The manifest rotateLocked writes describes the segment it is about to close. */
  lemma NewManifestFits(lib: Lib, disk: Dir, mem: Mem, closedAt: Instant, log: Log)
    requires Holds(lib, disk, log) && Agrees(lib, disk, mem, log) && mem.isOpen
    ensures var man := NewManifest(lib, disk, mem, closedAt);
      man.segment == NextName(log.closed, closedAt.stamp) &&
      ManifestFits(lib, Published(log, closedAt.stamp, man).closed, |log.closed|)
  {
    var man := NewManifest(lib, disk, mem, closedAt);
    var closed' := Published(log, closedAt.stamp, man).closed;
    assert closed'[..|log.closed|] == log.closed;
  }

  /** What a rotation leaves behind, however it is stopped. */
  ghost predicate RotationKeeps(lib: Lib, e: Effect, before: Mem, log: Log, log': Log) {
    && Holds(lib, e.disk, log') && Agrees(lib, e.disk, e.mem, log')
    && AllRecords(log') == AllRecords(log)
    && e.mem.cfg == before.cfg
    && (e.outcome.Done? && before.isOpen ==> e.mem.isOpen && (before.size > 0 ==> log'.active == []))
    && (log' == log || (log'.active == [] && exists c :: log'.closed == log.closed + [c] && c.records == log.active))
  }

  lemma PublishKeeps(lib: Lib, disk: Dir, mem: Mem, man: SegmentManifest, closedAt: Instant, reopenedAt: Instant, stop: Stop, log: Log)
    returns (log': Log)
    requires Holds(lib, disk, log) && |log.closed| < 999_999
    requires ACTIVE_SEGMENT_NAME in disk && log.active != []
    requires mem.isOpen && mem.nextSeq == |log.closed| + 1 && mem.prevHash == LastHash(lib, log.closed)
    requires man.segment == NextName(log.closed, closedAt.stamp)
    requires ManifestNameFor(man.segment) in disk && disk[ManifestNameFor(man.segment)] == lib.encode(man)
    requires ManifestFits(lib, Published(log, closedAt.stamp, man).closed, |log.closed|)
    ensures RotationKeeps(lib, PublishSegment(disk, mem.(isOpen := false), man, closedAt, reopenedAt, stop), mem, log, log')
  {
    hide Holds, FormatSegmentName, ManifestNameFor, IsClosedSegmentName, IsManifestName, Concat, CountRecords;
    var closed := mem.(isOpen := false);
    log' := log;
    if StopsAt(stop, RotateAfterManifest) || StopsAt(stop, RotateBeforeSegmentRename) {
    } else if stop.RenameFails? {
      ManifestWriteKeeps(lib, disk, log, closedAt.stamp, []);
      ReopenKeeps(lib, disk - {ManifestNameFor(man.segment)}, closed, reopenedAt, log);
    } else {
      log' := Published(log, closedAt.stamp, man);
      assert log'.closed == log.closed + [Closed(closedAt.stamp, log.active, man)];
      PublishedRecords(log, closedAt.stamp, man);
      RenameKeeps(lib, disk, log, closedAt.stamp, man);
      var renamed := (disk - {ACTIVE_SEGMENT_NAME})[man.segment := disk[ACTIVE_SEGMENT_NAME]];
      var next := closed.(prevHash := man.sha256, nextSeq := closed.nextSeq + 1, size := 0, records := 0, openedAt := closedAt);
      if !StopsAt(stop, RotateAfterSegmentRename) && !StopsAt(stop, RotateBeforeOpenActive) {
        ReopenKeeps(lib, renamed, next, reopenedAt, log');
      }
    }
  }

  lemma RotateKeeps(lib: Lib, disk: Dir, mem: Mem, closedAt: Instant, reopenedAt: Instant, stop: Stop, log: Log)
    returns (log': Log)
    requires Holds(lib, disk, log) && Agrees(lib, disk, mem, log)
    requires mem.isOpen && mem.size > 0 ==> mem.nextSeq <= 999_999
    requires stop.Crash? ==> IsRandom(stop.random)
    ensures RotationKeeps(lib, Rotate(lib, disk, mem, closedAt, reopenedAt, stop), mem, log, log')
  {
    hide Holds, FormatSegmentName, ManifestNameFor, IsClosedSegmentName, IsManifestName, CountRecords;
    log' := log;
    if mem.isOpen && mem.size != 0 && !StopsAt(stop, RotateAfterCloseActive)
       && !StopsAt(stop, RotateAfterHash) && !StopsAt(stop, RotateBeforeManifest) {
      var man := NewManifest(lib, disk, mem, closedAt);
      var manName := ManifestNameFor(man.segment);
      NewManifestFits(lib, disk, mem, closedAt, log);
      NextManifestIsOutside(log.closed, closedAt.stamp);
      var data := lib.encode(man);
      var closed := mem.(isOpen := false);
      if stop.Crash? && InAtomicWrite(stop.stage) {
        TempWriteKeeps(lib, disk, log, manName, stop.random, TempContents(stop.stage, data));
      } else if stop.Fault? && InAtomicWrite(stop.stage) {
        ReopenKeeps(lib, disk, closed, reopenedAt, log);
      } else {
        ManifestWriteKeeps(lib, disk, log, closedAt.stamp, data);
        log' := PublishKeeps(lib, disk[manName := data], mem, man, closedAt, reopenedAt, stop, log);
      }
    }
  }

  // ---- writing and closing ----

  lemma PayloadIsRecord(record: Bytes)
    requires record != []
    ensures IsRecord(Payload(record))
  {
  }

  lemma AppendKeeps(lib: Lib, disk: Dir, mem: Mem, payload: Bytes, log: Log)
    requires Holds(lib, disk, log) && Agrees(lib, disk, mem, log) && mem.isOpen
    requires IsRecord(payload)
    ensures var e, log' := Append(disk, mem, payload), Log(log.closed, log.active + [payload]);
      Holds(lib, e.disk, log') && Agrees(lib, e.disk, e.mem, log')
  {
    var e, log' := Append(disk, mem, payload), Log(log.closed, log.active + [payload]);
    ConcatAppend(log.active, payload);
    ActiveIsNotClosed();
    forall i | 0 <= i < |log.closed| ensures ClosedOnDisk(lib, e.disk, log'.closed, i) {
      NamesAreNotActive(log.closed, i);
      ClosedStays(lib, disk, e.disk, log.closed, log'.closed, i);
    }
    if Lines(log'.active) {
      assert forall i | 0 <= i < |log.active| :: log.active[i] == log'.active[i];
    }
  }

  /** What a write leaves behind: the record is added exactly when the call succeeds. */
  ghost predicate WriteKeepsLog(lib: Lib, e: Effect, before: Mem, record: Bytes, log: Log, log': Log) {
    && Holds(lib, e.disk, log') && Agrees(lib, e.disk, e.mem, log')
    && e.mem.cfg == before.cfg
    && (if e.outcome.Done? then record != [] && AllRecords(log') == AllRecords(log) + [Payload(record)]
        else AllRecords(log') == AllRecords(log))
  }

  lemma WriteKeeps(lib: Lib, disk: Dir, mem: Mem, record: Bytes, now: Instant, closedAt: Instant, reopenedAt: Instant, stop: Stop, log: Log)
    returns (log': Log)
    requires Holds(lib, disk, log) && Agrees(lib, disk, mem, log)
    requires mem.isOpen && record != [] && MustRotate(mem, |Payload(record)|, now) ==> mem.nextSeq <= 999_999
    requires stop.Crash? ==> IsRandom(stop.random)
    ensures WriteKeepsLog(lib, WriteRecord(lib, disk, mem, record, now, closedAt, reopenedAt, stop), mem, record, log, log')
    ensures SizeBound(mem.cfg.maxSizeBytes, log) ==> SizeBound(mem.cfg.maxSizeBytes, log')
  {
    hide Holds, Agrees, Rotate, Append, Concat;
    log' := log;
    if mem.isOpen && record != [] {
      var payload := Payload(record);
      PayloadIsRecord(record);
      var e, rotated := Effect(disk, mem, Done), log;
      if MustRotate(mem, |payload|, now) {
        e := Rotate(lib, disk, mem, closedAt, reopenedAt, stop);
        rotated := RotateKeeps(lib, disk, mem, closedAt, reopenedAt, stop, log);
        RotationBound(mem.cfg.maxSizeBytes, log, rotated);
      }
      log' := rotated;
      if e.outcome.Done? {
        AppendKeeps(lib, e.disk, e.mem, payload, rotated);
        AppendCfg(e.disk, e.mem, payload);
        log' := Log(rotated.closed, rotated.active + [payload]);
        assert AllRecords(log') == AllRecords(rotated) + [payload];
        if SizeBound(mem.cfg.maxSizeBytes, log) {
          AppendBound(lib, disk, mem, payload, now, log, rotated);
        }
      }
    }
  }

  lemma AppendCfg(disk: Dir, mem: Mem, payload: Bytes)
    ensures Append(disk, mem, payload).mem.cfg == mem.cfg && Append(disk, mem, payload).outcome == Done
  {
  }

  /** A segment over the limit holds a single record. */
  ghost predicate SizeBound(max: int, log: Log) {
    max > 0 ==>
      && (forall i | 0 <= i < |log.closed| :: |Concat(log.closed[i].records)| > max ==> |log.closed[i].records| == 1)
      && (|Concat(log.active)| > max ==> |log.active| == 1)
  }

  lemma RotationBound(max: int, log: Log, log': Log)
    requires log' == log || (log'.active == [] && exists c :: log'.closed == log.closed + [c] && c.records == log.active)
    ensures SizeBound(max, log) ==> SizeBound(max, log')
  {
    if log' != log {
      var c :| log'.closed == log.closed + [c] && c.records == log.active;
      assert Concat([]) == [];
    }
  }

  lemma AppendBound(lib: Lib, disk: Dir, mem: Mem, payload: Bytes, now: Instant, log: Log, rotated: Log)
    requires Holds(lib, disk, log) && Agrees(lib, disk, mem, log) && mem.isOpen
    requires SizeBound(mem.cfg.maxSizeBytes, rotated)
    requires if MustRotate(mem, |payload|, now) then rotated.active == [] else rotated == log
    ensures SizeBound(mem.cfg.maxSizeBytes, Log(rotated.closed, rotated.active + [payload]))
  {
    ConcatAppend(rotated.active, payload);
    CountsRecords(log.active);
  }

  lemma CloseKeeps(lib: Lib, disk: Dir, mem: Mem, closedAt: Instant, reopenedAt: Instant, stop: Stop, log: Log)
    returns (log': Log)
    requires Holds(lib, disk, log) && Agrees(lib, disk, mem, log)
    requires mem.isOpen && mem.size > 0 ==> mem.nextSeq <= 999_999
    requires stop.Crash? ==> IsRandom(stop.random)
    ensures var e := Close(lib, disk, mem, closedAt, reopenedAt, stop);
      Holds(lib, e.disk, log') && Agrees(lib, e.disk, e.mem, log') && AllRecords(log') == AllRecords(log) && e.mem.cfg == mem.cfg
    ensures forall max :: SizeBound(max, log) ==> SizeBound(max, log')
  {
    hide Holds, Rotate, SizeBound;
    log' := log;
    if mem.isOpen && mem.size > 0 {
      log' := RotateKeeps(lib, disk, mem, closedAt, reopenedAt, stop, log);
      forall max ensures SizeBound(max, log) ==> SizeBound(max, log') {
        RotationBound(max, log, log');
      }
    }
  }

  // ---- opening ----

  /** OpenWriter recovers the next sequence number and the link of the chain from the directory alone. */
  lemma OpenKeeps(lib: Lib, disk: Dir, cfg: Config, now: Instant, disk': Dir, mem: Mem, log: Log)
    requires lib.Sound()
    requires Holds(lib, disk, log) && Opens(lib, disk, cfg, now, disk', mem)
    ensures Holds(lib, disk', log) && Agrees(lib, disk', mem, log)
  {
    WithActiveKeeps(lib, disk, log);
    CountsRecords(log.active);
    HighestIsLast(lib, disk, log, mem.nextSeq - 1);
    LatestIsLast(lib, disk, log, mem.prevHash);
  }

  lemma HighestIsLast(lib: Lib, disk: Dir, log: Log, n: nat)
    requires Holds(lib, disk, log) && IsHighest(disk, n)
    ensures n == |log.closed|
  {
    hide FormatSegmentName, ManifestFits, Concat, ManifestNameFor;
    var k := |log.closed|;
    if k > 0 {
      SequenceReadsBack(k, log.closed[k - 1].stamp);
      assert ClosedOnDisk(lib, disk, log.closed, k - 1);
      assert k <= n;
    }
    if n > 0 {
      var name :| name in disk && ParseSegmentSequence(name) == Some(n);
      var i :| 0 <= i < k && name == SegName(log.closed, i);
      SequenceReadsBack(i + 1, log.closed[i].stamp);
    }
  }

  lemma LatestIsLast(lib: Lib, disk: Dir, log: Log, h: string)
    requires lib.Sound()
    requires Holds(lib, disk, log) && IsLatestHash(lib, disk, h)
    ensures h == LastHash(lib, log.closed)
  {
    hide FormatSegmentName, Concat, IsHighest, ManifestNameFor, StringLe, ParseSegmentSequence, AreRecords;
    var k := |log.closed|;
    if k > 0 {
      SequenceReadsBack(k, log.closed[k - 1].stamp);
      assert ClosedOnDisk(lib, disk, log.closed, k - 1);
      var name :| IsLatest(disk, name) && h == RecordedHash(lib, disk, name);
      var i :| 0 <= i < k && name == SegName(log.closed, i);
      SequenceReadsBack(i + 1, log.closed[i].stamp);
      HighestIsLast(lib, disk, log, i + 1);
      assert ManifestFits(lib, log.closed, k - 1);
    }
  }
}
