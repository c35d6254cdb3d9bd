/**
 * The rotating audit log on values (internal/audit/rotation.go, internal/audit/atomic.go): what one
 * writer call does to the directory and to the writer's fields, stopped at any stage or not at all.
 */
module Rotation {
  import opened Wrappers
  import opened Sorting
  import opened Segments

  /** The log directory: file names and their contents. */
  type Dir = map<string, Bytes>

  datatype Config = Config(maxSizeBytes: int, maxAge: int)

  /** The fields of an open or closed writer; `isOpen` is whether it holds a file handle. */
  datatype Mem = Mem(
    cfg: Config,
    isOpen: bool,
    size: nat,
    records: nat,
    openedAt: Instant,
    nextSeq: nat,
    prevHash: string)

  /** Where writeFileAtomic and rotateLocked can be stopped. */
  datatype Stage =
    | AfterCreate | AfterWrite | AfterSync | AfterClose | BeforeRename
    | RotateAfterCloseActive | RotateAfterHash | RotateBeforeManifest | RotateAfterManifest
    | RotateBeforeSegmentRename | RotateAfterSegmentRename | RotateBeforeOpenActive

  /**
   * How a call is stopped, if at all: the hook returns an error at a stage and the call's own error
   * path runs; the process dies at a stage, leaving a temp file with the given random suffix if one is
   * open; or the rename of the active file fails.
   */
  datatype Stop =
    | Never
    | Fault(stage: Stage)
    | Crash(stage: Stage, random: string)
    | RenameFails

  datatype Outcome = Done | Failed | Crashed

  datatype Effect = Effect(disk: Dir, mem: Mem, outcome: Outcome)

  predicate StopsAt(stop: Stop, stage: Stage) {
    (stop.Fault? || stop.Crash?) && stop.stage == stage
  }

  function StoppedAs(stop: Stop): Outcome {
    if stop.Crash? then Crashed else Failed
  }

  predicate InAtomicWrite(stage: Stage) {
    stage.AfterCreate? || stage.AfterWrite? || stage.AfterSync? || stage.AfterClose? || stage.BeforeRename?
  }

  function CountRecords(data: Bytes): nat {
    NewlinesIn(data) + (if data != [] && data[|data| - 1] != NEWLINE then 1 else 0)
  }

  function NewlinesIn(data: Bytes): nat {
    if data == [] then 0
    else NewlinesIn(data[..|data| - 1]) + (if data[|data| - 1] == NEWLINE then 1 else 0)
  }

  /** Opening the active file creates it when it is missing. */
  function WithActive(disk: Dir): Dir {
    if ACTIVE_SEGMENT_NAME in disk then disk else disk[ACTIVE_SEGMENT_NAME := []]
  }

  function ReopenActive(disk: Dir, mem: Mem, now: Instant): Effect {
    var disk' := WithActive(disk);
    var data := disk'[ACTIVE_SEGMENT_NAME];
    var mem' := mem.(isOpen := true, size := |data|);
    Effect(disk', if data == [] then mem'.(records := 0, openedAt := now) else mem'.(records := CountRecords(data)), Done)
  }

  function NewManifest(lib: Lib, disk: Dir, mem: Mem, closedAt: Instant): SegmentManifest
    requires ACTIVE_SEGMENT_NAME in disk
  {
    SegmentManifest(
      SCHEMA_VERSION, FormatSegmentName(mem.nextSeq, closedAt.stamp), mem.nextSeq, mem.openedAt, closedAt,
      mem.records, mem.size, lib.hash(disk[ACTIVE_SEGMENT_NAME]), mem.prevHash)
  }

  /** What is in the temp file when the process dies at a stage of the atomic write. */
  function TempContents(stage: Stage, data: Bytes): Bytes {
    if stage.AfterCreate? then [] else data
  }

  /** rotateLocked; closedAt and reopenedAt are its two clock readings. */
  function Rotate(lib: Lib, disk: Dir, mem: Mem, closedAt: Instant, reopenedAt: Instant, stop: Stop): Effect {
    if !mem.isOpen then Effect(disk, mem, Failed)
    else if mem.size == 0 then Effect(disk, mem, Done)
    else
      var closed := mem.(isOpen := false);
      if StopsAt(stop, RotateAfterCloseActive) then Effect(disk, closed, StoppedAs(stop))
      else if ACTIVE_SEGMENT_NAME !in disk then Effect(disk, closed, Failed)
      else if StopsAt(stop, RotateAfterHash) || StopsAt(stop, RotateBeforeManifest) then
        Effect(disk, closed, StoppedAs(stop))
      else
        var man := NewManifest(lib, disk, mem, closedAt);
        var manName := ManifestNameFor(man.segment);
        var data := lib.encode(man);
        if stop.Crash? && InAtomicWrite(stop.stage) then
          Effect(disk[TempName(manName, stop.random) := TempContents(stop.stage, data)], closed, Crashed)
        else if stop.Fault? && InAtomicWrite(stop.stage) then
          ReopenActive(disk, closed, reopenedAt).(outcome := Failed)
        else
          PublishSegment(disk[manName := data], closed, man, closedAt, reopenedAt, stop)
  }

  /** The second half of rotateLocked, once the manifest is in place. */
  function PublishSegment(disk: Dir, closed: Mem, man: SegmentManifest, closedAt: Instant, reopenedAt: Instant, stop: Stop): Effect
    requires ACTIVE_SEGMENT_NAME in disk
  {
    if StopsAt(stop, RotateAfterManifest) || StopsAt(stop, RotateBeforeSegmentRename) then
      Effect(disk, closed, StoppedAs(stop))
    else if stop.RenameFails? then
      ReopenActive(disk - {ManifestNameFor(man.segment)}, closed, reopenedAt).(outcome := Failed)
    else
      var renamed := (disk - {ACTIVE_SEGMENT_NAME})[man.segment := disk[ACTIVE_SEGMENT_NAME]];
      if StopsAt(stop, RotateAfterSegmentRename) then Effect(renamed, closed, StoppedAs(stop))
      else
        var next := closed.(prevHash := man.sha256, nextSeq := closed.nextSeq + 1, size := 0, records := 0, openedAt := closedAt);
        if StopsAt(stop, RotateBeforeOpenActive) then Effect(renamed, next, StoppedAs(stop))
        else ReopenActive(renamed, next, reopenedAt)
  }

  /** A record as it is stored: a newline is added when it is missing. */
  function Payload(record: Bytes): Bytes
    requires record != []
  {
    if record[|record| - 1] == NEWLINE then record else record + [NEWLINE]
  }

  predicate MustRotate(mem: Mem, next: nat, now: Instant) {
    && mem.size != 0
    && (|| (mem.cfg.maxSizeBytes > 0 && mem.size + next > mem.cfg.maxSizeBytes)
        || (mem.cfg.maxAge > 0 && now.nanos - mem.openedAt.nanos >= mem.cfg.maxAge))
  }

  /** The append at the end of WriteRecord; an unlinked active file swallows the bytes. */
  function Append(disk: Dir, mem: Mem, payload: Bytes): Effect {
    Effect(
      if ACTIVE_SEGMENT_NAME in disk
        then disk[ACTIVE_SEGMENT_NAME := disk[ACTIVE_SEGMENT_NAME] + payload] else disk,
      mem.(size := mem.size + |payload|, records := mem.records + 1),
      Done)
  }

  /** WriteRecord; `now` is read by the age check, the other two readings by the rotation. */
  function WriteRecord(lib: Lib, disk: Dir, mem: Mem, record: Bytes, now: Instant, closedAt: Instant, reopenedAt: Instant, stop: Stop): Effect {
    if !mem.isOpen || record == [] then Effect(disk, mem, Failed)
    else
      var payload := Payload(record);
      if MustRotate(mem, |payload|, now) then
        var r := Rotate(lib, disk, mem, closedAt, reopenedAt, stop);
        if r.outcome.Done? then Append(r.disk, r.mem, payload) else r
      else Append(disk, mem, payload)
  }

  function Close(lib: Lib, disk: Dir, mem: Mem, closedAt: Instant, reopenedAt: Instant, stop: Stop): Effect {
    if !mem.isOpen then Effect(disk, mem, Done)
    else
      var r := if mem.size > 0 then Rotate(lib, disk, mem, closedAt, reopenedAt, stop) else Effect(disk, mem, Done);
      if r.outcome.Crashed? then r else r.(mem := r.mem.(isOpen := false))
  }

  // ---- opening ----

  /** n is the largest sequence number among the closed names, or 0. */
  ghost predicate IsHighest(disk: Dir, n: nat) {
    && (forall name | name in disk && IsClosedSegmentName(name) :: ParseSegmentSequence(name).value <= n)
    && (n > 0 ==> exists name :: name in disk && ParseSegmentSequence(name) == Some(n))
  }

  /** The digest on record for a closed body: its manifest's, or else recomputed. */
  function RecordedHash(lib: Lib, disk: Dir, name: string): string
    requires name in disk
  {
    var man := ManifestNameFor(name);
    if man in disk && lib.decode(disk[man]).Some? then lib.decode(disk[man]).value.sha256
    else lib.hash(disk[name])
  }

  /** name has the highest sequence number, and is the greatest among the names with that number. */
  ghost predicate IsLatest(disk: Dir, name: string) {
    && name in disk && IsClosedSegmentName(name)
    && IsHighest(disk, ParseSegmentSequence(name).value)
    && forall other | other in disk && ParseSegmentSequence(other) == ParseSegmentSequence(name) :: StringLe(other, name)
  }

  /** h is what latestSegmentHashByName returns. */
  ghost predicate IsLatestHash(lib: Lib, disk: Dir, h: string) {
    if exists name :: name in disk && IsClosedSegmentName(name) then
      exists name :: IsLatest(disk, name) && h == RecordedHash(lib, disk, name)
    else h == ""
  }

  /** OpenWriter on disk gives mem and leaves disk'. */
  ghost predicate Opens(lib: Lib, disk: Dir, cfg: Config, now: Instant, disk': Dir, mem: Mem) {
    && disk' == WithActive(disk)
    && mem.cfg == cfg && mem.isOpen
    && mem.size == |disk'[ACTIVE_SEGMENT_NAME]|
    && mem.records == CountRecords(disk'[ACTIVE_SEGMENT_NAME])
    && mem.openedAt == now
    && mem.nextSeq >= 1 && IsHighest(disk, mem.nextSeq - 1)
    && IsLatestHash(lib, disk, mem.prevHash)
  }
}
