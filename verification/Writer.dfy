/** The rotating writer itself: fields updated step by step, each call proved against Rotation. */
module AuditWriter {
  import opened Wrappers
  import opened Sorting
  import opened Segments
  import opened Rotation

  /** No file ends in this temp suffix, so os.CreateTemp may pick it. */
  predicate Unused(files: Dir, random: string) {
    forall n | n in files :: !HasSuffix(n, TEMP_INFIX + random)
  }

  lemma UnusedTemp(files: Dir, manName: string, random: string)
    requires Unused(files, random)
    ensures TempName(manName, random) !in files
  {
    var t := TempName(manName, random);
    assert t == manName + (TEMP_INFIX + random);
    assert t[|manName|..] == TEMP_INFIX + random;
  }

  predicate IsListing(names: seq<string>, files: Dir) {
    (forall n | n in names :: n in files) && (forall n | n in files :: n in names)
  }

  class Directory {
    var files: Dir

    constructor ()
      ensures files == map[]
    {
      files := map[];
    }

    /** os.ReadDir: every name, in order. */
    method ReadDir() returns (names: seq<string>)
      ensures IsListing(names, files) && SortedBy(StringLe, names)
      ensures |names| == |files|
    {
      var todo := files.Keys;
      var found: seq<string> := [];
      while todo != {}
        invariant todo <= files.Keys
        invariant forall n :: n in found <==> n in files && n !in todo
        invariant |found| + |todo| == |files|
      {
        var n :| n in todo;
        todo := todo - {n};
        found := found + [n];
      }
      names := Sort(StringLe, found);
      StringLePreorder();
      SortSorts(StringLe, found);
      SortPermutes(StringLe, found);
      PermutationMembers(names, found);
    }

    /** writeFileAtomic: temp file, sync, rename; on an injected error the temp file is removed. */
    method WriteFileAtomic(path: string, data: Bytes, stop: Stop, random: string) returns (outcome: Outcome)
      requires Unused(files, random)
      requires stop.Crash? ==> stop.random == random
      modifies this
      ensures outcome ==
        if (stop.Fault? || stop.Crash?) && InAtomicWrite(stop.stage) then StoppedAs(stop) else Done
      ensures files ==
        if outcome == Done then old(files)[path := data]
        else if outcome == Crashed then old(files)[TempName(path, random) := TempContents(stop.stage, data)]
        else old(files)
    {
      var tmp := TempName(path, random);
      UnusedTemp(files, path, random);
      files := files[tmp := []];
      if StopsAt(stop, AfterCreate) {
        Cleanup(tmp, stop);
        return StoppedAs(stop);
      }
      files := files[tmp := data];
      if StopsAt(stop, AfterWrite) || StopsAt(stop, AfterSync) || StopsAt(stop, AfterClose) || StopsAt(stop, BeforeRename) {
        Cleanup(tmp, stop);
        return StoppedAs(stop);
      }
      files := (files - {tmp})[path := data];
      return Done;
    }

    /** The cleanup of an error path; a dead process cleans nothing. */
    method Cleanup(tmp: string, stop: Stop)
      modifies this
      ensures files == if stop.Crash? then old(files) else old(files) - {tmp}
    {
      if !stop.Crash? {
        files := files - {tmp};
      }
    }
  }

  // ---- directory scans ----

  method CountRecordsInFile(data: Bytes) returns (n: nat)
    ensures n == CountRecords(data)
  {
    if |data| == 0 {
      return 0;
    }
    n := 0;
    for i := 0 to |data|
      invariant n == NewlinesIn(data[..i])
    {
      assert data[..i + 1][..i] == data[..i];
      if data[i] == NEWLINE {
        n := n + 1;
      }
    }
    assert data[..|data|] == data;
    if data[|data| - 1] != NEWLINE {
      n := n + 1;
    }
  }

  method HighestSequence(dir: Directory) returns (max: nat)
    ensures IsHighest(dir.files, max)
  {
    var entries := dir.ReadDir();
    max := 0;
    for i := 0 to |entries|
      invariant forall j | 0 <= j < i && IsClosedSegmentName(entries[j]) :: ParseSegmentSequence(entries[j]).value <= max
      invariant max > 0 ==> exists j :: 0 <= j < i && ParseSegmentSequence(entries[j]) == Some(max)
    {
      var seq_ := ParseSegmentSequence(entries[i]);
      if seq_.Some? && seq_.value > max {
        max := seq_.value;
      }
    }
    forall name | name in dir.files && IsClosedSegmentName(name)
      ensures ParseSegmentSequence(name).value <= max
    {
      var j :| 0 <= j < |entries| && entries[j] == name;
    }
    if max > 0 {
      var j :| 0 <= j < |entries| && ParseSegmentSequence(entries[j]) == Some(max);
      assert entries[j] in entries;
    }
  }

  method LatestSegmentHashByName(lib: Lib, dir: Directory) returns (hash: string)
    ensures IsLatestHash(lib, dir.files, hash)
  {
    hide ParseSegmentSequence, StringLe, ManifestNameFor, IsHighest, SortedBy;
    var entries := dir.ReadDir();
    var bestName, bestSeq := "", 0;
    for i := 0 to |entries|
      invariant bestName == "" ==> forall j | 0 <= j < i :: !IsClosedSegmentName(entries[j])
      invariant bestName != "" ==> exists j :: 0 <= j < i && entries[j] == bestName
      invariant bestName != "" ==> ParseSegmentSequence(bestName) == Some(bestSeq)
      invariant bestName != "" ==> forall j | 0 <= j < i && IsClosedSegmentName(entries[j]) ::
        var s := ParseSegmentSequence(entries[j]).value;
        s < bestSeq || (s == bestSeq && StringLe(entries[j], bestName))
    {
      var name := entries[i];
      var seq_ := ParseSegmentSequence(name);
      if seq_.Some? {
        if bestName == "" || seq_.value > bestSeq || (seq_.value == bestSeq && !StringLe(name, bestName)) {
          ghost var before := bestName;
          ClosedNameEnds(name);
          bestSeq := seq_.value;
          bestName := name;
          BestAdvances(entries, i, before, name);
        }
      }
    }
    if bestName == "" {
      forall name | name in dir.files ensures !IsClosedSegmentName(name) {
        var j :| 0 <= j < |entries| && entries[j] == name;
      }
      return "";
    }
    ListedLatest(dir.files, entries, bestName, bestSeq);
    var man := ManifestNameFor(bestName);
    if man in dir.files && lib.decode(dir.files[man]).Some? {
      hash := lib.decode(dir.files[man]).value.sha256;
    } else {
      hash := lib.hash(dir.files[bestName]);
    }
    assert IsLatest(dir.files, bestName) && hash == RecordedHash(lib, dir.files, bestName);
  }

  /** A larger best name stays above everything the old one was above. */
  lemma BestAdvances(entries: seq<string>, i: nat, before: string, name: string)
    requires i < |entries| && name == entries[i]
    ensures StringLe(name, name)
    ensures !StringLe(name, before) ==> forall x :: StringLe(x, before) ==> StringLe(x, name)
  {
    StringLePreorder();
  }

  lemma ListedLatest(files: Dir, entries: seq<string>, best: string, bestSeq: nat)
    requires IsListing(entries, files) && best in entries && ParseSegmentSequence(best) == Some(bestSeq)
    requires forall j | 0 <= j < |entries| && IsClosedSegmentName(entries[j]) ::
      var s := ParseSegmentSequence(entries[j]).value;
      s < bestSeq || (s == bestSeq && StringLe(entries[j], best))
    ensures IsLatest(files, best)
  {
    forall other | other in files && IsClosedSegmentName(other)
      ensures var s := ParseSegmentSequence(other).value; s < bestSeq || (s == bestSeq && StringLe(other, best))
    {
      var j :| 0 <= j < |entries| && entries[j] == other;
    }
  }

  lemma ManifestIsNotActive(sequence: nat, stamp: Stamp)
    ensures ManifestNameFor(FormatSegmentName(sequence, stamp)) != ACTIVE_SEGMENT_NAME
  {
    SegmentNameEnds(sequence, stamp);
    ManifestLeadsBack(FormatSegmentName(sequence, stamp));
    ManifestNameIsNotClosed(ManifestNameFor(FormatSegmentName(sequence, stamp)));
  }

  class Writer {
    const lib: Lib
    const dir: Directory
    const cfg: Config
    var isOpen: bool
    var size: nat
    var records: nat
    var openedAt: Instant
    var nextSeq: nat
    var prevHash: string

    /** The fields as one value. */
    function State(): Mem
      reads this
    {
      Mem(cfg, isOpen, size, records, openedAt, nextSeq, prevHash)
    }

    /** OpenWriter. */
    constructor (lib: Lib, dir: Directory, cfg: Config, now: Instant)
      modifies dir
      ensures this.lib == lib && this.dir == dir
      ensures Opens(lib, old(dir.files), cfg, now, dir.files, State())
    {
      var highest := HighestSequence(dir);
      var hash := LatestSegmentHashByName(lib, dir);
      dir.files := WithActive(dir.files);
      var count := CountRecordsInFile(dir.files[ACTIVE_SEGMENT_NAME]);
      this.lib := lib;
      this.dir := dir;
      this.cfg := cfg;
      isOpen := true;
      size := |dir.files[ACTIVE_SEGMENT_NAME]|;
      records := count;
      openedAt := now;
      nextSeq := highest + 1;
      prevHash := hash;
    }

    method ReopenActive(now: Instant)
      modifies this, dir
      ensures Effect(dir.files, State(), Done) == Rotation.ReopenActive(old(dir.files), old(State()), now)
    {
      dir.files := WithActive(dir.files);
      isOpen := true;
      size := |dir.files[ACTIVE_SEGMENT_NAME]|;
      if size == 0 {
        records := 0;
        openedAt := now;
      } else {
        records := CountRecordsInFile(dir.files[ACTIVE_SEGMENT_NAME]);
      }
    }

    /** rotateLocked. */
    method Rotate(closedAt: Instant, reopenedAt: Instant, stop: Stop, random: string) returns (outcome: Outcome)
      requires Unused(dir.files, random) && (stop.Crash? ==> stop.random == random)
      modifies this, dir
      ensures Effect(dir.files, State(), outcome) == Rotation.Rotate(lib, old(dir.files), old(State()), closedAt, reopenedAt, stop)
    {
      hide FormatSegmentName, ManifestNameFor, IsManifestName, IsClosedSegmentName, TempName, CountRecords, Unused, HasSuffix, Rotation.PublishSegment;
      if !isOpen {
        return Failed;
      }
      if size == 0 {
        return Done;
      }
      isOpen := false;
      if StopsAt(stop, RotateAfterCloseActive) {
        return StoppedAs(stop);
      }
      if ACTIVE_SEGMENT_NAME !in dir.files {
        return Failed;
      }
      var sum := lib.hash(dir.files[ACTIVE_SEGMENT_NAME]);
      if StopsAt(stop, RotateAfterHash) {
        return StoppedAs(stop);
      }
      var segName := FormatSegmentName(nextSeq, closedAt.stamp);
      var manName := ManifestNameFor(segName);
      var manifest := SegmentManifest(SCHEMA_VERSION, segName, nextSeq, openedAt, closedAt, records, size, sum, prevHash);
      if StopsAt(stop, RotateBeforeManifest) {
        return StoppedAs(stop);
      }
      outcome := dir.WriteFileAtomic(manName, lib.encode(manifest), stop, random);
      if outcome == Crashed {
        return;
      }
      if outcome == Failed {
        ReopenActive(reopenedAt);
        return;
      }
      ManifestIsNotActive(nextSeq, closedAt.stamp);
      outcome := PublishSegment(manifest, closedAt, reopenedAt, stop);
    }

    /** The second half of rotateLocked: rename the body, advance the chain, open a fresh active file. */
    method PublishSegment(manifest: SegmentManifest, closedAt: Instant, reopenedAt: Instant, stop: Stop) returns (outcome: Outcome)
      requires ACTIVE_SEGMENT_NAME in dir.files && !isOpen
      modifies this, dir
      ensures Effect(dir.files, State(), outcome)
        == Rotation.PublishSegment(old(dir.files), old(State()), manifest, closedAt, reopenedAt, stop)
    {
      hide ManifestNameFor, CountRecords, Rotation.ReopenActive, StopsAt;
      if StopsAt(stop, RotateAfterManifest) {
        return StoppedAs(stop);
      }
      if StopsAt(stop, RotateBeforeSegmentRename) {
        return StoppedAs(stop);
      }
      if stop.RenameFails? {
        dir.files := dir.files - {ManifestNameFor(manifest.segment)};
        ReopenActive(reopenedAt);
        return Failed;
      }
      dir.files := (dir.files - {ACTIVE_SEGMENT_NAME})[manifest.segment := dir.files[ACTIVE_SEGMENT_NAME]];
      if StopsAt(stop, RotateAfterSegmentRename) {
        return StoppedAs(stop);
      }
      prevHash := manifest.sha256;
      nextSeq := nextSeq + 1;
      size := 0;
      records := 0;
      openedAt := closedAt;
      if StopsAt(stop, RotateBeforeOpenActive) {
        return StoppedAs(stop);
      }
      ReopenActive(reopenedAt);
      return Done;
    }

    /** Rotates when the next record would pass the size limit, or the segment is too old. */
    method MaybeRotate(next: nat, now: Instant, closedAt: Instant, reopenedAt: Instant, stop: Stop, random: string)
      returns (outcome: Outcome)
      requires Unused(dir.files, random) && (stop.Crash? ==> stop.random == random)
      modifies this, dir
      ensures Effect(dir.files, State(), outcome) ==
        if MustRotate(old(State()), next, now)
        then Rotation.Rotate(lib, old(dir.files), old(State()), closedAt, reopenedAt, stop)
        else Effect(old(dir.files), old(State()), Done)
    {
      hide Rotation.Rotate;
      if size == 0 {
        return Done;
      }
      if cfg.maxSizeBytes > 0 && size + next > cfg.maxSizeBytes {
        outcome := Rotate(closedAt, reopenedAt, stop, random);
        return;
      }
      if cfg.maxAge > 0 && now.nanos - openedAt.nanos >= cfg.maxAge {
        outcome := Rotate(closedAt, reopenedAt, stop, random);
        return;
      }
      return Done;
    }

    method WriteRecord(record: Bytes, now: Instant, closedAt: Instant, reopenedAt: Instant, stop: Stop, random: string)
      returns (outcome: Outcome)
      requires Unused(dir.files, random) && (stop.Crash? ==> stop.random == random)
      modifies this, dir
      ensures Effect(dir.files, State(), outcome)
        == Rotation.WriteRecord(lib, old(dir.files), old(State()), record, now, closedAt, reopenedAt, stop)
    {
      hide Rotation.Rotate, MustRotate;
      if !isOpen || |record| == 0 {
        return Failed;
      }
      var payload := record;
      if payload[|payload| - 1] != NEWLINE {
        payload := record + [NEWLINE];
      }
      outcome := MaybeRotate(|payload|, now, closedAt, reopenedAt, stop, random);
      if outcome != Done {
        return;
      }
      if ACTIVE_SEGMENT_NAME in dir.files {
        dir.files := dir.files[ACTIVE_SEGMENT_NAME := dir.files[ACTIVE_SEGMENT_NAME] + payload];
      }
      size := size + |payload|;
      records := records + 1;
      return Done;
    }

    method Close(closedAt: Instant, reopenedAt: Instant, stop: Stop, random: string) returns (outcome: Outcome)
      requires Unused(dir.files, random) && (stop.Crash? ==> stop.random == random)
      modifies this, dir
      ensures Effect(dir.files, State(), outcome) == Rotation.Close(lib, old(dir.files), old(State()), closedAt, reopenedAt, stop)
    {
      if !isOpen {
        return Done;
      }
      outcome := Done;
      if size > 0 {
        outcome := Rotate(closedAt, reopenedAt, stop, random);
        if outcome == Crashed {
          return;
        }
      }
      isOpen := false;
    }
  }
}
