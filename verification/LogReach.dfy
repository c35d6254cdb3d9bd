/** Runs that fill the log: any number of closed segments up to the last that can be named, and one more. */
module LogReach {
  import opened Wrappers
  import opened Segments
  import opened Rotation
  import opened LogInvariant
  import opened LogRuns

  const STAMP: Stamp := "20260101T000000Z"
  const NOON := Instant(0, STAMP)
  const NO_LIMITS := Config(0, 0)
  const RECORD: Bytes := [NEWLINE]

  const OPEN := OpenEvent(NO_LIMITS, NOON)
  const WRITE := WriteEvent(RECORD, NOON, NOON, NOON, Never)
  const ROTATE := RotateEvent(NOON, NOON, Never)

  /** An open writer without limits whose log has n closed segments of one record each. */
  ghost predicate Filled(lib: Lib, s: Sys, log: Log, n: nat) {
    && Good(lib, s, log)
    && s.proc.Some? && s.proc.value.isOpen && s.proc.value.cfg == NO_LIMITS
    && |log.closed| == n && forall i | 0 <= i < n :: log.closed[i].records == [RECORD]
  }

  lemma Opened(lib: Lib) returns (s: Sys)
    requires lib.Sound()
    ensures Step(lib, START, OPEN, s) && Filled(lib, s, EMPTY_LOG, 0)
  {
    var mem := Mem(NO_LIMITS, true, 0, 0, NOON, 1, "");
    s := Sys(map[ACTIVE_SEGMENT_NAME := []], Some(mem), []);
    assert WithActive(map[]) == s.disk;
    ActiveIsNotClosed();
    assert IsHighest(map[], 0);
  }

  lemma Wrote(lib: Lib, s: Sys, log: Log, n: nat) returns (s': Sys)
    requires lib.Sound() && Filled(lib, s, log, n) && log.active == []
    ensures Step(lib, s, WRITE, s') && !Rotates(s, WRITE) && Filled(lib, s', Log(log.closed, [RECORD]), n)
  {
    hide Holds, Agrees, ClosedRecords, Append;
    var mem := s.proc.value;
    assert Payload(RECORD) == RECORD;
    PayloadIsRecord(RECORD);
    AppendKeeps(lib, s.disk, mem, RECORD, log);
    AppendCfg(s.disk, mem, RECORD);
    assert [] + [RECORD] == [RECORD];
    var e := Append(s.disk, mem, RECORD);
    assert WriteRecord(lib, s.disk, mem, RECORD, NOON, NOON, NOON, Never) == e;
    AppendStaysOpen(s.disk, mem, RECORD);
    s' := Sys(e.disk, Some(e.mem), s.acked + [RECORD]);
  }

  lemma AppendStaysOpen(disk: Dir, mem: Mem, payload: Bytes)
    ensures Append(disk, mem, payload).mem.isOpen == mem.isOpen
  {
  }

  lemma Rotated(lib: Lib, s: Sys, log: Log, n: nat) returns (s': Sys, log': Log)
    requires lib.Sound() && Filled(lib, s, log, n) && log.active == [RECORD] && n < 999_999
    ensures HasRoom(s, ROTATE) && Step(lib, s, ROTATE, s') && Filled(lib, s', log', n + 1) && log'.active == []
  {
    hide Holds, Rotate, ClosedRecords;
    var mem := s.proc.value;
    var e := Rotate(lib, s.disk, mem, NOON, NOON, Never);
    assert Concat([RECORD]) == RECORD by { ConcatAppend([], RECORD); ConcatNone(); assert [] + [RECORD] == [RECORD]; }
    RotateDone(lib, s.disk, mem);
    log' := RotateKeeps(lib, s.disk, mem, NOON, NOON, Never, log);
    s' := After(s, e);
  }

  lemma RotateDone(lib: Lib, disk: Dir, mem: Mem)
    requires mem.isOpen && mem.size > 0 && ACTIVE_SEGMENT_NAME in disk
    ensures Rotate(lib, disk, mem, NOON, NOON, Never).outcome == Done
  {
    hide FormatSegmentName, ManifestNameFor, CountRecords;
    var manName := ManifestNameFor(NewManifest(lib, disk, mem, NOON).segment);
    assert ACTIVE_SEGMENT_NAME in disk[manName := lib.encode(NewManifest(lib, disk, mem, NOON))];
  }

  /** A run ends in s, never stopped between manifest and rename. */
  ghost predicate Reaches(lib: Lib, states: seq<Sys>, events: seq<Event>, s: Sys) {
    Run(lib, states, events) && states[|events|] == s && forall i | 0 <= i < |events| :: !LeavesManifest(StopOf(events[i]))
  }

  lemma OneMore(lib: Lib, states: seq<Sys>, events: seq<Event>, s: Sys, e: Event, s': Sys)
    requires Reaches(lib, states, events, s) && HasRoom(s, e) && Step(lib, s, e, s') && StopOf(e) == Never
    ensures Reaches(lib, states + [s'], events + [e], s')
  {
    hide Step, HasRoom;
  }

  /** Every number of segments that can be named is reached. */
  lemma {:induction false} ReachSegments(lib: Lib, n: nat) returns (states: seq<Sys>, events: seq<Event>, s: Sys, log: Log)
    requires lib.Sound() && n <= 999_999
    ensures Reaches(lib, states, events, s) && Filled(lib, s, log, n) && log.active == []
  {
    if n == 0 {
      s := Opened(lib);
      log := EMPTY_LOG;
      assert Reaches(lib, [START], [], START);
      OneMore(lib, [START], [], START, OPEN, s);
      states, events := [START] + [s], [] + [OPEN];
    } else {
      hide Reaches, Filled, Step, HasRoom, Rotates;
      var before, done, s0, log0 := ReachSegments(lib, n - 1);
      var s1 := Wrote(lib, s0, log0, n - 1);
      QuietHasRoom(s0, WRITE);
      OneMore(lib, before, done, s0, WRITE, s1);
      var s2, log2 := Rotated(lib, s1, Log(log0.closed, [RECORD]), n - 1);
      OneMore(lib, before + [s1], done + [WRITE], s1, ROTATE, s2);
      states, events, s, log := before + [s1] + [s2], done + [WRITE] + [ROTATE], s2, log2;
    }
  }

  lemma QuietHasRoom(s: Sys, e: Event)
    requires !Rotates(s, e)
    ensures HasRoom(s, e)
  {
  }

  /**
   * A run of 999999 rotations and one more write: the next rotation succeeds, and the directory then
   * shows every acknowledged record but the last.
   */
  lemma LimitReached(lib: Lib) returns (states: seq<Sys>, events: seq<Event>, s: Sys, log: Log)
    requires lib.Sound()
    ensures Reaches(lib, states, events, s) && Good(lib, s, log) && |log.closed| == 999_999 && log.active == [RECORD]
    ensures s.proc.Some?
    ensures var e := Rotate(lib, s.disk, s.proc.value, NOON, NOON, Never);
      e.outcome == Done && Holds(lib, e.disk, Log(log.closed, [])) && s.acked == ClosedRecords(log.closed) + [RECORD]
  {
    hide Reaches, Step, HasRoom, Rotates, Holds, Rotate;
    var before, done, s0, log0 := ReachSegments(lib, 999_999);
    s := Wrote(lib, s0, log0, 999_999);
    QuietHasRoom(s0, WRITE);
    OneMore(lib, before, done, s0, WRITE, s);
    states, events, log := before + [s], done + [WRITE], Log(log0.closed, [RECORD]);
    assert Concat([RECORD]) == RECORD by { ConcatAppend([], RECORD); ConcatNone(); assert [] + [RECORD] == [RECORD]; }
    PastTheLimit(lib, s.disk, s.proc.value, NOON, NOON, log);
  }
}
