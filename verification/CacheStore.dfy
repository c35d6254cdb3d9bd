/**
 * The cache operations called one after another (internal/cache/wasm_cache.go): together they are
 * a map whose entries expire, and Get and Set are runs of the interleaved steps.
 */
module CacheStore {
  import opened Wrappers
  import opened CacheKeys
  import opened WasmCache

  datatype CacheError = InvalidKey(error: KeyError) | EmptyPayload | WriteFailed

  /** What a map with expiry answers for p at this time. */
  function Live(entries: map<Path, Entry>, p: Path, now: int): Option<Entry> {
    if p in entries && now <= entries[p].expiresAt then Some(entries[p]) else None
  }

  /** The steps lead from one state to the other. */
  ghost predicate Leads(lib: EntryLib, s: State, steps: seq<Step>, s': State)
    decreases |steps|
  {
    if steps == [] then s == s'
    else exists mid :: Next(lib, s, steps[0], mid) && Leads(lib, mid, steps[1..], s')
  }

  lemma LeadsCons(lib: EntryLib, s: State, a: Step, mid: State, steps: seq<Step>, s': State)
    requires Next(lib, s, a, mid) && Leads(lib, mid, steps, s')
    ensures Leads(lib, s, [a] + steps, s')
  {
    hide Next;
    assert ([a] + steps)[1..] == steps;
  }

  lemma LeadsTwo(lib: EntryLib, s0: State, a: Step, s1: State, b: Step, s2: State)
    requires Next(lib, s0, a, s1) && Next(lib, s1, b, s2)
    ensures Leads(lib, s0, [a, b], s2)
  {
    hide Next;
    assert Leads(lib, s2, [], s2);
    LeadsCons(lib, s1, b, s2, [], s2);
    LeadsCons(lib, s0, a, s1, [b] + [], s2);
    assert [a] + ([b] + []) == [a, b];
  }

  lemma LeadsThree(lib: EntryLib, s0: State, a: Step, s1: State, b: Step, s2: State, c: Step, s3: State)
    requires Next(lib, s0, a, s1) && Next(lib, s1, b, s2) && Next(lib, s2, c, s3)
    ensures Leads(lib, s0, [a, b, c], s3)
  {
    hide Next, Leads;
    LeadsTwo(lib, s1, b, s2, c, s3);
    LeadsCons(lib, s0, a, s1, [b, c], s3);
    assert [a] + [b, c] == [a, b, c];
  }

  /** With nothing in flight. */
  function Quiet(disk: Disk, last: map<Path, Entry>): State {
    State(disk, map[], last)
  }

  /** A Get alone: read, judge, and where the file is no good, remove it. */
  function GetSteps(lib: EntryLib, disk: Disk, key: CacheKey, now: int): seq<Step>
    requires Validate(key).None?
  {
    var p := PathOf(lib, key);
    if Judge(lib, Lookup(disk, p), p.digest, now).MissAndRemove?
    then [GetRead(0, key), GetJudge(0, now), Remove(0)]
    else [GetRead(0, key), GetJudge(0, now)]
  }

  lemma GetLeads(lib: EntryLib, disk: Disk, last: map<Path, Entry>, key: CacheKey, now: int)
    requires Validate(key).None?
    ensures var p := PathOf(lib, key);
      Leads(lib, Quiet(disk, last), GetSteps(lib, disk, key, now),
            Quiet(if Judge(lib, Lookup(disk, p), p.digest, now).MissAndRemove? then disk - {p} else disk, last))
  {
    hide Judge, Validate, Digest, Leads;
    var p, s0 := PathOf(lib, key), Quiet(disk, last);
    var s1 := s0.(pending := map[0 := Reading(p, key, Lookup(disk, p), Last(s0, p))]);
    assert Next(lib, s0, GetRead(0, key), s1);
    if Judge(lib, Lookup(disk, p), p.digest, now).MissAndRemove? {
      var s2 := s0.(pending := map[0 := Removing(p)]);
      assert Next(lib, s1, GetJudge(0, now), s2);
      var s3 := Quiet(disk - {p}, last);
      assert Next(lib, s2, Remove(0), s3);
      LeadsThree(lib, s0, GetRead(0, key), s1, GetJudge(0, now), s2, Remove(0), s3);
    } else {
      assert Next(lib, s1, GetJudge(0, now), s0);
      LeadsTwo(lib, s0, GetRead(0, key), s1, GetJudge(0, now), s0);
    }
  }

  function SetStepsOf(key: CacheKey, payload: string, now: int, ttl: int, fails: bool): seq<Step> {
    if fails then [SetWrite(0, key, payload, now, ttl, 0), SetFail(0), Remove(0)]
    else [SetWrite(0, key, payload, now, ttl, 0), SetFlush(0), SetRename(0)]
  }

  lemma SetLeads(lib: EntryLib, disk: Disk, last: map<Path, Entry>, key: CacheKey, payload: string, now: int, ttl: int)
    requires Validate(key).None? && payload != "" && TempOf(PathOf(lib, key)) !in disk
    ensures var p, e := PathOf(lib, key), NewEntry(lib, key, payload, now, ttl);
      Leads(lib, Quiet(disk, last), SetStepsOf(key, payload, now, ttl, false), Quiet(disk[p := lib.encode(e)], last[p := e]))
  {
    hide Judge, Validate, Digest, Leads, Next, NewEntry;
    var p, e, s0 := PathOf(lib, key), NewEntry(lib, key, payload, now, ttl), Quiet(disk, last);
    SetSteps(lib, s0, 0, key, payload, now, ttl);
    var s1 := State(disk[TempOf(p) := []], map[0 := Writing(p, e, false)], last);
    var s2 := State(disk[TempOf(p) := lib.encode(e)], map[0 := Writing(p, e, true)], last);
    LeadsThree(lib, s0, SetWrite(0, key, payload, now, ttl, 0), s1, SetFlush(0), s2, SetRename(0), Quiet(disk[p := lib.encode(e)], last[p := e]));
  }

  lemma SetFailLeads(lib: EntryLib, disk: Disk, last: map<Path, Entry>, key: CacheKey, payload: string, now: int, ttl: int)
    requires Validate(key).None? && payload != "" && TempOf(PathOf(lib, key)) !in disk
    ensures Leads(lib, Quiet(disk, last), SetStepsOf(key, payload, now, ttl, true), Quiet(disk, last))
  {
    var p, e, s0 := PathOf(lib, key), NewEntry(lib, key, payload, now, ttl), Quiet(disk, last);
    hide Judge, Validate, Digest, Leads;
    SetSteps(lib, s0, 0, key, payload, now, ttl);
    var s1 := State(disk[TempOf(p) := []], map[0 := Writing(p, e, false)], last);
    var s2 := State(disk[TempOf(p) := []], map[0 := Removing(TempOf(p))], last);
    assert Next(lib, s1, SetFail(0), s2);
    assert disk[TempOf(p) := []] - {TempOf(p)} == disk;
    assert Next(lib, s2, Remove(0), s0);
    LeadsThree(lib, s0, SetWrite(0, key, payload, now, ttl, 0), s1, SetFail(0), s2, Remove(0), s0);
  }

  /** The disk holds whole entries, and lacks only entries that had expired by now. */
  ghost predicate Represents(lib: EntryLib, disk: Disk, entries: map<Path, Entry>, now: int) {
    && (forall p | p in entries :: Proper(lib, p, entries[p]))
    && (forall p | p in disk :: p in entries && disk[p] == lib.encode(entries[p]))
    && (forall p | p in entries && p !in disk :: entries[p].expiresAt < now)
  }

  lemma RepresentsSet(lib: EntryLib, disk: Disk, entries: map<Path, Entry>, now: int, p: Path, e: Entry)
    requires Represents(lib, disk, entries, now) && Proper(lib, p, e)
    ensures Represents(lib, disk[p := lib.encode(e)], entries[p := e], now)
  {
    hide Proper;
  }

  lemma RepresentsLater(lib: EntryLib, disk: Disk, entries: map<Path, Entry>, now: int, later: int)
    requires Represents(lib, disk, entries, now) && now <= later
    ensures Represents(lib, disk, entries, later)
  {
    hide Proper;
  }

  lemma RepresentsDropped(lib: EntryLib, disk: Disk, entries: map<Path, Entry>, now: int, p: Path)
    requires Represents(lib, disk, entries, now) && p in entries && entries[p].expiresAt < now
    ensures Represents(lib, disk - {p}, entries, now)
  {
    hide Proper;
  }

  lemma RepresentsForgotten(lib: EntryLib, disk: Disk, entries: map<Path, Entry>, now: int, p: Path)
    requires Represents(lib, disk, entries, now)
    ensures Represents(lib, disk - {p}, entries - {p}, now)
  {
    hide Proper;
  }

  lemma NoTempFile(lib: EntryLib, disk: Disk, entries: map<Path, Entry>, now: int, p: Path)
    requires Represents(lib, disk, entries, now)
    ensures TempOf(p) !in disk
  {
  }

  lemma EntriesApart(lib: EntryLib, key: CacheKey)
    requires Validate(key).None?
    ensures PathOf(lib, key) != TempOf(PathOf(lib, key))
  {
  }

  /** The directory walk: every file once, in any order. */
  ghost predicate Walks(files: seq<Path>, disk: Disk) {
    && (forall p :: p in files <==> p in disk)
    && (forall i, j | 0 <= i < j < |files| :: files[i] != files[j])
  }

  class Cache {
    const lib: EntryLib
    const ttl: int
    var disk: Disk
    /** The entry of the last Set of each path that has not been invalidated since. */
    ghost var entries: map<Path, Entry>
    /** The latest time any operation has seen. */
    ghost var clock: int

    ghost predicate Valid()
      reads this
    {
      lib.Sound() && Represents(lib, disk, entries, clock)
    }

    constructor (lib: EntryLib, ttl: int, now: int)
      requires lib.Sound()
      ensures Valid() && this.lib == lib && this.ttl == ttl && entries == map[] && clock == now
    {
      this.lib, this.ttl := lib, ttl;
      disk, entries, clock := map[], map[], now;
    }

    method Get(key: CacheKey, now: int) returns (r: Result<Option<Entry>, CacheError>)
      requires Valid() && clock <= now
      modifies this
      ensures Valid() && clock == now && entries == old(entries)
      ensures r == match Validate(key)
                   case Some(e) => Err(InvalidKey(e))
                   case None => Ok(Live(entries, PathOf(lib, key), now))
      ensures r.Ok? ==> Leads(lib, Quiet(old(disk), entries), GetSteps(lib, old(disk), key, now), Quiet(disk, entries))
      ensures r.Err? ==> disk == old(disk)
    {
      hide Validate, Digest, Proper, PathOf, Leads, GetSteps, Judge;
      clock := now;
      if Validate(key).Some? {
        return Err(InvalidKey(Validate(key).value));
      }
      var p := PathOf(lib, key);
      GetLeads(lib, disk, entries, key, now);
      var verdict := Judge(lib, Lookup(disk, p), p.digest, now);
      if p in disk {
        ReadBack(p, now);
      } else {
        JudgeNothing(lib, p.digest, now);
      }
      match verdict
      case Hit(e) => r := Ok(Some(e));
      case Miss => r := Ok(None);
      case MissAndRemove =>
        disk := disk - {p};
        r := Ok(None);
    }

    /** A stored entry reads back until it expires. */
    lemma ReadBack(p: Path, now: int)
      requires Valid() && p in disk
      ensures Judge(lib, Some(disk[p]), p.digest, now) == if now <= entries[p].expiresAt then Hit(entries[p]) else MissAndRemove
    {
      JudgeWhole(lib, p, entries[p], now);
    }

    lemma ParsedBack(p: Path)
      requires Valid() && p in disk
      ensures p in entries && ParseAndVerify(lib, disk[p]) == Some(entries[p])
    {
    }

    /** `fails` says that writing the temp file or renaming it failed. */
    method Set(key: CacheKey, payload: string, now: int, fails: bool) returns (r: Result<(), CacheError>)
      requires Valid() && clock <= now
      modifies this
      ensures Valid() && clock == now
      ensures r == match Validate(key)
                   case Some(e) => Err(InvalidKey(e))
                   case None => if payload == "" then Err(EmptyPayload) else if fails then Err(WriteFailed) else Ok(())
      ensures r.Ok? ==> entries == old(entries)[PathOf(lib, key) := NewEntry(lib, key, payload, now, ttl)]
      ensures r.Err? ==> entries == old(entries) && disk == old(disk)
      ensures r.Ok? || r.error.WriteFailed? ==>
        Leads(lib, Quiet(old(disk), old(entries)), SetStepsOf(key, payload, now, ttl, fails), Quiet(disk, entries))
    {
      hide Validate, Digest, Leads, SetStepsOf, Represents, Proper, NewEntry, PathOf;
      RepresentsLater(lib, disk, entries, clock, now);
      clock := now;
      if Validate(key).Some? {
        return Err(InvalidKey(Validate(key).value));
      }
      if payload == "" {
        return Err(EmptyPayload);
      }
      var p, e := PathOf(lib, key), NewEntry(lib, key, payload, now, ttl);
      var tmp := TempOf(p);
      ghost var was := disk;
      NoTempFile(lib, disk, entries, now, p);
      EntriesApart(lib, key);
      ProperNew(lib, key, payload, now, ttl);
      RepresentsSet(lib, disk, entries, now, p, e);
      disk := disk[tmp := lib.encode(e)];
      if fails {
        SetFailLeads(lib, was, entries, key, payload, now, ttl);
        disk := disk - {tmp};
        assert disk == was;
        return Err(WriteFailed);
      }
      SetLeads(lib, was, entries, key, payload, now, ttl);
      disk := disk[p := disk[tmp]] - {tmp};
      assert disk == was[p := lib.encode(e)];
      entries := entries[p := e];
      r := Ok(());
    }

    method Invalidate(key: CacheKey) returns (r: Result<(), CacheError>)
      requires Valid()
      modifies this
      ensures Valid() && clock == old(clock)
      ensures r == match Validate(key) case Some(e) => Err(InvalidKey(e)) case None => Ok(())
      ensures r.Ok? ==> entries == old(entries) - {PathOf(lib, key)} && disk == old(disk) - {PathOf(lib, key)}
      ensures r.Err? ==> entries == old(entries) && disk == old(disk)
    {
      match Validate(key)
      case Some(e) => r := Err(InvalidKey(e));
      case None =>
        RepresentsForgotten(lib, disk, entries, clock, PathOf(lib, key));
        hide Represents;
        disk, entries := disk - {PathOf(lib, key)}, entries - {PathOf(lib, key)};
        r := Ok(());
    }

    /** One file of the walk: a file that does not parse, or has expired, is removed. */
    method PurgeFile(p: Path, now: int) returns (removed: bool)
      requires Valid() && clock == now && p in disk
      modifies this`disk
      ensures Valid() && p in entries && removed == (now > entries[p].expiresAt)
      ensures disk == if removed then old(disk) - {p} else old(disk)
      ensures |disk| == |old(disk)| - if removed then 1 else 0
    {
      hide Represents, ParseAndVerify;
      Covered(lib, disk, entries, now);
      ParsedBack(p);
      var entry := ParseAndVerify(lib, disk[p]);
      removed := entry.None? || now > entry.value.expiresAt;
      if removed {
        RepresentsDropped(lib, disk, entries, now, p);
        OneLess(disk, p);
        disk := disk - {p};
      }
    }

    /** `files` is the directory walk: every file once, in any order. */
    method PurgeExpired(files: seq<Path>, now: int) returns (count: nat)
      requires Valid() && clock <= now && Walks(files, disk)
      modifies this
      ensures Valid() && clock == now && entries == old(entries)
      ensures forall p :: p in disk <==> p in old(disk) && p in entries && now <= entries[p].expiresAt
      ensures forall p | p in disk :: disk[p] == old(disk)[p]
      ensures count == |old(disk)| - |disk|
    {
      hide Represents;
      RepresentsLater(lib, disk, entries, clock, now);
      clock := now;
      count := 0;
      Covered(lib, disk, entries, now);
      for i := 0 to |files|
        invariant Valid() && clock == now && entries == old(entries)
        invariant count == |old(disk)| - |disk|
        invariant forall p | p in disk :: p in old(disk) && disk[p] == old(disk)[p]
        invariant forall k | 0 <= k < i :: files[k] in disk <==> now <= entries[files[k]].expiresAt
        invariant forall k | i <= k < |files| :: files[k] in disk
      {
        var removed := PurgeFile(files[i], now);
        if removed {
          count := count + 1;
        }
      }
    }
  }

  lemma Covered(lib: EntryLib, disk: Disk, entries: map<Path, Entry>, now: int)
    requires Represents(lib, disk, entries, now)
    ensures disk.Keys <= entries.Keys
  {
  }

  lemma OneLess(m: Disk, p: Path)
    requires p in m
    ensures |m - {p}| == |m| - 1
  {
    assert (m - {p}).Keys == m.Keys - {p};
    Sizes(m);
    Sizes(m - {p});
  }

  lemma Sizes(m: Disk)
    ensures |m| == |m.Keys|
  {
  }
}
