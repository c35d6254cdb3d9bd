/**
 * The disk-backed cache (internal/cache/wasm_cache.go) as interleaved steps: reads hold the lock,
 * but removals do not, so a slow reader can remove a file written after it looked.
 */
module WasmCache {
  import opened Wrappers
  import opened CacheKeys

  datatype Entry = Entry(key: CacheKey, digest: string, payload: string, payloadHash: string, cachedAt: int, expiresAt: int)

  /** JSON coding of entries on top of the key library. */
  datatype EntryLib = EntryLib(keys: Lib, encode: Entry -> string, decode: string -> Option<Entry>)
  {
    /** Entries read back, and a truncated file does not parse. */
    ghost predicate Sound() {
      && keys.Sound()
      && (forall e :: decode(encode(e)) == Some(e))
      && (forall e, s :: s < encode(e) ==> decode(s) == None)
    }
  }

  /** The files below the cache directory. */
  datatype Path = EntryPath(kind: string, digest: string) | TempPath(kind: string, digest: string)

  type Disk = map<Path, string>

  function PathOf(lib: EntryLib, key: CacheKey): Path
    requires Validate(key).None?
  {
    EntryPath(key.kind, Digest(lib.keys, key).value)
  }

  function ParseAndVerify(lib: EntryLib, raw: string): Option<Entry> {
    match lib.decode(raw)
    case None => None
    case Some(e) =>
      if e.key.schemaVersion != CACHE_KEY_VERSION then None
      else if e.payload == "" then None
      else if lib.keys.sha(e.payload) != e.payloadHash then None
      else Some(e)
  }

  /** What Get makes of the bytes it read: a hit, a plain miss, or a miss that removes the file. */
  datatype Verdict = Hit(entry: Entry) | Miss | MissAndRemove

  function Judge(lib: EntryLib, raw: Option<string>, digest: string, now: int): Verdict {
    match raw
    case None => Miss
    case Some(text) =>
      match ParseAndVerify(lib, text)
      case None => MissAndRemove
      case Some(e) =>
        if now > e.expiresAt then MissAndRemove
        else if e.digest != digest then MissAndRemove
        else Hit(e)
  }

  function NewEntry(lib: EntryLib, key: CacheKey, payload: string, now: int, ttl: int): Entry
    requires Validate(key).None?
  {
    Entry(key, Digest(lib.keys, key).value, payload, lib.keys.sha(payload), now, now + ttl)
  }

  // ---- the interleaved system ----

  /** One operation in flight, identified by a thread number. */
  datatype Pending =
    | Reading(path: Path, key: CacheKey, raw: Option<string>, latest: Option<Entry>)
    | Removing(target: Path)
    | Writing(dest: Path, entry: Entry, whole: bool)

  /**
   * The disk, the operations in flight, and for each entry path the entry of the last Set whose
   * rename took effect. `latest` in Reading is that entry at the moment of the read. A Set writes its
   * temp file in two pieces, so that others can see it half written; one whose write or rename fails
   * gives up the lock before it removes that file.
   */
  datatype State = State(disk: Disk, pending: map<nat, Pending>, last: map<Path, Entry>)

  const EMPTY := State(map[], map[], map[])

  function Last(s: State, p: Path): Option<Entry> {
    if p in s.last then Some(s.last[p]) else None
  }

  function Lookup(disk: Disk, p: Path): Option<string> {
    if p in disk then Some(disk[p]) else None
  }

  datatype Step =
    | GetRead(tid: nat, key: CacheKey)
    | GetJudge(tid: nat, now: int)
    | Remove(tid: nat)
    | SetWrite(tid: nat, key: CacheKey, payload: string, now: int, ttl: int, cut: nat)
    | SetFlush(tid: nat)
    | SetRename(tid: nat)
    | SetFail(tid: nat)
    | Invalidate(tid: nat, key: CacheKey)
    | PurgeRead(tid: nat, path: Path, now: int)
    | Truncate(path: Path, text: string)

  /** A Set between its two file operations holds the write lock. */
  predicate Locked(s: State) {
    exists tid :: tid in s.pending && s.pending[tid].Writing?
  }

  /** A Set is half way through writing this file. */
  predicate BeingWritten(s: State, path: Path) {
    exists tid :: tid in s.pending && s.pending[tid].Writing? && !s.pending[tid].whole && TempOf(s.pending[tid].dest) == path
  }

  ghost predicate Next(lib: EntryLib, s: State, a: Step, s': State) {
    match a
    case GetRead(tid, key) =>
      && tid !in s.pending && Validate(key).None? && !Locked(s)
      && var p := PathOf(lib, key);
        s' == s.(pending := s.pending[tid := Reading(p, key, Lookup(s.disk, p), Last(s, p))])
    case GetJudge(tid, now) =>
      && tid in s.pending && s.pending[tid].Reading? && s.pending[tid].path.EntryPath?
      && s' == s.(pending :=
        if Judge(lib, s.pending[tid].raw, s.pending[tid].path.digest, now).MissAndRemove?
        then s.pending[tid := Removing(s.pending[tid].path)] else s.pending - {tid})
    case Remove(tid) =>
      && tid in s.pending && s.pending[tid].Removing?
      && s' == s.(disk := s.disk - {s.pending[tid].target}, pending := s.pending - {tid})
    case SetWrite(tid, key, payload, now, ttl, cut) =>
      && tid !in s.pending && Validate(key).None? && payload != "" && !Locked(s)
      && var e := NewEntry(lib, key, payload, now, ttl);
        && cut <= |lib.encode(e)|
        && s' == s.(
          disk := s.disk[TempPath(key.kind, e.digest) := lib.encode(e)[..cut]],
          pending := s.pending[tid := Writing(PathOf(lib, key), e, false)])
    case SetFlush(tid) =>
      && tid in s.pending && s.pending[tid].Writing? && !s.pending[tid].whole
      && var w := s.pending[tid];
        s' == s.(
          disk := if TempOf(w.dest) in s.disk then s.disk[TempOf(w.dest) := lib.encode(w.entry)] else s.disk,
          pending := s.pending[tid := w.(whole := true)])
    case SetRename(tid) =>
      && tid in s.pending && s.pending[tid].Writing? && s.pending[tid].whole
      && var w := s.pending[tid];
        && TempOf(w.dest) in s.disk
        && s' == State(
          s.disk[w.dest := s.disk[TempOf(w.dest)]] - {TempOf(w.dest)},
          s.pending - {tid},
          s.last[w.dest := w.entry])
    case SetFail(tid) =>
      && tid in s.pending && s.pending[tid].Writing?
      && s' == s.(pending := s.pending[tid := Removing(TempOf(s.pending[tid].dest))])
    case Invalidate(tid, key) =>
      tid !in s.pending && Validate(key).None? && s' == s.(pending := s.pending[tid := Removing(PathOf(lib, key))])
    case PurgeRead(tid, path, now) =>
      && tid !in s.pending && path in s.disk
      && s' ==
        (match ParseAndVerify(lib, s.disk[path])
         case None => s.(pending := s.pending[tid := Removing(path)])
         case Some(e) => if now > e.expiresAt then s.(pending := s.pending[tid := Removing(path)]) else s)
    case Truncate(path, text) =>
      path in s.disk && text < s.disk[path] && !BeingWritten(s, path) && s' == s.(disk := s.disk[path := text])
  }

  function TempOf(p: Path): Path {
    TempPath(p.kind, p.digest)
  }

  /** The steps lead from s through the states, one after another. */
  ghost predicate Continues(lib: EntryLib, s: State, states: seq<State>, steps: seq<Step>) {
    && |states| == |steps| + 1 && states[0] == s
    && forall i | 0 <= i < |steps| :: Next(lib, states[i], steps[i], states[i + 1])
  }

  /** A run from an empty cache directory. */
  ghost predicate Run(lib: EntryLib, states: seq<State>, steps: seq<Step>) {
    Continues(lib, EMPTY, states, steps)
  }

  // ---- what every interleaving keeps ----

  /** An entry as Set builds it for the path it is stored under. */
  predicate Proper(lib: EntryLib, p: Path, e: Entry) {
    && Validate(e.key).None? && PathOf(lib, e.key) == p && e.digest == p.digest
    && e.key.schemaVersion == CACHE_KEY_VERSION && e.payload != ""
    && e.payloadHash == lib.keys.sha(e.payload)
  }

  /** text is the whole of e, or a truncation of it. */
  predicate PrefixOf(lib: EntryLib, text: string, e: Entry) {
    text <= lib.encode(e)
  }

  ghost predicate Inv(lib: EntryLib, s: State) {
    && (forall p | p in s.last :: Proper(lib, p, s.last[p]))
    && (forall p | p in s.disk && p.EntryPath? :: p in s.last && PrefixOf(lib, s.disk[p], s.last[p]))
    && (forall tid | tid in s.pending && s.pending[tid].Reading? :: ReadSound(lib, s.pending[tid]))
    && (forall tid | tid in s.pending && s.pending[tid].Writing? ::
         && Proper(lib, s.pending[tid].dest, s.pending[tid].entry)
         && (TempOf(s.pending[tid].dest) in s.disk ==> PrefixOf(lib, s.disk[TempOf(s.pending[tid].dest)], s.pending[tid].entry)))
    && (forall t, u | t in s.pending && u in s.pending && s.pending[t].Writing? && s.pending[u].Writing? :: t == u)
  }

  /** What a reader holds is the last entry at the time of the read, or a truncation of it. */
  predicate ReadSound(lib: EntryLib, r: Pending)
    requires r.Reading?
  {
    && Validate(r.key).None? && PathOf(lib, r.key) == r.path
    && (r.raw.Some? ==> r.latest.Some? && Proper(lib, r.path, r.latest.value) && PrefixOf(lib, r.raw.value, r.latest.value))
  }

  lemma EmptyInv(lib: EntryLib)
    ensures Inv(lib, EMPTY)
  {
  }

  lemma ProperNew(lib: EntryLib, key: CacheKey, payload: string, now: int, ttl: int)
    requires Validate(key).None? && payload != ""
    ensures Proper(lib, PathOf(lib, key), NewEntry(lib, key, payload, now, ttl))
    ensures TempOf(PathOf(lib, key)) == TempPath(key.kind, NewEntry(lib, key, payload, now, ttl).digest)
  {
  }

  lemma EntryPaths(lib: EntryLib, key: CacheKey)
    requires Validate(key).None?
    ensures PathOf(lib, key).EntryPath?
  {
  }

  // One lemma a step: each keeps the invariant, whatever else is in flight.

  lemma GetReadKeeps(lib: EntryLib, s: State, a: Step, s': State)
    requires Inv(lib, s) && a.GetRead? && Next(lib, s, a, s')
    ensures Inv(lib, s')
  {
    hide Proper, ParseAndVerify, Judge, Validate, Digest, NewEntry, PathOf;
    EntryPaths(lib, a.key);
  }

  lemma GetJudgeKeeps(lib: EntryLib, s: State, a: Step, s': State)
    requires Inv(lib, s) && a.GetJudge? && Next(lib, s, a, s')
    ensures Inv(lib, s')
  {
    hide Proper, ParseAndVerify, Judge, Validate, Digest, NewEntry, PathOf, ReadSound;
  }

  lemma RemoveKeeps(lib: EntryLib, s: State, a: Step, s': State)
    requires Inv(lib, s) && a.Remove? && Next(lib, s, a, s')
    ensures Inv(lib, s')
  {
    hide Proper, ParseAndVerify, Judge, Validate, Digest, NewEntry, PathOf, ReadSound;
  }

  lemma SetWriteKeeps(lib: EntryLib, s: State, a: Step, s': State)
    requires Inv(lib, s) && a.SetWrite? && Next(lib, s, a, s')
    ensures Inv(lib, s')
  {
    hide Proper, ParseAndVerify, Judge, Validate, Digest, NewEntry, PathOf, ReadSound;
    ProperNew(lib, a.key, a.payload, a.now, a.ttl);
  }

  lemma SetFlushKeeps(lib: EntryLib, s: State, a: Step, s': State)
    requires Inv(lib, s) && a.SetFlush? && Next(lib, s, a, s')
    ensures Inv(lib, s')
  {
    hide Proper, ParseAndVerify, Judge, Validate, Digest, NewEntry, PathOf, ReadSound;
  }

  lemma SetRenameKeeps(lib: EntryLib, s: State, a: Step, s': State)
    requires Inv(lib, s) && a.SetRename? && Next(lib, s, a, s')
    ensures Inv(lib, s')
  {
    hide Proper, ParseAndVerify, Judge, Validate, Digest, NewEntry, PathOf, ReadSound;
  }

  lemma SetFailKeeps(lib: EntryLib, s: State, a: Step, s': State)
    requires Inv(lib, s) && a.SetFail? && Next(lib, s, a, s')
    ensures Inv(lib, s')
  {
    hide Proper, ParseAndVerify, Judge, Validate, Digest, NewEntry, PathOf, ReadSound;
  }

  lemma InvalidateKeeps(lib: EntryLib, s: State, a: Step, s': State)
    requires Inv(lib, s) && a.Invalidate? && Next(lib, s, a, s')
    ensures Inv(lib, s')
  {
    hide Proper, ParseAndVerify, Judge, Validate, Digest, NewEntry, PathOf, ReadSound;
  }

  lemma PurgeReadKeeps(lib: EntryLib, s: State, a: Step, s': State)
    requires Inv(lib, s) && a.PurgeRead? && Next(lib, s, a, s')
    ensures Inv(lib, s')
  {
    hide Proper, ParseAndVerify, Judge, Validate, Digest, NewEntry, PathOf, ReadSound;
  }

  lemma TruncateKeeps(lib: EntryLib, s: State, a: Step, s': State)
    requires Inv(lib, s) && a.Truncate? && Next(lib, s, a, s')
    ensures Inv(lib, s')
  {
    hide Proper, ParseAndVerify, Judge, Validate, Digest, NewEntry, PathOf, ReadSound;
  }

  /** Every step keeps the invariant, whatever else is in flight. */
  lemma NextKeeps(lib: EntryLib, s: State, a: Step, s': State)
    requires Inv(lib, s) && Next(lib, s, a, s')
    ensures Inv(lib, s')
  {
    hide Inv, Next;
    match a
    case GetRead(_, _) => GetReadKeeps(lib, s, a, s');
    case GetJudge(_, _) => GetJudgeKeeps(lib, s, a, s');
    case Remove(_) => RemoveKeeps(lib, s, a, s');
    case SetWrite(_, _, _, _, _, _) => SetWriteKeeps(lib, s, a, s');
    case SetFlush(_) => SetFlushKeeps(lib, s, a, s');
    case SetRename(_) => SetRenameKeeps(lib, s, a, s');
    case SetFail(_) => SetFailKeeps(lib, s, a, s');
    case Invalidate(_, _) => InvalidateKeeps(lib, s, a, s');
    case PurgeRead(_, _, _) => PurgeReadKeeps(lib, s, a, s');
    case Truncate(_, _) => TruncateKeeps(lib, s, a, s');
  }

  lemma {:induction false} RunInv(lib: EntryLib, states: seq<State>, steps: seq<Step>)
    requires Run(lib, states, steps)
    ensures Inv(lib, states[|steps|])
  {
    hide Inv, Next;
    if steps == [] {
      EmptyInv(lib);
    } else {
      var n := |steps| - 1;
      RunInv(lib, states[..n + 1], steps[..n]);
      NextKeeps(lib, states[n], steps[n], states[n + 1]);
    }
  }

  /** Reading the whole entry gives it back until it expires. */
  lemma JudgeWhole(lib: EntryLib, p: Path, e: Entry, now: int)
    requires lib.Sound() && Proper(lib, p, e)
    ensures Judge(lib, Some(lib.encode(e)), p.digest, now) == if now <= e.expiresAt then Hit(e) else MissAndRemove
  {
    assert lib.decode(lib.encode(e)) == Some(e);
  }

  lemma JudgeTruncated(lib: EntryLib, text: string, e: Entry, digest: string, now: int)
    requires lib.Sound() && text < lib.encode(e)
    ensures Judge(lib, Some(text), digest, now) == MissAndRemove
  {
    assert lib.decode(text) == None;
  }

  /**
   * In every interleaving a Get hits exactly when it read the last Set's entry whole and unexpired,
   * and then returns that entry; its key is the one asked for, when the digest separates the two.
   */
  lemma HitExact(lib: EntryLib, states: seq<State>, steps: seq<Step>, tid: nat, now: int)
    requires lib.Sound() && Run(lib, states, steps)
    requires var s := states[|steps|]; tid in s.pending && s.pending[tid].Reading?
    ensures var r := states[|steps|].pending[tid];
      var v := Judge(lib, r.raw, r.path.digest, now);
      && (v.Hit? ==> r.latest == Some(v.entry) && now <= v.entry.expiresAt)
      && (v.Hit? && Separates(lib.keys, lib.keys.marshal(r.key), lib.keys.marshal(v.entry.key)) ==> v.entry.key == r.key)
      && (v.Hit? <==> r.latest.Some? && r.raw == Some(lib.encode(r.latest.value)) && now <= r.latest.value.expiresAt)
  {
    hide Inv, Next, Judge, Proper;
    RunInv(lib, states, steps);
    var r := states[|steps|].pending[tid];
    InvReads(lib, states[|steps|], tid);
    if r.raw.Some? {
      var e := r.latest.value;
      if r.raw.value == lib.encode(e) {
        JudgeWhole(lib, r.path, e, now);
        SamePathSameKey(lib, r.key, e);
      } else {
        assert r.raw.value < lib.encode(e);
        JudgeTruncated(lib, r.raw.value, e, r.path.digest, now);
      }
    } else {
      JudgeNothing(lib, r.path.digest, now);
    }
  }

  /** Keys that share a path share a digest. */
  lemma SamePathSameKey(lib: EntryLib, key: CacheKey, e: Entry)
    requires lib.Sound() && Validate(key).None? && Proper(lib, PathOf(lib, key), e)
    ensures Separates(lib.keys, lib.keys.marshal(key), lib.keys.marshal(e.key)) ==> e.key == key
  {
  }

  lemma JudgeNothing(lib: EntryLib, digest: string, now: int)
    ensures Judge(lib, None, digest, now) == Miss
  {
  }

  lemma InvReads(lib: EntryLib, s: State, tid: nat)
    requires Inv(lib, s) && tid in s.pending && s.pending[tid].Reading?
    ensures ReadSound(lib, s.pending[tid])
  {
  }

  // ---- a Set is only ever lost to a removal or a truncation ----

  /** This step takes the file of p away, cuts it short, or puts a cut-short temp file in its place. */
  ghost predicate Damages(lib: EntryLib, s: State, a: Step, p: Path) {
    match a
    case Remove(tid) => tid in s.pending && s.pending[tid].Removing? && s.pending[tid].target == p
    case Truncate(path, _) => path == p
    case SetRename(tid) =>
      tid in s.pending && s.pending[tid].Writing? && s.pending[tid].dest == p
      && TempOf(p) in s.disk && s.disk[TempOf(p)] != lib.encode(s.pending[tid].entry)
    case _ => false
  }

  /** The entry of the last Set for p is on disk, whole. */
  ghost predicate Stored(lib: EntryLib, s: State, p: Path) {
    Last(s, p).Some? && p in s.disk && s.disk[p] == lib.encode(Last(s, p).value)
  }

  /** Nothing but damage loses the entry of the last Set; an undamaged rename restores it. */
  lemma StoredUntilDamaged(lib: EntryLib, s: State, a: Step, s': State, p: Path)
    requires Next(lib, s, a, s') && p.EntryPath? && !Damages(lib, s, a, p)
    requires Stored(lib, s, p) || (a.SetRename? && a.tid in s.pending && s.pending[a.tid].Writing? && s.pending[a.tid].dest == p)
    ensures Stored(lib, s', p)
  {
    hide ParseAndVerify, Judge, Validate, Digest;
  }

  /** Another Set of p takes effect. */
  predicate Renames(s: State, a: Step, p: Path) {
    a.SetRename? && a.tid in s.pending && s.pending[a.tid].Writing? && s.pending[a.tid].dest == p
  }

  /** The entry of the last Set for p is not on disk, or cut short. */
  ghost predicate Lost(lib: EntryLib, s: State, p: Path) {
    Last(s, p).Some? && (p in s.disk ==> |s.disk[p]| < |lib.encode(Last(s, p).value)|)
  }

  lemma DamageLoses(lib: EntryLib, s: State, a: Step, s': State, p: Path)
    requires Next(lib, s, a, s') && p.EntryPath? && !Renames(s, a, p)
    requires Lost(lib, s, p) || (Stored(lib, s, p) && Damages(lib, s, a, p))
    ensures Lost(lib, s', p)
  {
    hide ParseAndVerify, Judge, Validate, Digest;
  }

  /** Until another Set of p takes effect, the last one's entry is there exactly when no step has damaged it. */
  lemma {:induction false} StoredThroughout(lib: EntryLib, s: State, states: seq<State>, steps: seq<Step>, p: Path)
    requires Continues(lib, s, states, steps) && p.EntryPath? && Stored(lib, s, p)
    requires forall k | 0 <= k < |steps| :: !Renames(states[k], steps[k], p)
    ensures Stored(lib, states[|steps|], p) <==> forall k | 0 <= k < |steps| :: !Damages(lib, states[k], steps[k], p)
    ensures Stored(lib, states[|steps|], p) || Lost(lib, states[|steps|], p)
  {
    hide Damages, Next, Renames;
    if steps != [] {
      var n := |steps| - 1;
      StoredThroughout(lib, s, states[..n + 1], steps[..n], p);
      hide Stored, Lost;
      StoredOrLost(lib, states[n], p);
      StoredOrLost(lib, states[n + 1], p);
      if Stored(lib, states[n], p) && !Damages(lib, states[n], steps[n], p) {
        StoredUntilDamaged(lib, states[n], steps[n], states[n + 1], p);
      } else {
        DamageLoses(lib, states[n], steps[n], states[n + 1], p);
      }
    }
  }

  lemma StoredOrLost(lib: EntryLib, s: State, p: Path)
    ensures !(Stored(lib, s, p) && Lost(lib, s, p))
  {
  }

  // ---- exactly which operations in flight can lose a Set ----

  /** This operation will take away the file of p by time h whatever happens: it removes it, or has read something that is no good. */
  ghost predicate Condemns(lib: EntryLib, o: Pending, p: Path, h: int) {
    match o
    case Removing(target) => target == p
    case Reading(path, _, raw, _) => path == p && exists now | now <= h :: Judge(lib, raw, p.digest, now).MissAndRemove?
    case Writing(_, _, _) => false
  }

  ghost predicate Condemned(lib: EntryLib, s: State, p: Path, h: int) {
    exists tid :: tid in s.pending && Condemns(lib, s.pending[tid], p, h)
  }

  /** Clocks up to h, and no Invalidate, truncation or other Set of p. */
  predicate Spares(lib: EntryLib, s: State, a: Step, p: Path, h: int) {
    match a
    case GetJudge(_, now) => now <= h
    case PurgeRead(_, _, now) => now <= h
    case Invalidate(_, key) => Validate(key).None? ==> PathOf(lib, key) != p
    case Truncate(path, _) => path != p
    case SetRename(_) => !Renames(s, a, p)
    case _ => true
  }

  ghost predicate Sparing(lib: EntryLib, s: State, states: seq<State>, steps: seq<Step>, p: Path, h: int) {
    && Continues(lib, s, states, steps)
    && forall i | 0 <= i < |steps| :: Spares(lib, states[i], steps[i], p, h)
  }

  /** One sparing step keeps a stored entry that nothing in flight condemns, and condemns it no more than before. */
  lemma SpareStep(lib: EntryLib, s: State, a: Step, s': State, p: Path)
    requires lib.Sound() && Inv(lib, s) && Next(lib, s, a, s') && p.EntryPath? && Stored(lib, s, p)
    requires var h := s.last[p].expiresAt; !Condemned(lib, s, p, h) && Spares(lib, s, a, p, h)
    ensures Stored(lib, s', p) && Last(s', p) == Last(s, p) && !Condemned(lib, s', p, s.last[p].expiresAt)
  {
    var h := s.last[p].expiresAt;
    assert forall tid | tid in s.pending :: !Condemns(lib, s.pending[tid], p, h);
    assert !Damages(lib, s, a, p);
    StoredUntilDamaged(lib, s, a, s', p);
    forall now | now <= h ensures Judge(lib, Some(s.disk[p]), p.digest, now).Hit? {
      JudgeWhole(lib, p, s.last[p], now);
    }
    StoredParses(lib, s, p);
    hide Inv, Stored;
    match a
    case GetRead(_, _) => ReadCondemnsNothing(lib, s, a, s', p, h);
    case GetJudge(_, _) => JudgeCondemnsNothing(lib, s, a, s', p, h);
    case _ => OthersCondemnNothing(lib, s, a, s', p, h);
  }

  lemma ReadCondemnsNothing(lib: EntryLib, s: State, a: Step, s': State, p: Path, h: int)
    requires a.GetRead? && Next(lib, s, a, s') && !Condemned(lib, s, p, h)
    requires p in s.disk && forall now | now <= h :: Judge(lib, Some(s.disk[p]), p.digest, now).Hit?
    ensures !Condemned(lib, s', p, h)
  {
    hide Judge, Validate, Digest, Condemns;
    var o := s'.pending[a.tid];
    assert !Condemns(lib, o, p, h) by {
      NoJudgement(lib, o, p, h);
    }
  }

  lemma NoJudgement(lib: EntryLib, o: Pending, p: Path, h: int)
    requires o.Reading? && (o.path == p ==> forall now | now <= h :: Judge(lib, o.raw, p.digest, now).Hit?)
    ensures !Condemns(lib, o, p, h)
  {
    hide Judge;
  }

  lemma JudgeCondemnsNothing(lib: EntryLib, s: State, a: Step, s': State, p: Path, h: int)
    requires a.GetJudge? && Next(lib, s, a, s') && a.now <= h && !Condemned(lib, s, p, h)
    ensures !Condemned(lib, s', p, h)
  {
    hide Judge;
    assert !Condemns(lib, s.pending[a.tid], p, h);
  }

  lemma OthersCondemnNothing(lib: EntryLib, s: State, a: Step, s': State, p: Path, h: int)
    requires !a.GetRead? && !a.GetJudge? && Next(lib, s, a, s') && Spares(lib, s, a, p, h) && !Condemned(lib, s, p, h)
    requires p.EntryPath? && p in s.disk
    requires var e := ParseAndVerify(lib, s.disk[p]); e.Some? && e.value.expiresAt >= h
    ensures !Condemned(lib, s', p, h)
  {
    hide Judge, ParseAndVerify, Validate, Digest;
    forall tid | tid in s'.pending ensures !Condemns(lib, s'.pending[tid], p, h) {
      assert tid in s.pending ==> !Condemns(lib, s.pending[tid], p, h);
    }
  }

  lemma StoredParses(lib: EntryLib, s: State, p: Path)
    requires lib.Sound() && Inv(lib, s) && Stored(lib, s, p)
    ensures ParseAndVerify(lib, s.disk[p]) == Some(s.last[p])
  {
  }

  lemma ContinuesOne(lib: EntryLib, s: State, a: Step, s': State)
    requires Next(lib, s, a, s')
    ensures Continues(lib, s, [s, s'], [a])
  {
    hide Next;
  }

  lemma ContinuesOn(lib: EntryLib, s: State, states: seq<State>, steps: seq<Step>, more: seq<State>, next: seq<Step>)
    requires Continues(lib, s, states, steps) && Continues(lib, states[|steps|], more, next)
    ensures Continues(lib, s, states + more[1..], steps + next)
    ensures (states + more[1..])[|steps + next|] == more[|next|]
  {
    hide Next;
    var t, u, n := states + more[1..], steps + next, |steps|;
    forall i | 0 <= i < |u| ensures Next(lib, t[i], u[i], t[i + 1]) {
      if i < n {
        assert t[i] == states[i] && t[i + 1] == states[i + 1] && u[i] == steps[i];
      } else {
        assert t[i] == more[i - n] && t[i + 1] == more[i - n + 1] && u[i] == next[i - n];
      }
    }
  }

  /** A file that something in flight condemns can be lost: at once, or after the judgement still owed. */
  lemma CondemnedIsLost(lib: EntryLib, s: State, tid: nat, p: Path, h: int) returns (states: seq<State>, steps: seq<Step>)
    requires p.EntryPath? && tid in s.pending && Condemns(lib, s.pending[tid], p, h)
    ensures Sparing(lib, s, states, steps, p, h) && !Stored(lib, states[|steps|], p)
  {
    hide Judge, Validate, Digest;
    if s.pending[tid].Removing? {
      var s1 := s.(disk := s.disk - {p}, pending := s.pending - {tid});
      states, steps := [s, s1], [Remove(tid)];
    } else {
      var now :| now <= h && Judge(lib, s.pending[tid].raw, p.digest, now).MissAndRemove?;
      var s1 := s.(pending := s.pending[tid := Removing(p)]);
      var s2 := State(s.disk - {p}, s1.pending - {tid}, s.last);
      assert Next(lib, s, GetJudge(tid, now), s1);
      assert Next(lib, s1, Remove(tid), s2);
      states, steps := [s, s1, s2], [GetJudge(tid, now), Remove(tid)];
    }
  }

  lemma {:induction false} UncondemnedIsKept(lib: EntryLib, s: State, states: seq<State>, steps: seq<Step>, p: Path)
    requires lib.Sound() && Inv(lib, s) && p.EntryPath? && Stored(lib, s, p)
    requires !Condemned(lib, s, p, s.last[p].expiresAt) && Sparing(lib, s, states, steps, p, s.last[p].expiresAt)
    ensures var end := states[|steps|];
      Inv(lib, end) && Stored(lib, end, p) && Last(end, p) == Last(s, p) && !Condemned(lib, end, p, s.last[p].expiresAt)
  {
    hide Inv, Next, Stored, Condemned, Spares;
    LastStored(lib, s, p);
    if steps != [] {
      var n := |steps| - 1;
      UncondemnedIsKept(lib, s, states[..n + 1], steps[..n], p);
      LastStored(lib, states[n], p);
      NextKeeps(lib, states[n], steps[n], states[n + 1]);
      SpareStep(lib, states[n], steps[n], states[n + 1], p);
    }
  }

  lemma LastStored(lib: EntryLib, s: State, p: Path)
    requires Stored(lib, s, p)
    ensures p in s.last
  {
  }

  /**
   * A stored entry survives every interleaving up to its expiry that does not invalidate, truncate or
   * set it again exactly when, at the start, no removal of its file is owed and no reader holds
   * something that can be judged no good by then.
   */
  lemma KeptExact(lib: EntryLib, s: State, p: Path)
    requires lib.Sound() && Inv(lib, s) && p.EntryPath? && Stored(lib, s, p)
    ensures var h := s.last[p].expiresAt;
      (forall states: seq<State>, steps: seq<Step> | Sparing(lib, s, states, steps, p, h) :: Stored(lib, states[|steps|], p))
      <==> !Condemned(lib, s, p, h)
  {
    var h := s.last[p].expiresAt;
    if Condemned(lib, s, p, h) {
      var tid :| tid in s.pending && Condemns(lib, s.pending[tid], p, h);
      hide Condemns, Sparing, Stored;
      var states, steps := CondemnedIsLost(lib, s, tid, p, h);
      assert !Stored(lib, states[|steps|], p);
    } else {
      hide Condemned, Sparing, Stored, Inv;
      forall states: seq<State>, steps: seq<Step> | Sparing(lib, s, states, steps, p, h) ensures Stored(lib, states[|steps|], p) {
        UncondemnedIsKept(lib, s, states, steps, p);
      }
    }
  }

  /** A reader condemns the file exactly when it found an entry cut short, or one that expires before h. */
  lemma ReaderCondemnsExact(lib: EntryLib, s: State, tid: nat, p: Path, h: int)
    requires lib.Sound() && Inv(lib, s) && tid in s.pending && s.pending[tid].Reading? && s.pending[tid].path == p
    ensures var r := s.pending[tid];
      Condemns(lib, r, p, h)
      <==> r.raw.Some? && r.latest.Some? && (r.raw.value != lib.encode(r.latest.value) || r.latest.value.expiresAt < h)
  {
    InvReads(lib, s, tid);
    var r := s.pending[tid];
    hide Inv, Proper, Judge;
    if r.raw.None? {
      forall now ensures !Judge(lib, r.raw, p.digest, now).MissAndRemove? {
        JudgeNothing(lib, p.digest, now);
      }
    } else {
      var e := r.latest.value;
      forall now ensures Judge(lib, r.raw, p.digest, now).MissAndRemove? <==> r.raw.value != lib.encode(e) || e.expiresAt < now {
        if r.raw.value == lib.encode(e) {
          JudgeWhole(lib, p, e, now);
        } else {
          assert r.raw.value < lib.encode(e);
          JudgeTruncated(lib, r.raw.value, e, p.digest, now);
        }
      }
      assert Judge(lib, r.raw, p.digest, h).MissAndRemove? <==> r.raw.value != lib.encode(e) || e.expiresAt < h;
    }
  }

  // ---- a concrete interleaving in which a Set is lost ----

  /** A whole Set, with nothing else in between. */
  lemma SetSteps(lib: EntryLib, s: State, tid: nat, key: CacheKey, payload: string, now: int, ttl: int)
    requires Validate(key).None? && payload != "" && tid !in s.pending && !Locked(s)
    requires TempOf(PathOf(lib, key)) !in s.disk
    ensures var p, e := PathOf(lib, key), NewEntry(lib, key, payload, now, ttl);
      var open := State(s.disk[TempOf(p) := []], s.pending[tid := Writing(p, e, false)], s.last);
      var whole := State(s.disk[TempOf(p) := lib.encode(e)], s.pending[tid := Writing(p, e, true)], s.last);
      var end := State(s.disk[p := lib.encode(e)], s.pending, s.last[p := e]);
      && Next(lib, s, SetWrite(tid, key, payload, now, ttl, 0), open)
      && Next(lib, open, SetFlush(tid), whole) && Next(lib, whole, SetRename(tid), end)
  {
    var p, e := PathOf(lib, key), NewEntry(lib, key, payload, now, ttl);
    hide Validate, Digest, Judge;
    assert lib.encode(e)[..0] == [];
    assert s.disk[TempOf(p) := []][TempOf(p) := lib.encode(e)] == s.disk[TempOf(p) := lib.encode(e)];
    assert s.pending[tid := Writing(p, e, false)][tid := Writing(p, e, true)] == s.pending[tid := Writing(p, e, true)];
    assert s.disk[TempOf(p) := lib.encode(e)][p := lib.encode(e)] - {TempOf(p)} == s.disk[p := lib.encode(e)];
    assert s.pending[tid := Writing(p, e, true)] - {tid} == s.pending;
  }

  /** The same as a run of three steps. */
  lemma SetRun(lib: EntryLib, s: State, tid: nat, key: CacheKey, payload: string, now: int, ttl: int) returns (states: seq<State>, steps: seq<Step>)
    requires Validate(key).None? && payload != "" && tid !in s.pending && !Locked(s)
    requires TempOf(PathOf(lib, key)) !in s.disk
    ensures var p, e := PathOf(lib, key), NewEntry(lib, key, payload, now, ttl);
      && Continues(lib, s, states, steps) && OnlyGetsAndSets(steps)
      && states[|steps|] == State(s.disk[p := lib.encode(e)], s.pending, s.last[p := e])
  {
    SetSteps(lib, s, tid, key, payload, now, ttl);
    var p, e := PathOf(lib, key), NewEntry(lib, key, payload, now, ttl);
    hide Next, Validate, Digest, NewEntry, PathOf;
    var open := State(s.disk[TempOf(p) := []], s.pending[tid := Writing(p, e, false)], s.last);
    var whole := State(s.disk[TempOf(p) := lib.encode(e)], s.pending[tid := Writing(p, e, true)], s.last);
    states := [s, open, whole, State(s.disk[p := lib.encode(e)], s.pending, s.last[p := e])];
    steps := [SetWrite(tid, key, payload, now, ttl, 0), SetFlush(tid), SetRename(tid)];
  }

  lemma StaleReadSteps(lib: EntryLib, s: State, tid: nat, key: CacheKey, now: int) returns (states: seq<State>, steps: seq<Step>)
    requires lib.Sound() && Validate(key).None? && tid !in s.pending && !Locked(s)
    requires var p := PathOf(lib, key);
      p in s.last && Proper(lib, p, s.last[p]) && s.last[p].expiresAt < now && p in s.disk && s.disk[p] == lib.encode(s.last[p])
    ensures Continues(lib, s, states, steps) && OnlyGetsAndSets(steps)
    ensures states[|steps|] == s.(pending := s.pending[tid := Removing(PathOf(lib, key))])
  {
    var p := PathOf(lib, key);
    JudgeWhole(lib, p, s.last[p], now);
    hide Validate, Digest, Judge, Proper;
    var read := Reading(p, key, Lookup(s.disk, p), Last(s, p));
    var mid, end := s.(pending := s.pending[tid := read]), s.(pending := s.pending[tid := Removing(p)]);
    assert s.pending[tid := read][tid := Removing(p)] == s.pending[tid := Removing(p)];
    assert Next(lib, s, GetRead(tid, key), mid) && Next(lib, mid, GetJudge(tid, now), end);
    states, steps := [s, mid, end], [GetRead(tid, key), GetJudge(tid, now)];
  }

  /** No Invalidate, no Purge and no truncation among the steps. */
  predicate OnlyGetsAndSets(steps: seq<Step>) {
    forall a | a in steps :: !a.Invalidate? && !a.PurgeRead? && !a.Truncate?
  }

  /** The removal a slow reader still owes takes away an entry that was set after it looked. */
  lemma SlowReaderRemovesFreshEntry(lib: EntryLib, key: CacheKey, stale: string, recent: string)
    requires lib.Sound() && Validate(key).None? && stale != "" && recent != ""
    ensures exists states: seq<State>, steps: seq<Step> ::
      && Run(lib, states, steps) && OnlyGetsAndSets(steps)
      && Last(states[|steps|], PathOf(lib, key)) == Some(NewEntry(lib, key, recent, 20, 100))
      && PathOf(lib, key) !in states[|steps|].disk
  {
    var p, e, f := PathOf(lib, key), NewEntry(lib, key, stale, 0, 10), NewEntry(lib, key, recent, 20, 100);
    ProperNew(lib, key, stale, 0, 10);
    EntryPaths(lib, key);
    assert e.expiresAt == 10;
    hide Next, Digest, Validate, NewEntry, PathOf, Continues, Proper;
    var states, steps := SetRun(lib, EMPTY, 1, key, stale, 0, 10);
    var more, next := StaleReadSteps(lib, states[|steps|], 2, key, 20);
    ContinuesOn(lib, EMPTY, states, steps, more, next);
    states, steps := states + more[1..], steps + next;
    more, next := SetRun(lib, states[|steps|], 3, key, recent, 20, 100);
    ContinuesOn(lib, EMPTY, states, steps, more, next);
    states, steps := states + more[1..], steps + next;
    RemoveOwed(lib, states[|steps|], 2, p);
    var s := states[|steps|];
    var end := State(s.disk - {p}, s.pending - {2}, s.last);
    ContinuesOne(lib, s, Remove(2), end);
    ContinuesOn(lib, EMPTY, states, steps, [s, end], [Remove(2)]);
    states, steps := states + [s, end][1..], steps + [Remove(2)];
    assert Last(states[|steps|], p) == Some(f);
  }

  lemma RemoveOwed(lib: EntryLib, s: State, tid: nat, p: Path)
    requires tid in s.pending && s.pending[tid] == Removing(p)
    ensures Next(lib, s, Remove(tid), State(s.disk - {p}, s.pending - {tid}, s.last))
  {
  }

  // ---- what a file must hold to be a hit ----

  /**
   * Bytes are a hit exactly when they parse to an entry of the current version, with a payload that has
   * its recorded hash, under the digest asked for, and not after it expires; missing bytes are a plain
   * miss, and any others are removed.
   */
  lemma JudgeExact(lib: EntryLib, raw: Option<string>, digest: string, now: int, e: Entry)
    ensures Judge(lib, raw, digest, now) == Hit(e) <==>
      && raw.Some? && lib.decode(raw.value) == Some(e)
      && e.key.schemaVersion == 1 && |e.payload| > 0 && e.payloadHash == lib.keys.sha(e.payload)
      && e.digest == digest && now <= e.expiresAt
    ensures Judge(lib, raw, digest, now) == Miss <==> raw.None?
  {
  }

  /** An entry set at one time with a time to live is found exactly until that much later. */
  lemma EntryLives(lib: EntryLib, key: CacheKey, payload: string, setAt: int, ttl: int, now: int)
    requires lib.Sound() && Validate(key).None? && payload != ""
    ensures var e := NewEntry(lib, key, payload, setAt, ttl);
      && e.payload == payload && e.key == key
      && (Judge(lib, Some(lib.encode(e)), PathOf(lib, key).digest, now) == Hit(e) <==> now - setAt <= ttl)
  {
    var e := NewEntry(lib, key, payload, setAt, ttl);
    assert lib.decode(lib.encode(e)) == Some(e);
  }
}
