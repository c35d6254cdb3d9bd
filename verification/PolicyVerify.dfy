/** Verification of a log directory under a policy (VerifyDirectoryWithPolicy in internal/audit/verify.go). */
module PolicyVerify {
  import opened Wrappers
  import opened Sorting
  import opened Segments
  import opened Rotation
  import opened LogRuns
  import opened AuditWriter
  import opened Verify

  datatype DirPolicy = DirPolicy(
    expectedSigners: seq<string>,
    expectedSchemaVersion: string,
    maxRetentionDays: int,
    requireHashChain: bool,
    failFast: bool)

  const EMPTY_POLICY := DirPolicy([], "", 0, false, false)

  /** An aggregate issue, as it is counted: structural, or against the policy. */
  datatype Found =
    | Structural(issue: Issue)
    | WrongSchema(segment: string, version: string)
    | Expired(segment: string)
    | SignerUnknown(segment: string)
    | Duplicate(segment: string, earlier: string)

  datatype SegmentVerifyResult = SegmentVerifyResult(
    segment: string,
    sequence: nat,
    valid: bool,
    checksumValid: bool,
    chainLinkValid: bool,
    schemaVersionValid: bool,
    retentionValid: bool,
    signerValid: bool,
    issues: seq<Found>)

  datatype DirPolicyResult = DirPolicyResult(
    valid: bool,
    segmentsChecked: nat,
    chainValid: bool,
    activePresent: bool,
    policyViolations: nat,
    structuralIssues: nat,
    firstSegmentHash: string,
    lastSegmentHash: string,
    segments: seq<SegmentVerifyResult>,
    aggregateIssues: seq<Found>,
    truncated: bool)

  // ---- 64-bit durations ----

  const DAY := 86_400_000_000_000
  const INT64_MAX := 0x7fff_ffff_ffff_ffff
  const INT64_MIN := -0x8000_0000_0000_0000

  /** Multiplication of durations wraps. */
  function Wrap64(n: int): int {
    (n - INT64_MIN) % 0x1_0000_0000_0000_0000 + INT64_MIN
  }

  /** Subtraction of times saturates. */
  function Saturate64(n: int): int {
    if n < INT64_MIN then INT64_MIN else if n > INT64_MAX then INT64_MAX else n
  }

  predicate PastRetention(policy: DirPolicy, now: int, s: SegmentInfo) {
    policy.maxRetentionDays > 0 && Saturate64(now - s.manifest.closedAt.nanos) > Wrap64(policy.maxRetentionDays * DAY)
  }

  // ---- what one segment raises ----

  /** Structural issues, as the aggregate list holds them. */
  function Lift(issues: seq<Issue>): seq<Found> {
    if issues == [] then [] else [Structural(issues[0])] + Lift(issues[1..])
  }

  function SchemaFound(policy: DirPolicy, s: SegmentInfo): seq<Found> {
    if policy.expectedSchemaVersion != "" then
      if s.manifest.schemaVersion != policy.expectedSchemaVersion
      then [WrongSchema(s.manifest.segment, s.manifest.schemaVersion)] else []
    else Lift(SchemaIssues(s))
  }

  function AgeFound(policy: DirPolicy, now: int, s: SegmentInfo): seq<Found> {
    if PastRetention(policy, now, s) then [Expired(s.manifest.segment)] else []
  }

  function SignerFound(policy: DirPolicy, s: SegmentInfo): seq<Found> {
    if policy.expectedSigners != [] then [SignerUnknown(s.manifest.segment)] else []
  }

  function DuplicateFound(lib: Lib, disk: Dir, s: SegmentInfo, seen: map<string, string>): seq<Found>
    requires s.path in disk
  {
    var h := lib.hash(disk[s.path]);
    if h in seen then [Duplicate(s.manifest.segment, seen[h])] else []
  }

  /** All that one segment raises, in order; nothing is checked after a malformed digest. */
  function SegmentFound(
    lib: Lib, disk: Dir, policy: DirPolicy, now: int, s: SegmentInfo, first: bool, wanted: nat, prev: string, seen: map<string, string>)
    : seq<Found>
    requires s.path in disk
  {
    SchemaFound(policy, s) + Lift(GapIssues(s, wanted)) + Lift(DigestIssues(lib, disk, s, first, prev)) +
    if !IsHex(s.manifest.sha256) then []
    else AgeFound(policy, now, s) + SignerFound(policy, s) + DuplicateFound(lib, disk, s, seen)
  }

  /** Every finding makes its segment invalid, except the note that the signer cannot be known. */
  predicate Invalidates(f: Found) {
    !f.SignerUnknown?
  }

  predicate Invalidating(fs: seq<Found>) {
    exists f :: f in fs && Invalidates(f)
  }

  function SeenAfter(lib: Lib, disk: Dir, s: SegmentInfo, seen: map<string, string>): map<string, string>
    requires s.path in disk
  {
    var h := lib.hash(disk[s.path]);
    if IsHex(s.manifest.sha256) && h !in seen then seen[h := s.manifest.segment] else seen
  }

  /** What each segment raises, segment by segment; clock(k) is the time read at segment k. */
  function Groups(
    lib: Lib, disk: Dir, policy: DirPolicy, clock: nat -> int, infos: seq<SegmentInfo>, k: nat, wanted: nat, prev: string,
    seen: map<string, string>): seq<seq<Found>>
    requires k <= |infos| && forall i | 0 <= i < |infos| :: infos[i].path in disk
    decreases |infos| - k
  {
    if k == |infos| then []
    else
      var s := infos[k];
      [SegmentFound(lib, disk, policy, clock(k), s, k == 0, wanted, prev, seen)]
      + Groups(lib, disk, policy, clock, infos, k + 1, s.manifest.sequence + 1, PrevAfter(lib, disk, s, prev), SeenAfter(lib, disk, s, seen))
  }

  // ---- pairing, in a fixed order ----

  /** Bodies by sequence, then by name. */
  predicate BodyLe(a: string, b: string) {
    var i, j := ParseSegmentSequence(a), ParseSegmentSequence(b);
    if i.Some? && j.Some? && i != j then i.value < j.value
    else if i.Some? != j.Some? then j.Some?
    else StringLe(a, b)
  }

  lemma BodyLePreorder()
    ensures TotalPreorder(BodyLe)
  {
    hide ParseSegmentSequence;
    forall a, b ensures BodyLe(a, b) || BodyLe(b, a) {
      StringLeTotal(a, b);
    }
    forall a, b, c | BodyLe(a, b) && BodyLe(b, c) ensures BodyLe(a, c) {
      if StringLe(a, b) && StringLe(b, c) {
        StringLeTransitive(a, b, c);
      }
    }
  }

  /** The closed bodies, each once, in that order. */
  ghost predicate BodiesOf(disk: Dir, bodies: seq<string>) {
    && (forall b :: b in bodies <==> b in disk && IsClosedSegmentName(b))
    && (forall i, j | 0 <= i < j < |bodies| :: bodies[i] != bodies[j])
    && SortedBy(BodyLe, bodies)
  }

  /** The manifest names, each once, in whatever order the map yields them. */
  ghost predicate ManifestsOf(disk: Dir, manifests: seq<string>) {
    && (forall m :: m in manifests <==> m in disk && IsManifestName(m))
    && (forall i, j | 0 <= i < j < |manifests| :: manifests[i] != manifests[j])
  }

  function MissingManifests(disk: Dir, bodies: seq<string>): seq<seq<Found>> {
    if bodies == [] then []
    else
      (if ManifestNameFor(bodies[0]) in disk then [] else [[Structural(MissingManifest(bodies[0]))]])
      + MissingManifests(disk, bodies[1..])
  }

  function MissingBodies(bodies: seq<string>, manifests: seq<string>): seq<seq<Found>> {
    if manifests == [] then []
    else
      (if BodyNameFor(manifests[0]) in bodies then [] else [[Structural(MissingBody(manifests[0]))]])
      + MissingBodies(bodies, manifests[1..])
  }

  // ---- groups and what is reported of them ----

  function Flatten(groups: seq<seq<Found>>): seq<Found> {
    if groups == [] then [] else groups[0] + Flatten(groups[1..])
  }

  /** Up to and with the first group that makes something invalid. */
  function UntilStop(groups: seq<seq<Found>>): seq<seq<Found>> {
    if groups == [] then []
    else if Invalidating(groups[0]) then [groups[0]]
    else [groups[0]] + UntilStop(groups[1..])
  }

  predicate StopsIn(groups: seq<seq<Found>>) {
    exists g :: g in groups && Invalidating(g)
  }

  lemma {:induction false} FlattenConcat(a: seq<seq<Found>>, b: seq<seq<Found>>)
    ensures Flatten(a + b) == Flatten(a) + Flatten(b)
  {
    if a == [] {
      assert a + b == b;
    } else {
      FlattenConcat(a[1..], b);
      assert (a + b)[0] == a[0] && (a + b)[1..] == a[1..] + b;
      FlattenHead(a);
      FlattenHead(a + b);
      hide Flatten;
      ConcatAssociates(a[0], Flatten(a[1..]), Flatten(b));
    }
  }

  lemma FlattenHead(a: seq<seq<Found>>)
    requires a != []
    ensures Flatten(a) == a[0] + Flatten(a[1..])
  {
  }

  lemma ConcatAssociates(a: seq<Found>, b: seq<Found>, c: seq<Found>)
    ensures a + b + c == a + (b + c)
  {
  }

  lemma {:induction false} UntilStopConcat(a: seq<seq<Found>>, b: seq<seq<Found>>)
    ensures UntilStop(a + b) == if StopsIn(a) then UntilStop(a) else a + UntilStop(b)
  {
    if a == [] {
      assert a + b == b;
    } else {
      hide Invalidating;
      UntilStopConcat(a[1..], b);
      assert (a + b)[0] == a[0] && (a + b)[1..] == a[1..] + b;
      assert a == [a[0]] + a[1..];
      assert StopsIn(a) <==> Invalidating(a[0]) || StopsIn(a[1..]);
    }
  }

  /** Stopping early reports the first part of what a full pass reports, and reports nothing only when there is nothing. */
  lemma {:induction false} FailFastPrefix(groups: seq<seq<Found>>)
    ensures Flatten(UntilStop(groups)) <= Flatten(groups)
    ensures Flatten(UntilStop(groups)) == [] <==> Flatten(groups) == []
    ensures !StopsIn(groups) ==> UntilStop(groups) == groups
  {
    if groups != [] {
      FailFastPrefix(groups[1..]);
      assert groups == [groups[0]] + groups[1..];
      if Invalidating(groups[0]) {
        assert Flatten(UntilStop(groups)) == groups[0] + Flatten([]);
      } else {
        assert ([groups[0]] + UntilStop(groups[1..]))[1..] == UntilStop(groups[1..]);
      }
    }
  }

  // ---- the verdict ----

  /** No closed body before segment i has its digest. */
  ghost predicate FreshHash(lib: Lib, disk: Dir, infos: seq<SegmentInfo>, i: nat)
    requires i < |infos| && forall k | 0 <= k < |infos| :: infos[k].path in disk
  {
    forall j | 0 <= j < i :: lib.hash(disk[infos[j].path]) != lib.hash(disk[infos[i].path])
  }

  predicate SchemaAllowed(policy: DirPolicy, m: SegmentManifest) {
    if policy.expectedSchemaVersion != "" then m.schemaVersion == policy.expectedSchemaVersion
    else m.schemaVersion == "" || m.schemaVersion == SCHEMA_VERSION
  }

  ghost predicate Passes(lib: Lib, disk: Dir, policy: DirPolicy, clock: nat -> int, infos: seq<SegmentInfo>, i: nat)
    requires i < |infos| && forall k | 0 <= k < |infos| :: infos[k].path in disk
  {
    && SchemaAllowed(policy, infos[i].manifest) && InPlace(lib, disk, infos, i)
    && !PastRetention(policy, clock(i), infos[i]) && policy.expectedSigners == []
    && FreshHash(lib, disk, infos, i)
  }

  ghost predicate PolicyValid(lib: Lib, disk: Dir, policy: DirPolicy, clock: nat -> int) {
    && (forall b | b in disk && IsClosedSegmentName(b) :: ManifestNameFor(b) in disk)
    && (forall m :: !Orphan(disk, m))
    && Readable(lib, disk)
    && forall infos | Listed(lib, disk, infos) :: forall i | 0 <= i < |infos| :: Passes(lib, disk, policy, clock, infos, i)
  }

  /** seen holds exactly the digests of the first k segments. */
  ghost predicate SeenFirst(lib: Lib, disk: Dir, infos: seq<SegmentInfo>, k: nat, seen: map<string, string>)
    requires k <= |infos| && forall j | 0 <= j < |infos| :: infos[j].path in disk
  {
    forall h :: h in seen <==> exists j :: 0 <= j < k && h == lib.hash(disk[infos[j].path])
  }

  lemma LiftNone(issues: seq<Issue>)
    ensures Lift(issues) == [] <==> issues == []
  {
  }

  lemma SegmentSilent(
    lib: Lib, disk: Dir, policy: DirPolicy, clock: nat -> int, infos: seq<SegmentInfo>, k: nat, prev: string, seen: map<string, string>)
    requires k < |infos| && forall i | 0 <= i < |infos| :: infos[i].path in disk
    requires k > 0 ==> prev == lib.hash(disk[infos[k - 1].path])
    requires SeenFirst(lib, disk, infos, k, seen)
    ensures SegmentFound(lib, disk, policy, clock(k), infos[k], k == 0, k + 1, prev, seen) == []
      <==> Passes(lib, disk, policy, clock, infos, k)
  {
    hide LowerHex, IsHex, PastRetention, SeenFirst, Lift;
    var s := infos[k];
    var a, b, c := SchemaIssues(s), GapIssues(s, k + 1), DigestIssues(lib, disk, s, k == 0, prev);
    LiftNone(a);
    LiftNone(b);
    LiftNone(c);
    SeenMeansRepeated(lib, disk, infos, k, seen);
    var x, y, z := SchemaFound(policy, s), Lift(b), Lift(c);
    assert |x + y + z| == |x| + |y| + |z|;
    assert b + c == [] <==> InPlace(lib, disk, infos, k) by {
      assert |b + c| == |b| + |c|;
    }
    assert x == [] <==> SchemaAllowed(policy, s.manifest);
    var tail := AgeFound(policy, clock(k), s) + SignerFound(policy, s) + DuplicateFound(lib, disk, s, seen);
    assert |tail| == |AgeFound(policy, clock(k), s)| + |SignerFound(policy, s)| + |DuplicateFound(lib, disk, s, seen)|;
  }

  lemma SeenMeansRepeated(lib: Lib, disk: Dir, infos: seq<SegmentInfo>, k: nat, seen: map<string, string>)
    requires k < |infos| && forall i | 0 <= i < |infos| :: infos[i].path in disk
    requires SeenFirst(lib, disk, infos, k, seen)
    ensures lib.hash(disk[infos[k].path]) in seen <==> !FreshHash(lib, disk, infos, k)
  {
  }

  lemma SeenNext(lib: Lib, disk: Dir, infos: seq<SegmentInfo>, k: nat, seen: map<string, string>)
    requires k < |infos| && forall i | 0 <= i < |infos| :: infos[i].path in disk
    requires SeenFirst(lib, disk, infos, k, seen) && IsHex(infos[k].manifest.sha256)
    ensures SeenFirst(lib, disk, infos, k + 1, SeenAfter(lib, disk, infos[k], seen))
  {
    hide IsHex;
    var next := SeenAfter(lib, disk, infos[k], seen);
    forall h ensures h in next <==> exists j :: 0 <= j < k + 1 && h == lib.hash(disk[infos[j].path]) {
      if h in next && h !in seen {
        assert h == lib.hash(disk[infos[k].path]);
      }
    }
  }

  /** From segment k on nothing is raised exactly when every segment passes. */
  lemma {:induction false} GroupsSilent(
    lib: Lib, disk: Dir, policy: DirPolicy, clock: nat -> int, infos: seq<SegmentInfo>, k: nat, prev: string, seen: map<string, string>)
    requires k <= |infos| && forall i | 0 <= i < |infos| :: infos[i].path in disk
    requires k > 0 ==> prev == lib.hash(disk[infos[k - 1].path])
    requires SeenFirst(lib, disk, infos, k, seen)
    ensures Flatten(Groups(lib, disk, policy, clock, infos, k, k + 1, prev, seen)) == []
      <==> forall i | k <= i < |infos| :: Passes(lib, disk, policy, clock, infos, i)
    decreases |infos| - k
  {
    hide SegmentFound, IsHex, SeenAfter, SeenFirst, Passes;
    if k < |infos| {
      var s := infos[k];
      var head := SegmentFound(lib, disk, policy, clock(k), s, k == 0, k + 1, prev, seen);
      SegmentSilent(lib, disk, policy, clock, infos, k, prev, seen);
      var rest := Groups(lib, disk, policy, clock, infos, k + 1, s.manifest.sequence + 1, PrevAfter(lib, disk, s, prev), SeenAfter(lib, disk, s, seen));
      assert ([head] + rest)[1..] == rest;
      assert Flatten([head] + rest) == head + Flatten(rest);
      if head == [] {
        PassesMeansInPlace(lib, disk, policy, clock, infos, k);
        SeenNext(lib, disk, infos, k, seen);
        GroupsSilent(lib, disk, policy, clock, infos, k + 1, lib.hash(disk[s.path]), SeenAfter(lib, disk, s, seen));
      }
    }
  }

  lemma PassesMeansInPlace(lib: Lib, disk: Dir, policy: DirPolicy, clock: nat -> int, infos: seq<SegmentInfo>, k: nat)
    requires k < |infos| && forall i | 0 <= i < |infos| :: infos[i].path in disk
    requires Passes(lib, disk, policy, clock, infos, k)
    ensures infos[k].manifest.sequence == k + 1 && IsHex(infos[k].manifest.sha256)
  {
  }

  lemma {:induction false} MissingManifestsNone(disk: Dir, bodies: seq<string>)
    ensures Flatten(MissingManifests(disk, bodies)) == [] <==> forall b | b in bodies :: ManifestNameFor(b) in disk
  {
    hide ManifestNameFor;
    if bodies != [] {
      MissingManifestsNone(disk, bodies[1..]);
      assert bodies == [bodies[0]] + bodies[1..];
      if ManifestNameFor(bodies[0]) !in disk {
        assert Flatten(MissingManifests(disk, bodies))[0] == Structural(MissingManifest(bodies[0]));
      } else {
        assert MissingManifests(disk, bodies) == MissingManifests(disk, bodies[1..]);
      }
    }
  }

  lemma {:induction false} MissingBodiesNone(bodies: seq<string>, manifests: seq<string>)
    ensures Flatten(MissingBodies(bodies, manifests)) == [] <==> forall m | m in manifests :: BodyNameFor(m) in bodies
  {
    hide BodyNameFor;
    if manifests != [] {
      MissingBodiesNone(bodies, manifests[1..]);
      assert manifests == [manifests[0]] + manifests[1..];
      if BodyNameFor(manifests[0]) !in bodies {
        assert Flatten(MissingBodies(bodies, manifests))[0] == Structural(MissingBody(manifests[0]));
      } else {
        assert MissingBodies(bodies, manifests) == MissingBodies(bodies, manifests[1..]);
      }
    }
  }

  function PairingGroups(disk: Dir, bodies: seq<string>, manifests: seq<string>): seq<seq<Found>> {
    MissingManifests(disk, bodies) + MissingBodies(bodies, manifests)
  }

  lemma PairingSilent(disk: Dir, bodies: seq<string>, manifests: seq<string>)
    requires BodiesOf(disk, bodies) && ManifestsOf(disk, manifests)
    ensures Flatten(PairingGroups(disk, bodies, manifests)) == []
      <==> (forall b | b in disk && IsClosedSegmentName(b) :: ManifestNameFor(b) in disk) && (forall m :: !Orphan(disk, m))
  {
    hide ManifestNameFor, BodyNameFor, IsClosedSegmentName, IsManifestName, Flatten, MissingManifests, MissingBodies, SortedBy;
    MissingManifestsNone(disk, bodies);
    MissingBodiesNone(bodies, manifests);
    FlattenConcat(MissingManifests(disk, bodies), MissingBodies(bodies, manifests));
    var a, b := Flatten(MissingManifests(disk, bodies)), Flatten(MissingBodies(bodies, manifests));
    assert |a + b| == |a| + |b|;
    forall m ensures Orphan(disk, m) <==> m in manifests && BodyNameFor(m) !in bodies {
    }
  }

  /** What the listing gives: the segments, or the first manifest that cannot be read. */
  ghost predicate ListedAs(lib: Lib, disk: Dir, listed: Result<seq<SegmentInfo>, Issue>) {
    match listed
    case Ok(infos) => Readable(lib, disk) && Listed(lib, disk, infos)
    case Err(e) => !Readable(lib, disk) && e.Unreadable? && FirstUnreadable(lib, disk, e.body)
  }

  function ChainGroups(lib: Lib, disk: Dir, policy: DirPolicy, clock: nat -> int, listed: Result<seq<SegmentInfo>, Issue>): seq<seq<Found>>
    requires listed.Ok? ==> forall i | 0 <= i < |listed.value| :: listed.value[i].path in disk
  {
    match listed
    case Ok(infos) => Groups(lib, disk, policy, clock, infos, 0, 1, "", map[])
    case Err(e) => [[Structural(e)]]
  }

  /** Nothing is found exactly when the directory is valid under the policy. */
  lemma PolicyVerdictExact(lib: Lib, disk: Dir, policy: DirPolicy, clock: nat -> int, bodies: seq<string>, manifests: seq<string>,
                           listed: Result<seq<SegmentInfo>, Issue>)
    requires BodiesOf(disk, bodies) && ManifestsOf(disk, manifests) && ListedAs(lib, disk, listed)
    ensures Flatten(PairingGroups(disk, bodies, manifests) + ChainGroups(lib, disk, policy, clock, listed)) == []
      <==> PolicyValid(lib, disk, policy, clock)
  {
    hide BodiesOf, ManifestsOf, Flatten, Groups, PairingGroups, Passes, Readable, FirstUnreadable, Orphan, ManifestNameFor, InfosOf, SortedBy;
    if listed.Ok? {
      ListedPaths(lib, disk, listed.value);
    }
    var a, b := PairingGroups(disk, bodies, manifests), ChainGroups(lib, disk, policy, clock, listed);
    PairingSilent(disk, bodies, manifests);
    FlattenConcat(a, b);
    assert |Flatten(a) + Flatten(b)| == |Flatten(a)| + |Flatten(b)|;
    match listed
    case Ok(infos) =>
      SeenNothing(lib, disk, infos);
      GroupsSilent(lib, disk, policy, clock, infos, 0, "", map[]);
      forall other | Listed(lib, disk, other) ensures other == infos {
        ListedUnique(lib, disk, other, infos);
      }
    case Err(e) => FlattenOne([Structural(e)]);
  }

  lemma FlattenOne(g: seq<Found>)
    ensures Flatten([g]) == g
  {
    assert [g][1..] == [];
  }

  lemma ListedPaths(lib: Lib, disk: Dir, infos: seq<SegmentInfo>)
    requires Listed(lib, disk, infos)
    ensures forall i | 0 <= i < |infos| :: infos[i].path in disk
  {
  }

  lemma SeenNothing(lib: Lib, disk: Dir, infos: seq<SegmentInfo>)
    requires forall i | 0 <= i < |infos| :: infos[i].path in disk
    ensures SeenFirst(lib, disk, infos, 0, map[])
  {
  }

  /** Closed bodies have pairwise different digests. */
  ghost predicate DistinctHashes(lib: Lib, disk: Dir) {
    forall infos: seq<SegmentInfo> | Listed(lib, disk, infos) :: forall i | 0 <= i < |infos| :: infos[i].path in disk && FreshHash(lib, disk, infos, i)
  }

  /**
   * Under the empty policy the verdict is that of the plain verification, except that two closed
   * bodies with the same digest are also held against the directory.
   */
  lemma EmptyPolicyExact(lib: Lib, disk: Dir, clock: nat -> int)
    ensures PolicyValid(lib, disk, EMPTY_POLICY, clock) <==> ValidDir(lib, disk) && DistinctHashes(lib, disk)
  {
    hide InPlace, FreshHash, Orphan, ManifestNameFor, IsClosedSegmentName, Listed, Readable;
    forall infos: seq<SegmentInfo> | Listed(lib, disk, infos)
      ensures forall i | 0 <= i < |infos| :: infos[i].path in disk
      ensures (forall i | 0 <= i < |infos| :: Passes(lib, disk, EMPTY_POLICY, clock, infos, i))
        <==> Chain(lib, disk, infos) && forall i | 0 <= i < |infos| :: FreshHash(lib, disk, infos, i)
    {
      ListedPaths(lib, disk, infos);
      assert forall i | 0 <= i < |infos| ::
        Passes(lib, disk, EMPTY_POLICY, clock, infos, i) <==> InChain(lib, disk, infos, i) && FreshHash(lib, disk, infos, i);
    }
  }

  /** A list of expected signers is never satisfied: with one, only a directory without closed segments passes. */
  lemma SignersNeverKnown(lib: Lib, disk: Dir, policy: DirPolicy, clock: nat -> int, infos: seq<SegmentInfo>)
    requires policy.expectedSigners != [] && Listed(lib, disk, infos)
    ensures PolicyValid(lib, disk, policy, clock)
      <==> PolicyValid(lib, disk, policy.(expectedSigners := []), clock) && infos == []
  {
    hide SchemaAllowed, InPlace, PastRetention, FreshHash, Orphan, ManifestNameFor, IsClosedSegmentName, Listed, Readable;
    forall other | Listed(lib, disk, other) ensures other == infos {
      ListedUnique(lib, disk, other, infos);
    }
    ListedPaths(lib, disk, infos);
    if infos != [] {
      assert !Passes(lib, disk, policy, clock, infos, 0);
    }
  }

  // ---- the verification, step by step ----

  function CountStructural(fs: seq<Found>): nat {
    if fs == [] then 0 else CountStructural(fs[..|fs| - 1]) + if fs[|fs| - 1].Structural? then 1 else 0
  }

  /** Every structural issue but an unsupported schema version clears the chain flag. */
  predicate BreaksChain(f: Found) {
    f.Structural? && !f.issue.BadSchema?
  }

  predicate Unbroken(fs: seq<Found>) {
    forall f | f in fs :: !BreaksChain(f)
  }

  function IssueLists(segments: seq<SegmentVerifyResult>): seq<seq<Found>> {
    seq(|segments|, i requires 0 <= i < |segments| => segments[i].issues)
  }

  predicate ResultFits(sr: SegmentVerifyResult) {
    sr.valid <==> !Invalidating(sr.issues)
  }

  /** The result being built: issues and their counts move together. */
  class Report {
    var aggregateIssues: seq<Found>
    var structuralIssues: nat
    var policyViolations: nat
    var chainValid: bool
    var segments: seq<SegmentVerifyResult>

    ghost predicate Booked()
      reads this
    {
      && structuralIssues == CountStructural(aggregateIssues)
      && |aggregateIssues| == structuralIssues + policyViolations
      && chainValid == Unbroken(aggregateIssues)
      && forall sr | sr in segments :: ResultFits(sr)
    }

    constructor ()
      ensures Booked() && aggregateIssues == [] && segments == []
    {
      aggregateIssues, structuralIssues, policyViolations, chainValid, segments := [], 0, 0, true, [];
    }

    method Raise(f: Found)
      requires Booked()
      modifies this`aggregateIssues, this`structuralIssues, this`policyViolations, this`chainValid
      ensures Booked() && aggregateIssues == old(aggregateIssues) + [f]
    {
      hide ResultFits;
      aggregateIssues := aggregateIssues + [f];
      assert aggregateIssues[..|aggregateIssues| - 1] == old(aggregateIssues);
      if f.Structural? {
        structuralIssues := structuralIssues + 1;
        if !f.issue.BadSchema? {
          chainValid := false;
        }
      } else {
        policyViolations := policyViolations + 1;
      }
      RaisedBreaks(old(aggregateIssues), f);
    }
  }

  lemma RaisedBreaks(fs: seq<Found>, f: Found)
    ensures Unbroken(fs + [f]) <==> Unbroken(fs) && !BreaksChain(f)
  {
    forall x ensures x in fs + [f] <==> x in fs || x == f {
    }
  }

  /** The bodies without a manifest; under fail-fast only the first of them. */
  method CheckBodies(report: Report, ghost files: Dir, policy: DirPolicy, bodies: seq<string>, manifests: set<string>) returns (stopped: bool)
    requires report.Booked() && BodiesOf(files, bodies)
    requires forall m :: m in manifests <==> m in files && IsManifestName(m)
    modifies report
    ensures report.Booked() && report.segments == old(report.segments)
    ensures var groups := MissingManifests(files, bodies);
      && stopped == (policy.failFast && StopsIn(groups))
      && report.aggregateIssues == old(report.aggregateIssues) + Flatten(if policy.failFast then UntilStop(groups) else groups)
  {
    hide ResultFits, IsManifestName, ManifestNameFor, CountStructural, Unbroken, BodiesOf, StopsIn, UntilStop, Flatten, MissingManifests, Invalidating;
    ghost var all := MissingManifests(files, bodies);
    ghost var done: seq<seq<Found>> := [];
    assert bodies[0..] == bodies;
    NothingStops();
    for i := 0 to |bodies|
      invariant report.Booked() && report.segments == old(report.segments)
      invariant all == done + MissingManifests(files, bodies[i..])
      invariant report.aggregateIssues == old(report.aggregateIssues) + Flatten(done)
      invariant policy.failFast ==> !StopsIn(done)
    {
      var b := bodies[i];
      MissingManifestsFrom(files, bodies, i);
      BodyHasManifestName(files, bodies, b);
      if ManifestNameFor(b) !in manifests {
        var g := [Structural(MissingManifest(b))];
        ghost var rest := MissingManifests(files, bodies[i + 1..]);
        report.Raise(g[0]);
        FlattenGrow(old(report.aggregateIssues), done, g);
        assert all == done + [g] + rest;
        if policy.failFast {
          InvalidatingOne(g[0]);
          StopsHere(done, g, rest);
          return true;
        }
        done := done + [g];
      }
    }
    MissingManifestsFrom(files, bodies, |bodies|);
    assert done == all;
    stopped := false;
    if policy.failFast {
      FailFastPrefix(all);
    }
  }

  lemma MissingManifestsFrom(disk: Dir, bodies: seq<string>, i: nat)
    requires i <= |bodies|
    ensures MissingManifests(disk, bodies[i..]) ==
      if i == |bodies| then []
      else if ManifestNameFor(bodies[i]) in disk then MissingManifests(disk, bodies[i + 1..])
      else [[Structural(MissingManifest(bodies[i]))]] + MissingManifests(disk, bodies[i + 1..])
  {
    if i < |bodies| {
      assert bodies[i..][1..] == bodies[i + 1..];
    }
  }

  lemma BodyHasManifestName(disk: Dir, bodies: seq<string>, b: string)
    requires BodiesOf(disk, bodies) && b in bodies
    ensures IsManifestName(ManifestNameFor(b))
  {
    hide IsManifestName, IsClosedSegmentName, ManifestNameFor, SortedBy;
    ClosedNameEnds(b);
    ManifestLeadsBack(b);
  }

  lemma NothingStops()
    ensures !StopsIn([]) && Flatten([]) == []
  {
  }

  /** The first group that invalidates ends the report. */
  lemma StopsHere(done: seq<seq<Found>>, g: seq<Found>, rest: seq<seq<Found>>)
    requires !StopsIn(done) && Invalidating(g)
    ensures UntilStop(done + [g] + rest) == done + [g] && StopsIn(done + [g] + rest)
  {
    hide Invalidating;
    assert done + [g] + rest == done + ([g] + rest);
    UntilStopConcat(done, [g] + rest);
    assert g in done + [g] + rest;
  }

  /** The manifests without a body; under fail-fast only the first of them. */
  method CheckManifests(report: Report, policy: DirPolicy, bodies: seq<string>, manifests: seq<string>) returns (stopped: bool)
    requires report.Booked()
    modifies report
    ensures report.Booked() && report.segments == old(report.segments)
    ensures var groups := MissingBodies(bodies, manifests);
      && stopped == (policy.failFast && StopsIn(groups))
      && report.aggregateIssues == old(report.aggregateIssues) + Flatten(if policy.failFast then UntilStop(groups) else groups)
  {
    hide ResultFits, BodyNameFor, CountStructural, Unbroken, StopsIn, UntilStop, Flatten, MissingBodies, Invalidating;
    ghost var all := MissingBodies(bodies, manifests);
    ghost var done: seq<seq<Found>> := [];
    assert manifests[0..] == manifests;
    NothingStops();
    for i := 0 to |manifests|
      invariant report.Booked() && report.segments == old(report.segments)
      invariant all == done + MissingBodies(bodies, manifests[i..])
      invariant report.aggregateIssues == old(report.aggregateIssues) + Flatten(done)
      invariant policy.failFast ==> !StopsIn(done)
    {
      var m := manifests[i];
      MissingBodiesFrom(bodies, manifests, i);
      var found := HasBody(bodies, m);
      if !found {
        var g := [Structural(MissingBody(m))];
        ghost var rest := MissingBodies(bodies, manifests[i + 1..]);
        report.Raise(g[0]);
        FlattenGrow(old(report.aggregateIssues), done, g);
        assert all == done + [g] + rest;
        if policy.failFast {
          InvalidatingOne(g[0]);
          StopsHere(done, g, rest);
          return true;
        }
        done := done + [g];
      }
    }
    MissingBodiesFrom(bodies, manifests, |manifests|);
    assert done == all;
    stopped := false;
    if policy.failFast {
      FailFastPrefix(all);
    }
  }

  method HasBody(bodies: seq<string>, m: string) returns (found: bool)
    ensures found <==> BodyNameFor(m) in bodies
  {
    hide BodyNameFor;
    for j := 0 to |bodies|
      invariant forall k | 0 <= k < j :: bodies[k] != BodyNameFor(m)
    {
      if bodies[j] == BodyNameFor(m) {
        return true;
      }
    }
    return false;
  }

  lemma MissingBodiesFrom(bodies: seq<string>, manifests: seq<string>, i: nat)
    requires i <= |manifests|
    ensures MissingBodies(bodies, manifests[i..]) ==
      if i == |manifests| then []
      else if BodyNameFor(manifests[i]) in bodies then MissingBodies(bodies, manifests[i + 1..])
      else [[Structural(MissingBody(manifests[i]))]] + MissingBodies(bodies, manifests[i + 1..])
  {
    hide BodyNameFor;
    if i < |manifests| {
      assert manifests[i..][1..] == manifests[i + 1..];
    }
  }

  lemma InvalidatingConcat(a: seq<Found>, b: seq<Found>)
    ensures Invalidating(a + b) <==> Invalidating(a) || Invalidating(b)
  {
    forall x ensures x in a + b <==> x in a || x in b {
    }
  }

  lemma InvalidatingOne(f: Found)
    ensures Invalidating([f]) <==> Invalidates(f)
    ensures !Invalidating([])
  {
    assert f in [f];
  }

  lemma LiftOne(x: Issue)
    ensures Lift([x]) == [Structural(x)] && Lift([]) == []
  {
    assert [x][1..] == [];
  }

  lemma {:induction false} LiftConcat(a: seq<Issue>, b: seq<Issue>)
    ensures Lift(a + b) == Lift(a) + Lift(b)
  {
    if a == [] {
      assert a + b == b;
    } else {
      LiftConcat(a[1..], b);
      assert (a + b)[0] == a[0] && (a + b)[1..] == a[1..] + b;
      LiftHead(a);
      LiftHead(a + b);
      hide Lift;
      ConcatAssociates([Structural(a[0])], Lift(a[1..]), Lift(b));
    }
  }

  lemma LiftHead(a: seq<Issue>)
    requires a != []
    ensures Lift(a) == [Structural(a[0])] + Lift(a[1..])
  {
  }

  method CheckHeader(report: Report, policy: DirPolicy, s: SegmentInfo, wanted: nat)
    returns (issues: seq<Found>, schemaOk: bool, sequenceOk: bool)
    requires report.Booked()
    modifies report
    ensures report.Booked() && report.segments == old(report.segments) && report.aggregateIssues == old(report.aggregateIssues) + issues
    ensures issues == SchemaFound(policy, s) + Lift(GapIssues(s, wanted))
    ensures schemaOk == SchemaAllowed(policy, s.manifest) && sequenceOk == (s.manifest.sequence == wanted)
    ensures Invalidating(issues) <==> !schemaOk || !sequenceOk
  {
    hide ResultFits, CountStructural, Unbroken, Invalidating;
    issues, schemaOk, sequenceOk := [], true, true;
    var m := s.manifest;
    var first := Structural(BadSchema(m.segment, m.schemaVersion));
    var second := Structural(Gap(wanted, m.sequence));
    if policy.expectedSchemaVersion != "" {
      if m.schemaVersion != policy.expectedSchemaVersion {
        first := WrongSchema(m.segment, m.schemaVersion);
        schemaOk := false;
      }
    } else if m.schemaVersion != "" && m.schemaVersion != SCHEMA_VERSION {
      schemaOk := false;
    }
    LiftOne(BadSchema(m.segment, m.schemaVersion));
    if !schemaOk {
      issues := [first];
      report.Raise(first);
    }
    assert issues == SchemaFound(policy, s);
    LiftOne(Gap(wanted, m.sequence));
    InvalidatingOne(first);
    if m.sequence != wanted {
      sequenceOk := false;
      InvalidatingOne(second);
      InvalidatingConcat(issues, [second]);
      issues := issues + [second];
      report.Raise(second);
    }
  }

  method CheckDigest(report: Report, lib: Lib, dir: Directory, s: SegmentInfo, first: bool, prevHash: string)
    returns (issues: seq<Found>, checksumOk: bool, linkOk: bool)
    requires report.Booked() && s.path in dir.files
    modifies report
    ensures report.Booked() && report.segments == old(report.segments) && report.aggregateIssues == old(report.aggregateIssues) + issues
    ensures issues == Lift(DigestIssues(lib, dir.files, s, first, prevHash))
    ensures checksumOk == (IsHex(s.manifest.sha256) && LowerHex(lib.hash(dir.files[s.path])) == LowerHex(s.manifest.sha256))
    ensures linkOk == (IsHex(s.manifest.sha256) ==> LinkIssues(s, first, prevHash) == [])
    ensures Invalidating(issues) <==> !checksumOk || !linkOk
  {
    hide ResultFits, CountStructural, Unbroken, Invalidating, IsHex, LowerHex;
    issues, checksumOk, linkOk := [], true, true;
    var m := s.manifest;
    if !IsHex(m.sha256) {
      LiftOne(BadDigest(m.segment));
      issues := [Structural(BadDigest(m.segment))];
      report.Raise(Structural(BadDigest(m.segment)));
      InvalidatingOne(Structural(BadDigest(m.segment)));
      return issues, false, true;
    }
    LiftOne(Mismatch(m.segment));
    InvalidatingOne(Structural(Mismatch(m.segment)));
    if LowerHex(lib.hash(dir.files[s.path])) != LowerHex(m.sha256) {
      checksumOk := false;
      issues := [Structural(Mismatch(m.segment))];
      report.Raise(Structural(Mismatch(m.segment)));
    }
    var broken := BrokenLink(m.segment);
    if first {
      if m.previousSegmentHash != "" {
        linkOk, broken := false, GenesisLink(m.segment);
      }
    } else if !IsHex(m.previousSegmentHash) {
      linkOk, broken := false, BadLink(m.segment);
    } else if LowerHex(m.previousSegmentHash) != LowerHex(prevHash) {
      linkOk := false;
    }
    if !linkOk {
      InvalidatingOne(Structural(broken));
      InvalidatingConcat(issues, [Structural(broken)]);
      issues := issues + [Structural(broken)];
      report.Raise(Structural(broken));
    }
    LiftOne(broken);
    LiftConcat(DigestMismatch(lib, dir.files, s), LinkIssues(s, first, prevHash));
  }

  method CheckAgainstPolicy(report: Report, lib: Lib, dir: Directory, policy: DirPolicy, now: int, s: SegmentInfo, seen: map<string, string>)
    returns (issues: seq<Found>, retentionOk: bool, ok: bool, seen': map<string, string>)
    requires report.Booked() && s.path in dir.files && IsHex(s.manifest.sha256)
    modifies report
    ensures report.Booked() && report.segments == old(report.segments) && report.aggregateIssues == old(report.aggregateIssues) + issues
    ensures issues == AgeFound(policy, now, s) + SignerFound(policy, s) + DuplicateFound(lib, dir.files, s, seen)
    ensures retentionOk == !PastRetention(policy, now, s)
    ensures Invalidating(issues) <==> !ok
    ensures seen' == SeenAfter(lib, dir.files, s, seen)
  {
    hide ResultFits, CountStructural, Unbroken, Invalidating, IsHex, PastRetention;
    issues, retentionOk, ok, seen' := [], true, true, seen;
    var segment := s.manifest.segment;
    InvalidatingOne(Expired(segment));
    if PastRetention(policy, now, s) {
      retentionOk, ok := false, false;
      issues := issues + [Expired(segment)];
      report.Raise(Expired(segment));
    }
    assert issues == AgeFound(policy, now, s);
    if |policy.expectedSigners| > 0 {
      InvalidatingOne(SignerUnknown(segment));
      InvalidatingConcat(issues, [SignerUnknown(segment)]);
      issues := issues + [SignerUnknown(segment)];
      report.Raise(SignerUnknown(segment));
    }
    assert issues == AgeFound(policy, now, s) + SignerFound(policy, s);
    var actual := lib.hash(dir.files[s.path]);
    if actual in seen {
      ok := false;
      var again := Duplicate(segment, seen[actual]);
      InvalidatingOne(again);
      InvalidatingConcat(issues, [again]);
      issues := issues + [again];
      report.Raise(again);
    } else {
      seen' := seen[actual := segment];
    }
  }

  /** One segment: every check in order, and the result it gives. */
  method CheckSegmentPolicy(report: Report, lib: Lib, dir: Directory, policy: DirPolicy, now: int, s: SegmentInfo, first: bool,
                            wanted: nat, prevHash: string, seen: map<string, string>)
    returns (sr: SegmentVerifyResult, seen': map<string, string>)
    requires report.Booked() && s.path in dir.files
    modifies report
    ensures report.Booked() && report.segments == old(report.segments) + [sr]
    ensures report.aggregateIssues == old(report.aggregateIssues) + sr.issues
    ensures sr.issues == SegmentFound(lib, dir.files, policy, now, s, first, wanted, prevHash, seen) && ResultFits(sr)
    ensures sr.segment == s.manifest.segment && sr.sequence == s.manifest.sequence
    ensures sr.schemaVersionValid == SchemaAllowed(policy, s.manifest)
    ensures sr.checksumValid == (IsHex(s.manifest.sha256) && LowerHex(lib.hash(dir.files[s.path])) == LowerHex(s.manifest.sha256))
    ensures sr.chainLinkValid == (s.manifest.sequence == wanted && (IsHex(s.manifest.sha256) ==> LinkIssues(s, first, prevHash) == []))
    ensures sr.retentionValid == (IsHex(s.manifest.sha256) ==> !PastRetention(policy, now, s))
    ensures seen' == SeenAfter(lib, dir.files, s, seen)
  {
    hide CountStructural, Unbroken, Invalidating, IsHex, LowerHex, PastRetention, SchemaAllowed, SchemaFound, Lift, LinkIssues;
    hide DigestIssues, AgeFound, SignerFound, DuplicateFound;
    var header, schemaOk, sequenceOk := CheckHeader(report, policy, s, wanted);
    var digest, checksumOk, linkOk := CheckDigest(report, lib, dir, s, first, prevHash);
    InvalidatingConcat(header, digest);
    sr := SegmentVerifyResult(s.manifest.segment, s.manifest.sequence, schemaOk && sequenceOk && checksumOk && linkOk,
                              checksumOk, sequenceOk && linkOk, schemaOk, true, true, header + digest);
    seen' := seen;
    if IsHex(s.manifest.sha256) {
      var extra, retentionOk, ok, seen'' := CheckAgainstPolicy(report, lib, dir, policy, now, s, seen);
      InvalidatingConcat(header + digest, extra);
      sr := sr.(valid := sr.valid && ok, retentionValid := retentionOk, issues := sr.issues + extra);
      seen' := seen'';
    } else {
      assert header + digest == header + digest + [];
    }
    report.segments := report.segments + [sr];
  }

  lemma IssueListsGrow(segments: seq<SegmentVerifyResult>, sr: SegmentVerifyResult)
    ensures IssueLists(segments + [sr]) == IssueLists(segments) + [sr.issues]
  {
  }

  /** The results are about the first segments of the listing, in order, and so are the two hashes. */
  ghost predicate Covers(lib: Lib, disk: Dir, infos: seq<SegmentInfo>, segments: seq<SegmentVerifyResult>, firstHash: string, lastHash: string)
    requires forall i | 0 <= i < |infos| :: infos[i].path in disk
  {
    && |segments| <= |infos|
    && (forall i | 0 <= i < |segments| ::
         segments[i].segment == infos[i].manifest.segment && segments[i].sequence == infos[i].manifest.sequence)
    && firstHash == FirstHash(lib, disk, infos, |segments|)
    && lastHash == LastHash(lib, disk, infos, |segments|)
  }

  lemma NoHashes(lib: Lib, disk: Dir, infos: seq<SegmentInfo>)
    requires forall i | 0 <= i < |infos| :: infos[i].path in disk
    ensures Covers(lib, disk, infos, [], "", "")
  {
  }

  /** The loop over the segments; under fail-fast it ends with the first invalid one. */
  method CheckSegments(report: Report, lib: Lib, dir: Directory, policy: DirPolicy, clock: nat -> int, infos: seq<SegmentInfo>)
    returns (stopped: bool, checked: nat, firstHash: string, lastHash: string)
    requires report.Booked() && report.segments == []
    requires forall i | 0 <= i < |infos| :: infos[i].path in dir.files
    modifies report
    ensures report.Booked() && checked == |report.segments|
    ensures var groups := Groups(lib, dir.files, policy, clock, infos, 0, 1, "", map[]);
      && stopped == (policy.failFast && StopsIn(groups))
      && IssueLists(report.segments) == (if policy.failFast then UntilStop(groups) else groups)
      && report.aggregateIssues == old(report.aggregateIssues) + Flatten(IssueLists(report.segments))
    ensures Covers(lib, dir.files, infos, report.segments, firstHash, lastHash)
  {
    hide ResultFits, CountStructural, Unbroken, SegmentFound, FirstHash, LastHash, SeenAfter, PrevAfter, StopsIn, UntilStop, IssueLists, Flatten;
    hide Groups, SchemaAllowed, LinkIssues, LowerHex, PastRetention, IsHex;
    firstHash, lastHash, checked := "", "", 0;
    var prevHash, wanted: nat, seen := "", 1, map[];
    ghost var disk := dir.files;
    ghost var all := Groups(lib, disk, policy, clock, infos, 0, 1, "", map[]);
    ghost var done: seq<seq<Found>> := [];
    NothingStops();
    NoIssueLists();
    NoHashes(lib, disk, infos);
    for i := 0 to |infos|
      invariant report.Booked() && checked == |report.segments| == i
      invariant Covers(lib, disk, infos, report.segments, firstHash, lastHash) && prevHash == lastHash
      invariant IssueLists(report.segments) == done
      invariant all == done + Groups(lib, disk, policy, clock, infos, i, wanted, prevHash, seen)
      invariant report.aggregateIssues == old(report.aggregateIssues) + Flatten(done)
      invariant policy.failFast ==> !StopsIn(done)
    {
      var s := infos[i];
      checked := checked + 1;
      ghost var sofar := report.segments;
      GroupsStep(lib, disk, policy, clock, infos, i, wanted, prevHash, seen);
      var sr, seen' := CheckSegmentPolicy(report, lib, dir, policy, clock(i), s, i == 0, wanted, prevHash, seen);
      seen, wanted, prevHash := seen', s.manifest.sequence + 1, PrevAfter(lib, dir.files, s, prevHash);
      HashesGrow(lib, disk, infos, i);
      if IsHex(s.manifest.sha256) {
        lastHash := prevHash;
        firstHash := if i == 0 then prevHash else firstHash;
      }
      IssueListsGrow(sofar, sr);
      FlattenGrow(old(report.aggregateIssues), done, sr.issues);
      ghost var rest := Groups(lib, disk, policy, clock, infos, i + 1, wanted, prevHash, seen);
      assert all == done + [sr.issues] + rest;
      if policy.failFast && !sr.valid {
        StopsWith(done, sr, rest);
        stopped := true;
        return;
      }
      if policy.failFast {
        GoesOn(done, sr);
      }
      done := done + [sr.issues];
    }
    NoGroups(lib, disk, policy, clock, infos, wanted, prevHash, seen);
    assert done == all;
    stopped := false;
    if policy.failFast {
      FailFastPrefix(all);
    }
  }

  lemma FlattenGrow(start: seq<Found>, done: seq<seq<Found>>, issues: seq<Found>)
    ensures start + Flatten(done) + issues == start + Flatten(done + [issues])
  {
    FlattenConcat(done, [issues]);
    FlattenOne(issues);
  }

  lemma NoGroups(lib: Lib, disk: Dir, policy: DirPolicy, clock: nat -> int, infos: seq<SegmentInfo>, wanted: nat, prev: string,
                 seen: map<string, string>)
    requires forall i | 0 <= i < |infos| :: infos[i].path in disk
    ensures Groups(lib, disk, policy, clock, infos, |infos|, wanted, prev, seen) == []
  {
  }

  lemma GroupsStep(lib: Lib, disk: Dir, policy: DirPolicy, clock: nat -> int, infos: seq<SegmentInfo>, k: nat, wanted: nat, prev: string,
                   seen: map<string, string>)
    requires k < |infos| && forall i | 0 <= i < |infos| :: infos[i].path in disk
    ensures var s := infos[k];
      Groups(lib, disk, policy, clock, infos, k, wanted, prev, seen)
      == [SegmentFound(lib, disk, policy, clock(k), s, k == 0, wanted, prev, seen)]
         + Groups(lib, disk, policy, clock, infos, k + 1, s.manifest.sequence + 1, PrevAfter(lib, disk, s, prev), SeenAfter(lib, disk, s, seen))
  {
    hide SegmentFound, SeenAfter, PrevAfter;
  }

  lemma NoIssueLists()
    ensures IssueLists([]) == []
  {
  }

  lemma StopsWith(done: seq<seq<Found>>, sr: SegmentVerifyResult, rest: seq<seq<Found>>)
    requires !StopsIn(done) && ResultFits(sr) && !sr.valid
    ensures UntilStop(done + [sr.issues] + rest) == done + [sr.issues] && StopsIn(done + [sr.issues] + rest)
  {
    hide Invalidating;
    assert done + [sr.issues] + rest == done + ([sr.issues] + rest);
    UntilStopConcat(done, [sr.issues] + rest);
    assert sr.issues in done + [sr.issues] + rest;
  }

  lemma GoesOn(done: seq<seq<Found>>, sr: SegmentVerifyResult)
    requires !StopsIn(done) && ResultFits(sr) && sr.valid
    ensures !StopsIn(done + [sr.issues])
  {
    hide Invalidating;
  }

  // ---- one result for one directory ----

  lemma BodiesUnique(disk: Dir, a: seq<string>, b: seq<string>)
    requires BodiesOf(disk, a) && BodiesOf(disk, b)
    ensures a == b
  {
    hide BodyLe, IsClosedSegmentName, SortedBy, NoTies, TotalPreorder;
    SameMembersSameBag(a, b);
    BodyLePreorder();
    NoBodyTies(a);
    NoBodyTies(b);
    SortedUnique(BodyLe, a, b);
  }

  lemma NoBodyTies(a: seq<string>)
    ensures NoTies(BodyLe, a)
  {
    hide ParseSegmentSequence;
    forall x, y | x in a && y in a && BodyLe(x, y) && BodyLe(y, x) ensures x == y {
      StringLeTotal(x, y);
    }
  }

  lemma ListedAsUnique(lib: Lib, disk: Dir, a: Result<seq<SegmentInfo>, Issue>, b: Result<seq<SegmentInfo>, Issue>)
    requires ListedAs(lib, disk, a) && ListedAs(lib, disk, b)
    ensures a == b
  {
    hide Listed, Readable, IsClosedSegmentName, HasManifest;
    if a.Ok? {
      ListedUnique(lib, disk, a.value, b.value);
    } else {
      StringLeTotal(a.error.body, b.error.body);
    }
  }

  method SortBodies(disk: Dir, found: seq<string>) returns (bodies: seq<string>)
    requires forall b :: b in found <==> b in disk && IsClosedSegmentName(b)
    requires forall i, j | 0 <= i < j < |found| :: found[i] != found[j]
    ensures BodiesOf(disk, bodies)
  {
    hide BodyLe, IsClosedSegmentName;
    bodies := Sort(BodyLe, found);
    BodyLePreorder();
    SortSorts(BodyLe, found);
    SortPermutes(BodyLe, found);
    PermutationMembers(bodies, found);
    forall i, j | 0 <= i < j < |bodies| ensures bodies[i] != bodies[j] {
      if bodies[i] == bodies[j] {
        OnceEach(found, bodies[i]);
        TwiceCounted(bodies, i, j);
      }
    }
  }

  function Reported(policy: DirPolicy, groups: seq<seq<Found>>): seq<Found> {
    Flatten(if policy.failFast then UntilStop(groups) else groups)
  }

  /** agg is what the directory, the policy, the clock and the order of the manifest map determine. */
  ghost predicate Reports(lib: Lib, disk: Dir, policy: DirPolicy, clock: nat -> int, manifests: seq<string>, agg: seq<Found>) {
    forall bodies, listed | BodiesOf(disk, bodies) && ListedAs(lib, disk, listed) ::
      agg == Reported(policy, PairingGroups(disk, bodies, manifests) + ChainGroups(lib, disk, policy, clock, listed))
  }

  /** Fail-fast ends the report among the pairing findings or at a segment. */
  ghost predicate Truncates(lib: Lib, disk: Dir, policy: DirPolicy, clock: nat -> int, manifests: seq<string>) {
    && policy.failFast
    && forall bodies, listed | BodiesOf(disk, bodies) && ListedAs(lib, disk, listed) ::
         || StopsIn(PairingGroups(disk, bodies, manifests))
         || (listed.Ok? && StopsIn(ChainGroups(lib, disk, policy, clock, listed)))
  }

  lemma TruncatesAsListed(lib: Lib, disk: Dir, policy: DirPolicy, clock: nat -> int, bodies: seq<string>, manifests: seq<string>,
                          listed: Result<seq<SegmentInfo>, Issue>)
    requires BodiesOf(disk, bodies) && ListedAs(lib, disk, listed)
    ensures listed.Ok? ==> forall i | 0 <= i < |listed.value| :: listed.value[i].path in disk
    ensures Truncates(lib, disk, policy, clock, manifests)
      <==> (policy.failFast
            && (StopsIn(PairingGroups(disk, bodies, manifests)) || (listed.Ok? && StopsIn(ChainGroups(lib, disk, policy, clock, listed)))))
  {
    hide BodiesOf, ListedAs, ChainGroups, PairingGroups, StopsIn;
    ListedAsPaths(lib, disk, listed);
    forall other, l: Result<seq<SegmentInfo>, Issue> | BodiesOf(disk, other) && ListedAs(lib, disk, l)
      ensures other == bodies && l == listed
    {
      BodiesUnique(disk, other, bodies);
      ListedAsUnique(lib, disk, l, listed);
    }
  }

  lemma TruncatesPairing(lib: Lib, disk: Dir, policy: DirPolicy, clock: nat -> int, bodies: seq<string>, manifests: seq<string>)
    requires BodiesOf(disk, bodies) && policy.failFast && StopsIn(PairingGroups(disk, bodies, manifests))
    ensures Truncates(lib, disk, policy, clock, manifests)
  {
    hide BodiesOf, ListedAs, ChainGroups, PairingGroups, StopsIn;
    forall other, l: Result<seq<SegmentInfo>, Issue> | BodiesOf(disk, other) && ListedAs(lib, disk, l)
      ensures (l.Ok? ==> forall i | 0 <= i < |l.value| :: l.value[i].path in disk)
      ensures StopsIn(PairingGroups(disk, other, manifests))
    {
      ListedAsPaths(lib, disk, l);
      BodiesUnique(disk, other, bodies);
    }
  }

  /** The pairing groups alone decide the report when it stops among them. */
  lemma StoppedPairing(lib: Lib, disk: Dir, policy: DirPolicy, clock: nat -> int, bodies: seq<string>, manifests: seq<string>, agg: seq<Found>)
    requires BodiesOf(disk, bodies) && ManifestsOf(disk, manifests)
    requires policy.failFast && StopsIn(PairingGroups(disk, bodies, manifests))
    requires agg == Flatten(UntilStop(PairingGroups(disk, bodies, manifests)))
    ensures Reports(lib, disk, policy, clock, manifests, agg)
    ensures agg != [] && !PolicyValid(lib, disk, policy, clock)
  {
    hide BodiesOf, ManifestsOf, ListedAs, ChainGroups, PairingGroups, StopsIn, UntilStop, Flatten, Orphan, ManifestNameFor;
    var a := PairingGroups(disk, bodies, manifests);
    StopMeansFound(a);
    FailFastPrefix(a);
    PairingSilent(disk, bodies, manifests);
    forall other, listed: Result<seq<SegmentInfo>, Issue> | BodiesOf(disk, other) && ListedAs(lib, disk, listed)
      ensures (listed.Ok? ==> forall i | 0 <= i < |listed.value| :: listed.value[i].path in disk)
      ensures agg == Reported(policy, PairingGroups(disk, other, manifests) + ChainGroups(lib, disk, policy, clock, listed))
    {
      BodiesUnique(disk, other, bodies);
      ListedAsPaths(lib, disk, listed);
      UntilStopConcat(a, ChainGroups(lib, disk, policy, clock, listed));
    }
  }

  lemma ListedAsPaths(lib: Lib, disk: Dir, listed: Result<seq<SegmentInfo>, Issue>)
    requires ListedAs(lib, disk, listed)
    ensures listed.Ok? ==> forall i | 0 <= i < |listed.value| :: listed.value[i].path in disk
  {
  }

  lemma StopMeansFound(groups: seq<seq<Found>>)
    requires StopsIn(groups)
    ensures Flatten(UntilStop(groups)) != []
  {
    FailFastPrefix(groups);
    var g :| g in groups && Invalidating(g);
    var f :| f in g && Invalidates(f);
    var i :| 0 <= i < |groups| && groups[i] == g;
    assert groups == groups[..i] + ([g] + groups[i + 1..]);
    FlattenConcat(groups[..i], [g] + groups[i + 1..]);
    FlattenConcat([g], groups[i + 1..]);
    FlattenOne(g);
  }

  /** What the loops report, put together, is the report. */
  lemma FullReport(lib: Lib, disk: Dir, policy: DirPolicy, clock: nat -> int, bodies: seq<string>, manifests: seq<string>,
                   listed: Result<seq<SegmentInfo>, Issue>, agg: seq<Found>)
    requires BodiesOf(disk, bodies) && ManifestsOf(disk, manifests) && ListedAs(lib, disk, listed)
    requires agg == Reported(policy, PairingGroups(disk, bodies, manifests) + ChainGroups(lib, disk, policy, clock, listed))
    ensures Reports(lib, disk, policy, clock, manifests, agg)
    ensures agg == [] <==> PolicyValid(lib, disk, policy, clock)
  {
    hide BodiesOf, ManifestsOf, ListedAs, ChainGroups, PairingGroups, StopsIn, UntilStop, Flatten, PolicyValid;
    ListedAsPaths(lib, disk, listed);
    var groups := PairingGroups(disk, bodies, manifests) + ChainGroups(lib, disk, policy, clock, listed);
    PolicyVerdictExact(lib, disk, policy, clock, bodies, manifests, listed);
    FailFastPrefix(groups);
    forall other, l: Result<seq<SegmentInfo>, Issue> | BodiesOf(disk, other) && ListedAs(lib, disk, l)
      ensures (l.Ok? ==> forall i | 0 <= i < |l.value| :: l.value[i].path in disk)
      ensures agg == Reported(policy, PairingGroups(disk, other, manifests) + ChainGroups(lib, disk, policy, clock, l))
    {
      BodiesUnique(disk, other, bodies);
      ListedAsUnique(lib, disk, l, listed);
    }
  }

  /** A silent first part passes the report on to the second. */
  lemma ReportedConcat(policy: DirPolicy, a: seq<seq<Found>>, b: seq<seq<Found>>)
    requires !policy.failFast || !StopsIn(a)
    ensures Reported(policy, a + b) == Reported(policy, a) + Reported(policy, b)
  {
    hide Flatten, UntilStop, StopsIn;
    FlattenConcat(a, b);
    UntilStopConcat(a, b);
    FailFastPrefix(a);
    FlattenConcat(a, UntilStop(b));
  }

  lemma StopsInConcat(a: seq<seq<Found>>, b: seq<seq<Found>>)
    ensures StopsIn(a + b) <==> StopsIn(a) || StopsIn(b)
  {
    hide Invalidating;
    forall g ensures g in a + b <==> g in a || g in b {
    }
  }

  /**
   * VerifyDirectoryWithPolicy; `order` is the order in which the manifest map is walked, and clock(k)
   * the time read at segment k.
   */
  method VerifyDirectoryWithPolicy(lib: Lib, dir: Directory, policy: DirPolicy, clock: nat -> int, order: seq<string>)
    returns (result: DirPolicyResult)
    requires ManifestsOf(dir.files, order)
    ensures Reports(lib, dir.files, policy, clock, order, result.aggregateIssues)
    ensures |result.aggregateIssues| == result.structuralIssues + result.policyViolations
    ensures result.structuralIssues == CountStructural(result.aggregateIssues)
    ensures result.valid <==> result.aggregateIssues == []
    ensures result.valid <==> PolicyValid(lib, dir.files, policy, clock)
    ensures result.truncated <==> Truncates(lib, dir.files, policy, clock, order)
    ensures result.truncated ==> !result.valid
    ensures result.chainValid == Unbroken(result.aggregateIssues)
    ensures result.activePresent <==> ACTIVE_SEGMENT_NAME in dir.files
    ensures result.segmentsChecked == |result.segments| && forall sr | sr in result.segments :: ResultFits(sr)
    ensures CoversListing(lib, dir.files, result.segments, result.firstSegmentHash, result.lastSegmentHash)
  {
    hide PolicyValid, Reports, Truncates, BodiesOf, ManifestsOf, CountStructural, ResultFits, StopsIn, UntilStop, Flatten, MissingManifests,
      MissingBodies, Groups, IsManifestName, IsClosedSegmentName, Listed, Readable, FirstUnreadable, Covers, CoversListing;
    var active := ACTIVE_SEGMENT_NAME in dir.files;
    CoversNone(lib, dir.files);
    var report := new Report();
    var found, manifestSet := SplitNames(dir);
    var bodies := SortBodies(dir.files, found);
    ghost var missing, orphans := MissingManifests(dir.files, bodies), MissingBodies(bodies, order);
    var stopped := CheckBodies(report, dir.files, policy, bodies, manifestSet);
    StopsInConcat(missing, orphans);
    UntilStopConcat(missing, orphans);
    if stopped {
      TruncatesPairing(lib, dir.files, policy, clock, bodies, order);
      StoppedPairing(lib, dir.files, policy, clock, bodies, order, report.aggregateIssues);
      return DirPolicyResult(false, 0, report.chainValid, active, report.policyViolations, report.structuralIssues, "", "", [],
                             report.aggregateIssues, true);
    }
    stopped := CheckManifests(report, policy, bodies, order);
    ReportedConcat(policy, missing, orphans);
    if stopped {
      TruncatesPairing(lib, dir.files, policy, clock, bodies, order);
      StoppedPairing(lib, dir.files, policy, clock, bodies, order, report.aggregateIssues);
      return DirPolicyResult(false, 0, report.chainValid, active, report.policyViolations, report.structuralIssues, "", "", [],
                             report.aggregateIssues, true);
    }
    assert report.aggregateIssues == Reported(policy, PairingGroups(dir.files, bodies, order));
    var listed := ListSegments(lib, dir);
    ListedAsPaths(lib, dir.files, listed);
    ghost var pairing, chain := missing + orphans, ChainGroups(lib, dir.files, policy, clock, listed);
    ReportedConcat(policy, pairing, chain);
    TruncatesAsListed(lib, dir.files, policy, clock, bodies, order, listed);
    if listed.Err? {
      report.Raise(Structural(listed.error));
      OneGroup(policy, Structural(listed.error));
      FullReport(lib, dir.files, policy, clock, bodies, order, listed, report.aggregateIssues);
      return DirPolicyResult(false, 0, report.chainValid, active, report.policyViolations, report.structuralIssues, "", "", [],
                             report.aggregateIssues, false);
    }
    var checked, firstHash, lastHash;
    stopped, checked, firstHash, lastHash := CheckSegments(report, lib, dir, policy, clock, listed.value);
    CoversOne(lib, dir.files, listed.value, report.segments, firstHash, lastHash);
    FullReport(lib, dir.files, policy, clock, bodies, order, listed, report.aggregateIssues);
    var valid := !stopped && report.structuralIssues == 0 && report.policyViolations == 0 && report.chainValid;
    StopsInConcat(pairing, chain);
    if stopped {
      StopMeansFound(pairing + chain);
    }
    result := DirPolicyResult(valid, checked, report.chainValid, active, report.policyViolations, report.structuralIssues,
                              firstHash, lastHash, report.segments, report.aggregateIssues, stopped);
  }

  /** Two policies that ask the same of segments find the same. */
  predicate SameDemands(p: DirPolicy, q: DirPolicy) {
    && p.expectedSigners == q.expectedSigners && p.expectedSchemaVersion == q.expectedSchemaVersion
    && p.maxRetentionDays == q.maxRetentionDays
  }

  lemma {:induction false} GroupsSame(lib: Lib, disk: Dir, p: DirPolicy, q: DirPolicy, clock: nat -> int, infos: seq<SegmentInfo>, k: nat,
                                      wanted: nat, prev: string, seen: map<string, string>)
    requires k <= |infos| && forall i | 0 <= i < |infos| :: infos[i].path in disk
    requires SameDemands(p, q)
    ensures Groups(lib, disk, p, clock, infos, k, wanted, prev, seen) == Groups(lib, disk, q, clock, infos, k, wanted, prev, seen)
    decreases |infos| - k
  {
    hide Groups, SegmentFound, SeenAfter, PrevAfter, SameDemands;
    if k == |infos| {
      NoGroups(lib, disk, p, clock, infos, wanted, prev, seen);
      NoGroups(lib, disk, q, clock, infos, wanted, prev, seen);
    } else {
      var s := infos[k];
      FoundSame(lib, disk, p, q, clock(k), s, k == 0, wanted, prev, seen);
      GroupsStep(lib, disk, p, clock, infos, k, wanted, prev, seen);
      GroupsStep(lib, disk, q, clock, infos, k, wanted, prev, seen);
      GroupsSame(lib, disk, p, q, clock, infos, k + 1, s.manifest.sequence + 1, PrevAfter(lib, disk, s, prev), SeenAfter(lib, disk, s, seen));
    }
  }

  lemma FoundSame(lib: Lib, disk: Dir, p: DirPolicy, q: DirPolicy, now: int, s: SegmentInfo, first: bool, wanted: nat, prev: string,
                  seen: map<string, string>)
    requires s.path in disk && SameDemands(p, q)
    ensures SegmentFound(lib, disk, p, now, s, first, wanted, prev, seen) == SegmentFound(lib, disk, q, now, s, first, wanted, prev, seen)
  {
    hide Lift, DigestIssues, IsHex, DuplicateFound;
  }

  /** Failing fast reports a prefix of the full report, empty only when that is; requiring a hash chain changes nothing. */
  lemma FailFastReport(lib: Lib, disk: Dir, policy: DirPolicy, chain: bool, clock: nat -> int, order: seq<string>, bodies: seq<string>,
                       listed: Result<seq<SegmentInfo>, Issue>, full: seq<Found>, fast: seq<Found>)
    requires BodiesOf(disk, bodies) && ListedAs(lib, disk, listed)
    requires Reports(lib, disk, policy.(failFast := false), clock, order, full)
    requires Reports(lib, disk, policy.(failFast := true, requireHashChain := chain), clock, order, fast)
    ensures fast <= full && (fast == [] <==> full == [])
    ensures PolicyValid(lib, disk, policy.(failFast := true, requireHashChain := chain), clock)
      <==> PolicyValid(lib, disk, policy.(failFast := false), clock)
  {
    hide BodiesOf, ListedAs, Groups, PairingGroups, Flatten, UntilStop, Listed, Readable, Orphan, IsClosedSegmentName, ManifestNameFor;
    var p, q := policy.(failFast := false), policy.(failFast := true, requireHashChain := chain);
    ListedAsPaths(lib, disk, listed);
    if listed.Ok? {
      GroupsSame(lib, disk, p, q, clock, listed.value, 0, 1, "", map[]);
    }
    assert ChainGroups(lib, disk, p, clock, listed) == ChainGroups(lib, disk, q, clock, listed);
    FailFastPrefix(PairingGroups(disk, bodies, order) + ChainGroups(lib, disk, p, clock, listed));
    SameVerdict(lib, disk, p, q, clock);
  }

  lemma SameVerdict(lib: Lib, disk: Dir, p: DirPolicy, q: DirPolicy, clock: nat -> int)
    requires SameDemands(p, q)
    ensures PolicyValid(lib, disk, p, clock) <==> PolicyValid(lib, disk, q, clock)
  {
    hide Listed, Readable, Orphan, IsClosedSegmentName, ManifestNameFor, InPlace, FreshHash;
    forall infos: seq<SegmentInfo> | Listed(lib, disk, infos)
      ensures forall i | 0 <= i < |infos| :: infos[i].path in disk
      ensures forall i | 0 <= i < |infos| :: Passes(lib, disk, p, clock, infos, i) <==> Passes(lib, disk, q, clock, infos, i)
    {
      ListedPaths(lib, disk, infos);
    }
  }

  /** As Covers, for the listing of the directory. */
  ghost predicate CoversListing(lib: Lib, disk: Dir, segments: seq<SegmentVerifyResult>, firstHash: string, lastHash: string) {
    forall infos: seq<SegmentInfo> | Listed(lib, disk, infos) ::
      (forall i | 0 <= i < |infos| :: infos[i].path in disk) && Covers(lib, disk, infos, segments, firstHash, lastHash)
  }

  lemma CoversNone(lib: Lib, disk: Dir)
    ensures CoversListing(lib, disk, [], "", "")
  {
    hide Listed;
    forall infos: seq<SegmentInfo> | Listed(lib, disk, infos)
      ensures (forall i | 0 <= i < |infos| :: infos[i].path in disk) && Covers(lib, disk, infos, [], "", "")
    {
      ListedPaths(lib, disk, infos);
      NoHashes(lib, disk, infos);
    }
  }

  lemma CoversOne(lib: Lib, disk: Dir, one: seq<SegmentInfo>, segments: seq<SegmentVerifyResult>, firstHash: string, lastHash: string)
    requires Listed(lib, disk, one) && forall i | 0 <= i < |one| :: one[i].path in disk
    requires Covers(lib, disk, one, segments, firstHash, lastHash)
    ensures CoversListing(lib, disk, segments, firstHash, lastHash)
  {
    hide Listed, Covers;
    forall infos: seq<SegmentInfo> | Listed(lib, disk, infos)
      ensures (forall i | 0 <= i < |infos| :: infos[i].path in disk) && Covers(lib, disk, infos, segments, firstHash, lastHash)
    {
      ListedUnique(lib, disk, infos, one);
    }
  }

  lemma OneGroup(policy: DirPolicy, f: Found)
    ensures Reported(policy, [[f]]) == [f]
  {
    var g := [[f]];
    assert g[1..] == [];
    assert UntilStop([]) == [];
    assert UntilStop(g) == g;
    FlattenOne([f]);
  }
}
