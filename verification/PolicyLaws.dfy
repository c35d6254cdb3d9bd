/** How much a report under fail-fast holds, and inputs on which policy checks say more than expected. */
module PolicyLaws {
  import opened Wrappers
  import opened Segments
  import opened Rotation
  import opened LogInvariant
  import opened LogRuns
  import opened Verify
  import opened VerifyLaws
  import opened LogReach
  import opened PolicyVerify

  // ---- how many findings one segment has ----

  function One(b: bool): nat { if b then 1 else 0 }

  /** The link of segment k is that of the segment before. */
  predicate Linked(lib: Lib, disk: Dir, infos: seq<SegmentInfo>, k: nat)
    requires k < |infos| && forall i | 0 <= i < |infos| :: infos[i].path in disk
  {
    var link := infos[k].manifest.previousSegmentHash;
    if k == 0 then link == ""
    else IsHex(link) && LowerHex(link) == LowerHex(lib.hash(disk[infos[k - 1].path]))
  }

  /** The signer of segment k is noted as unknown. */
  predicate Noted(policy: DirPolicy, infos: seq<SegmentInfo>, k: nat)
    requires k < |infos|
  {
    policy.expectedSigners != [] && IsHex(infos[k].manifest.sha256)
  }

  /** How many demands segment k fails, the note on its signer included; a malformed digest is the last one checked. */
  ghost function Faults(lib: Lib, disk: Dir, policy: DirPolicy, clock: nat -> int, infos: seq<SegmentInfo>, k: nat): nat
    requires k < |infos| && forall i | 0 <= i < |infos| :: infos[i].path in disk
  {
    var m := infos[k].manifest;
    One(!SchemaAllowed(policy, m)) + One(m.sequence != k + 1) +
    if !IsHex(m.sha256) then 1
    else
      One(LowerHex(lib.hash(disk[infos[k].path])) != LowerHex(m.sha256)) + One(!Linked(lib, disk, infos, k))
      + One(PastRetention(policy, clock(k), infos[k])) + One(policy.expectedSigners != []) + One(!FreshHash(lib, disk, infos, k))
  }

  lemma FaultsNone(lib: Lib, disk: Dir, policy: DirPolicy, clock: nat -> int, infos: seq<SegmentInfo>, k: nat)
    requires k < |infos| && forall i | 0 <= i < |infos| :: infos[i].path in disk
    ensures Faults(lib, disk, policy, clock, infos, k) == 0 <==> Passes(lib, disk, policy, clock, infos, k)
  {
    hide IsHex, LowerHex, SchemaAllowed, PastRetention, FreshHash;
  }

  /** Every fault of a segment is one finding. */
  lemma FaultsFound(lib: Lib, disk: Dir, policy: DirPolicy, clock: nat -> int, infos: seq<SegmentInfo>, k: nat, prev: string, seen: map<string, string>)
    requires k < |infos| && forall i | 0 <= i < |infos| :: infos[i].path in disk
    requires k > 0 ==> prev == lib.hash(disk[infos[k - 1].path])
    requires SeenFirst(lib, disk, infos, k, seen)
    ensures |SegmentFound(lib, disk, policy, clock(k), infos[k], k == 0, k + 1, prev, seen)| == Faults(lib, disk, policy, clock, infos, k)
  {
    hide LowerHex, IsHex, PastRetention, SeenFirst, FreshHash, Lift, Linked, SchemaFound, SchemaAllowed, GapIssues, DigestIssues;
    hide SegmentFound, AgeFound, SignerFound, DuplicateFound;
    var s := infos[k];
    SegmentSize(lib, disk, policy, clock(k), s, k == 0, k + 1, prev, seen);
    HeaderSize(policy, s, k + 1);
    DigestSize(lib, disk, infos, k, prev);
    LiftSize(DigestIssues(lib, disk, s, k == 0, prev));
    TailSize(lib, disk, policy, clock, infos, k, seen);
  }

  lemma SegmentSize(lib: Lib, disk: Dir, policy: DirPolicy, now: int, s: SegmentInfo, first: bool, wanted: nat, prev: string, seen: map<string, string>)
    requires s.path in disk
    ensures |SegmentFound(lib, disk, policy, now, s, first, wanted, prev, seen)|
      == |SchemaFound(policy, s)| + |Lift(GapIssues(s, wanted))| + |Lift(DigestIssues(lib, disk, s, first, prev))|
         + if IsHex(s.manifest.sha256)
           then |AgeFound(policy, now, s)| + |SignerFound(policy, s)| + |DuplicateFound(lib, disk, s, seen)| else 0
  {
    hide IsHex, Lift, SchemaFound, GapIssues, DigestIssues, AgeFound, SignerFound, DuplicateFound;
  }

  lemma TailSize(lib: Lib, disk: Dir, policy: DirPolicy, clock: nat -> int, infos: seq<SegmentInfo>, k: nat, seen: map<string, string>)
    requires k < |infos| && forall i | 0 <= i < |infos| :: infos[i].path in disk
    requires SeenFirst(lib, disk, infos, k, seen)
    ensures |AgeFound(policy, clock(k), infos[k])| == One(PastRetention(policy, clock(k), infos[k]))
    ensures |SignerFound(policy, infos[k])| == One(policy.expectedSigners != [])
    ensures |DuplicateFound(lib, disk, infos[k], seen)| == One(!FreshHash(lib, disk, infos, k))
  {
    hide PastRetention, SeenFirst, FreshHash;
    SeenMeansRepeated(lib, disk, infos, k, seen);
  }

  lemma HeaderSize(policy: DirPolicy, s: SegmentInfo, wanted: nat)
    ensures |SchemaFound(policy, s)| == One(!SchemaAllowed(policy, s.manifest))
    ensures |Lift(GapIssues(s, wanted))| == One(s.manifest.sequence != wanted)
  {
    LiftSize(SchemaIssues(s));
    LiftSize(GapIssues(s, wanted));
  }

  lemma DigestSize(lib: Lib, disk: Dir, infos: seq<SegmentInfo>, k: nat, prev: string)
    requires k < |infos| && forall i | 0 <= i < |infos| :: infos[i].path in disk
    requires k > 0 ==> prev == lib.hash(disk[infos[k - 1].path])
    ensures |DigestIssues(lib, disk, infos[k], k == 0, prev)| ==
      if !IsHex(infos[k].manifest.sha256) then 1
      else One(LowerHex(lib.hash(disk[infos[k].path])) != LowerHex(infos[k].manifest.sha256)) + One(!Linked(lib, disk, infos, k))
  {
    hide LowerHex, IsHex;
  }

  lemma {:induction false} LiftSize(issues: seq<Issue>)
    ensures |Lift(issues)| == |issues|
    ensures Invalidating(Lift(issues)) <==> issues != []
  {
    if issues != [] {
      LiftSize(issues[1..]);
      assert Lift(issues)[0] == Structural(issues[0]);
      assert Invalidates(Lift(issues)[0]);
    }
  }

  /** A segment ends the report exactly when it has a fault besides the note. */
  lemma FaultsStop(lib: Lib, disk: Dir, policy: DirPolicy, clock: nat -> int, infos: seq<SegmentInfo>, k: nat, prev: string, seen: map<string, string>)
    requires k < |infos| && forall i | 0 <= i < |infos| :: infos[i].path in disk
    requires k > 0 ==> prev == lib.hash(disk[infos[k - 1].path])
    requires SeenFirst(lib, disk, infos, k, seen)
    ensures Invalidating(SegmentFound(lib, disk, policy, clock(k), infos[k], k == 0, k + 1, prev, seen))
      <==> Faults(lib, disk, policy, clock, infos, k) > One(Noted(policy, infos, k))
  {
    FaultsFound(lib, disk, policy, clock, infos, k, prev, seen);
    hide LowerHex, IsHex, PastRetention, SeenFirst, FreshHash, Lift, Faults, Invalidating, GapIssues, DigestIssues, SchemaFound;
    var s := infos[k];
    var x, y, z := SchemaFound(policy, s), Lift(GapIssues(s, k + 1)), Lift(DigestIssues(lib, disk, s, k == 0, prev));
    SchemaStops(policy, s);
    LiftSize(GapIssues(s, k + 1));
    LiftSize(DigestIssues(lib, disk, s, k == 0, prev));
    InvalidatingConcat(x, y);
    InvalidatingConcat(x + y, z);
    if IsHex(s.manifest.sha256) {
      var a, b, c := AgeFound(policy, clock(k), s), SignerFound(policy, s), DuplicateFound(lib, disk, s, seen);
      AgeStops(policy, clock(k), s);
      SignerStops(policy, s);
      DuplicateStops(lib, disk, s, seen);
      InvalidatingConcat(a, b);
      InvalidatingConcat(a + b, c);
      InvalidatingConcat(x + y + z, a + b + c);
    } else {
      assert x + y + z + [] == x + y + z;
      assert |DigestIssues(lib, disk, s, k == 0, prev)| == 1 by { BadDigestOnly(lib, disk, s, k == 0, prev); }
    }
  }

  lemma BadDigestOnly(lib: Lib, disk: Dir, s: SegmentInfo, first: bool, prev: string)
    requires s.path in disk && !IsHex(s.manifest.sha256)
    ensures |DigestIssues(lib, disk, s, first, prev)| == 1
  {
  }

  lemma SchemaStops(policy: DirPolicy, s: SegmentInfo)
    ensures Invalidating(SchemaFound(policy, s)) <==> SchemaFound(policy, s) != []
  {
    LiftSize(SchemaIssues(s));
    if policy.expectedSchemaVersion != "" && SchemaFound(policy, s) != [] {
      InvalidatingOne(SchemaFound(policy, s)[0]);
    }
  }

  lemma AgeStops(policy: DirPolicy, now: int, s: SegmentInfo)
    ensures Invalidating(AgeFound(policy, now, s)) <==> AgeFound(policy, now, s) != []
  {
    InvalidatingOne(Expired(s.manifest.segment));
  }

  lemma SignerStops(policy: DirPolicy, s: SegmentInfo)
    ensures !Invalidating(SignerFound(policy, s)) && |SignerFound(policy, s)| == One(policy.expectedSigners != [])
  {
    InvalidatingOne(SignerUnknown(s.manifest.segment));
  }

  lemma DuplicateStops(lib: Lib, disk: Dir, s: SegmentInfo, seen: map<string, string>)
    requires s.path in disk
    ensures var found := DuplicateFound(lib, disk, s, seen); Invalidating(found) <==> found != []
  {
    var found := DuplicateFound(lib, disk, s, seen);
    if found != [] {
      InvalidatingOne(found[0]);
    }
  }

  // ---- how many findings a report under fail-fast has ----

  /** The faults from segment k on, up to and with the first segment with a fault besides the note. */
  ghost function FastCount(lib: Lib, disk: Dir, policy: DirPolicy, clock: nat -> int, infos: seq<SegmentInfo>, k: nat): nat
    requires k <= |infos| && forall i | 0 <= i < |infos| :: infos[i].path in disk
    decreases |infos| - k
  {
    if k == |infos| then 0
    else
      var n := Faults(lib, disk, policy, clock, infos, k);
      n + if n > One(Noted(policy, infos, k)) then 0 else FastCount(lib, disk, policy, clock, infos, k + 1)
  }

  /** A segment that does not end the report is in its place. */
  lemma GoesOnInPlace(lib: Lib, disk: Dir, policy: DirPolicy, clock: nat -> int, infos: seq<SegmentInfo>, k: nat)
    requires k < |infos| && forall i | 0 <= i < |infos| :: infos[i].path in disk
    requires Faults(lib, disk, policy, clock, infos, k) <= One(Noted(policy, infos, k))
    ensures infos[k].manifest.sequence == k + 1 && IsHex(infos[k].manifest.sha256)
  {
    hide IsHex, LowerHex, SchemaAllowed, PastRetention, FreshHash, Linked;
  }

  lemma {:induction false} GroupsCount(
    lib: Lib, disk: Dir, policy: DirPolicy, clock: nat -> int, infos: seq<SegmentInfo>, k: nat, prev: string, seen: map<string, string>)
    requires k <= |infos| && forall i | 0 <= i < |infos| :: infos[i].path in disk
    requires k > 0 ==> prev == lib.hash(disk[infos[k - 1].path])
    requires SeenFirst(lib, disk, infos, k, seen)
    ensures |Flatten(UntilStop(Groups(lib, disk, policy, clock, infos, k, k + 1, prev, seen)))| == FastCount(lib, disk, policy, clock, infos, k)
    decreases |infos| - k
  {
    hide SegmentFound, IsHex, SeenAfter, SeenFirst, Faults, Invalidating, Groups, Noted, Flatten, UntilStop;
    if k == |infos| {
      NoGroups(lib, disk, policy, clock, infos, k + 1, prev, seen);
      NothingReported();
    } else {
      var s := infos[k];
      var head := SegmentFound(lib, disk, policy, clock(k), s, k == 0, k + 1, prev, seen);
      var prev', seen' := PrevAfter(lib, disk, s, prev), SeenAfter(lib, disk, s, seen);
      var rest := Groups(lib, disk, policy, clock, infos, k + 1, s.manifest.sequence + 1, prev', seen');
      GroupsStep(lib, disk, policy, clock, infos, k, k + 1, prev, seen);
      FaultsFound(lib, disk, policy, clock, infos, k, prev, seen);
      FaultsStop(lib, disk, policy, clock, infos, k, prev, seen);
      HeadReported(head, rest);
      if !Invalidating(head) {
        GoesOnInPlace(lib, disk, policy, clock, infos, k);
        SeenNext(lib, disk, infos, k, seen);
        GroupsCount(lib, disk, policy, clock, infos, k + 1, prev', seen');
      }
    }
  }

  lemma NothingReported()
    ensures Flatten(UntilStop([])) == []
  {
  }

  lemma HeadReported(head: seq<Found>, rest: seq<seq<Found>>)
    ensures Flatten(UntilStop([head] + rest)) == head + if Invalidating(head) then [] else Flatten(UntilStop(rest))
  {
    hide Invalidating;
    assert ([head] + rest)[1..] == rest;
    FlattenOne(head);
    assert ([head] + UntilStop(rest))[1..] == UntilStop(rest);
  }

  /** Segment j is the first from k on that does not pass. */
  ghost predicate FirstToFail(lib: Lib, disk: Dir, policy: DirPolicy, clock: nat -> int, infos: seq<SegmentInfo>, k: nat, j: nat)
    requires k <= j < |infos| && forall i | 0 <= i < |infos| :: infos[i].path in disk
  {
    !Passes(lib, disk, policy, clock, infos, j) && forall i | k <= i < j :: Passes(lib, disk, policy, clock, infos, i)
  }

  /** Segment j fails one demand; if that is only noted, no segment comes after. */
  ghost predicate Alone(lib: Lib, disk: Dir, policy: DirPolicy, clock: nat -> int, infos: seq<SegmentInfo>, j: nat)
    requires j < |infos| && forall i | 0 <= i < |infos| :: infos[i].path in disk
  {
    Faults(lib, disk, policy, clock, infos, j) == 1 && (Noted(policy, infos, j) ==> j == |infos| - 1)
  }

  lemma {:induction false} FastCountSmall(lib: Lib, disk: Dir, policy: DirPolicy, clock: nat -> int, infos: seq<SegmentInfo>, k: nat)
    requires k <= |infos| && forall i | 0 <= i < |infos| :: infos[i].path in disk
    ensures FastCount(lib, disk, policy, clock, infos, k) <= 1
      <==> forall j | k <= j < |infos| && FirstToFail(lib, disk, policy, clock, infos, k, j) :: Alone(lib, disk, policy, clock, infos, j)
    decreases |infos| - k
  {
    hide Faults, Passes, IsHex;
    if k < |infos| {
      FaultsNone(lib, disk, policy, clock, infos, k);
      FastCountSmall(lib, disk, policy, clock, infos, k + 1);
      if Passes(lib, disk, policy, clock, infos, k) {
        forall j | k < j < |infos|
          ensures FirstToFail(lib, disk, policy, clock, infos, k, j) <==> FirstToFail(lib, disk, policy, clock, infos, k + 1, j)
        {
        }
        assert !FirstToFail(lib, disk, policy, clock, infos, k, k);
      } else {
        assert FirstToFail(lib, disk, policy, clock, infos, k, k);
        forall j | k < j < |infos| ensures !FirstToFail(lib, disk, policy, clock, infos, k, j) {
        }
        if Noted(policy, infos, k) && k + 1 < |infos| {
          NotedNext(lib, disk, policy, clock, infos, k + 1);
        }
      }
    }
  }

  /** With expected signers no segment is without a fault. */
  lemma NotedNext(lib: Lib, disk: Dir, policy: DirPolicy, clock: nat -> int, infos: seq<SegmentInfo>, k: nat)
    requires k < |infos| && forall i | 0 <= i < |infos| :: infos[i].path in disk
    requires policy.expectedSigners != []
    ensures FastCount(lib, disk, policy, clock, infos, k) > 0
  {
    hide Faults;
    FaultsNone(lib, disk, policy, clock, infos, k);
  }

  ghost predicate Paired(disk: Dir) {
    && (forall b | b in disk && IsClosedSegmentName(b) :: ManifestNameFor(b) in disk)
    && (forall m :: !Orphan(disk, m))
  }

  /** Every group is one invalidating finding. */
  ghost predicate Singles(groups: seq<seq<Found>>) {
    forall g | g in groups :: |g| == 1 && Invalidating(g)
  }

  lemma PairingSingles(disk: Dir, bodies: seq<string>, manifests: seq<string>)
    ensures Singles(PairingGroups(disk, bodies, manifests))
  {
    hide Invalidating, MissingManifests, MissingBodies;
    MissingManifestsSingles(disk, bodies);
    MissingBodiesSingles(bodies, manifests);
  }

  lemma {:induction false} MissingManifestsSingles(disk: Dir, bodies: seq<string>)
    ensures Singles(MissingManifests(disk, bodies))
  {
    hide ManifestNameFor, Invalidating;
    if bodies != [] {
      MissingManifestsSingles(disk, bodies[1..]);
      InvalidatingOne(Structural(MissingManifest(bodies[0])));
    }
  }

  lemma {:induction false} MissingBodiesSingles(bodies: seq<string>, manifests: seq<string>)
    ensures Singles(MissingBodies(bodies, manifests))
  {
    hide BodyNameFor, Invalidating;
    if manifests != [] {
      MissingBodiesSingles(bodies, manifests[1..]);
      InvalidatingOne(Structural(MissingBody(manifests[0])));
    }
  }

  lemma FirstSingle(groups: seq<seq<Found>>)
    requires Singles(groups) && groups != []
    ensures StopsIn(groups) && |Flatten(UntilStop(groups))| == 1
  {
    hide Invalidating;
    assert groups[0] in groups;
    assert groups == [groups[0]] + groups[1..];
    HeadReported(groups[0], groups[1..]);
  }

  /**
   * How many findings a report under fail-fast holds: one when pairing or listing fails; else the
   * faults of the segments up to the first with a fault besides the note on its signer.
   */
  lemma FailFastCount(lib: Lib, disk: Dir, policy: DirPolicy, clock: nat -> int, order: seq<string>, bodies: seq<string>,
                      listed: Result<seq<SegmentInfo>, Issue>, fast: seq<Found>)
    requires policy.failFast && BodiesOf(disk, bodies) && ManifestsOf(disk, order) && ListedAs(lib, disk, listed)
    requires Reports(lib, disk, policy, clock, order, fast)
    ensures listed.Ok? ==> forall i | 0 <= i < |listed.value| :: listed.value[i].path in disk
    ensures |fast| == if !Paired(disk) || listed.Err? then 1 else FastCount(lib, disk, policy, clock, listed.value, 0)
  {
    hide BodiesOf, ManifestsOf, ListedAs, StopsIn, UntilStop, Flatten, Groups, Invalidating, Orphan, ManifestNameFor, IsClosedSegmentName;
    hide FastCount, Faults, PairingGroups, Singles;
    ListedAsPaths(lib, disk, listed);
    var pairing, chain := PairingGroups(disk, bodies, order), ChainGroups(lib, disk, policy, clock, listed);
    assert fast == Flatten(UntilStop(pairing + chain));
    PairingSilent(disk, bodies, order);
    PairingSingles(disk, bodies, order);
    UntilStopConcat(pairing, chain);
    if pairing != [] {
      FirstSingle(pairing);
      FailFastPrefix(pairing);
    } else {
      NothingStops();
      assert pairing + chain == chain;
      match listed
      case Ok(infos) =>
        SeenNothing(lib, disk, infos);
        GroupsCount(lib, disk, policy, clock, infos, 0, "", map[]);
      case Err(e) =>
        InvalidatingOne(Structural(e));
        OneIsSingle([Structural(e)]);
        FirstSingle(chain);
    }
  }

  lemma OneIsSingle(g: seq<Found>)
    requires |g| == 1 && Invalidating(g)
    ensures Singles([g])
  {
  }

  /**
   * A report under fail-fast holds at most one finding exactly when pairing or listing fails, or the
   * first segment that does not pass fails a single demand, and no segment follows if that is only noted.
   */
  lemma FailFastSingleExact(lib: Lib, disk: Dir, policy: DirPolicy, clock: nat -> int, order: seq<string>, bodies: seq<string>,
                            listed: Result<seq<SegmentInfo>, Issue>, fast: seq<Found>)
    requires policy.failFast && BodiesOf(disk, bodies) && ManifestsOf(disk, order) && ListedAs(lib, disk, listed)
    requires Reports(lib, disk, policy, clock, order, fast)
    ensures listed.Ok? ==> forall i | 0 <= i < |listed.value| :: listed.value[i].path in disk
    ensures |fast| <= 1 <==>
      || !Paired(disk) || listed.Err?
      || forall j | 0 <= j < |listed.value| && FirstToFail(lib, disk, policy, clock, listed.value, 0, j) ::
           Alone(lib, disk, policy, clock, listed.value, j)
  {
    hide BodiesOf, ManifestsOf, ListedAs, Reports, FastCount, FirstToFail, Alone, Paired;
    FailFastCount(lib, disk, policy, clock, order, bodies, listed, fast);
    if listed.Ok? {
      FastCountSmall(lib, disk, policy, clock, listed.value, 0);
    }
  }

  // ---- when a report is cut off ----

  lemma {:induction false} GroupsStop(
    lib: Lib, disk: Dir, policy: DirPolicy, clock: nat -> int, infos: seq<SegmentInfo>, k: nat, prev: string, seen: map<string, string>)
    requires k <= |infos| && forall i | 0 <= i < |infos| :: infos[i].path in disk
    requires k > 0 ==> prev == lib.hash(disk[infos[k - 1].path])
    requires SeenFirst(lib, disk, infos, k, seen)
    ensures StopsIn(Groups(lib, disk, policy, clock, infos, k, k + 1, prev, seen))
      <==> exists j :: k <= j < |infos| && EndsReport(lib, disk, policy, clock, infos, j)
    decreases |infos| - k
  {
    hide SegmentFound, IsHex, SeenAfter, SeenFirst, Faults, Invalidating, Groups, Noted, StopsIn;
    if k == |infos| {
      NoGroups(lib, disk, policy, clock, infos, k + 1, prev, seen);
      NothingStops();
    } else {
      var s := infos[k];
      var head := SegmentFound(lib, disk, policy, clock(k), s, k == 0, k + 1, prev, seen);
      var prev', seen' := PrevAfter(lib, disk, s, prev), SeenAfter(lib, disk, s, seen);
      var rest := Groups(lib, disk, policy, clock, infos, k + 1, s.manifest.sequence + 1, prev', seen');
      GroupsStep(lib, disk, policy, clock, infos, k, k + 1, prev, seen);
      FaultsStop(lib, disk, policy, clock, infos, k, prev, seen);
      StopsInConcat([head], rest);
      StopsInOne(head);
      if Invalidating(head) {
        assert EndsReport(lib, disk, policy, clock, infos, k);
      } else {
        GoesOnInPlace(lib, disk, policy, clock, infos, k);
        SeenNext(lib, disk, infos, k, seen);
        GroupsStop(lib, disk, policy, clock, infos, k + 1, prev', seen');
      }
    }
  }

  /** Segment j fails more than is noted of its signer. */
  ghost predicate EndsReport(lib: Lib, disk: Dir, policy: DirPolicy, clock: nat -> int, infos: seq<SegmentInfo>, j: nat)
    requires j < |infos| && forall i | 0 <= i < |infos| :: infos[i].path in disk
  {
    Faults(lib, disk, policy, clock, infos, j) > One(Noted(policy, infos, j))
  }

  lemma StopsInOne(g: seq<Found>)
    ensures StopsIn([g]) <==> Invalidating(g)
  {
    hide Invalidating;
    assert g in [g];
  }

  /**
   * A report is cut off exactly under fail-fast, when bodies and manifests do not pair up, or else the
   * listing succeeds and some segment fails more than is noted of its signer.
   */
  lemma TruncatesExact(lib: Lib, disk: Dir, policy: DirPolicy, clock: nat -> int, order: seq<string>, bodies: seq<string>,
                       listed: Result<seq<SegmentInfo>, Issue>)
    requires BodiesOf(disk, bodies) && ManifestsOf(disk, order) && ListedAs(lib, disk, listed)
    ensures listed.Ok? ==> forall i | 0 <= i < |listed.value| :: listed.value[i].path in disk
    ensures Truncates(lib, disk, policy, clock, order)
      <==> (policy.failFast
            && (!Paired(disk) || (listed.Ok? && exists j :: 0 <= j < |listed.value| && EndsReport(lib, disk, policy, clock, listed.value, j))))
  {
    hide BodiesOf, ManifestsOf, ListedAs, StopsIn, Groups, EndsReport, Orphan, ManifestNameFor, IsClosedSegmentName, PairingGroups, Singles,
      Truncates, UntilStop;
    TruncatesAsListed(lib, disk, policy, clock, bodies, order, listed);
    PairingSilent(disk, bodies, order);
    PairingSingles(disk, bodies, order);
    var pairing := PairingGroups(disk, bodies, order);
    NothingStops();
    if pairing != [] {
      FirstSingle(pairing);
      FailFastPrefix(pairing);
    }
    if listed.Ok? {
      SeenNothing(lib, disk, listed.value);
      GroupsStop(lib, disk, policy, clock, listed.value, 0, "", map[]);
    }
  }

  // ---- inputs ----

  /** Two segments with the same record: the writer's own directory is valid, and fails the empty policy. */
  lemma EqualBodiesFail(lib: Lib, clock: nat -> int) returns (states: seq<Sys>, events: seq<Event>)
    requires lib.Sound()
    ensures Run(lib, states, events)
    ensures var disk := states[|events|].disk; ValidDir(lib, disk) && !PolicyValid(lib, disk, EMPTY_POLICY, clock)
  {
    hide Step, HasRoom, ValidDir, PolicyValid, Holds, Listed;
    var s, log;
    states, events, s, log := ReachSegments(lib, 2);
    RunsVerify(lib, states, events);
    HeldListed(lib, s.disk, log);
    HeldBodies(lib, s.disk, log);
    ListedPaths(lib, s.disk, LogInfos(log));
    assert log.closed[0].records == log.closed[1].records;
    SameBodyNotFresh(lib, s.disk, LogInfos(log));
    EmptyPolicyExact(lib, s.disk, clock);
  }

  lemma SameBodyNotFresh(lib: Lib, disk: Dir, infos: seq<SegmentInfo>)
    requires |infos| >= 2 && forall i | 0 <= i < |infos| :: infos[i].path in disk
    requires disk[infos[0].path] == disk[infos[1].path]
    ensures !FreshHash(lib, disk, infos, 1)
  {
    assert lib.hash(disk[infos[0].path]) == lib.hash(disk[infos[1].path]);
  }

  /** The bodies on disk are the records of the segments. */
  lemma HeldBodies(lib: Lib, disk: Dir, log: Log)
    requires Holds(lib, disk, log)
    ensures forall i | 0 <= i < |log.closed| ::
      LogInfos(log)[i].path in disk && disk[LogInfos(log)[i].path] == Concat(log.closed[i].records)
  {
    hide FormatSegmentName, ManifestNameFor, ManifestFits, Concat;
    forall i | 0 <= i < |log.closed|
      ensures LogInfos(log)[i].path in disk && disk[LogInfos(log)[i].path] == Concat(log.closed[i].records)
    {
      assert ClosedOnDisk(lib, disk, log.closed, i);
    }
  }

  /** A manifest with an unknown schema and the wrong number, its digest and link in order. */
  function OddManifest(lib: Lib): SegmentManifest {
    SegmentManifest("9", FormatSegmentName(1, STAMP), 2, NOON, NOON, 0, 0, lib.hash([]), "")
  }

  function OddDirectory(lib: Lib): Dir {
    map[FormatSegmentName(1, STAMP) := [], ManifestNameFor(FormatSegmentName(1, STAMP)) := lib.encode(OddManifest(lib))]
  }

  /** Fail-fast stops after the first invalid segment, not after its first finding. */
  lemma TwoUnderFailFast(lib: Lib, clock: nat -> int, order: seq<string>, fast: seq<Found>)
    requires lib.Sound() && ManifestsOf(OddDirectory(lib), order)
    requires Reports(lib, OddDirectory(lib), EMPTY_POLICY.(failFast := true), clock, order, fast)
    ensures |fast| == 2
  {
    hide ManifestsOf, Reports, FormatSegmentName, ManifestNameFor, IsClosedSegmentName, IsManifestName;
    var disk, name, policy := OddDirectory(lib), FormatSegmentName(1, STAMP), EMPTY_POLICY.(failFast := true);
    OddNames();
    var infos := [SegmentInfo(name, OddManifest(lib), 0)];
    assert BodiesOf(disk, [name]);
    assert Listed(lib, disk, infos) && Readable(lib, disk) by {
      OddListed(lib);
    }
    assert Paired(disk) by {
      OddPaired(lib);
    }
    FailFastCount(lib, disk, policy, clock, order, [name], Ok(infos), fast);
    assert FreshHash(lib, disk, infos, 0);
    OneSegment(lib, disk, policy, clock, infos);
  }

  lemma OneSegment(lib: Lib, disk: Dir, policy: DirPolicy, clock: nat -> int, infos: seq<SegmentInfo>)
    requires |infos| == 1 && infos[0].path in disk && policy == EMPTY_POLICY.(failFast := true)
    requires var m := infos[0].manifest;
      m.schemaVersion == "9" && m.sequence == 2 && m.sha256 == lib.hash(disk[infos[0].path]) && m.previousSegmentHash == "" && IsHex(m.sha256)
    requires FreshHash(lib, disk, infos, 0)
    ensures FastCount(lib, disk, policy, clock, infos, 0) == 2
  {
    hide IsHex, LowerHex, FreshHash;
    assert Faults(lib, disk, policy, clock, infos, 0) == 2;
  }

  lemma OddNames()
    ensures var name := FormatSegmentName(1, STAMP);
      IsClosedSegmentName(name) && !IsClosedSegmentName(ManifestNameFor(name)) && IsManifestName(ManifestNameFor(name))
      && !IsManifestName(name) && BodyNameFor(ManifestNameFor(name)) == name
  {
    hide IsManifestName, FormatSegmentName, BodyNameFor;
    var name := FormatSegmentName(1, STAMP);
    SequenceReadsBack(1, STAMP);
    SegmentNameEnds(1, STAMP);
    ManifestLeadsBack(name);
    ManifestNameIsNotClosed(ManifestNameFor(name));
  }

  lemma OddListed(lib: Lib)
    requires lib.Sound()
    ensures var disk, infos := OddDirectory(lib), [SegmentInfo(FormatSegmentName(1, STAMP), OddManifest(lib), 0)];
      Listed(lib, disk, infos) && Readable(lib, disk)
  {
    hide FormatSegmentName, ManifestNameFor, IsClosedSegmentName, IsManifestName;
    OddNames();
    var disk, infos := OddDirectory(lib), [SegmentInfo(FormatSegmentName(1, STAMP), OddManifest(lib), 0)];
    assert infos[0].path in disk && HasManifest(lib, disk, infos[0].path);
    forall name | name in disk && IsClosedSegmentName(name) ensures exists i :: 0 <= i < |infos| && infos[i].path == name {
      assert infos[0].path == name;
    }
  }

  lemma OddPaired(lib: Lib)
    ensures Paired(OddDirectory(lib))
  {
    hide FormatSegmentName, ManifestNameFor, IsClosedSegmentName, IsManifestName, BodyNameFor;
    OddNames();
  }
}
