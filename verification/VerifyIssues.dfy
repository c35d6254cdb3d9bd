/** Which issue is raised of which segment, and why: the walk and the policy pass, kind by kind. */
module VerifyIssues {
  import opened Sorting
  import opened Segments
  import opened Rotation
  import opened Verify
  import opened PolicyVerify

  // ---- digests, letter by letter ----

  /** Sixty-four hexadecimal digits. */
  predicate SixtyFourHex(h: string) {
    |h| == 64 && forall i | 0 <= i < 64 :: h[i] in "0123456789abcdefABCDEF"
  }

  /** The same letter, or the two cases of one hexadecimal letter. */
  predicate AlikeLetter(a: char, b: char) {
    a == b || (a in "ABCDEF" && b as int == a as int + 32) || (b in "ABCDEF" && a as int == b as int + 32)
  }

  predicate AlikeDigest(a: string, b: string) {
    |a| == |b| && forall i | 0 <= i < |a| :: AlikeLetter(a[i], b[i])
  }

  lemma HexDigits(c: char)
    ensures IsHexDigit(c) <==> c in "0123456789abcdefABCDEF"
    ensures 'A' <= c <= 'F' <==> c in "ABCDEF"
  {
    assert c in "0123456789abcdefABCDEF" <==>
      || c == '0' || c == '1' || c == '2' || c == '3' || c == '4' || c == '5' || c == '6' || c == '7' || c == '8' || c == '9'
      || c == 'a' || c == 'b' || c == 'c' || c == 'd' || c == 'e' || c == 'f'
      || c == 'A' || c == 'B' || c == 'C' || c == 'D' || c == 'E' || c == 'F';
    assert c in "ABCDEF" <==> c == 'A' || c == 'B' || c == 'C' || c == 'D' || c == 'E' || c == 'F';
  }

  lemma HexExact(h: string)
    ensures IsHex(h) <==> SixtyFourHex(h)
  {
    forall i | 0 <= i < |h| ensures IsHexDigit(h[i]) <==> h[i] in "0123456789abcdefABCDEF" {
      HexDigits(h[i]);
    }
  }

  lemma LowerCharExact(a: char, b: char)
    ensures LowerChar(a) == LowerChar(b) <==> AlikeLetter(a, b)
  {
    HexDigits(a);
    HexDigits(b);
  }

  /** Digests fold alike exactly when they differ in the case of letters at most. */
  lemma {:induction false} LowerHexExact(a: string, b: string)
    ensures LowerHex(a) == LowerHex(b) <==> AlikeDigest(a, b)
  {
    hide LowerChar, AlikeLetter;
    if a != "" && b != "" {
      LowerHexExact(a[1..], b[1..]);
      LowerCharExact(a[0], b[0]);
      AlikeCons(a, b);
      assert LowerHex(a)[0] == LowerChar(a[0]) && LowerHex(b)[0] == LowerChar(b[0]);
      assert LowerHex(a)[1..] == LowerHex(a[1..]) && LowerHex(b)[1..] == LowerHex(b[1..]);
    }
  }

  lemma AlikeCons(a: string, b: string)
    requires a != "" && b != ""
    ensures AlikeDigest(a, b) <==> AlikeLetter(a[0], b[0]) && AlikeDigest(a[1..], b[1..])
  {
    hide AlikeLetter;
    if AlikeDigest(a[1..], b[1..]) && AlikeLetter(a[0], b[0]) {
      forall i | 0 <= i < |a| ensures AlikeLetter(a[i], b[i]) {
        if i > 0 {
          assert a[i] == a[1..][i - 1] && b[i] == b[1..][i - 1];
        }
      }
    }
  }

  // ---- the walk ----

  ghost predicate OnDisk(disk: Dir, infos: seq<SegmentInfo>) {
    forall i | 0 <= i < |infos| :: infos[i].path in disk
  }

  /** The number a segment should have: one more than the number of the segment before it. */
  function Expected(infos: seq<SegmentInfo>, i: nat): nat
    requires i < |infos|
  {
    if i == 0 then 1 else infos[i - 1].manifest.sequence + 1
  }

  predicate WellFormedAt(infos: seq<SegmentInfo>, j: nat)
    requires j < |infos|
  {
    SixtyFourHex(infos[j].manifest.sha256)
  }

  /** j is the last segment before i whose manifest has a well-formed digest. */
  predicate LastBefore(infos: seq<SegmentInfo>, i: nat, j: int)
    requires i <= |infos|
  {
    0 <= j < i && WellFormedAt(infos, j) && forall k | j < k < i :: !WellFormedAt(infos, k)
  }

  /** h is the digest of the body of that segment, or empty when there is none. */
  ghost predicate BeforeIs(lib: Lib, disk: Dir, infos: seq<SegmentInfo>, i: nat, h: string)
    requires i <= |infos| && OnDisk(disk, infos)
  {
    || (exists j :: LastBefore(infos, i, j) && h == lib.hash(disk[infos[j].path]))
    || (h == "" && forall j | 0 <= j < i :: !WellFormedAt(infos, j))
  }

  /** The issue is raised of segment i. */
  ghost predicate Raised(lib: Lib, disk: Dir, infos: seq<SegmentInfo>, i: nat, x: Issue)
    requires i < |infos| && OnDisk(disk, infos)
  {
    var m, body := infos[i].manifest, lib.hash(disk[infos[i].path]);
    match x
    case BadSchema(segment, version) => segment == m.segment && version == m.schemaVersion && version != "" && version != "1"
    case Gap(wanted, found) => wanted == Expected(infos, i) && found == m.sequence && wanted != found
    case BadDigest(segment) => segment == m.segment && !SixtyFourHex(m.sha256)
    case Mismatch(segment) => segment == m.segment && SixtyFourHex(m.sha256) && !AlikeDigest(body, m.sha256)
    case GenesisLink(segment) => segment == m.segment && SixtyFourHex(m.sha256) && i == 0 && m.previousSegmentHash != ""
    case BadLink(segment) => segment == m.segment && SixtyFourHex(m.sha256) && i > 0 && !SixtyFourHex(m.previousSegmentHash)
    case BrokenLink(segment) =>
      && segment == m.segment && SixtyFourHex(m.sha256) && i > 0 && SixtyFourHex(m.previousSegmentHash)
      && exists h :: BeforeIs(lib, disk, infos, i, h) && !AlikeDigest(m.previousSegmentHash, h)
    case _ => false
  }

  /** A manifest without a well-formed digest is passed over. */
  lemma PassedOver(lib: Lib, disk: Dir, infos: seq<SegmentInfo>, i: nat, h: string)
    requires 0 < i <= |infos| && OnDisk(disk, infos) && !WellFormedAt(infos, i - 1)
    ensures BeforeIs(lib, disk, infos, i, h) <==> BeforeIs(lib, disk, infos, i - 1, h)
  {
    hide WellFormedAt;
    forall j ensures LastBefore(infos, i, j) == LastBefore(infos, i - 1, j) {
    }
    hide LastBefore;
    if j :| LastBefore(infos, i - 1, j) && h == lib.hash(disk[infos[j].path]) {
      assert LastBefore(infos, i, j);
    }
  }

  lemma {:induction false} LastHashIs(lib: Lib, disk: Dir, infos: seq<SegmentInfo>, i: nat)
    requires i <= |infos| && OnDisk(disk, infos)
    ensures forall h :: BeforeIs(lib, disk, infos, i, h) <==> h == Verify.LastHash(lib, disk, infos, i)
  {
    hide SixtyFourHex, IsHex;
    if i > 0 {
      HexExact(infos[i - 1].manifest.sha256);
      if WellFormedAt(infos, i - 1) {
        assert LastBefore(infos, i, i - 1);
      } else {
        LastHashIs(lib, disk, infos, i - 1);
        hide WellFormedAt;
        forall h ensures BeforeIs(lib, disk, infos, i, h) <==> BeforeIs(lib, disk, infos, i - 1, h) {
          PassedOver(lib, disk, infos, i, h);
        }
      }
    }
  }

  /** What segment i raises on its own. */
  function IssuesAt(lib: Lib, disk: Dir, infos: seq<SegmentInfo>, i: nat): seq<Issue>
    requires i < |infos| && forall k | 0 <= k < |infos| :: infos[k].path in disk
  {
    var s := infos[i];
    SchemaIssues(s) + GapIssues(s, Expected(infos, i)) + DigestIssues(lib, disk, s, i == 0, Verify.LastHash(lib, disk, infos, i))
  }

  lemma RaisedExact(lib: Lib, disk: Dir, infos: seq<SegmentInfo>, i: nat, x: Issue)
    requires i < |infos| && OnDisk(disk, infos)
    ensures x in IssuesAt(lib, disk, infos, i) <==> Raised(lib, disk, infos, i, x)
  {
    hide SixtyFourHex, IsHex, LowerHex, AlikeDigest, BeforeIs, Verify.LastHash;
    var s, prev := infos[i], Verify.LastHash(lib, disk, infos, i);
    var m := s.manifest;
    LastHashIs(lib, disk, infos, i);
    HexExact(m.sha256);
    HexExact(m.previousSegmentHash);
    LowerHexExact(lib.hash(disk[s.path]), m.sha256);
    LowerHexExact(m.previousSegmentHash, prev);
  }

  /** An issue is in the walk exactly when it is raised of some segment. */
  lemma WalkExact(lib: Lib, disk: Dir, infos: seq<SegmentInfo>, x: Issue)
    requires OnDisk(disk, infos)
    ensures x in Walk(lib, disk, infos, true, 1, "") <==> exists i :: 0 <= i < |infos| && Raised(lib, disk, infos, i, x)
  {
    hide Raised, Walk;
    WalkFrom(lib, disk, infos, 0, x);
    assert infos[0..] == infos;
  }

  lemma {:induction false} WalkFrom(lib: Lib, disk: Dir, infos: seq<SegmentInfo>, k: nat, x: Issue)
    requires k <= |infos| && OnDisk(disk, infos)
    ensures x in Walk(lib, disk, infos[k..], k == 0, if k == 0 then 1 else infos[k - 1].manifest.sequence + 1, Verify.LastHash(lib, disk, infos, k))
      <==> exists i :: k <= i < |infos| && Raised(lib, disk, infos, i, x)
    decreases |infos| - k
  {
    hide Raised, Walk, SchemaIssues, GapIssues, DigestIssues, IsHex, Verify.LastHash;
    WalkStep(lib, disk, infos, k, if k == 0 then 1 else infos[k - 1].manifest.sequence + 1, Verify.LastHash(lib, disk, infos, k));
    if k < |infos| {
      WalkFrom(lib, disk, infos, k + 1, x);
      HashesGrow(lib, disk, infos, k);
      RaisedExact(lib, disk, infos, k, x);
      assert (exists i :: k <= i < |infos| && Raised(lib, disk, infos, i, x))
        <==> Raised(lib, disk, infos, k, x) || exists i :: k + 1 <= i < |infos| && Raised(lib, disk, infos, i, x);
    }
  }

  // ---- the pass under a policy ----

  /** j is the first segment with a well-formed digest whose body has the digest h. */
  predicate FirstWith(lib: Lib, disk: Dir, infos: seq<SegmentInfo>, n: nat, h: string, j: int)
    requires n <= |infos| && forall k | 0 <= k < |infos| :: infos[k].path in disk
  {
    && 0 <= j < n && WellFormedAt(infos, j) && lib.hash(disk[infos[j].path]) == h
    && forall k | 0 <= k < j && WellFormedAt(infos, k) :: lib.hash(disk[infos[k].path]) != h
  }

  /** The finding is raised of segment i; after a malformed digest only schema, number and digest are looked at. */
  ghost predicate RaisedUnder(
    lib: Lib, disk: Dir, policy: DirPolicy, clock: nat -> int, infos: seq<SegmentInfo>, i: nat, x: Found)
    requires i < |infos| && OnDisk(disk, infos)
  {
    var m, body := infos[i].manifest, lib.hash(disk[infos[i].path]);
    match x
    case Structural(issue) => Raised(lib, disk, infos, i, issue) && (issue.BadSchema? ==> policy.expectedSchemaVersion == "")
    case WrongSchema(segment, version) =>
      segment == m.segment && version == m.schemaVersion && policy.expectedSchemaVersion != "" && version != policy.expectedSchemaVersion
    case Expired(segment) => segment == m.segment && WellFormedAt(infos, i) && PastRetention(policy, clock(i), infos[i])
    case SignerUnknown(segment) => segment == m.segment && WellFormedAt(infos, i) && policy.expectedSigners != []
    case Duplicate(segment, earlier) =>
      && segment == m.segment && WellFormedAt(infos, i)
      && exists j :: FirstWith(lib, disk, infos, i, body, j) && earlier == infos[j].manifest.segment
  }

  /** The digests seen before segment n, each with the segment that had it first. */
  function SeenAt(lib: Lib, disk: Dir, infos: seq<SegmentInfo>, n: nat): map<string, string>
    requires n <= |infos| && forall i | 0 <= i < |infos| :: infos[i].path in disk
  {
    if n == 0 then map[] else SeenAfter(lib, disk, infos[n - 1], SeenAt(lib, disk, infos, n - 1))
  }

  lemma {:induction false} SeenIs(lib: Lib, disk: Dir, infos: seq<SegmentInfo>, n: nat, h: string, e: string)
    requires n <= |infos| && OnDisk(disk, infos)
    ensures h in SeenAt(lib, disk, infos, n) && SeenAt(lib, disk, infos, n)[h] == e
      <==> exists j :: FirstWith(lib, disk, infos, n, h, j) && e == infos[j].manifest.segment
    ensures h !in SeenAt(lib, disk, infos, n)
      <==> forall j | 0 <= j < n && WellFormedAt(infos, j) :: lib.hash(disk[infos[j].path]) != h
  {
    hide SixtyFourHex, IsHex;
    if n > 0 {
      SeenIs(lib, disk, infos, n - 1, h, e);
      HexExact(infos[n - 1].manifest.sha256);
      hide WellFormedAt;
      if j :| FirstWith(lib, disk, infos, n - 1, h, j) && e == infos[j].manifest.segment {
        assert FirstWith(lib, disk, infos, n, h, j);
      }
      if j :| FirstWith(lib, disk, infos, n, h, j) && e == infos[j].manifest.segment {
        assert j < n - 1 ==> FirstWith(lib, disk, infos, n - 1, h, j);
      }
    }
  }

  lemma {:induction false} InLift(issues: seq<Issue>, x: Found)
    ensures x in Lift(issues) <==> x.Structural? && x.issue in issues
  {
    if issues != [] {
      InLift(issues[1..], x);
    }
  }

  /** What segment i raises under the policy. */
  function FoundAt(lib: Lib, disk: Dir, policy: DirPolicy, clock: nat -> int, infos: seq<SegmentInfo>, i: nat): seq<Found>
    requires i < |infos| && forall k | 0 <= k < |infos| :: infos[k].path in disk
  {
    SegmentFound(
      lib, disk, policy, clock(i), infos[i], i == 0, Expected(infos, i), Verify.LastHash(lib, disk, infos, i), SeenAt(lib, disk, infos, i))
  }

  lemma FoundParts(lib: Lib, disk: Dir, policy: DirPolicy, clock: nat -> int, infos: seq<SegmentInfo>, i: nat, x: Found)
    requires i < |infos| && OnDisk(disk, infos)
    ensures var s := infos[i];
      x in FoundAt(lib, disk, policy, clock, infos, i) <==>
        || x in SchemaFound(policy, s)
        || x in Lift(GapIssues(s, Expected(infos, i)))
        || x in Lift(DigestIssues(lib, disk, s, i == 0, Verify.LastHash(lib, disk, infos, i)))
        || (WellFormedAt(infos, i) &&
             (x in AgeFound(policy, clock(i), s) || x in SignerFound(policy, s) || x in DuplicateFound(lib, disk, s, SeenAt(lib, disk, infos, i))))
  {
    hide Lift, SchemaFound, GapIssues, DigestIssues, AgeFound, SignerFound, DuplicateFound, Verify.LastHash, SeenAt, IsHex, SixtyFourHex;
    HexExact(infos[i].manifest.sha256);
  }

  /** Structural findings are those of the walk, except that an expected schema version takes the place of the supported one. */
  lemma StructuralUnder(lib: Lib, disk: Dir, policy: DirPolicy, clock: nat -> int, infos: seq<SegmentInfo>, i: nat, issue: Issue)
    requires i < |infos| && OnDisk(disk, infos)
    ensures Structural(issue) in FoundAt(lib, disk, policy, clock, infos, i)
      <==> Raised(lib, disk, infos, i, issue) && (issue.BadSchema? ==> policy.expectedSchemaVersion == "")
  {
    hide Raised, Verify.LastHash, SeenAt, IsHex, LowerHex, PastRetention, SixtyFourHex, FoundAt, Lift, GapIssues, DigestIssues, SchemaIssues;
    var s := infos[i];
    var a, b := GapIssues(s, Expected(infos, i)), DigestIssues(lib, disk, s, i == 0, Verify.LastHash(lib, disk, infos, i));
    FoundParts(lib, disk, policy, clock, infos, i, Structural(issue));
    RaisedExact(lib, disk, infos, i, issue);
    InLift(SchemaIssues(s), Structural(issue));
    InLift(a, Structural(issue));
    InLift(b, Structural(issue));
    SchemaKind(s, issue);
    OtherKinds(lib, disk, s, Expected(infos, i), i == 0, Verify.LastHash(lib, disk, infos, i), issue);
    assert issue in SchemaIssues(s) + a + b <==> issue in SchemaIssues(s) || issue in a || issue in b;
  }

  lemma SchemaKind(s: SegmentInfo, issue: Issue)
    ensures issue in SchemaIssues(s) ==> issue.BadSchema?
  {
  }

  lemma OtherKinds(lib: Lib, disk: Dir, s: SegmentInfo, wanted: nat, first: bool, prev: string, issue: Issue)
    requires s.path in disk
    ensures issue in GapIssues(s, wanted) || issue in DigestIssues(lib, disk, s, first, prev) ==> !issue.BadSchema?
  {
    hide IsHex, LowerHex;
  }

  lemma PolicyUnder(lib: Lib, disk: Dir, policy: DirPolicy, clock: nat -> int, infos: seq<SegmentInfo>, i: nat, x: Found)
    requires i < |infos| && OnDisk(disk, infos) && !x.Structural?
    ensures x in FoundAt(lib, disk, policy, clock, infos, i) <==> RaisedUnder(lib, disk, policy, clock, infos, i, x)
  {
    hide Raised, Verify.LastHash, SeenAt, PastRetention, FoundAt, Lift, GapIssues, DigestIssues, SchemaIssues, FirstWith, WellFormedAt;
    var s := infos[i];
    FoundParts(lib, disk, policy, clock, infos, i, x);
    InLift(SchemaIssues(s), x);
    InLift(GapIssues(s, Expected(infos, i)), x);
    InLift(DigestIssues(lib, disk, s, i == 0, Verify.LastHash(lib, disk, infos, i)), x);
    if x.Duplicate? {
      SeenIs(lib, disk, infos, i, lib.hash(disk[s.path]), x.earlier);
    }
  }

  /** A segment's findings are exactly those raised of it. */
  lemma UnderExact(lib: Lib, disk: Dir, policy: DirPolicy, clock: nat -> int, infos: seq<SegmentInfo>, i: nat, x: Found)
    requires i < |infos| && OnDisk(disk, infos)
    ensures x in FoundAt(lib, disk, policy, clock, infos, i) <==> RaisedUnder(lib, disk, policy, clock, infos, i, x)
  {
    hide FoundAt, Raised;
    if x.Structural? {
      StructuralUnder(lib, disk, policy, clock, infos, i, x.issue);
    } else {
      PolicyUnder(lib, disk, policy, clock, infos, i, x);
    }
  }

  lemma {:induction false} GroupsFrom(lib: Lib, disk: Dir, policy: DirPolicy, clock: nat -> int, infos: seq<SegmentInfo>, k: nat, i: nat)
    requires k <= i < |infos| && OnDisk(disk, infos)
    ensures var groups := Groups(
        lib, disk, policy, clock, infos, k, Expected(infos, k), Verify.LastHash(lib, disk, infos, k), SeenAt(lib, disk, infos, k));
      |groups| > i - k && groups[i - k] == FoundAt(lib, disk, policy, clock, infos, i)
    decreases i - k
  {
    hide SegmentFound, PrevAfter, SeenAfter;
    if k < i {
      GroupsFrom(lib, disk, policy, clock, infos, k + 1, i);
    }
  }

  lemma {:induction false} GroupsLength(lib: Lib, disk: Dir, policy: DirPolicy, clock: nat -> int, infos: seq<SegmentInfo>, k: nat,
    wanted: nat, prev: string, seen: map<string, string>)
    requires k <= |infos| && OnDisk(disk, infos)
    ensures |Groups(lib, disk, policy, clock, infos, k, wanted, prev, seen)| == |infos| - k
    decreases |infos| - k
  {
    hide SegmentFound;
    if k < |infos| {
      var s := infos[k];
      GroupsLength(lib, disk, policy, clock, infos, k + 1, s.manifest.sequence + 1, PrevAfter(lib, disk, s, prev), SeenAfter(lib, disk, s, seen));
    }
  }

  /** The pass under a policy reports one group for each segment, and finds of each exactly what is raised of it. */
  lemma GroupsExact(lib: Lib, disk: Dir, policy: DirPolicy, clock: nat -> int, infos: seq<SegmentInfo>)
    requires OnDisk(disk, infos)
    ensures var groups := Groups(lib, disk, policy, clock, infos, 0, 1, "", map[]);
      && |groups| == |infos|
      && forall i, x | 0 <= i < |infos| :: x in groups[i] <==> RaisedUnder(lib, disk, policy, clock, infos, i, x)
  {
    var groups := Groups(lib, disk, policy, clock, infos, 0, 1, "", map[]);
    GroupsLength(lib, disk, policy, clock, infos, 0, 1, "", map[]);
    hide Groups, RaisedUnder, FoundAt;
    forall i, x | 0 <= i < |infos| ensures x in groups[i] <==> RaisedUnder(lib, disk, policy, clock, infos, i, x) {
      GroupsFrom(lib, disk, policy, clock, infos, 0, i);
      UnderExact(lib, disk, policy, clock, infos, i, x);
    }
  }

  // ---- how long a day is ----

  lemma ShortRetention(policy: DirPolicy, now: int, s: SegmentInfo)
    requires 0 < policy.maxRetentionDays <= 106_751
    ensures PastRetention(policy, now, s) <==> now - s.manifest.closedAt.nanos > policy.maxRetentionDays * 24 * 60 * 60 * 1_000_000_000
  {
    var limit := policy.maxRetentionDays * DAY;
    assert limit == policy.maxRetentionDays * 24 * 60 * 60 * 1_000_000_000;
    assert 0 < limit < INT64_MAX;
    assert Wrap64(limit) == limit;
  }

  lemma WrapIsEven(n: int)
    requires n % 2 == 0
    ensures Wrap64(n) < INT64_MAX
  {
    var m := n - INT64_MIN;
    var q, r := m / 0x1_0000_0000_0000_0000, m % 0x1_0000_0000_0000_0000;
    assert m == q * 0x1_0000_0000_0000_0000 + r;
    assert r % 2 == 0;
  }

  lemma LongRetention(policy: DirPolicy, s: SegmentInfo)
    requires policy.maxRetentionDays > 106_751
    ensures PastRetention(policy, s.manifest.closedAt.nanos + policy.maxRetentionDays * 24 * 60 * 60 * 1_000_000_000, s)
  {
    var limit := policy.maxRetentionDays * DAY;
    assert limit == policy.maxRetentionDays * 24 * 60 * 60 * 1_000_000_000;
    WrapIsEven(limit);
  }

  /**
   * The age check says that the segment was closed more than so many days of 24 hours ago, at all
   * times, exactly when the number of days is at most 106751: beyond, the product wraps. No limit is a
   * limit nothing is past.
   */
  lemma RetentionExact(policy: DirPolicy, s: SegmentInfo)
    ensures policy.maxRetentionDays > 0 ==>
      ((forall now ::
          PastRetention(policy, now, s)
          <==> now - s.manifest.closedAt.nanos > policy.maxRetentionDays * 24 * 60 * 60 * 1_000_000_000)
       <==> policy.maxRetentionDays <= 106_751)
    ensures policy.maxRetentionDays <= 0 ==> forall now :: !PastRetention(policy, now, s)
  {
    if policy.maxRetentionDays > 106_751 {
      LongRetention(policy, s);
    } else if policy.maxRetentionDays > 0 {
      forall now
        ensures PastRetention(policy, now, s)
          <==> now - s.manifest.closedAt.nanos > policy.maxRetentionDays * 24 * 60 * 60 * 1_000_000_000
      {
        ShortRetention(policy, now, s);
      }
    }
  }

  // ---- the order and the counts of the report ----

  /** Closed bodies are taken by rising sequence number, and by name where numbers repeat. */
  lemma BodiesBySequence(disk: Dir, bodies: seq<string>, i: nat, j: nat)
    requires BodiesOf(disk, bodies) && i < j < |bodies|
    ensures var a, b := ParseSegmentSequence(bodies[i]), ParseSegmentSequence(bodies[j]);
      a.Some? && b.Some? && (a.value < b.value || (a == b && Below(bodies[i], bodies[j])))
  {
    hide ParseSegmentSequence, Below, StringLe;
    StringLeExact(bodies[i], bodies[j]);
    assert bodies[i] in bodies && bodies[j] in bodies;
    assert BodyLe(bodies[i], bodies[j]);
  }

  /** The places of the structural issues among the first n. */
  function StructuralPlaces(fs: seq<Found>, n: nat): set<nat>
    requires n <= |fs|
  {
    set i: nat | i < n && fs[i].Structural?
  }

  lemma {:induction false} CountFrom(fs: seq<Found>, n: nat)
    requires n <= |fs|
    ensures CountStructural(fs[..n]) == |StructuralPlaces(fs, n)|
  {
    if n > 0 {
      CountFrom(fs, n - 1);
      assert fs[..n][..n - 1] == fs[..n - 1];
      var before := StructuralPlaces(fs, n - 1);
      assert StructuralPlaces(fs, n) == if fs[n - 1].Structural? then before + {n - 1} else before;
    }
  }

  /** The structural count is the number of structural issues, and the chain flag falls with any but an unsupported schema. */
  lemma CountsExact(fs: seq<Found>)
    ensures CountStructural(fs) == |set i: nat | i < |fs| && fs[i].Structural?|
    ensures Unbroken(fs) <==> forall x: Issue :: Structural(x) in fs ==> x.BadSchema?
  {
    CountFrom(fs, |fs|);
    assert fs[..|fs|] == fs;
    assert StructuralPlaces(fs, |fs|) == set i: nat | i < |fs| && fs[i].Structural?;
    if forall x: Issue :: Structural(x) in fs ==> x.BadSchema? {
      forall f | f in fs ensures !BreaksChain(f) {
        assert f.Structural? ==> Structural(f.issue) in fs;
      }
    }
  }
}
