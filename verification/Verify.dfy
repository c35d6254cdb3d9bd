/** Structural verification of a log directory (internal/audit/verify.go, ListSegments in segment.go). */
module Verify {
  import opened Wrappers
  import opened Sorting
  import opened Segments
  import opened Rotation
  import opened LogRuns
  import opened AuditWriter

  datatype SegmentInfo = SegmentInfo(path: string, manifest: SegmentManifest, sizeBytes: nat)

  datatype Issue =
    | MissingManifest(body: string)
    | MissingBody(manifest: string)
    | Unreadable(body: string)
    | BadSchema(segment: string, version: string)
    | Gap(expected: nat, found: nat)
    | BadDigest(segment: string)
    | Mismatch(segment: string)
    | GenesisLink(segment: string)
    | BadLink(segment: string)
    | BrokenLink(segment: string)

  datatype DirVerifyResult = DirVerifyResult(
    valid: bool,
    segmentsChecked: nat,
    chainValid: bool,
    activePresent: bool,
    issues: seq<Issue>,
    firstSegmentHash: string,
    lastSegmentHash: string)

  // ---- listing the closed segments ----

  /** By manifest sequence, ties by path. */
  predicate InfoLe(a: SegmentInfo, b: SegmentInfo) {
    if a.manifest.sequence == b.manifest.sequence then StringLe(a.path, b.path)
    else a.manifest.sequence < b.manifest.sequence
  }

  lemma InfoLePreorder()
    ensures TotalPreorder(InfoLe)
  {
    forall a, b ensures InfoLe(a, b) || InfoLe(b, a) {
      StringLeTotal(a.path, b.path);
    }
    forall a, b, c | InfoLe(a, b) && InfoLe(b, c) ensures InfoLe(a, c) {
      if a.manifest.sequence == b.manifest.sequence == c.manifest.sequence {
        StringLeTransitive(a.path, b.path, c.path);
      }
    }
  }

  /** The manifest of a closed body can be read. */
  predicate HasManifest(lib: Lib, disk: Dir, name: string) {
    ManifestNameFor(name) in disk && lib.decode(disk[ManifestNameFor(name)]).Some?
  }

  function Info(lib: Lib, disk: Dir, name: string): SegmentInfo
    requires name in disk && HasManifest(lib, disk, name)
  {
    SegmentInfo(name, lib.decode(disk[ManifestNameFor(name)]).value, |disk[name]|)
  }

  ghost predicate Readable(lib: Lib, disk: Dir) {
    forall name | name in disk && IsClosedSegmentName(name) :: HasManifest(lib, disk, name)
  }

  ghost predicate InfosOf(lib: Lib, disk: Dir, infos: seq<SegmentInfo>) {
    && (forall i | 0 <= i < |infos| ::
         infos[i].path in disk && IsClosedSegmentName(infos[i].path) && HasManifest(lib, disk, infos[i].path)
         && infos[i] == Info(lib, disk, infos[i].path))
    && (forall name | name in disk && IsClosedSegmentName(name) :: exists i :: 0 <= i < |infos| && infos[i].path == name)
    && (forall i, j | 0 <= i < j < |infos| :: infos[i].path != infos[j].path)
  }

  /** The closed segments of the directory, each once, in listing order. */
  ghost predicate Listed(lib: Lib, disk: Dir, infos: seq<SegmentInfo>) {
    InfosOf(lib, disk, infos) && SortedBy(InfoLe, infos)
  }

  /** A directory has one listing. */
  lemma ListedUnique(lib: Lib, disk: Dir, a: seq<SegmentInfo>, b: seq<SegmentInfo>)
    requires Listed(lib, disk, a) && Listed(lib, disk, b)
    ensures a == b
  {
    hide InfoLe, SortedBy, IsClosedSegmentName, ManifestNameFor, TotalPreorder, NoTies;
    InfoLePreorder();
    forall x ensures x in a <==> x in b {
      ListedMembers(lib, disk, a, b, x);
      ListedMembers(lib, disk, b, a, x);
    }
    SameMembersSameBag(a, b);
    ListedNoTies(lib, disk, a);
    ListedNoTies(lib, disk, b);
    SortedUnique(InfoLe, a, b);
  }

  lemma ListedMembers(lib: Lib, disk: Dir, a: seq<SegmentInfo>, b: seq<SegmentInfo>, x: SegmentInfo)
    requires InfosOf(lib, disk, a) && InfosOf(lib, disk, b)
    ensures x in a ==> x in b
  {
    hide IsClosedSegmentName, ManifestNameFor;
    if x in a {
      var i :| 0 <= i < |a| && a[i] == x;
      var j :| 0 <= j < |b| && b[j].path == x.path;
      assert b[j] == x;
    }
  }

  lemma ListedNoTies(lib: Lib, disk: Dir, a: seq<SegmentInfo>)
    requires InfosOf(lib, disk, a)
    ensures NoTies(InfoLe, a)
  {
    hide IsClosedSegmentName, ManifestNameFor;
    forall x, y | x in a && y in a && InfoLe(x, y) && InfoLe(y, x) ensures x == y {
      StringLeTotal(x.path, y.path);
      var i :| 0 <= i < |a| && a[i] == x;
      var j :| 0 <= j < |a| && a[j] == y;
    }
  }

  /** body is the first closed body, in name order, whose manifest cannot be read. */
  ghost predicate FirstUnreadable(lib: Lib, disk: Dir, body: string) {
    && body in disk && IsClosedSegmentName(body) && !HasManifest(lib, disk, body)
    && forall n | n in disk && IsClosedSegmentName(n) && !HasManifest(lib, disk, n) :: StringLe(body, n)
  }

  lemma StoppedAtFirst(lib: Lib, disk: Dir, entries: seq<string>, i: nat, infos: seq<SegmentInfo>)
    requires IsListing(entries, disk) && SortedBy(StringLe, entries) && i < |entries|
    requires InfosBelow(lib, disk, entries[..i], infos)
    requires IsClosedSegmentName(entries[i]) && !HasManifest(lib, disk, entries[i])
    ensures FirstUnreadable(lib, disk, entries[i])
  {
    hide IsClosedSegmentName, HasManifest, StringLe, InfosBelow;
    forall n | n in disk && IsClosedSegmentName(n) && !HasManifest(lib, disk, n) ensures StringLe(entries[i], n) {
      var j :| 0 <= j < |entries| && entries[j] == n;
      if n in entries[..i] {
        SeenReadable(lib, disk, entries[..i], infos, n);
      } else {
        StringLeTotal(n, n);
      }
    }
  }

  lemma SeenReadable(lib: Lib, disk: Dir, names: seq<string>, infos: seq<SegmentInfo>, n: string)
    requires InfosBelow(lib, disk, names, infos) && n in names && IsClosedSegmentName(n)
    ensures HasManifest(lib, disk, n)
  {
    var k :| 0 <= k < |infos| && infos[k].path == n;
  }

  /** ListSegments; it fails on the first body, in name order, whose manifest cannot be read. */
  method ListSegments(lib: Lib, dir: Directory) returns (r: Result<seq<SegmentInfo>, Issue>)
    ensures r.Ok? <==> Readable(lib, dir.files)
    ensures r.Ok? ==> Listed(lib, dir.files, r.value)
    ensures r.Err? ==> r.error.Unreadable? && FirstUnreadable(lib, dir.files, r.error.body)
  {
    hide IsClosedSegmentName, HasManifest, StringLe, InfoLe, InfosBelow, SortedBy, InfosOf, ManifestNameFor, FirstUnreadable;
    var entries := dir.ReadDir();
    var out: seq<SegmentInfo> := [];
    DistinctListing(entries, dir.files);
    InfosNone(lib, dir.files);
    assert entries[..0] == [];
    for i := 0 to |entries|
      invariant InfosBelow(lib, dir.files, entries[..i], out)
    {
      assert entries[..i + 1] == entries[..i] + [entries[i]];
      assert entries[i] in entries;
      if IsClosedSegmentName(entries[i]) {
        if !HasManifest(lib, dir.files, entries[i]) {
          StoppedAtFirst(lib, dir.files, entries, i, out);
          return Err(Unreadable(entries[i]));
        }
        ghost var before := out;
        out := out + [Info(lib, dir.files, entries[i])];
        InfosGrow(lib, dir.files, entries, i, before);
      } else {
        InfosSkip(lib, dir.files, entries, i, out);
      }
    }
    assert entries[..|entries|] == entries;
    var sorted := Sort(InfoLe, out);
    InfoLePreorder();
    SortSorts(InfoLe, out);
    SortPermutes(InfoLe, out);
    AllListed(lib, dir.files, entries, out);
    PermutedInfos(lib, dir.files, out, sorted);
    return Ok(sorted);
  }

  /** The infos of the closed names among those seen so far. */
  ghost predicate InfosBelow(lib: Lib, disk: Dir, names: seq<string>, infos: seq<SegmentInfo>) {
    && (forall i | 0 <= i < |infos| ::
         infos[i].path in names && infos[i].path in disk && IsClosedSegmentName(infos[i].path)
         && HasManifest(lib, disk, infos[i].path) && infos[i] == Info(lib, disk, infos[i].path))
    && (forall name | name in names && IsClosedSegmentName(name) :: exists i :: 0 <= i < |infos| && infos[i].path == name)
    && (forall i, j | 0 <= i < j < |infos| :: infos[i].path != infos[j].path)
  }

  lemma InfosNone(lib: Lib, disk: Dir)
    ensures InfosBelow(lib, disk, [], [])
  {
  }

  lemma InfosSkip(lib: Lib, disk: Dir, entries: seq<string>, i: nat, infos: seq<SegmentInfo>)
    requires i < |entries| && !IsClosedSegmentName(entries[i])
    requires InfosBelow(lib, disk, entries[..i], infos)
    ensures InfosBelow(lib, disk, entries[..i + 1], infos)
  {
    hide IsClosedSegmentName, HasManifest;
    assert entries[..i + 1] == entries[..i] + [entries[i]];
  }

  lemma InfosGrow(lib: Lib, disk: Dir, entries: seq<string>, i: nat, infos: seq<SegmentInfo>)
    requires i < |entries| && entries[i] in disk && IsClosedSegmentName(entries[i]) && HasManifest(lib, disk, entries[i])
    requires entries[i] !in entries[..i]
    requires InfosBelow(lib, disk, entries[..i], infos)
    ensures InfosBelow(lib, disk, entries[..i + 1], infos + [Info(lib, disk, entries[i])])
  {
    hide IsClosedSegmentName, HasManifest;
    var more := infos + [Info(lib, disk, entries[i])];
    assert entries[..i + 1] == entries[..i] + [entries[i]];
    forall name | name in entries[..i + 1] && IsClosedSegmentName(name)
      ensures exists k :: 0 <= k < |more| && more[k].path == name
    {
      if name in entries[..i] {
        var k :| 0 <= k < |infos| && infos[k].path == name;
        assert more[k].path == name;
      } else {
        assert more[|infos|].path == name;
      }
    }
  }

  lemma DistinctListing(entries: seq<string>, files: Dir)
    requires IsListing(entries, files) && |entries| == |files|
    ensures forall i | 0 <= i < |entries| :: entries[i] !in entries[..i]
  {
    var members := set n | n in entries;
    assert members == files.Keys;
    assert |members| == |entries|;
    DistinctBySize(entries);
  }

  lemma {:induction false} DistinctBySize(entries: seq<string>)
    ensures |set n | n in entries| <= |entries|
    ensures |set n | n in entries| == |entries| ==> forall i | 0 <= i < |entries| :: entries[i] !in entries[..i]
  {
    if entries != [] {
      var front, last := entries[..|entries| - 1], entries[|entries| - 1];
      DistinctBySize(front);
      var fs, es := (set n | n in front), (set n | n in entries);
      assert entries == front + [last];
      assert es == fs + {last};
      if |es| == |entries| {
        assert last !in fs;
        forall i | 0 <= i < |entries| ensures entries[i] !in entries[..i] {
          if i < |front| {
            assert front[..i] == entries[..i];
          }
        }
      }
    }
  }

  lemma AllListed(lib: Lib, disk: Dir, entries: seq<string>, infos: seq<SegmentInfo>)
    requires IsListing(entries, disk) && InfosBelow(lib, disk, entries, infos)
    ensures InfosOf(lib, disk, infos) && Readable(lib, disk)
  {
    hide IsClosedSegmentName, HasManifest;
    forall name | name in disk && IsClosedSegmentName(name) ensures HasManifest(lib, disk, name) {
      var i :| 0 <= i < |infos| && infos[i].path == name;
    }
  }

  lemma PermutedInfos(lib: Lib, disk: Dir, a: seq<SegmentInfo>, b: seq<SegmentInfo>)
    requires InfosOf(lib, disk, a) && multiset(a) == multiset(b)
    ensures InfosOf(lib, disk, b)
  {
    hide IsClosedSegmentName, HasManifest;
    PermutationMembers(a, b);
    forall i | 0 <= i < |b|
      ensures b[i].path in disk && IsClosedSegmentName(b[i].path) && HasManifest(lib, disk, b[i].path)
      ensures b[i] == Info(lib, disk, b[i].path)
    {
      assert b[i] in a;
    }
    forall name | name in disk && IsClosedSegmentName(name) ensures exists i :: 0 <= i < |b| && b[i].path == name {
      var i :| 0 <= i < |a| && a[i].path == name;
      assert a[i] in b;
    }
    forall i, j | 0 <= i < j < |b| ensures b[i].path != b[j].path {
      if b[i].path == b[j].path {
        assert b[i] in a && b[j] in a;
        assert b[i] == b[j];
        OnceEach(a, b[i]);
        TwiceCounted(b, i, j);
      }
    }
  }

  // ---- the chain walk ----

  function SchemaIssues(s: SegmentInfo): seq<Issue> {
    if s.manifest.schemaVersion != "" && s.manifest.schemaVersion != SCHEMA_VERSION
    then [BadSchema(s.manifest.segment, s.manifest.schemaVersion)] else []
  }

  function GapIssues(s: SegmentInfo, wanted: nat): seq<Issue> {
    if s.manifest.sequence != wanted then [Gap(wanted, s.manifest.sequence)] else []
  }

  function LinkIssues(s: SegmentInfo, first: bool, prev: string): seq<Issue> {
    if first then
      if s.manifest.previousSegmentHash != "" then [GenesisLink(s.manifest.segment)] else []
    else if !IsHex(s.manifest.previousSegmentHash) then [BadLink(s.manifest.segment)]
    else if LowerHex(s.manifest.previousSegmentHash) != LowerHex(prev) then [BrokenLink(s.manifest.segment)] else []
  }

  function DigestIssues(lib: Lib, disk: Dir, s: SegmentInfo, first: bool, prev: string): seq<Issue>
    requires s.path in disk
  {
    if !IsHex(s.manifest.sha256) then [BadDigest(s.manifest.segment)]
    else DigestMismatch(lib, disk, s) + LinkIssues(s, first, prev)
  }

  function DigestMismatch(lib: Lib, disk: Dir, s: SegmentInfo): seq<Issue>
    requires s.path in disk
  {
    if LowerHex(lib.hash(disk[s.path])) != LowerHex(s.manifest.sha256) then [Mismatch(s.manifest.segment)] else []
  }

  /** The issues of the segments in order; a segment with a malformed digest does not become the predecessor. */
  function Walk(lib: Lib, disk: Dir, infos: seq<SegmentInfo>, first: bool, wanted: nat, prev: string): seq<Issue>
    requires forall i | 0 <= i < |infos| :: infos[i].path in disk
  {
    if infos == [] then []
    else
      var s := infos[0];
      SchemaIssues(s) + GapIssues(s, wanted) + DigestIssues(lib, disk, s, first, prev)
      + Walk(lib, disk, infos[1..], false, s.manifest.sequence + 1, if IsHex(s.manifest.sha256) then lib.hash(disk[s.path]) else prev)
  }

  /** Segment i is in place: schema, number, digest and link. */
  ghost predicate InChain(lib: Lib, disk: Dir, infos: seq<SegmentInfo>, i: nat)
    requires i < |infos| && forall k | 0 <= k < |infos| :: infos[k].path in disk
  {
    var m := infos[i].manifest;
    && (m.schemaVersion == "" || m.schemaVersion == SCHEMA_VERSION)
    && InPlace(lib, disk, infos, i)
  }

  /** The manifest of segment i has the right number, digest and link. */
  ghost predicate InPlace(lib: Lib, disk: Dir, infos: seq<SegmentInfo>, i: nat)
    requires i < |infos| && forall k | 0 <= k < |infos| :: infos[k].path in disk
  {
    var m := infos[i].manifest;
    && m.sequence == i + 1
    && IsHex(m.sha256) && LowerHex(m.sha256) == LowerHex(lib.hash(disk[infos[i].path]))
    && (if i == 0 then m.previousSegmentHash == ""
        else IsHex(m.previousSegmentHash) && LowerHex(m.previousSegmentHash) == LowerHex(lib.hash(disk[infos[i - 1].path])))
  }

  ghost predicate Chain(lib: Lib, disk: Dir, infos: seq<SegmentInfo>)
    requires forall k | 0 <= k < |infos| :: infos[k].path in disk
  {
    forall i | 0 <= i < |infos| :: InChain(lib, disk, infos, i)
  }

  /** Segment k raises no issue of its own exactly when it is in its place. */
  lemma HeadSilent(lib: Lib, disk: Dir, infos: seq<SegmentInfo>, k: nat, prev: string)
    requires k < |infos| && forall i | 0 <= i < |infos| :: infos[i].path in disk
    requires k > 0 ==> prev == lib.hash(disk[infos[k - 1].path])
    ensures var s := infos[k];
      SchemaIssues(s) + GapIssues(s, k + 1) + DigestIssues(lib, disk, s, k == 0, prev) == [] <==> InChain(lib, disk, infos, k)
  {
    hide LowerHex, IsHex;
    var s := infos[k];
    var a, b, c := SchemaIssues(s), GapIssues(s, k + 1), DigestIssues(lib, disk, s, k == 0, prev);
    assert |a + b + c| == |a| + |b| + |c|;
  }

  lemma InChainNumbered(lib: Lib, disk: Dir, infos: seq<SegmentInfo>, k: nat)
    requires k < |infos| && forall i | 0 <= i < |infos| :: infos[i].path in disk
    requires InChain(lib, disk, infos, k)
    ensures infos[k].manifest.sequence == k + 1 && IsHex(infos[k].manifest.sha256)
  {
  }

  /** From segment k on, the walk is silent exactly when every segment is in its place. */
  lemma {:induction false} WalkSilent(lib: Lib, disk: Dir, infos: seq<SegmentInfo>, k: nat, prev: string)
    requires k <= |infos| && forall i | 0 <= i < |infos| :: infos[i].path in disk
    requires k > 0 ==> prev == lib.hash(disk[infos[k - 1].path])
    ensures Walk(lib, disk, infos[k..], k == 0, k + 1, prev) == []
      <==> forall i | k <= i < |infos| :: InChain(lib, disk, infos, i)
    decreases |infos| - k
  {
    hide SchemaIssues, GapIssues, DigestIssues, InChain, IsHex, Walk;
    WalkStep(lib, disk, infos, k, k + 1, prev);
    if k < |infos| {
      var s := infos[k];
      HeadSilent(lib, disk, infos, k, prev);
      var head := SchemaIssues(s) + GapIssues(s, k + 1) + DigestIssues(lib, disk, s, k == 0, prev);
      if InChain(lib, disk, infos, k) {
        InChainNumbered(lib, disk, infos, k);
        WalkSilent(lib, disk, infos, k + 1, lib.hash(disk[s.path]));
        assert head == [];
      } else {
        assert |Walk(lib, disk, infos[k..], k == 0, k + 1, prev)| >= |head| > 0;
      }
    }
  }

  lemma WalkStep(lib: Lib, disk: Dir, infos: seq<SegmentInfo>, k: nat, wanted: nat, prev: string)
    requires k <= |infos| && forall i | 0 <= i < |infos| :: infos[i].path in disk
    ensures Walk(lib, disk, infos[k..], k == 0, wanted, prev) ==
      if k == |infos| then []
      else
        var s := infos[k];
        SchemaIssues(s) + GapIssues(s, wanted) + DigestIssues(lib, disk, s, k == 0, prev)
        + Walk(lib, disk, infos[k + 1..], false, s.manifest.sequence + 1, if IsHex(s.manifest.sha256) then lib.hash(disk[s.path]) else prev)
  {
    hide SchemaIssues, GapIssues, DigestIssues, IsHex;
    if k < |infos| {
      assert infos[k..][0] == infos[k] && infos[k..][1..] == infos[k + 1..];
    }
  }

  // ---- the verdict ----

  /** Bodies and manifests pair up, every manifest can be read, and the listing is a chain 1..n. */
  ghost predicate ValidDir(lib: Lib, disk: Dir) {
    && (forall b | b in disk && IsClosedSegmentName(b) :: ManifestNameFor(b) in disk)
    && (forall m :: !Orphan(disk, m))
    && Readable(lib, disk)
    && forall infos | Listed(lib, disk, infos) :: Chain(lib, disk, infos)
  }

  /** Issues that concern pairing only. */
  ghost predicate PairingIssues(disk: Dir, issues: seq<Issue>) {
    && (forall x | x in issues :: x.MissingManifest? || x.MissingBody?)
    && (forall b :: MissingManifest(b) in issues <==> b in disk && IsClosedSegmentName(b) && ManifestNameFor(b) !in disk)
    && (forall m :: MissingBody(m) in issues <==> Orphan(disk, m))
  }

  lemma PairingHas(disk: Dir, issues: seq<Issue>, x: Issue)
    requires PairingIssues(disk, issues) && x in issues
    ensures (exists b :: b in disk && IsClosedSegmentName(b) && ManifestNameFor(b) !in disk) || exists m :: Orphan(disk, m)
  {
    match x
    case MissingManifest(b) => assert b in disk && IsClosedSegmentName(b) && ManifestNameFor(b) !in disk;
    case MissingBody(m) => assert Orphan(disk, m);
    case _ =>
  }

  lemma PairingNone(disk: Dir, issues: seq<Issue>)
    requires PairingIssues(disk, issues)
    requires forall b | b in disk && IsClosedSegmentName(b) :: ManifestNameFor(b) in disk
    requires forall m :: !Orphan(disk, m)
    ensures issues == []
  {
    if issues != [] {
      PairingHas(disk, issues, issues[0]);
    }
  }

  /** No issue at all exactly when the directory is valid. */
  lemma VerdictExact(lib: Lib, disk: Dir, infos: seq<SegmentInfo>, pairing: seq<Issue>)
    requires Listed(lib, disk, infos) && Readable(lib, disk)
    requires PairingIssues(disk, pairing)
    ensures pairing + Walk(lib, disk, infos, true, 1, "") == [] <==> ValidDir(lib, disk)
  {
    hide Orphan, IsClosedSegmentName, ManifestNameFor, HasManifest;
    WalkSilent(lib, disk, infos, 0, "");
    assert infos[0..] == infos;
    forall other | Listed(lib, disk, other) ensures other == infos {
      ListedUnique(lib, disk, other, infos);
    }
    var walk := Walk(lib, disk, infos, true, 1, "");
    if ValidDir(lib, disk) {
      PairingNone(disk, pairing);
      assert pairing == [] && walk == [];
    } else if pairing + walk == [] {
      assert pairing == [] && walk == [];
      forall b | b in disk && IsClosedSegmentName(b) ensures ManifestNameFor(b) in disk {
        assert MissingManifest(b) !in pairing;
      }
      forall m ensures !Orphan(disk, m) {
        assert MissingBody(m) !in pairing;
      }
    }
  }

  /** Splits the names into manifests and closed bodies. */
  method SplitNames(dir: Directory) returns (bodies: seq<string>, manifests: set<string>)
    ensures forall b :: b in bodies <==> b in dir.files && IsClosedSegmentName(b)
    ensures forall m :: m in manifests <==> m in dir.files && IsManifestName(m)
    ensures forall i, j | 0 <= i < j < |bodies| :: bodies[i] != bodies[j]
  {
    hide IsManifestName, ParseSegmentSequence, StringLe, SortedBy;
    var entries := dir.ReadDir();
    DistinctListing(entries, dir.files);
    bodies, manifests := [], {};
    for i := 0 to |entries|
      invariant forall b :: b in bodies <==> b in entries[..i] && IsClosedSegmentName(b)
      invariant forall m :: m in manifests <==> m in entries[..i] && IsManifestName(m)
      invariant forall j, k | 0 <= j < k < |bodies| :: bodies[j] != bodies[k]
    {
      var name := entries[i];
      assert entries[..i + 1] == entries[..i] + [name];
      if IsManifestName(name) {
        ManifestNameIsNotClosed(name);
        manifests := manifests + {name};
      } else if ParseSegmentSequence(name).Some? {
        bodies := bodies + [name];
      }
    }
    assert entries[..|entries|] == entries;
  }

  /** The two pairing loops. */
  method CheckPairing(dir: Directory, bodies: seq<string>, manifests: set<string>) returns (issues: seq<Issue>)
    requires forall b :: b in bodies <==> b in dir.files && IsClosedSegmentName(b)
    requires forall m :: m in manifests <==> m in dir.files && IsManifestName(m)
    ensures PairingIssues(dir.files, issues)
  {
    hide IsManifestName, IsClosedSegmentName, ManifestNameFor, BodyNameFor;
    issues := [];
    for i := 0 to |bodies|
      invariant forall x | x in issues :: x.MissingManifest?
      invariant forall b :: MissingManifest(b) in issues <==> b in bodies[..i] && ManifestNameFor(b) !in dir.files
    {
      var b := bodies[i];
      assert b in bodies && bodies[..i + 1] == bodies[..i] + [b];
      ClosedNameEnds(b);
      ManifestLeadsBack(b);
      if ManifestNameFor(b) !in manifests {
        issues := issues + [MissingManifest(b)];
      }
    }
    assert bodies[..|bodies|] == bodies;
    var todo := manifests;
    ghost var first := issues;
    var orphans: seq<Issue> := [];
    while todo != {}
      invariant todo <= manifests
      invariant issues == first + orphans
      invariant forall x | x in orphans :: x.MissingBody?
      invariant forall m :: MissingBody(m) in orphans <==> m in manifests - todo && Orphan(dir.files, m)
    {
      var m :| m in todo;
      todo := todo - {m};
      var found := false;
      for i := 0 to |bodies|
        invariant !found ==> forall j | 0 <= j < i :: bodies[j] != BodyNameFor(m)
        invariant found ==> BodyNameFor(m) in bodies
      {
        if bodies[i] == BodyNameFor(m) {
          found := true;
          break;
        }
      }
      assert found <==> BodyNameFor(m) in bodies;
      if !found {
        orphans := orphans + [MissingBody(m)];
        issues := issues + [MissingBody(m)];
      }
    }
  }

  /** One step of the walk: the checks of one segment. */
  method CheckSegment(lib: Lib, dir: Directory, s: SegmentInfo, first: bool, wanted: nat, prevHash: string) returns (issues: seq<Issue>)
    requires s.path in dir.files
    ensures issues == SchemaIssues(s) + GapIssues(s, wanted) + DigestIssues(lib, dir.files, s, first, prevHash)
  {
    hide IsHex, LowerHex;
    issues := [];
    if s.manifest.schemaVersion != "" && s.manifest.schemaVersion != SCHEMA_VERSION {
      issues := issues + [BadSchema(s.manifest.segment, s.manifest.schemaVersion)];
    }
    if s.manifest.sequence != wanted {
      issues := issues + [Gap(wanted, s.manifest.sequence)];
    }
    assert issues == SchemaIssues(s) + GapIssues(s, wanted);
    if !IsHex(s.manifest.sha256) {
      issues := issues + [BadDigest(s.manifest.segment)];
      return;
    }
    if LowerHex(lib.hash(dir.files[s.path])) != LowerHex(s.manifest.sha256) {
      issues := issues + [Mismatch(s.manifest.segment)];
    }
    if first {
      if s.manifest.previousSegmentHash != "" {
        issues := issues + [GenesisLink(s.manifest.segment)];
      }
    } else if !IsHex(s.manifest.previousSegmentHash) {
      issues := issues + [BadLink(s.manifest.segment)];
    } else if LowerHex(s.manifest.previousSegmentHash) != LowerHex(prevHash) {
      issues := issues + [BrokenLink(s.manifest.segment)];
    }
  }

  function PrevAfter(lib: Lib, disk: Dir, s: SegmentInfo, prev: string): string
    requires s.path in disk
  {
    if IsHex(s.manifest.sha256) then lib.hash(disk[s.path]) else prev
  }

  /** The digest of the last of the first n segments whose manifest has a well-formed one. */
  function LastHash(lib: Lib, disk: Dir, infos: seq<SegmentInfo>, n: nat): string
    requires n <= |infos| && forall i | 0 <= i < |infos| :: infos[i].path in disk
  {
    if n == 0 then "" else PrevAfter(lib, disk, infos[n - 1], LastHash(lib, disk, infos, n - 1))
  }

  /** The digest of the first segment, once it has been checked and its manifest's is well formed. */
  function FirstHash(lib: Lib, disk: Dir, infos: seq<SegmentInfo>, n: nat): string
    requires n <= |infos| && forall i | 0 <= i < |infos| :: infos[i].path in disk
  {
    if n == 0 then "" else PrevAfter(lib, disk, infos[0], "")
  }

  lemma HashesStart(lib: Lib, disk: Dir, infos: seq<SegmentInfo>)
    requires forall i | 0 <= i < |infos| :: infos[i].path in disk
    ensures FirstHash(lib, disk, infos, 0) == LastHash(lib, disk, infos, 0) == ""
  {
  }

  lemma HashesGrow(lib: Lib, disk: Dir, infos: seq<SegmentInfo>, n: nat)
    requires n < |infos| && forall i | 0 <= i < |infos| :: infos[i].path in disk
    ensures var s, before := infos[n], LastHash(lib, disk, infos, n);
      LastHash(lib, disk, infos, n + 1) == (if IsHex(s.manifest.sha256) then lib.hash(disk[s.path]) else before)
    ensures FirstHash(lib, disk, infos, n + 1) ==
      if n > 0 then FirstHash(lib, disk, infos, n)
      else if IsHex(infos[0].manifest.sha256) then lib.hash(disk[infos[0].path]) else ""
    ensures PrevAfter(lib, disk, infos[n], LastHash(lib, disk, infos, n)) == LastHash(lib, disk, infos, n + 1)
    ensures n == 0 ==> FirstHash(lib, disk, infos, n) == ""
  {
    hide IsHex;
  }

  /** The walk along the segments in order. */
  method CheckChain(lib: Lib, dir: Directory, segments: seq<SegmentInfo>) returns (issues: seq<Issue>, firstHash: string, lastHash: string)
    requires forall i | 0 <= i < |segments| :: segments[i].path in dir.files
    ensures issues == Walk(lib, dir.files, segments, true, 1, "")
    ensures firstHash == FirstHash(lib, dir.files, segments, |segments|)
    ensures lastHash == LastHash(lib, dir.files, segments, |segments|)
  {
    hide IsHex, LowerHex, SchemaIssues, GapIssues, DigestIssues, Walk, FirstHash, LastHash;
    issues, firstHash, lastHash := [], "", "";
    HashesStart(lib, dir.files, segments);
    var prevHash := "";
    var wanted: nat := 1;
    assert segments[0..] == segments;
    for i := 0 to |segments|
      invariant issues + Walk(lib, dir.files, segments[i..], i == 0, wanted, prevHash) == Walk(lib, dir.files, segments, true, 1, "")
      invariant firstHash == FirstHash(lib, dir.files, segments, i)
      invariant lastHash == prevHash == LastHash(lib, dir.files, segments, i)
    {
      HashesGrow(lib, dir.files, segments, i);
      var s := segments[i];
      WalkStep(lib, dir.files, segments, i, wanted, prevHash);
      var found := CheckSegment(lib, dir, s, i == 0, wanted, prevHash);
      issues := issues + found;
      wanted := s.manifest.sequence + 1;
      if IsHex(s.manifest.sha256) {
        prevHash := lib.hash(dir.files[s.path]);
        lastHash := prevHash;
        if i == 0 {
          firstHash := prevHash;
        }
      }
    }
    WalkStep(lib, dir.files, segments, |segments|, wanted, prevHash);
  }

  /**
   * VerifyDirectory. The ghost results split the issues into those about pairing and those of the
   * walk; the verdict is exact.
   */
  method VerifyDirectory(lib: Lib, dir: Directory)
    returns (result: DirVerifyResult, ghost pairing: seq<Issue>, ghost chain: seq<Issue>)
    ensures result.issues == pairing + chain && PairingIssues(dir.files, pairing)
    ensures if Readable(lib, dir.files)
      then exists infos :: Listed(lib, dir.files, infos) && chain == Walk(lib, dir.files, infos, true, 1, "")
             && result.segmentsChecked == |infos|
             && result.firstSegmentHash == FirstHash(lib, dir.files, infos, |infos|)
             && result.lastSegmentHash == LastHash(lib, dir.files, infos, |infos|)
      else |chain| == 1 && chain[0].Unreadable?
    ensures result.valid <==> ValidDir(lib, dir.files)
    ensures result.chainValid <==> forall x | x in result.issues :: x.BadSchema?
    ensures result.activePresent <==> ACTIVE_SEGMENT_NAME in dir.files
  {
    hide IsManifestName, IsClosedSegmentName, ManifestNameFor, BodyNameFor, SortedBy;
    var activePresent := ACTIVE_SEGMENT_NAME in dir.files;
    var bodies, manifests := SplitNames(dir);
    var issues := CheckPairing(dir, bodies, manifests);
    pairing := issues;
    var listed := ListSegments(lib, dir);
    if listed.Err? {
      chain := [listed.error];
      issues := issues + [listed.error];
      assert listed.error in issues;
      result := DirVerifyResult(false, 0, false, activePresent, issues, "", "");
      return;
    }
    var walk, firstHash, lastHash := CheckChain(lib, dir, listed.value);
    chain := walk;
    VerdictExact(lib, dir.files, listed.value, pairing);
    issues := issues + walk;
    result := DirVerifyResult(|issues| == 0, |listed.value|, OnlySchema(issues), activePresent, issues, firstHash, lastHash);
  }

  /** The chain flag is cleared with every issue but an unsupported schema version. */
  predicate OnlySchema(issues: seq<Issue>) {
    forall x | x in issues :: x.BadSchema?
  }
}
