/** When one segment of a valid directory can be replaced, body and manifest, without a trace. */
module Replacement {
  import opened Wrappers
  import opened Sorting
  import opened Segments
  import opened Rotation
  import opened LogRuns
  import opened Verify
  import opened VerifyLaws

  /** The directory with another body and another manifest under the names of a segment. */
  function Replaced(disk: Dir, path: string, body: Bytes, data: Bytes): Dir {
    disk[path := body][ManifestNameFor(path) := data]
  }

  /**
   * The new manifest has the number and the link of the old one, a supported schema and the digest of
   * the new body, which is that of the old body unless the segment is the last.
   */
  predicate TakesPlace(lib: Lib, disk: Dir, infos: seq<SegmentInfo>, k: nat, body: Bytes, data: Bytes)
    requires k < |infos| && infos[k].path in disk
  {
    && lib.decode(data).Some?
    && var m, before := lib.decode(data).value, infos[k].manifest;
      && m.sequence == before.sequence
      && (m.schemaVersion == "" || m.schemaVersion == SCHEMA_VERSION)
      && LowerHex(m.previousSegmentHash) == LowerHex(before.previousSegmentHash)
      && IsHex(m.sha256) && LowerHex(m.sha256) == LowerHex(lib.hash(body))
      && (k == |infos| - 1 || LowerHex(lib.hash(body)) == LowerHex(lib.hash(disk[infos[k].path])))
  }

  // ---- digests up to case ----

  lemma {:induction false} LowerAt(s: string)
    ensures |LowerHex(s)| == |s| && forall i | 0 <= i < |s| :: LowerHex(s)[i] == LowerChar(s[i])
  {
    if s != "" {
      LowerAt(s[1..]);
    }
  }

  /** What reads like a digest up to case is one. */
  lemma HexAlike(s: string, t: string)
    requires LowerHex(s) == LowerHex(t)
    ensures IsHex(s) <==> IsHex(t)
    ensures s == "" <==> t == ""
  {
    LowerAt(s);
    LowerAt(t);
    forall i | 0 <= i < |s| ensures IsHexDigit(s[i]) <==> IsHexDigit(t[i]) {
      assert LowerChar(s[i]) == LowerHex(s)[i] == LowerChar(t[i]);
    }
  }

  // ---- the files of the other segments ----

  lemma OtherFiles(disk: Dir, path: string, other: string, body: Bytes, data: Bytes)
    requires IsClosedSegmentName(path) && IsClosedSegmentName(other) && other != path
    requires path in disk && ManifestNameFor(path) in disk
    ensures var d := Replaced(disk, path, body, data);
      && (other in d <==> other in disk) && (other in disk ==> d[other] == disk[other])
      && var m := ManifestNameFor(other); (m in d <==> m in disk) && (m in disk ==> d[m] == disk[m])
    ensures Replaced(disk, path, body, data)[path] == body && Replaced(disk, path, body, data)[ManifestNameFor(path)] == data
  {
    hide IsClosedSegmentName, ManifestNameFor, BodyNameFor;
    ClosedNameEnds(path);
    ClosedNameEnds(other);
    ManifestLeadsBack(path);
    ManifestLeadsBack(other);
    ManifestNameIsNotClosed(ManifestNameFor(path));
    ManifestNameIsNotClosed(ManifestNameFor(other));
  }

  lemma OwnFiles(disk: Dir, path: string, body: Bytes, data: Bytes)
    requires IsClosedSegmentName(path)
    ensures var d := Replaced(disk, path, body, data);
      path in d && d[path] == body && ManifestNameFor(path) in d && d[ManifestNameFor(path)] == data
  {
    hide IsClosedSegmentName, ManifestNameFor, BodyNameFor;
    ClosedNameEnds(path);
    ManifestLeadsBack(path);
    ManifestNameIsNotClosed(ManifestNameFor(path));
  }

  lemma StillPaired(lib: Lib, disk: Dir, path: string, body: Bytes, data: Bytes)
    requires ValidDir(lib, disk) && path in disk && IsClosedSegmentName(path)
    ensures var d := Replaced(disk, path, body, data);
      && d.Keys == disk.Keys
      && (forall b | b in d && IsClosedSegmentName(b) :: ManifestNameFor(b) in d)
      && (forall m :: !Orphan(d, m))
  {
    hide IsClosedSegmentName, ManifestNameFor, BodyNameFor, IsManifestName, Listed, Chain, Readable;
    var d := Replaced(disk, path, body, data);
    assert ManifestNameFor(path) in disk;
    forall m ensures !Orphan(d, m) {
      assert !Orphan(disk, m);
    }
  }

  lemma StillReadable(lib: Lib, disk: Dir, path: string, body: Bytes, data: Bytes)
    requires ValidDir(lib, disk) && path in disk && IsClosedSegmentName(path)
    ensures Readable(lib, Replaced(disk, path, body, data)) <==> lib.decode(data).Some?
  {
    hide IsClosedSegmentName, ManifestNameFor, Listed, Chain, Orphan;
    var d := Replaced(disk, path, body, data);
    OwnFiles(disk, path, body, data);
    StillPaired(lib, disk, path, body, data);
    assert HasManifest(lib, d, path) <==> lib.decode(data).Some?;
    forall name | name in d && IsClosedSegmentName(name) && name != path ensures HasManifest(lib, d, name) {
      assert HasManifest(lib, disk, name);
      OtherFiles(disk, path, name, body, data);
    }
  }

  /** Another segment is described as before. */
  lemma OtherInfo(lib: Lib, disk: Dir, path: string, other: string, body: Bytes, data: Bytes)
    requires IsClosedSegmentName(path) && IsClosedSegmentName(other) && other != path
    requires path in disk && ManifestNameFor(path) in disk && other in disk && HasManifest(lib, disk, other)
    ensures var d := Replaced(disk, path, body, data);
      other in d && HasManifest(lib, d, other) && Info(lib, d, other) == Info(lib, disk, other) && d[other] == disk[other]
  {
    hide IsClosedSegmentName, ManifestNameFor;
    OtherFiles(disk, path, other, body, data);
  }

  // ---- the listing afterwards ----

  function NewInfo(lib: Lib, path: string, body: Bytes, data: Bytes): SegmentInfo
    requires lib.decode(data).Some?
  {
    SegmentInfo(path, lib.decode(data).value, |body|)
  }

  lemma ReplacedInfos(lib: Lib, disk: Dir, infos: seq<SegmentInfo>, k: nat, body: Bytes, data: Bytes)
    requires InfosOf(lib, disk, infos) && k < |infos| && lib.decode(data).Some?
    ensures InfosOf(lib, Replaced(disk, infos[k].path, body, data), infos[k := NewInfo(lib, infos[k].path, body, data)])
  {
    hide IsClosedSegmentName, ManifestNameFor, HasManifest;
    var path := infos[k].path;
    var d, after := Replaced(disk, path, body, data), infos[k := NewInfo(lib, path, body, data)];
    assert ManifestNameFor(path) in disk by { ManifestThere(lib, disk, path); }
    OwnFiles(disk, path, body, data);
    OwnInfo(lib, d, path, body, data);
    forall i | 0 <= i < |after|
      ensures after[i].path in d && IsClosedSegmentName(after[i].path) && HasManifest(lib, d, after[i].path)
      ensures after[i] == Info(lib, d, after[i].path)
    {
      if i != k {
        OtherInfo(lib, disk, path, infos[i].path, body, data);
      }
    }
    forall name | name in d && IsClosedSegmentName(name) ensures exists i :: 0 <= i < |after| && after[i].path == name {
      if name == path {
        assert after[k].path == name;
      } else {
        OtherFiles(disk, path, name, body, data);
        var i :| 0 <= i < |infos| && infos[i].path == name;
        assert after[i].path == name;
      }
    }
  }

  lemma ManifestThere(lib: Lib, disk: Dir, path: string)
    requires path in disk && HasManifest(lib, disk, path)
    ensures ManifestNameFor(path) in disk
  {
  }

  lemma OwnInfo(lib: Lib, d: Dir, path: string, body: Bytes, data: Bytes)
    requires path in d && d[path] == body && ManifestNameFor(path) in d && d[ManifestNameFor(path)] == data && lib.decode(data).Some?
    ensures HasManifest(lib, d, path) && Info(lib, d, path) == NewInfo(lib, path, body, data)
  {
  }

  lemma ReplacedListed(lib: Lib, disk: Dir, infos: seq<SegmentInfo>, k: nat, body: Bytes, data: Bytes)
    requires Listed(lib, disk, infos) && k < |infos| && lib.decode(data).Some?
    requires lib.decode(data).value.sequence == infos[k].manifest.sequence
    ensures Listed(lib, Replaced(disk, infos[k].path, body, data), infos[k := NewInfo(lib, infos[k].path, body, data)])
  {
    hide InfosOf, StringLe;
    ReplacedInfos(lib, disk, infos, k, body, data);
    var after := infos[k := NewInfo(lib, infos[k].path, body, data)];
    forall i, j | 0 <= i < j < |after| ensures InfoLe(after[i], after[j]) {
      assert InfoLe(infos[i], infos[j]);
    }
  }

  // ---- what takes the place keeps the chain ----

  lemma TakenChain(lib: Lib, disk: Dir, infos: seq<SegmentInfo>, k: nat, body: Bytes, data: Bytes, i: nat)
    requires Listed(lib, disk, infos) && Chain(lib, disk, infos) && k < |infos| && i < |infos|
    requires TakesPlace(lib, disk, infos, k, body, data)
    requires var d := Replaced(disk, infos[k].path, body, data);
      && d[infos[k].path] == body
      && forall j | 0 <= j < |infos| :: infos[j].path in d && (j != k ==> d[infos[j].path] == disk[infos[j].path])
    ensures var d, after := Replaced(disk, infos[k].path, body, data), infos[k := NewInfo(lib, infos[k].path, body, data)];
      (forall j | 0 <= j < |after| :: after[j].path in d) && InChain(lib, d, after, i)
  {
    hide LowerHex, IsHex, Replaced, SortedBy, IsClosedSegmentName, HasManifest;
    assert InChain(lib, disk, infos, i) && InChain(lib, disk, infos, k);
    HexAlike(lib.decode(data).value.previousSegmentHash, infos[k].manifest.previousSegmentHash);
  }

  /** The segment is in both directories, with the same body and manifest. */
  predicate SameSegment(lib: Lib, disk: Dir, d: Dir, s: SegmentInfo) {
    && s.path in disk && s.path in d && d[s.path] == disk[s.path]
    && HasManifest(lib, d, s.path) && Info(lib, d, s.path) == s
  }

  lemma FilesAfter(lib: Lib, disk: Dir, infos: seq<SegmentInfo>, k: nat, body: Bytes, data: Bytes)
    requires InfosOf(lib, disk, infos) && k < |infos|
    ensures var d := Replaced(disk, infos[k].path, body, data);
      && d[infos[k].path] == body
      && infos[k].path in d
      && forall j | 0 <= j < |infos| && j != k :: SameSegment(lib, disk, d, infos[j])
  {
    hide IsClosedSegmentName, ManifestNameFor, HasManifest;
    var path := infos[k].path;
    ManifestThere(lib, disk, path);
    OwnFiles(disk, path, body, data);
    var d := Replaced(disk, path, body, data);
    forall j | 0 <= j < |infos| && j != k ensures SameSegment(lib, disk, d, infos[j]) {
      OtherInfo(lib, disk, path, infos[j].path, body, data);
    }
  }

  // ---- what keeps the chain takes the place ----

  /** In a chain of the new directory every other segment is where it was. */
  lemma OthersStay(lib: Lib, disk: Dir, infos: seq<SegmentInfo>, k: nat, body: Bytes, data: Bytes, left: seq<SegmentInfo>, i: nat)
    requires Listed(lib, disk, infos) && Chain(lib, disk, infos) && k < |infos| && i < |infos| && i != k
    requires Listed(lib, Replaced(disk, infos[k].path, body, data), left) && Chain(lib, Replaced(disk, infos[k].path, body, data), left)
    ensures i < |left| && left[i] == infos[i]
  {
    hide IsClosedSegmentName, ManifestNameFor, HasManifest, LowerHex, IsHex, Replaced, SortedBy;
    var d := Replaced(disk, infos[k].path, body, data);
    FilesAfter(lib, disk, infos, k, body, data);
    assert SameSegment(lib, disk, d, infos[i]);
    var q :| 0 <= q < |left| && left[q].path == infos[i].path;
    assert left[q] == Info(lib, d, infos[i].path) == infos[i];
    assert InChain(lib, d, left, q) && InChain(lib, disk, infos, i);
  }

  /** And so the replaced segment is where it was. */
  lemma OwnStays(lib: Lib, disk: Dir, infos: seq<SegmentInfo>, k: nat, body: Bytes, data: Bytes, left: seq<SegmentInfo>)
    requires Listed(lib, disk, infos) && Chain(lib, disk, infos) && k < |infos|
    requires Listed(lib, Replaced(disk, infos[k].path, body, data), left) && Chain(lib, Replaced(disk, infos[k].path, body, data), left)
    requires Replaced(disk, infos[k].path, body, data).Keys == disk.Keys
    ensures k < |left| && left[k].path == infos[k].path
  {
    hide IsClosedSegmentName, ManifestNameFor, HasManifest, Replaced, SortedBy, Chain;
    var path := infos[k].path;
    assert path in Replaced(disk, path, body, data);
    var j :| 0 <= j < |left| && left[j].path == path;
    if j != k && j < |infos| {
      OthersStay(lib, disk, infos, k, body, data, left, j);
    } else if j != k {
      var i :| 0 <= i < |infos| && infos[i].path == left[k].path;
      if i != k {
        OthersStay(lib, disk, infos, k, body, data, left, i);
      }
    }
  }

  lemma KeptPlace(lib: Lib, disk: Dir, infos: seq<SegmentInfo>, k: nat, body: Bytes, data: Bytes, left: seq<SegmentInfo>)
    requires Listed(lib, disk, infos) && Chain(lib, disk, infos) && k < |infos| && lib.decode(data).Some?
    requires Listed(lib, Replaced(disk, infos[k].path, body, data), left) && Chain(lib, Replaced(disk, infos[k].path, body, data), left)
    requires Replaced(disk, infos[k].path, body, data).Keys == disk.Keys
    ensures TakesPlace(lib, disk, infos, k, body, data)
  {
    hide LowerHex, IsHex, Replaced, ManifestNameFor, IsClosedSegmentName, SortedBy;
    var path := infos[k].path;
    var d := Replaced(disk, path, body, data);
    OwnStays(lib, disk, infos, k, body, data, left);
    OwnFiles(disk, path, body, data);
    OwnInfo(lib, d, path, body, data);
    FilesAfter(lib, disk, infos, k, body, data);
    assert left[k] == NewInfo(lib, path, body, data);
    assert InChain(lib, d, left, k) && InChain(lib, disk, infos, k);
    if k > 0 {
      assert SameSegment(lib, disk, d, infos[k - 1]);
      OthersStay(lib, disk, infos, k, body, data, left, k - 1);
    }
    if k + 1 < |infos| {
      OthersStay(lib, disk, infos, k, body, data, left, k + 1);
      assert InChain(lib, d, left, k + 1) && InChain(lib, disk, infos, k + 1);
    }
  }

  /** Replacing a segment's body and manifest keeps a valid directory valid exactly when the new pair takes its place. */
  lemma ReplacementExact(lib: Lib, disk: Dir, infos: seq<SegmentInfo>, k: nat, body: Bytes, data: Bytes)
    requires ValidDir(lib, disk) && Listed(lib, disk, infos) && k < |infos|
    ensures infos[k].path in disk
    ensures ValidDir(lib, Replaced(disk, infos[k].path, body, data)) <==> TakesPlace(lib, disk, infos, k, body, data)
  {
    hide IsClosedSegmentName, ManifestNameFor, Orphan, Replaced, SortedBy, InfoLe, InChain, TakesPlace, HasManifest, Readable;
    var path := infos[k].path;
    var d := Replaced(disk, path, body, data);
    StillPaired(lib, disk, path, body, data);
    StillReadable(lib, disk, path, body, data);
    if TakesPlace(lib, disk, infos, k, body, data) {
      Taken(lib, disk, infos, k, body, data);
    } else if ValidDir(lib, d) {
      var left := ListingOf(lib, d);
      KeptPlace(lib, disk, infos, k, body, data, left);
    }
  }

  lemma Taken(lib: Lib, disk: Dir, infos: seq<SegmentInfo>, k: nat, body: Bytes, data: Bytes)
    requires ValidDir(lib, disk) && Listed(lib, disk, infos) && k < |infos| && infos[k].path in disk
    requires TakesPlace(lib, disk, infos, k, body, data)
    ensures ValidDir(lib, Replaced(disk, infos[k].path, body, data))
  {
    var path := infos[k].path;
    var d, after := Replaced(disk, path, body, data), infos[k := NewInfo(lib, path, body, data)];
    StillPaired(lib, disk, path, body, data);
    StillReadable(lib, disk, path, body, data);
    ReplacedListed(lib, disk, infos, k, body, data);
    FilesAfter(lib, disk, infos, k, body, data);
    hide IsClosedSegmentName, ManifestNameFor, Orphan, Replaced, Listed, InChain, TakesPlace, HasManifest, Readable;
    forall j | 0 <= j < |infos| && j != k ensures infos[j].path in d && d[infos[j].path] == disk[infos[j].path] {
      assert SameSegment(lib, disk, d, infos[j]);
    }
    forall i | 0 <= i < |after| ensures InChain(lib, d, after, i) {
      TakenChain(lib, disk, infos, k, body, data, i);
    }
    forall left | Listed(lib, d, left) ensures Chain(lib, d, left) {
      ListedUnique(lib, d, left, after);
    }
  }
}
