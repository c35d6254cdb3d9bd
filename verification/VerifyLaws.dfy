/** What verification says about the directories the writer produces, and about deleted segments. */
module VerifyLaws {
  import opened Sorting
  import opened Segments
  import opened Rotation
  import opened LogInvariant
  import opened LogRuns
  import opened Verify

  // ---- directories the writer produces ----

  /** The listing of a directory that holds a log. */
  function LogInfos(log: Log): seq<SegmentInfo> {
    seq(|log.closed|, i requires 0 <= i < |log.closed| =>
      SegmentInfo(SegName(log.closed, i), log.closed[i].manifest, |Concat(log.closed[i].records)|))
  }

  lemma HeldReadable(lib: Lib, disk: Dir, log: Log)
    requires lib.Sound() && Holds(lib, disk, log)
    ensures Readable(lib, disk)
    ensures forall b | b in disk && IsClosedSegmentName(b) :: ManifestNameFor(b) in disk
  {
    hide IsClosedSegmentName, ManifestNameFor, ManifestFits, Concat;
    forall name | name in disk && IsClosedSegmentName(name) ensures HasManifest(lib, disk, name) {
      var i :| 0 <= i < |log.closed| && name == SegName(log.closed, i);
      assert ClosedOnDisk(lib, disk, log.closed, i);
    }
  }

  lemma HeldListed(lib: Lib, disk: Dir, log: Log)
    requires lib.Sound() && Holds(lib, disk, log)
    ensures Listed(lib, disk, LogInfos(log))
  {
    hide FormatSegmentName, ManifestNameFor, Concat;
    var infos := LogInfos(log);
    forall i | 0 <= i < |infos|
      ensures infos[i].path in disk && IsClosedSegmentName(infos[i].path) && HasManifest(lib, disk, infos[i].path)
      ensures infos[i] == Info(lib, disk, infos[i].path) && infos[i].manifest.sequence == i + 1
    {
      SequenceReadsBack(i + 1, log.closed[i].stamp);
      assert ClosedOnDisk(lib, disk, log.closed, i);
    }
    forall name | name in disk && IsClosedSegmentName(name) ensures exists i :: 0 <= i < |infos| && infos[i].path == name {
      var i :| 0 <= i < |log.closed| && name == SegName(log.closed, i);
      assert infos[i].path == name;
    }
    forall i, j | 0 <= i < j < |infos| ensures infos[i].path != infos[j].path {
      SequenceReadsBack(i + 1, log.closed[i].stamp);
      SequenceReadsBack(j + 1, log.closed[j].stamp);
    }
  }

  lemma HeldChain(lib: Lib, disk: Dir, log: Log, i: nat)
    requires lib.Sound() && Holds(lib, disk, log) && i < |log.closed|
    requires forall k | 0 <= k < |log.closed| :: SegName(log.closed, k) in disk
    ensures InChain(lib, disk, LogInfos(log), i)
  {
    hide FormatSegmentName, ManifestNameFor, Concat, IsHex, LowerHex;
    assert ClosedOnDisk(lib, disk, log.closed, i);
    if i > 0 {
      assert ClosedOnDisk(lib, disk, log.closed, i - 1);
      assert log.closed[..i][i - 1] == log.closed[i - 1];
    }
  }

  /** A directory that holds a log is valid exactly when no manifest lacks its body. */
  lemma HeldValidExact(lib: Lib, disk: Dir, log: Log)
    requires lib.Sound() && Holds(lib, disk, log)
    ensures ValidDir(lib, disk) <==> forall m :: !Orphan(disk, m)
  {
    hide Orphan, IsClosedSegmentName, ManifestNameFor, InChain, FormatSegmentName, Concat;
    HeldReadable(lib, disk, log);
    HeldListed(lib, disk, log);
    HeldSilent(lib, disk, log);
    forall infos | Listed(lib, disk, infos) ensures Chain(lib, disk, infos) {
      ListedUnique(lib, disk, infos, LogInfos(log));
    }
  }

  lemma HeldSilent(lib: Lib, disk: Dir, log: Log)
    requires lib.Sound() && Holds(lib, disk, log)
    ensures Listed(lib, disk, LogInfos(log)) && Chain(lib, disk, LogInfos(log))
  {
    hide IsClosedSegmentName, ManifestNameFor, InChain, FormatSegmentName, Concat;
    HeldListed(lib, disk, log);
    forall i | 0 <= i < |log.closed| ensures InChain(lib, disk, LogInfos(log), i) {
      forall k | 0 <= k < |log.closed| ensures SegName(log.closed, k) in disk {
        assert ClosedOnDisk(lib, disk, log.closed, k);
      }
      HeldChain(lib, disk, log, i);
    }
  }

  /** The only issues such a directory can show are manifests without a body. */
  lemma OnlyMissingBodies(lib: Lib, disk: Dir, log: Log, pairing: seq<Issue>, infos: seq<SegmentInfo>, x: Issue)
    requires lib.Sound() && Holds(lib, disk, log)
    requires PairingIssues(disk, pairing) && Listed(lib, disk, infos)
    requires x in pairing + Walk(lib, disk, infos, true, 1, "")
    ensures x.MissingBody? && Orphan(disk, x.manifest)
  {
    hide Orphan, IsClosedSegmentName, ManifestNameFor, InChain, FormatSegmentName, Concat, Walk;
    HeldReadable(lib, disk, log);
    HeldSilent(lib, disk, log);
    ListedUnique(lib, disk, infos, LogInfos(log));
    WalkSilent(lib, disk, infos, 0, "");
    assert infos[0..] == infos;
    assert Walk(lib, disk, infos, true, 1, "") == [];
    assert x in pairing;
  }

  /** After every run that was never stopped between manifest and rename, the directory verifies. */
  lemma RunsVerify(lib: Lib, states: seq<Sys>, events: seq<Event>)
    requires lib.Sound() && Run(lib, states, events)
    requires forall i | 0 <= i < |events| :: !LeavesManifest(StopOf(events[i]))
    ensures ValidDir(lib, states[|events|].disk)
  {
    hide Orphan, LeavesManifest, Holds, Step, HasRoom;
    var log := Conservation(lib, states, events);
    forall m ensures !Orphan(states[|events|].disk, m) {
      NoOrphans(lib, states, events, m);
    }
    HeldValidExact(lib, states[|events|].disk, log);
  }

  // ---- deleting whole segments ----

  /** The directory without the bodies and manifests of the listed paths. */
  function Delete(disk: Dir, paths: set<string>): Dir {
    disk - paths - (set p | p in paths :: ManifestNameFor(p))
  }

  /** The paths of the segments from k on. */
  function PathsFrom(infos: seq<SegmentInfo>, k: nat): set<string>
    requires k <= |infos|
  {
    set i | k <= i < |infos| :: infos[i].path
  }

  lemma DeletedFiles(disk: Dir, paths: set<string>, name: string)
    requires IsClosedSegmentName(name)
    requires forall p | p in paths :: IsClosedSegmentName(p)
    ensures name in Delete(disk, paths) <==> name in disk && name !in paths
    ensures ManifestNameFor(name) in Delete(disk, paths) <==> ManifestNameFor(name) in disk && name !in paths
  {
    hide IsClosedSegmentName, ManifestNameFor, BodyNameFor;
    ClosedNameEnds(name);
    ManifestLeadsBack(name);
    ManifestNameIsNotClosed(ManifestNameFor(name));
    forall p | p in paths ensures ManifestNameFor(p) != name && (ManifestNameFor(p) == ManifestNameFor(name) ==> p == name) {
      ClosedNameEnds(p);
      ManifestLeadsBack(p);
      ManifestNameIsNotClosed(ManifestNameFor(p));
    }
  }

  /** Whole pairs disappear, so what is left is still paired and readable. */
  lemma DeletedPaired(lib: Lib, disk: Dir, paths: set<string>)
    requires ValidDir(lib, disk)
    requires forall p | p in paths :: IsClosedSegmentName(p)
    ensures var d := Delete(disk, paths);
      && (forall b | b in d && IsClosedSegmentName(b) :: ManifestNameFor(b) in d)
      && (forall m :: !Orphan(d, m))
      && Readable(lib, d)
  {
    hide IsClosedSegmentName, ManifestNameFor, BodyNameFor, IsManifestName, Listed, Chain;
    var d := Delete(disk, paths);
    forall b | b in d && IsClosedSegmentName(b) ensures ManifestNameFor(b) in d && HasManifest(lib, d, b) {
      DeletedFiles(disk, paths, b);
      assert HasManifest(lib, disk, b);
    }
    forall m ensures !Orphan(d, m) {
      if Orphan(d, m) {
        assert !Orphan(disk, m);
        DeletedFiles(disk, paths, BodyNameFor(m));
        BodyLeadsBack(m);
      }
    }
  }

  lemma BodyLeadsBack(m: string)
    requires IsManifestName(m)
    ensures ManifestNameFor(BodyNameFor(m)) == m
  {
    var stem := m[..|m| - 14];
    assert m == stem + MANIFEST_SUFFIX;
    var body := BodyNameFor(m);
    assert body == stem + BODY_SUFFIX;
    assert body[|body| - 6..] == BODY_SUFFIX && body[..|body| - 6] == stem;
  }

  /** What a listing of the survivors contains. */
  lemma SurvivorsListed(lib: Lib, disk: Dir, paths: set<string>, infos: seq<SegmentInfo>, left: seq<SegmentInfo>, j: nat)
    returns (i: nat)
    requires Listed(lib, disk, infos) && Listed(lib, Delete(disk, paths), left) && j < |left|
    requires forall p | p in paths :: IsClosedSegmentName(p)
    ensures i < |infos| && infos[i] == left[j] && infos[i].path !in paths
  {
    hide IsClosedSegmentName, ManifestNameFor, SortedBy;
    DeletedFiles(disk, paths, left[j].path);
    i :| 0 <= i < |infos| && infos[i].path == left[j].path;
  }

  /** Deleting a suffix leaves the listing's prefix. */
  lemma PrefixListed(lib: Lib, disk: Dir, infos: seq<SegmentInfo>, k: nat)
    requires Listed(lib, disk, infos) && k <= |infos|
    ensures Listed(lib, Delete(disk, PathsFrom(infos, k)), infos[..k])
  {
    hide IsClosedSegmentName, ManifestNameFor, InfoLe;
    var paths := PathsFrom(infos, k);
    var d := Delete(disk, paths);
    forall i | 0 <= i < k
      ensures infos[i].path in d && HasManifest(lib, d, infos[i].path) && infos[i] == Info(lib, d, infos[i].path)
    {
      DeletedFiles(disk, paths, infos[i].path);
    }
    forall name | name in d && IsClosedSegmentName(name) ensures exists i :: 0 <= i < k && infos[..k][i].path == name {
      DeletedFiles(disk, paths, name);
      var i :| 0 <= i < |infos| && infos[i].path == name;
      assert i < k;
      assert infos[..k][i].path == name;
    }
  }

  /** Whole pairs can be deleted from a valid directory without a trace exactly from the newest end. */
  lemma DeletionExact(lib: Lib, disk: Dir, infos: seq<SegmentInfo>, paths: set<string>)
    requires ValidDir(lib, disk) && Listed(lib, disk, infos)
    requires forall p | p in paths :: p in disk && IsClosedSegmentName(p)
    ensures ValidDir(lib, Delete(disk, paths)) <==> exists k :: 0 <= k <= |infos| && paths == PathsFrom(infos, k)
  {
    hide IsClosedSegmentName, ManifestNameFor, SortedBy, InfoLe, InChain, Delete, PathsFrom;
    if ValidDir(lib, Delete(disk, paths)) {
      var k := SurvivorsArePrefix(lib, disk, infos, paths);
    }
    if k :| 0 <= k <= |infos| && paths == PathsFrom(infos, k) {
      DeletedPaired(lib, disk, paths);
      PrefixListed(lib, disk, infos, k);
      forall left | Listed(lib, Delete(disk, paths), left) ensures Chain(lib, Delete(disk, paths), left) {
        ListedUnique(lib, Delete(disk, paths), left, infos[..k]);
        PrefixChain(lib, disk, infos, k);
      }
    }
  }

  lemma PrefixChain(lib: Lib, disk: Dir, infos: seq<SegmentInfo>, k: nat)
    requires Listed(lib, disk, infos) && Chain(lib, disk, infos) && k <= |infos|
    requires Listed(lib, Delete(disk, PathsFrom(infos, k)), infos[..k])
    ensures Chain(lib, Delete(disk, PathsFrom(infos, k)), infos[..k])
  {
    hide IsClosedSegmentName, ManifestNameFor, IsHex, LowerHex, HasManifest, SortedBy;
    forall i | 0 <= i < k ensures InChain(lib, Delete(disk, PathsFrom(infos, k)), infos[..k], i) {
      assert InChain(lib, disk, infos, i);
    }
  }

  lemma {:induction false} Collect(lib: Lib, disk: Dir, names: set<string>) returns (infos: seq<SegmentInfo>)
    requires forall n | n in names :: n in disk && IsClosedSegmentName(n) && HasManifest(lib, disk, n)
    ensures forall i | 0 <= i < |infos| :: infos[i].path in names && infos[i] == Info(lib, disk, infos[i].path)
    ensures forall n | n in names :: exists i :: 0 <= i < |infos| && infos[i].path == n
    ensures forall i, j | 0 <= i < j < |infos| :: infos[i].path != infos[j].path
  {
    hide IsClosedSegmentName, HasManifest;
    if names == {} {
      infos := [];
    } else {
      var n :| n in names;
      var rest := Collect(lib, disk, names - {n});
      infos := [Info(lib, disk, n)] + rest;
      forall m | m in names ensures exists i :: 0 <= i < |infos| && infos[i].path == m {
        if m == n {
          assert infos[0].path == m;
        } else {
          assert m in names - {n};
          var i :| 0 <= i < |rest| && rest[i].path == m;
          assert infos[i + 1].path == m;
        }
      }
    }
  }

  /** Every readable directory has a listing. */
  lemma ListingOf(lib: Lib, disk: Dir) returns (infos: seq<SegmentInfo>)
    requires Readable(lib, disk)
    ensures Listed(lib, disk, infos)
  {
    hide IsClosedSegmentName, HasManifest, InfoLe;
    var names := set n | n in disk && IsClosedSegmentName(n);
    var found := Collect(lib, disk, names);
    forall i | 0 <= i < |found|
      ensures found[i].path in disk && IsClosedSegmentName(found[i].path) && HasManifest(lib, disk, found[i].path)
    {
      assert found[i].path in names;
    }
    forall n | n in disk && IsClosedSegmentName(n) ensures exists i :: 0 <= i < |found| && found[i].path == n {
      assert n in names;
    }
    infos := Sort(InfoLe, found);
    InfoLePreorder();
    SortSorts(InfoLe, found);
    SortPermutes(InfoLe, found);
    PermutedInfos(lib, disk, found, infos);
  }

  lemma SurvivorsArePrefix(lib: Lib, disk: Dir, infos: seq<SegmentInfo>, paths: set<string>) returns (k: nat)
    requires ValidDir(lib, disk) && Listed(lib, disk, infos)
    requires forall p | p in paths :: p in disk && IsClosedSegmentName(p)
    requires ValidDir(lib, Delete(disk, paths))
    ensures k <= |infos| && paths == PathsFrom(infos, k)
  {
    hide IsClosedSegmentName, ManifestNameFor, IsHex, LowerHex, InfoLe;
    var d := Delete(disk, paths);
    var left := ListingOf(lib, d);
    k := |left|;
    forall j | 0 <= j < k ensures j < |infos| && infos[j] == left[j] && infos[j].path !in paths {
      var i := SurvivorsListed(lib, disk, paths, infos, left, j);
      assert InChain(lib, d, left, j) && InChain(lib, disk, infos, i);
    }
    if k > 0 {
      var last := left[k - 1];
      assert last == infos[k - 1];
    }
    forall i | k <= i < |infos| ensures infos[i].path in paths {
      if infos[i].path !in paths {
        DeletedFiles(disk, paths, infos[i].path);
      }
    }
    forall p | p in paths ensures p in PathsFrom(infos, k) {
      var i :| 0 <= i < |infos| && infos[i].path == p;
      assert i >= k;
    }
  }
}
