/** The retention plan told in sequence numbers, paths and clock readings of the segments it is given. */
module RetentionRule {
  import opened Sorting
  import opened Retention

  /** A greater sequence number, or the same one and a greater path. */
  ghost predicate Newer(a: DatedSegment, b: DatedSegment) {
    || a.info.manifest.sequence > b.info.manifest.sequence
    || (a.info.manifest.sequence == b.info.manifest.sequence && a.info.path != b.info.path && Below(b.info.path, a.info.path))
  }

  /** Closed longer ago than the age limit; a manifest dated to the year 1 leaves it to the file. */
  predicate Expired(cfg: RetentionConfig, now: int, t: DatedSegment) {
    var closed := t.info.manifest.closedAt.nanos;
    cfg.maxAge > 0 && now - (if closed == -62_135_596_800_000_000_000 then t.modTime else closed) > cfg.maxAge
  }

  /** The segments with the property, in the order given. */
  ghost function Only(s: seq<DatedSegment>, p: DatedSegment -> bool): seq<DatedSegment> {
    if s == [] then [] else (if p(s[0]) then [s[0]] else []) + Only(s[1..], p)
  }

  lemma NewerFirstExact(a: DatedSegment, b: DatedSegment)
    requires a.info.path != b.info.path
    ensures NewerFirst(a, b) <==> Newer(a, b)
  {
    hide Below;
    StringLeExact(b.info.path, a.info.path);
  }

  lemma NewerOneWay(a: DatedSegment, b: DatedSegment)
    ensures !(Newer(a, b) && Newer(b, a))
  {
    hide Below;
    StringLeExact(a.info.path, b.info.path);
    StringLeExact(b.info.path, a.info.path);
    StringLeTotal(a.info.path, b.info.path);
  }

  /** The working order is by falling sequence number, and by falling path where numbers repeat. */
  lemma NewestBySequence(segments: seq<DatedSegment>, i: nat, j: nat)
    requires i < j < |Newest(segments)|
    ensures var a, b := Newest(segments)[i].info, Newest(segments)[j].info;
      && a.manifest.sequence >= b.manifest.sequence
      && (a.manifest.sequence == b.manifest.sequence ==> Below(b.path, a.path))
  {
    hide Newest, Below;
    var newest := Newest(segments);
    NewestOrdered(segments);
    assert NewerFirst(newest[i], newest[j]);
    StringLeExact(newest[j].info.path, newest[i].info.path);
  }

  lemma NewestNewer(segments: seq<DatedSegment>, i: nat, j: nat)
    requires DistinctPaths(segments) && i < |Newest(segments)| && j < |Newest(segments)|
    ensures Newer(Newest(segments)[j], Newest(segments)[i]) <==> j < i
  {
    hide Newest, Newer, NewerFirst;
    var newest := Newest(segments);
    NewestOrdered(segments);
    PermutedPaths(segments, newest);
    NewerOneWay(newest[i], newest[j]);
    if j != i {
      NewerFirstExact(newest[i], newest[j]);
      NewerFirstExact(newest[j], newest[i]);
    }
  }

  // ---- filtering ----

  lemma {:induction false} OnlyCount(s: seq<DatedSegment>, p: DatedSegment -> bool, x: DatedSegment)
    ensures multiset(Only(s, p))[x] == if p(x) then multiset(s)[x] else 0
  {
    if s != [] {
      OnlyCount(s[1..], p, x);
      assert s == [s[0]] + s[1..];
    }
  }

  lemma OnlyPermutes(a: seq<DatedSegment>, b: seq<DatedSegment>, p: DatedSegment -> bool)
    requires multiset(a) == multiset(b)
    ensures multiset(Only(a, p)) == multiset(Only(b, p))
  {
    forall x ensures multiset(Only(a, p))[x] == multiset(Only(b, p))[x] {
      OnlyCount(a, p, x);
      OnlyCount(b, p, x);
    }
  }

  lemma OnlyStep(s: seq<DatedSegment>, p: DatedSegment -> bool)
    requires s != []
    ensures Only(s, p) == (if p(s[0]) then [s[0]] else []) + Only(s[1..], p)
  {
  }

  lemma ConcatTail(a: seq<DatedSegment>, b: seq<DatedSegment>)
    requires a != []
    ensures (a + b)[0] == a[0] && (a + b)[1..] == a[1..] + b
  {
  }

  lemma ConcatAssociates(a: seq<DatedSegment>, b: seq<DatedSegment>, c: seq<DatedSegment>)
    ensures a + (b + c) == a + b + c
  {
  }

  lemma {:induction false} OnlyConcat(a: seq<DatedSegment>, b: seq<DatedSegment>, p: DatedSegment -> bool)
    ensures Only(a + b, p) == Only(a, p) + Only(b, p)
  {
    if a == [] {
      assert a + b == b;
    } else {
      OnlyStep(a, p);
      OnlyStep(a + b, p);
      hide Only;
      ConcatTail(a, b);
      OnlyConcat(a[1..], b, p);
      ConcatAssociates(if p(a[0]) then [a[0]] else [], Only(a[1..], p), Only(b, p));
    }
  }

  lemma {:induction false} OnlyNone(s: seq<DatedSegment>, p: DatedSegment -> bool)
    requires forall t | t in s :: !p(t)
    ensures Only(s, p) == []
  {
    if s != [] {
      assert s[0] in s;
      OnlyNone(s[1..], p);
    }
  }

  lemma {:induction false} YoungIsOnly(cfg: RetentionConfig, now: int, s: seq<DatedSegment>, p: DatedSegment -> bool)
    requires forall t | t in s :: p(t) <==> !TooOld(cfg, now, t)
    ensures Only(s, p) == Young(cfg, now, s)
  {
    if s != [] {
      assert s[0] in s;
      YoungIsOnly(cfg, now, s[1..], p);
    }
  }

  lemma {:induction false} StayIsOnly(plan: RetentionPlan, s: seq<DatedSegment>, p: DatedSegment -> bool)
    requires forall t | t in s :: p(t) <==> t in plan.keep
    ensures Only(s, p) == StayIn(s, plan)
  {
    if s != [] {
      assert s[0] in s;
      StayIsOnly(plan, s[1..], p);
    }
  }

  /** Of the segments newer than number i, those with the property are among the first i of the working order. */
  lemma NewerAreFront(segments: seq<DatedSegment>, i: nat, p: DatedSegment -> bool)
    requires DistinctPaths(segments) && i < |Newest(segments)|
    requires forall t :: p(t) ==> Newer(t, Newest(segments)[i])
    ensures multiset(Only(segments, p)) == multiset(Only(Newest(segments)[..i], p))
  {
    hide Newest, Newer, Only;
    var newest := Newest(segments);
    NewestOrdered(segments);
    OnlyPermutes(segments, newest, p);
    assert newest == newest[..i] + newest[i..];
    OnlyConcat(newest[..i], newest[i..], p);
    forall t | t in newest[i..] ensures !p(t) {
      var j :| i <= j < |newest| && newest[j] == t;
      NewestNewer(segments, i, j);
    }
    OnlyNone(newest[i..], p);
  }

  /**
   * Of segments with distinct paths one is removed exactly when it was closed longer ago than the age
   * limit, or as many newer ones as the count allows were not, or together with the newer ones that the
   * plan keeps it exceeds the size limit.
   */
  lemma RemovalRule(segments: seq<DatedSegment>, cfg: RetentionConfig, now: int, x: DatedSegment)
    requires DistinctPaths(segments) && x in segments
    ensures var plan := Plan(segments, cfg, now);
      x in plan.remove <==>
        || Expired(cfg, now, x)
        || (cfg.maxSegments > 0 && |Only(segments, t => Newer(t, x) && !Expired(cfg, now, t))| >= cfg.maxSegments)
        || (cfg.maxSizeBytes > 0
            && TotalSize(Only(segments, t => Newer(t, x) && t in plan.keep)) + x.info.sizeBytes > cfg.maxSizeBytes)
  {
    hide Plan, Newest, Newer, Only, TotalSize, Young, StayIn;
    var newest, plan := Newest(segments), Plan(segments, cfg, now);
    NewestOrdered(segments);
    PermutationMembers(newest, segments);
    var i :| 0 <= i < |newest| && newest[i] == x;
    RemovalExact(segments, cfg, now, i);
    YoungAhead(segments, cfg, now, i);
    KeptAhead(segments, cfg, now, i);
  }

  lemma YoungAhead(segments: seq<DatedSegment>, cfg: RetentionConfig, now: int, i: nat)
    requires DistinctPaths(segments) && i < |Newest(segments)|
    ensures var x := Newest(segments)[i];
      |Only(segments, t => Newer(t, x) && !Expired(cfg, now, t))| == |Young(cfg, now, Newest(segments)[..i])|
  {
    hide Newest, Newer, Only, Young;
    var newest := Newest(segments);
    var x := newest[i];
    var p := t => Newer(t, x) && !Expired(cfg, now, t);
    NewerAreFront(segments, i, p);
    PermutationMembers(Only(segments, p), Only(newest[..i], p));
    AheadIsNewer(segments, i);
    YoungIsOnly(cfg, now, newest[..i], p);
  }

  lemma KeptAhead(segments: seq<DatedSegment>, cfg: RetentionConfig, now: int, i: nat)
    requires DistinctPaths(segments) && i < |Newest(segments)|
    ensures var x, plan := Newest(segments)[i], Plan(segments, cfg, now);
      TotalSize(Only(segments, t => Newer(t, x) && t in plan.keep)) == TotalSize(StayIn(Newest(segments)[..i], plan))
  {
    hide Newest, Newer, Only, StayIn, TotalSize, Plan;
    var newest, plan := Newest(segments), Plan(segments, cfg, now);
    var x := newest[i];
    var p := t => Newer(t, x) && t in plan.keep;
    NewerAreFront(segments, i, p);
    TotalSizePermutes(Only(segments, p), Only(newest[..i], p));
    AheadIsNewer(segments, i);
    StayIsOnly(plan, newest[..i], p);
  }

  lemma AheadIsNewer(segments: seq<DatedSegment>, i: nat)
    requires DistinctPaths(segments) && i < |Newest(segments)|
    ensures forall t | t in Newest(segments)[..i] :: Newer(t, Newest(segments)[i])
  {
    hide Newest, Newer;
    var newest := Newest(segments);
    forall t | t in newest[..i] ensures Newer(t, newest[i]) {
      var j :| 0 <= j < i && newest[j] == t;
      NewestNewer(segments, i, j);
    }
  }

  // ---- a count limit alone ----

  lemma {:induction false} OnlyAll(s: seq<DatedSegment>, p: DatedSegment -> bool)
    requires forall t | t in s :: p(t)
    ensures Only(s, p) == s
  {
    if s != [] {
      assert s[0] in s;
      OnlyAll(s[1..], p);
    }
  }

  /** What is kept is the part of the working order that the plan keeps. */
  lemma KeepIsOnly(segments: seq<DatedSegment>, cfg: RetentionConfig, now: int)
    ensures var plan := Plan(segments, cfg, now);
      multiset(plan.keep) == multiset(Only(Newest(segments), t => t in plan.keep))
  {
    hide AllDrops, SequenceLe, NewerFirst, Only, Kept, Dropped;
    var plan := Plan(segments, cfg, now);
    var drops, listed := AllDrops(cfg, now, Newest(segments)), Sort(SequenceLe, segments);
    SortPermutes(NewerFirst, segments);
    SortPermutes(SequenceLe, segments);
    forall x ensures multiset(plan.keep)[x] == multiset(Only(Newest(segments), t => t in plan.keep))[x] {
      KeptCount(listed, drops, x);
      FilteredMembers(listed, drops, x);
      OnlyCount(Newest(segments), t => t in plan.keep, x);
    }
  }

  /** What holds of the first n and of no other leaves the first n. */
  lemma OnlyFront(s: seq<DatedSegment>, p: DatedSegment -> bool, n: nat)
    requires n <= |s| && forall i | 0 <= i < |s| :: p(s[i]) <==> i < n
    ensures Only(s, p) == s[..n]
  {
    hide Only;
    assert s == s[..n] + s[n..];
    OnlyConcat(s[..n], s[n..], p);
    OnlyAll(s[..n], p);
    OnlyNone(s[n..], p);
  }

  lemma FirstOnesStay(segments: seq<DatedSegment>, cfg: RetentionConfig, now: int)
    requires DistinctPaths(segments) && cfg.maxAge <= 0 && cfg.maxSizeBytes <= 0 && cfg.maxSegments > 0
    ensures |Plan(segments, cfg, now).keep| == if |segments| < cfg.maxSegments then |segments| else cfg.maxSegments
  {
    hide Newest, Plan, Only, DistinctPaths;
    var newest, plan := Newest(segments), Plan(segments, cfg, now);
    var p := t => t in plan.keep;
    NewestOrdered(segments);
    PermutationMembers(newest, segments);
    KeepIsOnly(segments, cfg, now);
    PermutationMembers(plan.keep, Only(newest, p));
    var n := if |segments| < cfg.maxSegments then |segments| else cfg.maxSegments;
    forall i | 0 <= i < |newest| ensures p(newest[i]) <==> i < n {
      CountOnlyKeepsNewest(segments, cfg, now, i);
    }
    OnlyFront(newest, p, n);
  }

  /** With only a count limit, no kept segment has a smaller sequence number than a removed one, and as many stay as may. */
  lemma CountLimitKeepsNewest(segments: seq<DatedSegment>, cfg: RetentionConfig, now: int)
    requires DistinctPaths(segments) && cfg.maxAge <= 0 && cfg.maxSizeBytes <= 0 && cfg.maxSegments > 0
    ensures var plan := Plan(segments, cfg, now);
      && (forall k, r | k in plan.keep && r in plan.remove :: k.info.manifest.sequence >= r.info.manifest.sequence)
      && |plan.keep| == if |segments| < cfg.maxSegments then |segments| else cfg.maxSegments
  {
    hide Newest, Plan, SequenceLe;
    var newest, plan := Newest(segments), Plan(segments, cfg, now);
    FirstOnesStay(segments, cfg, now);
    NewestOrdered(segments);
    PermutationMembers(newest, segments);
    PlanPartitions(segments, cfg, now);
    forall k, r | k in plan.keep && r in plan.remove ensures k.info.manifest.sequence >= r.info.manifest.sequence {
      assert k in multiset(segments) && r in multiset(segments);
      var i :| 0 <= i < |newest| && newest[i] == k;
      var j :| 0 <= j < |newest| && newest[j] == r;
      CountOnlyKeepsNewest(segments, cfg, now, i);
      CountOnlyKeepsNewest(segments, cfg, now, j);
      InOneOf(segments, cfg, now, r);
      NewestBySequence(segments, i, j);
    }
  }

  /** Both lists of a plan are by rising sequence number. */
  lemma PlanAscends(segments: seq<DatedSegment>, cfg: RetentionConfig, now: int)
    ensures var plan := Plan(segments, cfg, now);
      && (forall i, j | 0 <= i < j < |plan.keep| ::
           plan.keep[i].info.manifest.sequence <= plan.keep[j].info.manifest.sequence)
      && (forall i, j | 0 <= i < j < |plan.remove| ::
           plan.remove[i].info.manifest.sequence <= plan.remove[j].info.manifest.sequence)
  {
    PlanPartitions(segments, cfg, now);
    hide Plan;
    var plan := Plan(segments, cfg, now);
    assert forall i, j | 0 <= i < j < |plan.keep| :: SequenceLe(plan.keep[i], plan.keep[j]);
    assert forall i, j | 0 <= i < j < |plan.remove| :: SequenceLe(plan.remove[i], plan.remove[j]);
  }
}
