/** Retention planning (internal/audit/retention.go): which closed segments to keep and which to remove. */
module Retention {
  import opened Sorting
  import opened Verify

  /** A zero limit is no limit. */
  datatype RetentionConfig = RetentionConfig(maxAge: int, maxSizeBytes: int, maxSegments: int)

  datatype DatedSegment = DatedSegment(info: SegmentInfo, modTime: int)

  datatype RetentionPlan = RetentionPlan(keep: seq<DatedSegment>, remove: seq<DatedSegment>)

  /** The zero time, in nanoseconds from 1970: the start of year 1. */
  const ZERO_TIME := -62_135_596_800_000_000_000

  /** When a segment was closed, by its manifest or else by its file. */
  function ClosedTime(s: DatedSegment): int {
    if s.info.manifest.closedAt.nanos == ZERO_TIME then s.modTime else s.info.manifest.closedAt.nanos
  }

  predicate TooOld(cfg: RetentionConfig, now: int, s: DatedSegment) {
    cfg.maxAge > 0 && ClosedTime(s) < now - cfg.maxAge
  }

  /** By sequence, ascending. */
  predicate SequenceLe(a: DatedSegment, b: DatedSegment) {
    a.info.manifest.sequence <= b.info.manifest.sequence
  }

  /** Newest first, ties by path, descending. */
  predicate NewerFirst(a: DatedSegment, b: DatedSegment) {
    if a.info.manifest.sequence == b.info.manifest.sequence then StringLe(b.info.path, a.info.path)
    else a.info.manifest.sequence > b.info.manifest.sequence
  }

  lemma OrdersArePreorders()
    ensures TotalPreorder(SequenceLe) && TotalPreorder(NewerFirst)
  {
    forall a, b ensures NewerFirst(a, b) || NewerFirst(b, a) {
      StringLeTotal(a.info.path, b.info.path);
    }
    forall a, b, c | NewerFirst(a, b) && NewerFirst(b, c) ensures NewerFirst(a, c) {
      if a.info.manifest.sequence == b.info.manifest.sequence == c.info.manifest.sequence {
        StringLeTransitive(c.info.path, b.info.path, a.info.path);
      }
    }
  }

  // ---- the plan as a function ----

  /** The segments whose path is not dropped. */
  function Kept(s: seq<DatedSegment>, drops: set<string>): seq<DatedSegment> {
    if s == [] then []
    else if s[0].info.path in drops then Kept(s[1..], drops)
    else [s[0]] + Kept(s[1..], drops)
  }

  function Dropped(s: seq<DatedSegment>, drops: set<string>): seq<DatedSegment> {
    if s == [] then []
    else if s[0].info.path in drops then [s[0]] + Dropped(s[1..], drops)
    else Dropped(s[1..], drops)
  }

  function TotalSize(s: seq<DatedSegment>): nat {
    if s == [] then 0 else s[0].info.sizeBytes + TotalSize(s[1..])
  }

  function AgeDrops(cfg: RetentionConfig, now: int, s: seq<DatedSegment>): set<string> {
    set t | t in s && TooOld(cfg, now, t) :: t.info.path
  }

  /** The count budget, newest first. */
  function CountDrops(s: seq<DatedSegment>, drops: set<string>, kept: nat, max: int): set<string> {
    if s == [] then drops
    else if s[0].info.path in drops then CountDrops(s[1..], drops, kept, max)
    else CountDrops(s[1..], if kept + 1 > max then drops + {s[0].info.path} else drops, kept + 1, max)
  }

  /** The size budget, newest first; what does not fit is passed over. */
  function SizeDrops(s: seq<DatedSegment>, drops: set<string>, used: nat, max: int): set<string> {
    if s == [] then drops
    else if s[0].info.path in drops then SizeDrops(s[1..], drops, used, max)
    else if used + s[0].info.sizeBytes > max then SizeDrops(s[1..], drops + {s[0].info.path}, used, max)
    else SizeDrops(s[1..], drops, used + s[0].info.sizeBytes, max)
  }

  function AfterCount(cfg: RetentionConfig, now: int, newest: seq<DatedSegment>): set<string> {
    var aged := AgeDrops(cfg, now, newest);
    if cfg.maxSegments > 0 then CountDrops(newest, aged, 0, cfg.maxSegments) else aged
  }

  function AllDrops(cfg: RetentionConfig, now: int, newest: seq<DatedSegment>): set<string> {
    var counted := AfterCount(cfg, now, newest);
    if cfg.maxSizeBytes > 0 then SizeDrops(newest, counted, 0, cfg.maxSizeBytes) else counted
  }

  function Newest(segments: seq<DatedSegment>): seq<DatedSegment> {
    Sort(NewerFirst, segments)
  }

  function Plan(segments: seq<DatedSegment>, cfg: RetentionConfig, now: int): RetentionPlan {
    var drops := AllDrops(cfg, now, Newest(segments));
    var listed := Sort(SequenceLe, segments);
    RetentionPlan(Kept(listed, drops), Dropped(listed, drops))
  }

  // ---- the planner ----

  method PlanRetention(segments: seq<DatedSegment>, cfg: RetentionConfig, now: int) returns (plan: RetentionPlan)
    ensures plan == Plan(segments, cfg, now)
  {
    hide AgeDrops, CountDrops, SizeDrops, Sort, NewerFirst, SequenceLe;
    if |segments| == 0 {
      NothingToPlan(cfg, now);
      return RetentionPlan([], []);
    }
    var ordered := Sort(NewerFirst, segments);
    var removeSet := DropOld(ordered, cfg, now);
    if cfg.maxSegments > 0 {
      removeSet := DropBeyondCount(ordered, removeSet, cfg.maxSegments);
    }
    if cfg.maxSizeBytes > 0 {
      removeSet := DropBeyondSize(ordered, removeSet, cfg.maxSizeBytes);
    }
    plan := Report(Sort(SequenceLe, segments), removeSet);
  }

  lemma NothingToPlan(cfg: RetentionConfig, now: int)
    ensures Plan([], cfg, now) == RetentionPlan([], [])
  {
    assert Sort(SequenceLe, []) == [];
  }

  method Report(listed: seq<DatedSegment>, removeSet: set<string>) returns (plan: RetentionPlan)
    ensures plan == RetentionPlan(Kept(listed, removeSet), Dropped(listed, removeSet))
  {
    var keep, remove: seq<DatedSegment> := [], [];
    assert listed[0..] == listed;
    for i := 0 to |listed|
      invariant keep + Kept(listed[i..], removeSet) == Kept(listed, removeSet)
      invariant remove + Dropped(listed[i..], removeSet) == Dropped(listed, removeSet)
    {
      assert listed[i..][1..] == listed[i + 1..];
      if listed[i].info.path in removeSet {
        remove := remove + [listed[i]];
      } else {
        keep := keep + [listed[i]];
      }
    }
    plan := RetentionPlan(keep, remove);
  }

  method DropOld(ordered: seq<DatedSegment>, cfg: RetentionConfig, now: int) returns (removeSet: set<string>)
    ensures removeSet == AgeDrops(cfg, now, ordered)
  {
    removeSet := {};
    if cfg.maxAge > 0 {
      for i := 0 to |ordered|
        invariant removeSet == AgeDrops(cfg, now, ordered[..i])
      {
        assert ordered[..i + 1] == ordered[..i] + [ordered[i]];
        if ClosedTime(ordered[i]) < now - cfg.maxAge {
          removeSet := removeSet + {ordered[i].info.path};
        }
      }
      assert ordered[..|ordered|] == ordered;
    }
  }

  method DropBeyondCount(ordered: seq<DatedSegment>, drops: set<string>, max: int) returns (removeSet: set<string>)
    ensures removeSet == CountDrops(ordered, drops, 0, max)
  {
    removeSet := drops;
    var kept: nat := 0;
    assert ordered[0..] == ordered;
    for i := 0 to |ordered|
      invariant CountDrops(ordered[i..], removeSet, kept, max) == CountDrops(ordered, drops, 0, max)
    {
      assert ordered[i..][1..] == ordered[i + 1..];
      if ordered[i].info.path !in removeSet {
        kept := kept + 1;
        if kept > max {
          removeSet := removeSet + {ordered[i].info.path};
        }
      }
    }
  }

  method DropBeyondSize(ordered: seq<DatedSegment>, drops: set<string>, max: int) returns (removeSet: set<string>)
    ensures removeSet == SizeDrops(ordered, drops, 0, max)
  {
    removeSet := drops;
    var used: nat := 0;
    assert ordered[0..] == ordered;
    for i := 0 to |ordered|
      invariant SizeDrops(ordered[i..], removeSet, used, max) == SizeDrops(ordered, drops, 0, max)
    {
      assert ordered[i..][1..] == ordered[i + 1..];
      if ordered[i].info.path !in removeSet {
        if used + ordered[i].info.sizeBytes > max {
          removeSet := removeSet + {ordered[i].info.path};
        } else {
          used := used + ordered[i].info.sizeBytes;
        }
      }
    }
  }

  method TotalRemoveBytes(plan: RetentionPlan) returns (n: nat)
    ensures n == TotalSize(plan.remove)
  {
    n := 0;
    assert plan.remove[0..] == plan.remove;
    for i := 0 to |plan.remove|
      invariant n + TotalSize(plan.remove[i..]) == TotalSize(plan.remove)
    {
      assert plan.remove[i..][1..] == plan.remove[i + 1..];
      n := n + plan.remove[i].info.sizeBytes;
    }
  }

  // ---- filtering does not depend on order ----

  lemma {:induction false} KeptCount(s: seq<DatedSegment>, drops: set<string>, x: DatedSegment)
    ensures multiset(Kept(s, drops))[x] == if x.info.path in drops then 0 else multiset(s)[x]
    ensures multiset(Dropped(s, drops))[x] == if x.info.path in drops then multiset(s)[x] else 0
  {
    if s != [] {
      KeptCount(s[1..], drops, x);
      assert s == [s[0]] + s[1..];
    }
  }

  lemma KeptPermutes(a: seq<DatedSegment>, b: seq<DatedSegment>, drops: set<string>)
    requires multiset(a) == multiset(b)
    ensures multiset(Kept(a, drops)) == multiset(Kept(b, drops))
  {
    forall x ensures multiset(Kept(a, drops))[x] == multiset(Kept(b, drops))[x] {
      KeptCount(a, drops, x);
      KeptCount(b, drops, x);
    }
  }

  lemma {:induction false} TotalSizeAt(s: seq<DatedSegment>, i: nat)
    requires i < |s|
    ensures TotalSize(s) == s[i].info.sizeBytes + TotalSize(s[..i] + s[i + 1..])
  {
    if i == 0 {
      assert s[..0] + s[1..] == s[1..];
    } else {
      TotalSizeAt(s[1..], i - 1);
      assert (s[..i] + s[i + 1..])[1..] == s[1..][..i - 1] + s[1..][i..];
    }
  }

  lemma WithoutOne(s: seq<DatedSegment>, i: nat)
    requires i < |s|
    ensures multiset(s[..i] + s[i + 1..]) == multiset(s) - multiset{s[i]}
  {
    assert s == s[..i] + [s[i]] + s[i + 1..];
    assert multiset(s) == multiset(s[..i] + s[i + 1..]) + multiset{s[i]};
  }

  lemma {:induction false} TotalSizePermutes(a: seq<DatedSegment>, b: seq<DatedSegment>)
    requires multiset(a) == multiset(b)
    ensures TotalSize(a) == TotalSize(b)
  {
    hide TotalSize;
    PermutationMembers(a, b);
    if a == [] {
      assert b == [];
    } else {
      assert a[0] in b;
      var i :| 0 <= i < |b| && b[i] == a[0];
      WithoutOne(a, 0);
      WithoutOne(b, i);
      TotalSizePermutes(a[..0] + a[1..], b[..i] + b[i + 1..]);
      TotalSizeAt(a, 0);
      TotalSizeAt(b, i);
    }
  }

  lemma {:induction false} SumsSplit(s: seq<DatedSegment>, drops: set<string>)
    ensures TotalSize(Kept(s, drops)) + TotalSize(Dropped(s, drops)) == TotalSize(s)
  {
    if s != [] {
      SumsSplit(s[1..], drops);
    }
  }

  lemma {:induction false} KeptSorted(s: seq<DatedSegment>, drops: set<string>)
    requires SortedBy(SequenceLe, s)
    ensures SortedBy(SequenceLe, Kept(s, drops)) && SortedBy(SequenceLe, Dropped(s, drops))
  {
    if s != [] {
      KeptSorted(s[1..], drops);
      forall x | x in Kept(s[1..], drops) || x in Dropped(s[1..], drops) ensures SequenceLe(s[0], x) {
        FilteredMembers(s[1..], drops, x);
        var i :| 0 <= i < |s[1..]| && s[1..][i] == x;
        assert s[i + 1] == x;
      }
    }
  }

  lemma FilteredMembers(s: seq<DatedSegment>, drops: set<string>, x: DatedSegment)
    ensures x in Kept(s, drops) <==> x in s && x.info.path !in drops
    ensures x in Dropped(s, drops) <==> x in s && x.info.path in drops
  {
    KeptCount(s, drops, x);
    assert x in s <==> multiset(s)[x] > 0;
    assert x in Kept(s, drops) <==> multiset(Kept(s, drops))[x] > 0;
    assert x in Dropped(s, drops) <==> multiset(Dropped(s, drops))[x] > 0;
  }

  /** Keep and Remove split the input, both in ascending sequence order, and so do their sizes. */
  lemma PlanPartitions(segments: seq<DatedSegment>, cfg: RetentionConfig, now: int)
    ensures var p := Plan(segments, cfg, now);
      && multiset(p.keep) + multiset(p.remove) == multiset(segments)
      && SortedBy(SequenceLe, p.keep) && SortedBy(SequenceLe, p.remove)
      && (forall k, r | k in p.keep && r in p.remove :: k.info.path != r.info.path)
      && TotalSize(p.keep) + TotalSize(p.remove) == TotalSize(segments)
  {
    hide AllDrops, SequenceLe, NewerFirst, SortedBy, TotalPreorder;
    var drops := AllDrops(cfg, now, Newest(segments));
    var listed := Sort(SequenceLe, segments);
    OrdersArePreorders();
    SortSorts(SequenceLe, segments);
    SortPermutes(SequenceLe, segments);
    KeptSorted(listed, drops);
    SumsSplit(listed, drops);
    TotalSizePermutes(listed, segments);
    forall x ensures (multiset(Kept(listed, drops)) + multiset(Dropped(listed, drops)))[x] == multiset(segments)[x] {
      KeptCount(listed, drops, x);
    }
    forall k, r | k in Kept(listed, drops) && r in Dropped(listed, drops) ensures k.info.path != r.info.path {
      FilteredMembers(listed, drops, k);
      FilteredMembers(listed, drops, r);
    }
  }

  // ---- the limits ----

  lemma {:induction false} CountBound(s: seq<DatedSegment>, drops: set<string>, kept: nat, max: nat)
    ensures var all := CountDrops(s, drops, kept, max);
      drops <= all && |Kept(s, all)| <= if kept <= max then max - kept else 0
  {
    if s != [] {
      var p := s[0].info.path;
      if p in drops {
        CountBound(s[1..], drops, kept, max);
      } else {
        CountBound(s[1..], if kept + 1 > max then drops + {p} else drops, kept + 1, max);
      }
    }
  }

  lemma {:induction false} SizeBound(s: seq<DatedSegment>, drops: set<string>, used: nat, max: nat)
    requires used <= max
    ensures var all := SizeDrops(s, drops, used, max);
      drops <= all && used + TotalSize(Kept(s, all)) <= max
  {
    if s != [] {
      var p := s[0].info.path;
      if p in drops {
        SizeBound(s[1..], drops, used, max);
      } else if used + s[0].info.sizeBytes > max {
        SizeBound(s[1..], drops + {p}, used, max);
      } else {
        SizeBound(s[1..], drops, used + s[0].info.sizeBytes, max);
      }
    }
  }

  lemma {:induction false} KeptShrinks(s: seq<DatedSegment>, few: set<string>, many: set<string>)
    requires few <= many
    ensures |Kept(s, many)| <= |Kept(s, few)|
  {
    if s != [] {
      KeptShrinks(s[1..], few, many);
    }
  }

  ghost predicate WithinLimits(s: seq<DatedSegment>, cfg: RetentionConfig, now: int) {
    && (forall t | t in s :: !TooOld(cfg, now, t))
    && (cfg.maxSegments > 0 ==> |s| <= cfg.maxSegments)
    && (cfg.maxSizeBytes > 0 ==> TotalSize(s) <= cfg.maxSizeBytes)
  }

  lemma DropsEnough(newest: seq<DatedSegment>, cfg: RetentionConfig, now: int)
    ensures WithinLimits(Kept(newest, AllDrops(cfg, now, newest)), cfg, now)
  {
    hide TooOld;
    var aged := AgeDrops(cfg, now, newest);
    var counted := AfterCount(cfg, now, newest);
    var all := AllDrops(cfg, now, newest);
    if cfg.maxSegments > 0 {
      CountBound(newest, aged, 0, cfg.maxSegments);
    }
    if cfg.maxSizeBytes > 0 {
      SizeBound(newest, counted, 0, cfg.maxSizeBytes);
    }
    KeptShrinks(newest, counted, all);
    forall t | t in Kept(newest, all) ensures !TooOld(cfg, now, t) {
      FilteredMembers(newest, all, t);
    }
  }

  /** What is kept meets the age, count and size limits together. */
  lemma KeepMeetsLimits(segments: seq<DatedSegment>, cfg: RetentionConfig, now: int)
    ensures WithinLimits(Plan(segments, cfg, now).keep, cfg, now)
  {
    hide TooOld, AllDrops, NewerFirst, SequenceLe;
    var newest := Newest(segments);
    var drops := AllDrops(cfg, now, newest);
    DropsEnough(newest, cfg, now);
    SortPermutes(NewerFirst, segments);
    SortPermutes(SequenceLe, segments);
    KeptPermutes(newest, Sort(SequenceLe, segments), drops);
    PermutationMembers(Kept(newest, drops), Plan(segments, cfg, now).keep);
    TotalSizePermutes(Kept(newest, drops), Plan(segments, cfg, now).keep);
  }

  lemma {:induction false} CountIdle(s: seq<DatedSegment>, kept: nat, max: int)
    requires kept + |s| <= max
    ensures CountDrops(s, {}, kept, max) == {}
  {
    if s != [] {
      CountIdle(s[1..], kept + 1, max);
    }
  }

  lemma {:induction false} SizeIdle(s: seq<DatedSegment>, used: nat, max: int)
    requires used + TotalSize(s) <= max
    ensures SizeDrops(s, {}, used, max) == {}
  {
    if s != [] {
      SizeIdle(s[1..], used + s[0].info.sizeBytes, max);
    }
  }

  lemma {:induction false} KeptAll(s: seq<DatedSegment>)
    ensures Kept(s, {}) == s && Dropped(s, {}) == []
  {
    if s != [] {
      KeptAll(s[1..]);
    }
  }

  /** Segments within the limits and in order are all kept. */
  lemma WithinLimitsKept(s: seq<DatedSegment>, cfg: RetentionConfig, now: int)
    requires WithinLimits(s, cfg, now) && SortedBy(SequenceLe, s)
    ensures Plan(s, cfg, now) == RetentionPlan(s, [])
  {
    hide TooOld, NewerFirst, SequenceLe, SortedBy;
    var newest := Newest(s);
    SortPermutes(NewerFirst, s);
    PermutationMembers(newest, s);
    TotalSizePermutes(newest, s);
    assert AgeDrops(cfg, now, newest) == {};
    if cfg.maxSegments > 0 {
      CountIdle(newest, 0, cfg.maxSegments);
    }
    if cfg.maxSizeBytes > 0 {
      SizeIdle(newest, 0, cfg.maxSizeBytes);
    }
    SortIdle(SequenceLe, s);
    KeptAll(s);
  }

  /** Planning again on what was kept, at the same time, removes nothing. */
  lemma ReplanRemovesNothing(segments: seq<DatedSegment>, cfg: RetentionConfig, now: int)
    ensures var keep := Plan(segments, cfg, now).keep; Plan(keep, cfg, now) == RetentionPlan(keep, [])
  {
    hide Plan, WithinLimits, SortedBy;
    KeepMeetsLimits(segments, cfg, now);
    PlanPartitions(segments, cfg, now);
    WithinLimitsKept(Plan(segments, cfg, now).keep, cfg, now);
  }

  // ---- exactly which segments go ----

  predicate DistinctPaths(s: seq<DatedSegment>) {
    forall i, j | 0 <= i < j < |s| :: s[i].info.path != s[j].info.path
  }

  lemma {:induction false} KeptElsewhere(s: seq<DatedSegment>, drops: set<string>, p: string)
    requires forall t | t in s :: t.info.path != p
    ensures Kept(s, drops + {p}) == Kept(s, drops)
  {
    if s != [] {
      assert s[0] in s;
      KeptElsewhere(s[1..], drops, p);
    }
  }

  lemma {:induction false} CountDropsOnly(s: seq<DatedSegment>, drops: set<string>, kept: nat, max: int, p: string)
    requires forall t | t in s :: t.info.path != p
    ensures p in CountDrops(s, drops, kept, max) <==> p in drops
  {
    if s != [] {
      assert s[0] in s;
      if s[0].info.path in drops {
        CountDropsOnly(s[1..], drops, kept, max, p);
      } else {
        CountDropsOnly(s[1..], if kept + 1 > max then drops + {s[0].info.path} else drops, kept + 1, max, p);
      }
    }
  }

  lemma {:induction false} SizeDropsOnly(s: seq<DatedSegment>, drops: set<string>, used: nat, max: int, p: string)
    requires forall t | t in s :: t.info.path != p
    ensures p in SizeDrops(s, drops, used, max) <==> p in drops
  {
    if s != [] {
      assert s[0] in s;
      if s[0].info.path in drops {
        SizeDropsOnly(s[1..], drops, used, max, p);
      } else if used + s[0].info.sizeBytes > max {
        SizeDropsOnly(s[1..], drops + {s[0].info.path}, used, max, p);
      } else {
        SizeDropsOnly(s[1..], drops, used + s[0].info.sizeBytes, max, p);
      }
    }
  }

  /** Segment i goes over the count exactly when max newer ones that were not dropped before it. */
  lemma {:induction false} CountExact(s: seq<DatedSegment>, drops: set<string>, kept: nat, max: int, i: nat)
    requires i < |s| && DistinctPaths(s)
    ensures s[i].info.path in CountDrops(s, drops, kept, max)
      <==> s[i].info.path in drops || kept + |Kept(s[..i], drops)| >= max
  {
    var p, rest := s[0].info.path, s[1..];
    if i == 0 {
      var more := if p in drops || kept + 1 <= max then drops else drops + {p};
      CountDropsOnly(rest, more, if p in drops then kept else kept + 1, max, p);
    } else {
      assert s[..i][1..] == rest[..i - 1];
      if p in drops {
        CountExact(rest, drops, kept, max, i - 1);
      } else if kept + 1 > max {
        CountExact(rest, drops + {p}, kept + 1, max, i - 1);
        KeptElsewhere(rest[..i - 1], drops, p);
      } else {
        CountExact(rest, drops, kept + 1, max, i - 1);
      }
    }
  }

  /** Segment i goes over the size exactly when it does not fit after the newer ones that stay. */
  lemma {:induction false} SizeExact(s: seq<DatedSegment>, drops: set<string>, used: nat, max: int, i: nat)
    requires i < |s| && DistinctPaths(s)
    ensures var all := SizeDrops(s, drops, used, max);
      s[i].info.path in all
      <==> s[i].info.path in drops || used + TotalSize(Kept(s[..i], all)) + s[i].info.sizeBytes > max
  {
    var p, rest := s[0].info.path, s[1..];
    var fits := used + s[0].info.sizeBytes <= max;
    var more := if p in drops || fits then drops else drops + {p};
    var used' := if p !in drops && fits then used + s[0].info.sizeBytes else used;
    SizeDropsOnly(rest, more, used', max, p);
    if i > 0 {
      assert s[..i][1..] == rest[..i - 1];
      SizeExact(rest, more, used', max, i - 1);
    }
  }

  /**
   * Of distinct segments, listed newest first, number i is removed exactly when it is too old, or as
   * many newer ones as the count allows are not too old, or it does not fit the size budget after the
   * newer ones that stay. In particular a large segment is passed over and older ones may stay.
   */
  lemma RemovalExact(segments: seq<DatedSegment>, cfg: RetentionConfig, now: int, i: nat)
    requires DistinctPaths(segments) && i < |Newest(segments)|
    ensures var newest, p := Newest(segments), Plan(segments, cfg, now);
      var newer := newest[..i];
      newest[i] in p.remove <==>
        || TooOld(cfg, now, newest[i])
        || (cfg.maxSegments > 0 && |Young(cfg, now, newer)| >= cfg.maxSegments)
        || (cfg.maxSizeBytes > 0 && TotalSize(StayIn(newer, p)) + newest[i].info.sizeBytes > cfg.maxSizeBytes)
  {
    hide Plan, AllDrops, Newest, TotalSize;
    var newest := Newest(segments);
    NewestOrdered(segments);
    PermutedPaths(segments, newest);
    PermutationMembers(newest, segments);
    RemovedDropped(segments, cfg, now, newest[i]);
    DropExact(newest, cfg, now, i);
    StayKept(segments, cfg, now, newest[..i]);
  }

  lemma RemovedDropped(segments: seq<DatedSegment>, cfg: RetentionConfig, now: int, x: DatedSegment)
    requires x in segments
    ensures x in Plan(segments, cfg, now).remove <==> x.info.path in AllDrops(cfg, now, Newest(segments))
  {
    hide AllDrops, SequenceLe, NewerFirst;
    SortPermutes(SequenceLe, segments);
    PermutationMembers(Sort(SequenceLe, segments), segments);
    FilteredMembers(Sort(SequenceLe, segments), AllDrops(cfg, now, Newest(segments)), x);
  }

  lemma DropExact(newest: seq<DatedSegment>, cfg: RetentionConfig, now: int, i: nat)
    requires DistinctPaths(newest) && i < |newest|
    ensures var all := AllDrops(cfg, now, newest);
      newest[i].info.path in all <==>
        || TooOld(cfg, now, newest[i])
        || (cfg.maxSegments > 0 && |Young(cfg, now, newest[..i])| >= cfg.maxSegments)
        || (cfg.maxSizeBytes > 0 && TotalSize(Kept(newest[..i], all)) + newest[i].info.sizeBytes > cfg.maxSizeBytes)
  {
    hide TooOld, CountDrops, SizeDrops, AgeDrops, DistinctPaths, Kept, Young, TotalSize;
    AgedExact(newest, cfg, now, i);
    YoungKept(newest, cfg, now, i);
    if cfg.maxSegments > 0 {
      CountExact(newest, AgeDrops(cfg, now, newest), 0, cfg.maxSegments, i);
    }
    if cfg.maxSizeBytes > 0 {
      SizeExact(newest, AfterCount(cfg, now, newest), 0, cfg.maxSizeBytes, i);
    }
  }

  /** The segments of s that are not too old. */
  function Young(cfg: RetentionConfig, now: int, s: seq<DatedSegment>): seq<DatedSegment> {
    if s == [] then []
    else (if TooOld(cfg, now, s[0]) then [] else [s[0]]) + Young(cfg, now, s[1..])
  }

  /** The segments of s that the plan keeps. */
  function StayIn(s: seq<DatedSegment>, p: RetentionPlan): seq<DatedSegment> {
    if s == [] then []
    else (if s[0] in p.keep then [s[0]] else []) + StayIn(s[1..], p)
  }

  lemma PermutedPaths(a: seq<DatedSegment>, b: seq<DatedSegment>)
    requires multiset(a) == multiset(b) && DistinctPaths(a)
    ensures DistinctPaths(b)
  {
    PermutationMembers(a, b);
    forall i, j | 0 <= i < j < |b| ensures b[i].info.path != b[j].info.path {
      if b[i].info.path == b[j].info.path {
        assert b[i] in a && b[j] in a;
        OnceEach(a, b[i]);
        TwiceCounted(b, i, j);
      }
    }
  }

  lemma AgedExact(newest: seq<DatedSegment>, cfg: RetentionConfig, now: int, i: nat)
    requires DistinctPaths(newest) && i < |newest|
    ensures newest[i].info.path in AgeDrops(cfg, now, newest) <==> TooOld(cfg, now, newest[i])
  {
    hide TooOld;
  }

  lemma {:induction false} YoungKept(newest: seq<DatedSegment>, cfg: RetentionConfig, now: int, i: nat)
    requires DistinctPaths(newest) && i <= |newest|
    ensures Kept(newest[..i], AgeDrops(cfg, now, newest)) == Young(cfg, now, newest[..i])
  {
    hide AgeDrops, TooOld;
    YoungFrom(newest, cfg, now, 0, i);
    assert newest[0..i] == newest[..i];
  }

  lemma {:induction false} YoungFrom(newest: seq<DatedSegment>, cfg: RetentionConfig, now: int, k: nat, i: nat)
    requires DistinctPaths(newest) && k <= i <= |newest|
    ensures Kept(newest[k..i], AgeDrops(cfg, now, newest)) == Young(cfg, now, newest[k..i])
    decreases i - k
  {
    hide AgeDrops, TooOld;
    if k < i {
      AgedExact(newest, cfg, now, k);
      YoungFrom(newest, cfg, now, k + 1, i);
      assert newest[k..i][1..] == newest[k + 1..i];
    }
  }

  lemma {:induction false} StayKept(segments: seq<DatedSegment>, cfg: RetentionConfig, now: int, s: seq<DatedSegment>)
    requires forall t | t in s :: t in segments
    ensures StayIn(s, Plan(segments, cfg, now)) == Kept(s, AllDrops(cfg, now, Newest(segments)))
  {
    hide AllDrops, SequenceLe, NewerFirst;
    if s != [] {
      assert s[0] in s;
      SortPermutes(SequenceLe, segments);
      PermutationMembers(Sort(SequenceLe, segments), segments);
      FilteredMembers(Sort(SequenceLe, segments), AllDrops(cfg, now, Newest(segments)), s[0]);
      StayKept(segments, cfg, now, s[1..]);
    }
  }

  /** With only a count limit, exactly the newest segments stay. */
  lemma CountOnlyKeepsNewest(segments: seq<DatedSegment>, cfg: RetentionConfig, now: int, i: nat)
    requires DistinctPaths(segments) && i < |Newest(segments)|
    requires cfg.maxAge <= 0 && cfg.maxSizeBytes <= 0 && cfg.maxSegments > 0
    ensures Newest(segments)[i] in Plan(segments, cfg, now).keep <==> i < cfg.maxSegments
  {
    hide AllDrops, SequenceLe, NewerFirst, Plan, Newest;
    RemovalExact(segments, cfg, now, i);
    AllYoung(cfg, now, Newest(segments)[..i]);
    InOneOf(segments, cfg, now, Newest(segments)[i]);
  }

  lemma InOneOf(segments: seq<DatedSegment>, cfg: RetentionConfig, now: int, x: DatedSegment)
    requires x in Newest(segments)
    ensures x in Plan(segments, cfg, now).keep <==> x !in Plan(segments, cfg, now).remove
  {
    hide AllDrops, SequenceLe, NewerFirst;
    SortPermutes(NewerFirst, segments);
    SortPermutes(SequenceLe, segments);
    PermutationMembers(Newest(segments), segments);
    PermutationMembers(Sort(SequenceLe, segments), segments);
    FilteredMembers(Sort(SequenceLe, segments), AllDrops(cfg, now, Newest(segments)), x);
  }

  lemma {:induction false} AllYoung(cfg: RetentionConfig, now: int, s: seq<DatedSegment>)
    requires cfg.maxAge <= 0
    ensures |Young(cfg, now, s)| == |s|
  {
    if s != [] {
      AllYoung(cfg, now, s[1..]);
    }
  }

  /** Newest lists the segments newest first. */
  lemma NewestOrdered(segments: seq<DatedSegment>)
    ensures SortedBy(NewerFirst, Newest(segments)) && multiset(Newest(segments)) == multiset(segments)
  {
    OrdersArePreorders();
    SortSorts(NewerFirst, segments);
    SortPermutes(NewerFirst, segments);
  }

  /** A size budget can keep an older segment and remove a newer one. */
  lemma SizeBudgetSkips(a: DatedSegment, b: DatedSegment, now: int)
    requires a.info.manifest.sequence == 1 && b.info.manifest.sequence == 2 && a.info.path != b.info.path
    requires a.info.sizeBytes == 10 && b.info.sizeBytes == 50
    ensures Plan([a, b], RetentionConfig(0, 20, 0), now) == RetentionPlan([a], [b])
  {
    var cfg := RetentionConfig(0, 20, 0);
    assert Newest([a, b]) == [b, a] by {
      assert [a, b][1..] == [b] && Sort(NewerFirst, [b]) == [b];
      assert Insert(NewerFirst, a, [b]) == [b] + Insert(NewerFirst, a, []);
    }
    SkipDrops(a, b, now);
    SortIdle(SequenceLe, [a, b]);
    var drops := {b.info.path};
    assert [a, b][1..] == [b] && [b][1..] == [];
    assert Kept([], drops) == [] && Dropped([], drops) == [];
    assert Kept([b], drops) == [];
    assert Dropped([b], drops) == [b] + Dropped([], drops);
  }

  lemma SkipDrops(a: DatedSegment, b: DatedSegment, now: int)
    requires a.info.sizeBytes == 10 && b.info.sizeBytes == 50 && a.info.path != b.info.path
    ensures AllDrops(RetentionConfig(0, 20, 0), now, [b, a]) == {b.info.path}
  {
    var cfg, drops := RetentionConfig(0, 20, 0), {b.info.path};
    assert AfterCount(cfg, now, [b, a]) == {};
    assert [b, a][1..] == [a] && [a][1..] == [];
    assert SizeDrops([], drops, 10, 20) == drops;
    assert SizeDrops([a], drops, 0, 20) == SizeDrops([], drops, 10, 20);
    assert {} + drops == drops;
    assert SizeDrops([b, a], {}, 0, 20) == SizeDrops([a], drops, 0, 20);
  }
}
