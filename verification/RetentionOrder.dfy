/** Exactly when a retention plan deletes the oldest segments first. */
module RetentionOrder {
  import opened Sorting
  import opened Retention

  /** Number i of the newest is neither too old nor over the count. */
  predicate Eligible(cfg: RetentionConfig, now: int, newest: seq<DatedSegment>, i: nat)
    requires i < |newest|
  {
    !TooOld(cfg, now, newest[i]) && (cfg.maxSegments > 0 ==> |Young(cfg, now, newest[..i])| < cfg.maxSegments)
  }

  /** The size of the eligible among the n newest. */
  function EligibleSize(cfg: RetentionConfig, now: int, newest: seq<DatedSegment>, n: nat): nat
    requires n <= |newest|
  {
    if n == 0 then 0
    else EligibleSize(cfg, now, newest, n - 1) + if Eligible(cfg, now, newest, n - 1) then newest[n - 1].info.sizeBytes else 0
  }

  /** The eligible among the n newest fit the budget, and every older one is larger than what they leave. */
  predicate CutAt(cfg: RetentionConfig, now: int, newest: seq<DatedSegment>, n: nat)
    requires n <= |newest|
  {
    var used := EligibleSize(cfg, now, newest, n);
    && used <= cfg.maxSizeBytes
    && forall i | n <= i < |newest| && Eligible(cfg, now, newest, i) :: newest[i].info.sizeBytes > cfg.maxSizeBytes - used
  }

  /** No eligible segment goes while an older one stays. */
  ghost predicate OldestFirst(cfg: RetentionConfig, now: int, newest: seq<DatedSegment>, keep: seq<DatedSegment>) {
    forall i, j | 0 <= i < j < |newest| && Eligible(cfg, now, newest, i) && newest[j] in keep :: newest[i] in keep
  }

  // ---- what the size budget leaves ----

  /** The size of what stays among the n newest. */
  function KeptSize(newest: seq<DatedSegment>, drops: set<string>, n: nat): nat
    requires n <= |newest|
  {
    TotalSize(Kept(newest[..n], drops))
  }

  lemma {:induction false} KeptAppend(s: seq<DatedSegment>, t: DatedSegment, drops: set<string>)
    ensures TotalSize(Kept(s + [t], drops)) == TotalSize(Kept(s, drops)) + if t.info.path in drops then 0 else t.info.sizeBytes
  {
    if s == [] {
      assert [] + [t] == [t] && [t][1..] == [];
      if t.info.path !in drops {
        assert Kept([t], drops) == [t] + [];
      }
    } else {
      KeptAppend(s[1..], t, drops);
      assert (s + [t])[1..] == s[1..] + [t] && (s + [t])[0] == s[0];
    }
  }

  lemma KeptStep(newest: seq<DatedSegment>, drops: set<string>, n: nat)
    requires n < |newest|
    ensures KeptSize(newest, drops, n + 1)
      == KeptSize(newest, drops, n) + if newest[n].info.path in drops then 0 else newest[n].info.sizeBytes
  {
    assert newest[..n + 1] == newest[..n] + [newest[n]];
    KeptAppend(newest[..n], newest[n], drops);
  }

  /** Segment i stays: it is eligible and fits after what stays before it. */
  predicate Stays(cfg: RetentionConfig, now: int, newest: seq<DatedSegment>, i: nat)
    requires i < |newest|
  {
    newest[i].info.path !in AllDrops(cfg, now, newest)
  }

  lemma StaysExact(cfg: RetentionConfig, now: int, newest: seq<DatedSegment>, i: nat)
    requires DistinctPaths(newest) && i < |newest|
    ensures Stays(cfg, now, newest, i) <==>
      && Eligible(cfg, now, newest, i)
      && (cfg.maxSizeBytes > 0 ==>
           KeptSize(newest, AllDrops(cfg, now, newest), i) + newest[i].info.sizeBytes <= cfg.maxSizeBytes)
  {
    hide TooOld, AllDrops, DistinctPaths, Kept, Young, TotalSize;
    DropExact(newest, cfg, now, i);
  }

  /** While every eligible segment stays, what stays is what is eligible. */
  lemma {:induction false} AllStay(cfg: RetentionConfig, now: int, newest: seq<DatedSegment>, n: nat)
    requires DistinctPaths(newest) && n <= |newest|
    requires forall i | 0 <= i < n && Eligible(cfg, now, newest, i) :: Stays(cfg, now, newest, i)
    ensures KeptSize(newest, AllDrops(cfg, now, newest), n) == EligibleSize(cfg, now, newest, n)
  {
    hide Eligible, AllDrops, DistinctPaths, KeptSize;
    if n == 0 {
      assert KeptSize(newest, AllDrops(cfg, now, newest), 0) == 0 by {
        NothingKept(newest, AllDrops(cfg, now, newest));
      }
    } else {
      AllStay(cfg, now, newest, n - 1);
      KeptStep(newest, AllDrops(cfg, now, newest), n - 1);
      StaysExact(cfg, now, newest, n - 1);
    }
  }

  lemma NothingKept(newest: seq<DatedSegment>, drops: set<string>)
    ensures KeptSize(newest, drops, 0) == 0
  {
    assert newest[..0] == [];
  }

  /** Once none stays, no more is used. */
  lemma {:induction false} NoneStay(cfg: RetentionConfig, now: int, newest: seq<DatedSegment>, n: nat, i: nat)
    requires DistinctPaths(newest) && n <= i <= |newest|
    requires forall k | n <= k < i :: !Stays(cfg, now, newest, k)
    ensures KeptSize(newest, AllDrops(cfg, now, newest), i) == KeptSize(newest, AllDrops(cfg, now, newest), n)
  {
    hide AllDrops, DistinctPaths, KeptSize;
    if n < i {
      NoneStay(cfg, now, newest, n, i - 1);
      assert !Stays(cfg, now, newest, i - 1);
      KeptStep(newest, AllDrops(cfg, now, newest), i - 1);
    }
  }

  lemma {:induction false} EligibleGrows(cfg: RetentionConfig, now: int, newest: seq<DatedSegment>, m: nat, n: nat)
    requires m <= n <= |newest|
    ensures EligibleSize(cfg, now, newest, m) <= EligibleSize(cfg, now, newest, n)
  {
    hide Eligible;
    if m < n {
      EligibleGrows(cfg, now, newest, m, n - 1);
    }
  }

  // ---- from a cut to the plan ----

  lemma {:induction false} CutStays(cfg: RetentionConfig, now: int, newest: seq<DatedSegment>, n: nat, i: nat)
    requires DistinctPaths(newest) && cfg.maxSizeBytes > 0 && n <= |newest| && CutAt(cfg, now, newest, n) && i <= n
    ensures forall k | 0 <= k < i && Eligible(cfg, now, newest, k) :: Stays(cfg, now, newest, k)
  {
    hide Eligible, AllDrops, DistinctPaths, KeptSize, Stays;
    if i > 0 {
      CutStays(cfg, now, newest, n, i - 1);
      AllStay(cfg, now, newest, i - 1);
      EligibleGrows(cfg, now, newest, i, n);
      StaysExact(cfg, now, newest, i - 1);
    }
  }

  lemma {:induction false} CutGoes(cfg: RetentionConfig, now: int, newest: seq<DatedSegment>, n: nat, i: nat)
    requires DistinctPaths(newest) && cfg.maxSizeBytes > 0 && n <= i <= |newest| && CutAt(cfg, now, newest, n)
    ensures forall k | n <= k < i :: !Stays(cfg, now, newest, k)
  {
    hide Eligible, AllDrops, DistinctPaths, KeptSize, Stays;
    if n < i {
      CutGoes(cfg, now, newest, n, i - 1);
      CutStays(cfg, now, newest, n, n);
      AllStay(cfg, now, newest, n);
      NoneStay(cfg, now, newest, n, i - 1);
      StaysExact(cfg, now, newest, i - 1);
    }
  }

  // ---- from the plan to a cut ----

  /** The first eligible segment from k on that goes, or the end. */
  function FirstGone(cfg: RetentionConfig, now: int, newest: seq<DatedSegment>, k: nat): (n: nat)
    requires k <= |newest|
    ensures k <= n <= |newest|
    ensures forall i | k <= i < n && Eligible(cfg, now, newest, i) :: Stays(cfg, now, newest, i)
    ensures n < |newest| ==> Eligible(cfg, now, newest, n) && !Stays(cfg, now, newest, n)
    decreases |newest| - k
  {
    if k == |newest| || (Eligible(cfg, now, newest, k) && !Stays(cfg, now, newest, k)) then k
    else FirstGone(cfg, now, newest, k + 1)
  }

  lemma {:induction false} StaysFit(cfg: RetentionConfig, now: int, newest: seq<DatedSegment>, n: nat)
    requires DistinctPaths(newest) && cfg.maxSizeBytes > 0 && n <= |newest|
    ensures KeptSize(newest, AllDrops(cfg, now, newest), n) <= cfg.maxSizeBytes
  {
    hide Eligible, AllDrops, DistinctPaths, KeptSize;
    if n == 0 {
      NothingKept(newest, AllDrops(cfg, now, newest));
    } else {
      StaysFit(cfg, now, newest, n - 1);
      KeptStep(newest, AllDrops(cfg, now, newest), n - 1);
      StaysExact(cfg, now, newest, n - 1);
    }
  }

  lemma OrderCuts(cfg: RetentionConfig, now: int, newest: seq<DatedSegment>)
    requires DistinctPaths(newest) && cfg.maxSizeBytes > 0
    requires forall i, j | 0 <= i < j < |newest| && Eligible(cfg, now, newest, i) && Stays(cfg, now, newest, j) ::
      Stays(cfg, now, newest, i)
    ensures CutAt(cfg, now, newest, FirstGone(cfg, now, newest, 0))
  {
    hide Eligible, AllDrops, DistinctPaths, KeptSize, Stays;
    var n := FirstGone(cfg, now, newest, 0);
    AllStay(cfg, now, newest, n);
    StaysFit(cfg, now, newest, n);
    forall i | n <= i < |newest| && Eligible(cfg, now, newest, i)
      ensures newest[i].info.sizeBytes > cfg.maxSizeBytes - EligibleSize(cfg, now, newest, n)
    {
      NoneStay(cfg, now, newest, n, i);
      StaysExact(cfg, now, newest, i);
    }
  }

  /** What stays of distinct segments is what the plan keeps. */
  lemma KeepStays(segments: seq<DatedSegment>, cfg: RetentionConfig, now: int, i: nat)
    requires i < |Newest(segments)|
    ensures Newest(segments)[i] in Plan(segments, cfg, now).keep <==> Stays(cfg, now, Newest(segments), i)
  {
    hide AllDrops, Plan, Newest;
    var newest := Newest(segments);
    NewestOrdered(segments);
    PermutationMembers(newest, segments);
    RemovedDropped(segments, cfg, now, newest[i]);
    InOneOf(segments, cfg, now, newest[i]);
  }

  /**
   * The plan never lets an eligible segment go while an older one stays exactly when there is no size
   * budget, or it cuts the eligible segments at one point: those newer fit, and none older would still fit.
   */
  lemma OldestFirstExact(segments: seq<DatedSegment>, cfg: RetentionConfig, now: int)
    requires DistinctPaths(segments)
    ensures var newest := Newest(segments);
      OldestFirst(cfg, now, newest, Plan(segments, cfg, now).keep)
      <==> cfg.maxSizeBytes <= 0 || exists n :: 0 <= n <= |newest| && CutAt(cfg, now, newest, n)
  {
    hide Eligible, AllDrops, DistinctPaths, KeptSize, Stays, Plan, Newest, CutAt;
    var newest := Newest(segments);
    NewestOrdered(segments);
    PermutedPaths(segments, newest);
    forall i | 0 <= i < |newest| ensures newest[i] in Plan(segments, cfg, now).keep <==> Stays(cfg, now, newest, i) {
      KeepStays(segments, cfg, now, i);
    }
    if cfg.maxSizeBytes <= 0 {
      forall i | 0 <= i < |newest| && Eligible(cfg, now, newest, i) ensures Stays(cfg, now, newest, i) {
        StaysExact(cfg, now, newest, i);
      }
    } else if n :| 0 <= n <= |newest| && CutAt(cfg, now, newest, n) {
      CutStays(cfg, now, newest, n, n);
      CutGoes(cfg, now, newest, n, |newest|);
    } else if OldestFirst(cfg, now, newest, Plan(segments, cfg, now).keep) {
      OrderCuts(cfg, now, newest);
    }
  }
}
