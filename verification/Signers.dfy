/** The greedy count of signers needed to reach a weight (internal/authtrace/reporter.go). */
module Signers {
  import opened TypeDefs
  import opened Sorting

  const TWO32: nat := 0x1_0000_0000

  predicate Ge(a: U32, b: U32) { a >= b }

  function Positive(ws: seq<U32>): seq<U32> {
    if ws == [] then [] else (if ws[0] > 0 then [ws[0]] else []) + Positive(ws[1..])
  }

  /** The positive weights, heaviest first. */
  function Ranked(ws: seq<U32>): seq<U32> {
    Sort(Ge, Positive(ws))
  }

  /** The adding loop from one point on, in 32-bit arithmetic; n weights have been added so far. */
  function AddUp(s: seq<U32>, required: U32, total: U32, n: nat): nat {
    if s == [] then n
    else
      var t := (total + s[0]) % TWO32;
      if t >= required then n + 1 else AddUp(s[1..], required, t, n + 1)
  }

  method MinSignaturesForWeight(weights: seq<U32>, required: U32) returns (n: nat)
    ensures n == if required == 0 then 0 else AddUp(Ranked(weights), required, 0, 0)
  {
    if required == 0 {
      return 0;
    }
    hide Positive, Sort;
    var positive := PositiveWeights(weights);
    var sorted := Sort(Ge, positive);
    var total: U32 := 0;
    assert sorted[0..] == sorted;
    for i := 0 to |sorted|
      invariant AddUp(sorted, required, 0, 0) == AddUp(sorted[i..], required, total, i)
    {
      assert sorted[i..][1..] == sorted[i + 1..];
      total := (total + sorted[i]) % TWO32;
      if total >= required {
        return i + 1;
      }
    }
    return |sorted|;
  }

  method PositiveWeights(weights: seq<U32>) returns (positive: seq<U32>)
    ensures positive == Positive(weights)
  {
    positive := [];
    assert weights[0..] == weights;
    for i := 0 to |weights|
      invariant positive + Positive(weights[i..]) == Positive(weights)
    {
      assert weights[i..][1..] == weights[i + 1..];
      if weights[i] > 0 {
        positive := positive + [weights[i]];
      }
    }
  }

  // ---- sub-collections of signers ----

  /** A choice of signers, one flag each. */
  function Weight(ws: seq<U32>, chosen: seq<bool>): nat
    requires |chosen| == |ws|
  {
    if ws == [] then 0 else (if chosen[0] then ws[0] else 0) + Weight(ws[1..], chosen[1..])
  }

  function Size(chosen: seq<bool>): nat {
    if chosen == [] then 0 else (if chosen[0] then 1 else 0) + Size(chosen[1..])
  }

  ghost predicate Reaches(ws: seq<U32>, required: nat, k: nat) {
    exists chosen :: |chosen| == |ws| && Size(chosen) == k && Weight(ws, chosen) >= required
  }

  /** k is the least size of any sub-collection that reaches the weight. */
  ghost predicate IsLeast(ws: seq<U32>, required: nat, k: nat) {
    Reaches(ws, required, k) && forall j: nat | j < k :: !Reaches(ws, required, j)
  }

  /** The sum of the first c weights. */
  function Top(s: seq<U32>, c: nat): nat {
    if c == 0 || s == [] then 0 else s[0] + Top(s[1..], c - 1)
  }

  // ---- the heaviest weights are the best choice of any size ----

  lemma GePreorder()
    ensures TotalPreorder(Ge)
  {
  }

  /** The heaviest c of s with w added: w and the c - 1 heaviest of s, or the c heaviest of s. */
  lemma {:induction false} InsertTop(w: U32, s: seq<U32>, c: nat)
    requires SortedBy(Ge, s)
    ensures var t := Top(Insert(Ge, w, s), c);
      && t >= Top(s, c)
      && (c > 0 ==> t >= w + Top(s, c - 1))
      && (t == Top(s, c) || (c > 0 && t == w + Top(s, c - 1)))
    decreases |s|
  {
    if s == [] {
      assert Insert(Ge, w, s) == [w];
    } else if Ge(w, s[0]) {
      var all := [w] + s;
      assert Insert(Ge, w, s) == all && all[1..] == s;
      if c > 0 {
        TopStep(s, c - 1);
      }
    } else if c > 0 {
      InsertTop(w, s[1..], c - 1);
      TopStep(s[1..], c - 1);
    }
  }

  /** One more weight adds at most the heaviest, and never takes away. */
  lemma {:induction false} TopStep(s: seq<U32>, c: nat)
    requires SortedBy(Ge, s)
    ensures Top(s, c) <= Top(s, c + 1)
    ensures s != [] ==> Top(s, c + 1) <= s[0] + Top(s, c)
  {
    if s != [] && c > 0 {
      TopStep(s[1..], c - 1);
      if |s| > 1 {
        assert Ge(s[0], s[1]);
      }
    }
  }

  /** No choice of c signers outweighs the c heaviest. */
  lemma {:induction false} TopIsBest(ws: seq<U32>, chosen: seq<bool>)
    requires |chosen| == |ws|
    ensures Weight(ws, chosen) <= Top(Ranked(ws), Size(chosen))
  {
    if ws != [] {
      GePreorder();
      SortSorts(Ge, Positive(ws[1..]));
      TopIsBest(ws[1..], chosen[1..]);
      var c := Size(chosen[1..]);
      RankedCons(ws);
      if ws[0] > 0 {
        InsertTop(ws[0], Ranked(ws[1..]), Size(chosen));
      } else if chosen[0] {
        TopStep(Ranked(ws[1..]), c);
      }
    }
  }

  lemma RankedCons(ws: seq<U32>)
    requires ws != []
    ensures Ranked(ws) == if ws[0] > 0 then Insert(Ge, ws[0], Ranked(ws[1..])) else Ranked(ws[1..])
  {
    if ws[0] > 0 {
      assert Positive(ws) == [ws[0]] + Positive(ws[1..]);
      assert Positive(ws)[1..] == Positive(ws[1..]);
    } else {
      assert Positive(ws) == Positive(ws[1..]);
    }
  }

  /** The c heaviest are a choice. */
  lemma {:induction false} TopIsChoice(ws: seq<U32>, c: nat) returns (chosen: seq<bool>)
    requires c <= |Positive(ws)|
    ensures |chosen| == |ws| && Size(chosen) == c && Weight(ws, chosen) == Top(Ranked(ws), c)
  {
    if ws == [] {
      chosen := [];
    } else {
      hide Ranked, SortedBy, Insert;
      var rest := ws[1..];
      var r := Ranked(rest);
      RankedSorted(rest);
      RankedSize(rest);
      RankedCons(ws);
      if ws[0] == 0 || (c <= |r| && Top(Ranked(ws), c) == Top(r, c)) {
        var tail := TopIsChoice(rest, c);
        chosen := [false] + tail;
        assert chosen[1..] == tail;
      } else {
        InsertTop(ws[0], r, c);
        if c > |r| {
          InsertAll(ws[0], r, c);
        }
        var tail := TopIsChoice(rest, c - 1);
        chosen := [true] + tail;
        assert chosen[1..] == tail;
      }
    }
  }

  lemma RankedSorted(ws: seq<U32>)
    ensures SortedBy(Ge, Ranked(ws))
  {
    GePreorder();
    SortSorts(Ge, Positive(ws));
  }

  lemma {:induction false} InsertAll(w: U32, s: seq<U32>, c: nat)
    requires c == |s| + 1
    ensures Top(Insert(Ge, w, s), c) == w + Top(s, c - 1)
    decreases |s|
  {
    if s != [] && !Ge(w, s[0]) {
      InsertAll(w, s[1..], c - 1);
    } else {
      assert ([w] + s)[1..] == s;
    }
  }

  // ---- where the loop stops ----

  /** The first count at which the exact sum reaches the weight. */
  function Crossing(s: seq<U32>, required: nat): (k: nat)
    requires Top(s, |s|) >= required
    ensures k <= |s| && Top(s, k) >= required
    ensures forall j: nat | j < k :: Top(s, j) < required
  {
    if required == 0 then 0
    else
      var r := if s[0] >= required then 0 else required - s[0];
      var k := 1 + Crossing(s[1..], r);
      assert forall j: nat | j < k :: Top(s, j) < required by {
        forall j: nat | j < k ensures Top(s, j) < required {
          if j > 0 {
            assert Top(s, j) == s[0] + Top(s[1..], j - 1);
          }
        }
      }
      k
  }

  /** The loop counts to the crossing unless that very addition wraps around. */
  lemma {:induction false} AddUpCounts(s: seq<U32>, required: U32, total: U32, n: nat)
    requires total < required && total + Top(s, |s|) >= required
    ensures var k := Crossing(s, required - total);
      AddUp(s, required, total, n) == n + k <==> total + Top(s, k) < TWO32 || k == |s|
    ensures AddUp(s, required, total, n) >= n + Crossing(s, required - total)
  {
    var need := required - total;
    assert s != [];
    hide Crossing, Top, AddUp;
    if total + s[0] >= required {
      CrossesNow(s, need);
      AddUpStops(s, required, total, n);
    } else {
      CrossesLater(s, need);
      AddUpGoesOn(s, required, total, n);
      AddUpCounts(s[1..], required, total + s[0], n + 1);
      TopCons(s, Crossing(s[1..], need - s[0]));
      TopCons(s, |s| - 1);
    }
  }

  lemma AddUpGoesOn(s: seq<U32>, required: U32, total: U32, n: nat)
    requires s != [] && total + s[0] < required
    ensures AddUp(s, required, total, n) == AddUp(s[1..], required, total + s[0], n + 1)
  {
    assert (total + s[0]) % TWO32 == total + s[0];
  }

  /** At the crossing itself the loop stops, unless the addition wraps and signers are left. */
  lemma AddUpStops(s: seq<U32>, required: U32, total: U32, n: nat)
    requires s != [] && total < required <= total + s[0]
    ensures AddUp(s, required, total, n) >= n + 1
    ensures AddUp(s, required, total, n) == n + 1 <==> total + s[0] < TWO32 || |s| == 1
  {
    if total + s[0] >= TWO32 {
      WrapsBelow(total, s[0], required);
      AddUpAtLeast(s[1..], required, (total + s[0]) % TWO32, n + 1);
    } else {
      assert (total + s[0]) % TWO32 == total + s[0];
    }
  }

  lemma TopCons(s: seq<U32>, k: nat)
    requires s != []
    ensures Top(s, 1 + k) == s[0] + Top(s[1..], k)
  {
  }

  lemma CrossesNow(s: seq<U32>, need: nat)
    requires 0 < need && s != [] && s[0] >= need && Top(s, |s|) >= need
    ensures Crossing(s, need) == 1 && Top(s, 1) == s[0]
  {
    assert Top(s, 1) == s[0] + Top(s[1..], 0);
    var k := Crossing(s, need);
    assert Top(s, 0) == 0;
  }

  lemma CrossesLater(s: seq<U32>, need: nat)
    requires 0 < need && s != [] && s[0] < need && Top(s, |s|) >= need
    ensures Top(s[1..], |s[1..]|) >= need - s[0]
    ensures Crossing(s, need) == 1 + Crossing(s[1..], need - s[0])
  {
  }

  lemma WrapsBelow(total: U32, w: U32, required: U32)
    requires total < required && total + w >= TWO32
    ensures (total + w) % TWO32 == total + w - TWO32 < required
  {
  }

  /** Going on adds at least one more signer, unless none is left. */
  lemma {:induction false} AddUpAtLeast(s: seq<U32>, required: U32, total: U32, n: nat)
    ensures AddUp(s, required, total, n) >= if s == [] then n else n + 1
  {
    if s != [] {
      var t := (total + s[0]) % TWO32;
      if t < required {
        AddUpAtLeast(s[1..], required, t, n + 1);
      }
    }
  }

  /** The crossing of the ranked weights is the least size of a sub-collection. */
  lemma CrossingIsLeast(ws: seq<U32>, required: nat)
    requires Top(Ranked(ws), |Ranked(ws)|) >= required
    ensures IsLeast(ws, required, Crossing(Ranked(ws), required))
  {
    var s := Ranked(ws);
    var k := Crossing(s, required);
    SortPermutes(Ge, Positive(ws));
    PermutationMembers(s, Positive(ws));
    var chosen := TopIsChoice(ws, k);
    forall j: nat | j < k ensures !Reaches(ws, required, j) {
      forall other: seq<bool> | |other| == |ws| && Size(other) == j ensures Weight(ws, other) < required {
        TopIsBest(ws, other);
      }
    }
  }

  /**
   * When the signers can reach the weight, the count is the least size of a sub-collection that
   * does, exactly when the heaviest signers of that size do not overflow 32 bits or are all there are.
   */
  lemma GreedyExact(ws: seq<U32>, required: U32)
    requires required > 0 && Top(Ranked(ws), |Ranked(ws)|) >= required
    ensures var k := Crossing(Ranked(ws), required);
      IsLeast(ws, required, AddUp(Ranked(ws), required, 0, 0)) <==> Top(Ranked(ws), k) < TWO32 || k == |Positive(ws)|
  {
    hide AddUp, Crossing, Ranked;
    var s := Ranked(ws);
    CrossingIsLeast(ws, required);
    AddUpCounts(s, required, 0, 0);
    RankedSize(ws);
    LeastUnique(ws, required, Crossing(s, required), AddUp(s, required, 0, 0));
  }

  /** The second signer wraps the sum to 0, so a third is counted where two are enough. */
  lemma WrappingCountsTooMany()
    ensures var half: U32 := 0x8000_0000; var ws, required := [half, half, 1], half + 1;
      AddUp(Ranked(ws), required, 0, 0) == 3 && IsLeast(ws, required, 2)
  {
    var half: U32 := 0x8000_0000;
    var ws: seq<U32>, required := [half, half, 1], half + 1;
    assert ws[1..] == [half, 1] && ws[1..][1..] == [1] && ws[1..][1..][1..] == [];
    assert Positive([1]) == [1] && Positive([half, 1]) == [half, 1] && Positive(ws) == ws;
    assert SortedBy(Ge, ws);
    SortIdle(Ge, ws);
    assert Ranked(ws) == ws;
    AddUpThree(half);
    assert Top([1], 1) == 1 && Top([half, 1], 1) == half && Top([half, 1], 2) == half + 1;
    assert Top(ws, 0) == 0 && Top(ws, 1) == half && Top(ws, 2) == 2 * half && Top(ws, 3) == 2 * half + 1;
    var k := Crossing(ws, required);
    assert k == 2;
    CrossingIsLeast(ws, required);
  }

  lemma AddUpThree(half: U32)
    requires half == 0x8000_0000
    ensures AddUp([half, half, 1], half + 1, 0, 0) == 3
  {
    var ws: seq<U32> := [half, half, 1];
    assert ws[1..] == [half, 1] && ws[1..][1..] == [1] && ws[1..][1..][1..] == [];
    assert AddUp([1], half + 1, 0, 2) == 3;
    assert (half + half) % TWO32 == 0;
    assert AddUp([half, 1], half + 1, half, 1) == AddUp([1], half + 1, 0, 2);
  }

  lemma RankedSize(ws: seq<U32>)
    ensures |Ranked(ws)| == |Positive(ws)|
  {
    SortPermutes(Ge, Positive(ws));
    PermutationMembers(Ranked(ws), Positive(ws));
  }

  lemma LeastUnique(ws: seq<U32>, required: nat, j: nat, k: nat)
    requires IsLeast(ws, required, j)
    ensures IsLeast(ws, required, k) <==> j == k
  {
    if k < j {
      assert !Reaches(ws, required, k);
    }
  }

  /** With no overflow the count is optimal. */
  lemma GreedyOptimal(ws: seq<U32>, required: U32)
    requires required > 0 && required <= Top(Ranked(ws), |Ranked(ws)|) < TWO32
    ensures IsLeast(ws, required, AddUp(Ranked(ws), required, 0, 0))
  {
    hide AddUp, Crossing, Ranked;
    var s := Ranked(ws);
    TopGrows(s, Crossing(s, required));
    GreedyExact(ws, required);
  }

  lemma {:induction false} TopGrows(s: seq<U32>, c: nat)
    ensures Top(s, c) <= Top(s, |s|)
  {
    if s != [] && c > 0 {
      TopGrows(s[1..], c - 1);
    }
  }

  /** When even all signers together fall short, without overflow, every positive weight is counted. */
  lemma {:induction false} AllCounted(s: seq<U32>, required: U32, total: U32, n: nat)
    requires total + Top(s, |s|) < required
    ensures AddUp(s, required, total, n) == n + |s|
  {
    if s != [] {
      AllCounted(s[1..], required, total + s[0], n + 1);
    }
  }
}
