/** Orders on strings and a stable sort, standing for the library's sort package. */
module Sorting {

  predicate SortedBy<T(!new)>(le: (T, T) -> bool, s: seq<T>) {
    forall i, j | 0 <= i < j < |s| :: le(s[i], s[j])
  }

  /** Reflexive, total and transitive; ties allowed. */
  ghost predicate TotalPreorder<T(!new)>(le: (T, T) -> bool) {
    && (forall x, y :: le(x, y) || le(y, x))
    && (forall x, y, z :: le(x, y) && le(y, z) ==> le(x, z))
  }

  function Insert<T>(le: (T, T) -> bool, x: T, s: seq<T>): seq<T> {
    if s == [] || le(x, s[0]) then [x] + s else [s[0]] + Insert(le, x, s[1..])
  }

  function Sort<T>(le: (T, T) -> bool, s: seq<T>): seq<T> {
    if s == [] then [] else Insert(le, s[0], Sort(le, s[1..]))
  }

  lemma {:induction false} InsertPermutes<T>(le: (T, T) -> bool, x: T, s: seq<T>)
    ensures multiset(Insert(le, x, s)) == multiset([x] + s)
  {
    if s != [] && !le(x, s[0]) {
      InsertPermutes(le, x, s[1..]);
      assert s == [s[0]] + s[1..];
    }
  }

  lemma {:induction false} SortPermutes<T>(le: (T, T) -> bool, s: seq<T>)
    ensures multiset(Sort(le, s)) == multiset(s)
  {
    if s != [] {
      SortPermutes(le, s[1..]);
      InsertPermutes(le, s[0], Sort(le, s[1..]));
      assert s == [s[0]] + s[1..];
    }
  }

  lemma {:induction false} PermutationMembers<T>(a: seq<T>, b: seq<T>)
    requires multiset(a) == multiset(b)
    ensures |a| == |b|
    ensures forall x :: x in a <==> x in b
  {
    assert |multiset(a)| == |multiset(b)|;
    forall x ensures x in a <==> x in b {
      assert x in a <==> x in multiset(a);
      assert x in b <==> x in multiset(b);
    }
  }

  lemma {:induction false} InsertSorts<T(!new)>(le: (T, T) -> bool, x: T, s: seq<T>)
    requires TotalPreorder(le) && SortedBy(le, s)
    ensures SortedBy(le, Insert(le, x, s))
  {
    if s != [] && !le(x, s[0]) {
      var rest := Insert(le, x, s[1..]);
      InsertSorts(le, x, s[1..]);
      InsertPermutes(le, x, s[1..]);
      PermutationMembers(rest, [x] + s[1..]);
      forall j | 0 <= j < |rest| ensures le(s[0], rest[j]) {
        assert rest[j] in [x] + s[1..];
      }
    }
  }

  lemma {:induction false} SortSorts<T(!new)>(le: (T, T) -> bool, s: seq<T>)
    requires TotalPreorder(le)
    ensures SortedBy(le, Sort(le, s))
  {
    if s != [] {
      SortSorts(le, s[1..]);
      InsertSorts(le, s[0], Sort(le, s[1..]));
    }
  }

  /** Sorting what is sorted changes nothing. */
  lemma {:induction false} SortIdle<T(!new)>(le: (T, T) -> bool, s: seq<T>)
    requires SortedBy(le, s)
    ensures Sort(le, s) == s
  {
    if s != [] {
      SortIdle(le, s[1..]);
      if |s| > 1 {
        assert le(s[0], s[1]);
      }
      assert [s[0]] + s[1..] == s;
    }
  }

  /** No two different elements of s tie. */
  ghost predicate NoTies<T(!new)>(le: (T, T) -> bool, s: seq<T>) {
    forall x, y | x in s && y in s && le(x, y) && le(y, x) :: x == y
  }

  lemma TailOf<T(!new)>(le: (T, T) -> bool, s: seq<T>)
    requires s != [] && SortedBy(le, s) && NoTies(le, s)
    ensures SortedBy(le, s[1..]) && NoTies(le, s[1..])
    ensures multiset(s[1..]) == multiset(s) - multiset{s[0]}
  {
    assert s == [s[0]] + s[1..];
    assert multiset(s) == multiset{s[0]} + multiset(s[1..]);
    forall x, y | x in s[1..] && y in s[1..] && le(x, y) && le(y, x) ensures x == y {
      assert x in s && y in s;
    }
  }

  /** Sorted permutations are unique when nothing ties, whichever sort produced them. */
  lemma {:induction false} SortedUnique<T(!new)>(le: (T, T) -> bool, a: seq<T>, b: seq<T>)
    requires SortedBy(le, a) && SortedBy(le, b)
    requires multiset(a) == multiset(b)
    requires TotalPreorder(le)
    requires NoTies(le, a) && NoTies(le, b)
    ensures a == b
  {
    hide SortedBy, NoTies, TotalPreorder;
    PermutationMembers(a, b);
    if a != [] {
      HeadIsLeast(le, a, b[0]);
      HeadIsLeast(le, b, a[0]);
      Untied(le, a, a[0], b[0]);
      TailOf(le, a);
      TailOf(le, b);
      SortedUnique(le, a[1..], b[1..]);
      assert a == [a[0]] + a[1..] && b == [b[0]] + b[1..];
    }
  }

  lemma Untied<T(!new)>(le: (T, T) -> bool, s: seq<T>, x: T, y: T)
    requires NoTies(le, s) && x in s && y in s && le(x, y) && le(y, x)
    ensures x == y
  {
  }

  lemma HeadIsLeast<T(!new)>(le: (T, T) -> bool, s: seq<T>, x: T)
    requires TotalPreorder(le) && SortedBy(le, s) && x in s
    ensures le(s[0], x)
  {
    var i :| 0 <= i < |s| && s[i] == x;
    if i == 0 {
      assert le(x, x) || le(x, x);
    }
  }

  // ---- strings, compared as the language compares them ----

  predicate StringLe(a: string, b: string) {
    a == "" || (b != "" && (a[0] < b[0] || (a[0] == b[0] && StringLe(a[1..], b[1..]))))
  }

  /** i is the first place where the strings differ, and a is smaller there. */
  predicate SmallerAt(a: string, b: string, i: int) {
    0 <= i < |a| && i < |b| && a[..i] == b[..i] && a[i] < b[i]
  }

  /** a is a prefix of b, or smaller in the first character where they differ. */
  ghost predicate Below(a: string, b: string) {
    a <= b || exists i :: SmallerAt(a, b, i)
  }

  lemma SmallerInTail(a: string, b: string, i: int)
    requires a != "" && b != "" && a[0] == b[0]
    ensures i >= 0 ==> (SmallerAt(a, b, i + 1) <==> SmallerAt(a[1..], b[1..], i))
    ensures !SmallerAt(a, b, 0)
  {
    if 0 <= i < |a| - 1 && i < |b| - 1 {
      assert a[..i + 1] == [a[0]] + a[1..][..i] && b[..i + 1] == [b[0]] + b[1..][..i];
    }
  }

  lemma BelowTails(a: string, b: string)
    requires a != "" && b != "" && a[0] == b[0]
    ensures Below(a, b) <==> Below(a[1..], b[1..])
  {
    assert a <= b <==> a[1..] <= b[1..] by {
      assert a == [a[0]] + a[1..] && b == [a[0]] + b[1..];
    }
    SmallerInTail(a, b, 0);
    if i :| SmallerAt(a, b, i) {
      SmallerInTail(a, b, i - 1);
    }
    if i :| SmallerAt(a[1..], b[1..], i) {
      SmallerInTail(a, b, i);
    }
  }

  lemma BelowHeads(a: string, b: string)
    requires a != "" && b != "" && a[0] != b[0]
    ensures Below(a, b) <==> a[0] < b[0]
  {
    assert a[0] < b[0] ==> SmallerAt(a, b, 0);
    if i :| SmallerAt(a, b, i) && i > 0 {
      assert a[..i][0] == b[..i][0];
    }
  }

  /** The order on strings is the one of their first difference. */
  lemma {:induction false} StringLeExact(a: string, b: string)
    ensures StringLe(a, b) <==> Below(a, b)
  {
    hide SmallerAt;
    if a != "" && b != "" {
      if a[0] == b[0] {
        BelowTails(a, b);
        StringLeExact(a[1..], b[1..]);
      } else {
        BelowHeads(a, b);
      }
    } else {
      NothingBelowEmpty(a, b);
    }
  }

  lemma NothingBelowEmpty(a: string, b: string)
    requires a == "" || b == ""
    ensures Below(a, b) <==> a == ""
  {
  }

  lemma {:induction false} StringLeTotal(a: string, b: string)
    ensures StringLe(a, b) || StringLe(b, a)
    ensures StringLe(a, b) && StringLe(b, a) ==> a == b
  {
    if a != "" && b != "" && a[0] == b[0] {
      StringLeTotal(a[1..], b[1..]);
      assert a == [a[0]] + a[1..] && b == [b[0]] + b[1..];
    }
  }

  lemma {:induction false} StringLeTransitive(a: string, b: string, c: string)
    requires StringLe(a, b) && StringLe(b, c)
    ensures StringLe(a, c)
  {
    if a != "" && a[0] == b[0] && b[0] == c[0] {
      StringLeTransitive(a[1..], b[1..], c[1..]);
    }
  }

  lemma StringLePreorder()
    ensures TotalPreorder(StringLe)
  {
    forall x, y ensures StringLe(x, y) || StringLe(y, x) {
      StringLeTotal(x, y);
    }
    forall x, y, z | StringLe(x, y) && StringLe(y, z) ensures StringLe(x, z) {
      StringLeTransitive(x, y, z);
    }
  }

  // ---- lists without repetition ----

  lemma {:induction false} OnceEach<T>(a: seq<T>, x: T)
    requires forall i, j | 0 <= i < j < |a| :: a[i] != a[j]
    ensures multiset(a)[x] == if x in a then 1 else 0
  {
    if a != [] {
      OnceEach(a[1..], x);
      assert a == [a[0]] + a[1..];
    }
  }

  lemma TwiceCounted<T>(b: seq<T>, i: nat, j: nat)
    requires i < j < |b| && b[i] == b[j]
    ensures multiset(b)[b[i]] >= 2
  {
    assert b == b[..i] + [b[i]] + b[i + 1..j] + [b[j]] + b[j + 1..];
  }

  lemma {:induction false} SameMembersSameBag<T>(a: seq<T>, b: seq<T>)
    requires forall x :: x in a <==> x in b
    requires forall i, j | 0 <= i < j < |a| :: a[i] != a[j]
    requires forall i, j | 0 <= i < j < |b| :: b[i] != b[j]
    ensures multiset(a) == multiset(b)
  {
    forall x ensures multiset(a)[x] == multiset(b)[x] {
      OnceEach(a, x);
      OnceEach(b, x);
    }
  }

  /** The members of s in ascending order, each once. */
  ghost predicate Ascending(xs: seq<string>, s: set<string>) {
    && (forall k :: k in xs <==> k in s)
    && (forall i, j | 0 <= i < j < |xs| :: xs[i] != xs[j])
    && SortedBy(StringLe, xs)
  }

  lemma SortAscending(found: seq<string>, s: set<string>)
    requires forall k :: k in found <==> k in s
    requires forall i, j | 0 <= i < j < |found| :: found[i] != found[j]
    ensures Ascending(Sort(StringLe, found), s)
  {
    hide StringLe;
    var xs := Sort(StringLe, found);
    StringLePreorder();
    SortSorts(StringLe, found);
    SortPermutes(StringLe, found);
    PermutationMembers(xs, found);
    forall i, j | 0 <= i < j < |xs| ensures xs[i] != xs[j] {
      if xs[i] == xs[j] {
        OnceEach(found, xs[i]);
        TwiceCounted(xs, i, j);
      }
    }
  }

  /** A set of strings has one ascending listing. */
  lemma AscendingUnique(a: seq<string>, b: seq<string>, s: set<string>)
    requires Ascending(a, s) && Ascending(b, s)
    ensures a == b
  {
    hide StringLe;
    SameMembersSameBag(a, b);
    StringLePreorder();
    NoStringTies(a);
    NoStringTies(b);
    SortedUnique(StringLe, a, b);
  }

  lemma NoStringTies(a: seq<string>)
    ensures NoTies(StringLe, a)
  {
    forall x, y | x in a && y in a && StringLe(x, y) && StringLe(y, x) ensures x == y {
      StringLeTotal(x, y);
    }
  }
}
