/** Exactly when an encoding does not depend on the order in which maps are enumerated. */
module CanonicalOrder {
  import opened Wrappers
  import opened Sorting
  import opened Nfc
  import opened CanonicalJson
  import opened CanonicalLaws

  // ---- no encoding is a proper prefix of another ----

  function Turn(t: Token): int {
    if t.BeginObject? || t.BeginArray? then 1 else if t.EndObject? || t.EndArray? then -1 else 0
  }

  function Depth(ts: seq<Token>): int {
    if ts == [] then 0 else Turn(ts[0]) + Depth(ts[1..])
  }

  /** Brackets match, and never close more than was opened. */
  predicate Level(ts: seq<Token>) {
    Depth(ts) == 0 && forall k | 0 <= k <= |ts| :: Depth(ts[..k]) >= 0
  }

  /** Brackets match, and not before the end. */
  predicate Closes(ts: seq<Token>) {
    ts != [] && Depth(ts) == 0 && forall k | 0 < k < |ts| :: Depth(ts[..k]) >= 1
  }

  lemma {:induction false} DepthConcat(a: seq<Token>, b: seq<Token>)
    ensures Depth(a + b) == Depth(a) + Depth(b)
  {
    if a == [] {
      assert a + b == b;
    } else {
      DepthConcat(a[1..], b);
      assert (a + b)[1..] == a[1..] + b;
    }
  }

  lemma ClosesIsLevel(ts: seq<Token>)
    requires Closes(ts)
    ensures Level(ts)
  {
    assert ts[..0] == [] && ts[..|ts|] == ts;
  }

  lemma LevelConcat(a: seq<Token>, b: seq<Token>)
    requires Level(a) && Level(b)
    ensures Level(a + b)
  {
    hide Depth;
    DepthConcat(a, b);
    forall k | 0 <= k <= |a + b| ensures Depth((a + b)[..k]) >= 0 {
      if k <= |a| {
        assert (a + b)[..k] == a[..k];
      } else {
        assert (a + b)[..k] == a + b[..k - |a|];
        DepthConcat(a, b[..k - |a|]);
      }
    }
  }

  lemma {:induction false} DepthFlat(ts: seq<Token>)
    requires forall t | t in ts :: Turn(t) == 0
    ensures Depth(ts) == 0
  {
    if ts != [] {
      DepthFlat(ts[1..]);
    }
  }

  lemma LevelFlat(ts: seq<Token>)
    requires forall t | t in ts :: Turn(t) == 0
    ensures Level(ts)
  {
    hide Depth;
    DepthFlat(ts);
    forall k | 0 <= k <= |ts| ensures Depth(ts[..k]) >= 0 {
      DepthFlat(ts[..k]);
    }
  }

  lemma BracketCloses(open: Token, body: seq<Token>, close: Token)
    requires Turn(open) == 1 && Turn(close) == -1 && Level(body)
    ensures Closes([open] + body + [close])
  {
    hide Turn;
    var ts := [open] + body + [close];
    assert Depth([open]) == 1 && Depth([close]) == -1 by {
      assert [open][1..] == [] && [close][1..] == [];
    }
    hide Depth;
    DepthConcat([open] + body, [close]);
    DepthConcat([open], body);
    forall k | 0 < k < |ts| ensures Depth(ts[..k]) >= 1 {
      assert ts[..k] == [open] + body[..k - 1];
      DepthConcat([open], body[..k - 1]);
    }
  }

  /** Of two encodings at the front of one text, neither is longer. */
  lemma FrontIsOne(a: seq<Token>, x: seq<Token>, b: seq<Token>, y: seq<Token>)
    requires Closes(a) && Closes(b) && a + x == b + y
    ensures a == b && x == y
  {
    hide Depth;
    var n := if |a| < |b| then |a| else |b|;
    assert a[..n] == (a + x)[..n] == (b + y)[..n] == b[..n];
    assert a[..|a|] == a && b[..|b|] == b;
    assert x == (a + x)[|a|..] && y == (b + y)[|b|..];
  }

  predicate ClosesIfOk(r: Result<seq<Token>, CanonError>) {
    r.Ok? ==> Closes(r.value)
  }

  lemma {:induction false} EncodeCloses(lib: Lib, v: Value)
    ensures ClosesIfOk(Encode(lib, v))
  {
    match v
    case Arr(items) => ItemsLevel(lib, items); ArrayCloses(lib, items);
    case Obj(entries) =>
      EntriesClose(lib, entries);
      ObjectCloses(lib, entries);
    case _ =>
  }

  lemma ArrayCloses(lib: Lib, items: seq<Value>)
    requires var r := JoinItems(EncodeItems(lib, items)); r.Ok? ==> Level(r.value)
    ensures ClosesIfOk(Encode(lib, Arr(items)))
  {
    hide EncodeItems, JoinItems, Level, Closes;
    var r := JoinItems(EncodeItems(lib, items));
    if r.Ok? {
      BracketCloses(BeginArray, r.value, EndArray);
    }
  }

  lemma ObjectCloses(lib: Lib, entries: seq<Entry>)
    requires forall m | m in EncodeEntries(lib, entries) :: ClosesIfOk(m.tokens)
    ensures ClosesIfOk(Encode(lib, Obj(entries)))
  {
    hide EncodeEntries, JoinMembers, Level, Closes, Sort, MemberLe, ClosesIfOk;
    var sorted := Sort(MemberLe, EncodeEntries(lib, entries));
    SortPermutes(MemberLe, EncodeEntries(lib, entries));
    PermutationMembers(sorted, EncodeEntries(lib, entries));
    MembersLevel(sorted);
    var r := JoinMembers(sorted);
    if r.Ok? {
      BracketCloses(BeginObject, r.value, EndObject);
    }
    assert ClosesIfOk(Bracket(BeginObject, r, EndObject)) by {
      IfOk(Bracket(BeginObject, r, EndObject));
    }
  }

  lemma IfOk(r: Result<seq<Token>, CanonError>)
    requires r.Ok? ==> Closes(r.value)
    ensures ClosesIfOk(r)
  {
  }

  lemma {:induction false} ItemsLevel(lib: Lib, items: seq<Value>)
    ensures var r := JoinItems(EncodeItems(lib, items)); r.Ok? ==> Level(r.value)
  {
    if items == [] {
      LevelFlat([]);
    } else {
      EncodeCloses(lib, items[0]);
      ItemsLevel(lib, items[1..]);
      hide Encode, Level, Closes, Turn;
      assert EncodeItems(lib, items)[1..] == EncodeItems(lib, items[1..]);
      var first, rest := Encode(lib, items[0]), JoinItems(EncodeItems(lib, items[1..]));
      if first.Ok? && rest.Ok? {
        LevelPiece([], first.value, |EncodeItems(lib, items)| > 1, rest.value);
        assert [] + first.value == first.value;
      }
    }
  }

  /** A head without brackets, an encoding, perhaps a comma, and what follows. */
  lemma LevelPiece(head: seq<Token>, first: seq<Token>, more: bool, rest: seq<Token>)
    requires Level(head) && Closes(first) && Level(rest)
    ensures Level(head + first + (if more then [Comma] else []) + rest)
  {
    hide Level, Closes;
    ClosesIsLevel(first);
    LevelConcat(head, first);
    LevelFlat([]);
    LevelFlat([Comma]);
    LevelConcat(head + first, if more then [Comma] else []);
    LevelConcat(head + first + (if more then [Comma] else []), rest);
  }

  lemma {:induction false} MembersLevel(members: seq<Member>)
    requires forall m | m in members :: ClosesIfOk(m.tokens)
    ensures var r := JoinMembers(members); r.Ok? ==> Level(r.value)
  {
    hide Level, Closes;
    if members == [] {
      LevelFlat([]);
    } else {
      var m, rest := members[0], JoinMembers(members[1..]);
      assert m in members;
      MembersLevel(members[1..]);
      if m.tokens.Ok? && rest.Ok? {
        var head := [StringToken(m.key), Colon];
        LevelFlat(head);
        LevelPiece(head, m.tokens.value, |members| > 1, rest.value);
      }
    }
  }

  lemma {:induction false} EntriesClose(lib: Lib, entries: seq<Entry>)
    ensures forall m | m in EncodeEntries(lib, entries) :: ClosesIfOk(m.tokens)
  {
    if entries != [] {
      EncodeCloses(lib, entries[0].value);
      EntriesClose(lib, entries[1..]);
      hide Encode, ClosesIfOk, Compose;
    }
  }

  // ---- one place in a list, two encodings ----

  /** Lists that agree up to one item and give the same text agree in that item. */
  lemma {:induction false} ItemPinned(
    a: seq<Result<seq<Token>, CanonError>>, x: Result<seq<Token>, CanonError>, b: seq<Result<seq<Token>, CanonError>>,
    y: Result<seq<Token>, CanonError>, c: seq<Result<seq<Token>, CanonError>>)
    requires x.Ok? && y.Ok? && Closes(x.value) && Closes(y.value)
    requires JoinItems(a + [x] + b).Ok? && JoinItems(a + [x] + b) == JoinItems(a + [y] + c)
    ensures x == y
    decreases a
  {
    hide Closes;
    var s, t := a + [x] + b, a + [y] + c;
    if a == [] {
      var u := (if |s| > 1 then [Comma] else []) + JoinItems(s[1..]).value;
      var v := (if |t| > 1 then [Comma] else []) + JoinItems(t[1..]).value;
      assert JoinItems(s).value == x.value + u;
      assert JoinItems(t).value == y.value + v;
      FrontIsOne(x.value, u, y.value, v);
    } else {
      assert s[1..] == a[1..] + [x] + b && t[1..] == a[1..] + [y] + c;
      var head := a[0].value + [Comma];
      assert JoinItems(s).value == head + JoinItems(s[1..]).value;
      assert JoinItems(t).value == head + JoinItems(t[1..]).value;
      TailsAgree(head, JoinItems(s[1..]).value, JoinItems(t[1..]).value);
      ItemPinned(a[1..], x, b, y, c);
    }
  }

  lemma TailsAgree(head: seq<Token>, x: seq<Token>, y: seq<Token>)
    requires head + x == head + y
    ensures x == y
  {
    assert x == (head + x)[|head|..] && y == (head + y)[|head|..];
  }

  lemma {:induction false} MemberPinned(a: seq<Member>, x: Member, b: seq<Member>, y: Member, c: seq<Member>)
    requires x.key == y.key && x.tokens.Ok? && y.tokens.Ok? && Closes(x.tokens.value) && Closes(y.tokens.value)
    requires JoinMembers(a + [x] + b).Ok? && JoinMembers(a + [x] + b) == JoinMembers(a + [y] + c)
    ensures x.tokens == y.tokens
    decreases a
  {
    hide Closes;
    var s, t := a + [x] + b, a + [y] + c;
    if a == [] {
      var head := [StringToken(x.key), Colon];
      var u := (if |s| > 1 then [Comma] else []) + JoinMembers(s[1..]).value;
      var v := (if |t| > 1 then [Comma] else []) + JoinMembers(t[1..]).value;
      assert JoinMembers(s).value == head + (x.tokens.value + u);
      assert JoinMembers(t).value == head + (y.tokens.value + v);
      TailsAgree(head, x.tokens.value + u, y.tokens.value + v);
      FrontIsOne(x.tokens.value, u, y.tokens.value, v);
    } else {
      assert s[1..] == a[1..] + [x] + b && t[1..] == a[1..] + [y] + c;
      var head := [StringToken(a[0].key), Colon] + a[0].tokens.value + [Comma];
      assert JoinMembers(s).value == head + JoinMembers(s[1..]).value;
      assert JoinMembers(t).value == head + JoinMembers(t[1..]).value;
      TailsAgree(head, JoinMembers(s[1..]).value, JoinMembers(t[1..]).value);
      MemberPinned(a[1..], x, b, y, c);
    }
  }

  // ---- what the order of enumeration may decide ----

  /** No object repeats a key as it stands: what a map guarantees. */
  predicate RawDistinct(v: Value) {
    match v
    case Arr(items) => forall i | 0 <= i < |items| :: RawDistinct(items[i])
    case Obj(entries) => KeysDiffer(entries) && forall i | 0 <= i < |entries| :: RawDistinct(entries[i].value)
    case _ => true
  }

  /** In every object, members whose keys normalise alike have equal encodings. */
  predicate AlikeAgree(lib: Lib, v: Value) {
    match v
    case Arr(items) => forall i | 0 <= i < |items| :: AlikeAgree(lib, items[i])
    case Obj(entries) =>
      && (forall i | 0 <= i < |entries| :: AlikeAgree(lib, entries[i].value))
      && (forall i, j | 0 <= i < j < |entries| && Compose(lib.marks, entries[i].key) == Compose(lib.marks, entries[j].key) ::
            Encode(lib, entries[i].value) == Encode(lib, entries[j].value))
    case _ => true
  }

  function MemberOf(lib: Lib, e: Entry): Member {
    Member(Compose(lib.marks, e.key), Encode(lib, e.value))
  }

  lemma {:induction false} EncodeEntriesAt(lib: Lib, entries: seq<Entry>)
    ensures |EncodeEntries(lib, entries)| == |entries|
    ensures forall i | 0 <= i < |entries| :: EncodeEntries(lib, entries)[i] == MemberOf(lib, entries[i])
  {
    hide Encode, Compose;
    if entries != [] {
      EncodeEntriesAt(lib, entries[1..]);
    }
  }

  lemma EncodeEntriesConcat(lib: Lib, a: seq<Entry>, b: seq<Entry>)
    ensures EncodeEntries(lib, a + b) == EncodeEntries(lib, a) + EncodeEntries(lib, b)
  {
    hide EncodeEntries, MemberOf;
    EncodeEntriesAt(lib, a);
    EncodeEntriesAt(lib, b);
    EncodeEntriesAt(lib, a + b);
  }

  lemma {:induction false} EncodeItemsAt(lib: Lib, items: seq<Value>)
    ensures |EncodeItems(lib, items)| == |items|
    ensures forall i | 0 <= i < |items| :: EncodeItems(lib, items)[i] == Encode(lib, items[i])
  {
    hide Encode;
    if items != [] {
      EncodeItemsAt(lib, items[1..]);
    }
  }

  // ---- equal encodings of alike members: the order decides nothing ----

  /** An entry of b has the same key and the same encoding. */
  predicate EncodedTwin(lib: Lib, e: Entry, b: seq<Entry>) {
    exists j :: 0 <= j < |b| && b[j].key == e.key && Encode(lib, b[j].value) == Encode(lib, e.value)
  }

  /** Objects whose entries have encoded twins hold the same members. */
  lemma {:induction false} SameMembers(lib: Lib, a: seq<Entry>, b: seq<Entry>)
    requires |a| == |b| && KeysDiffer(a) && forall i | 0 <= i < |a| :: EncodedTwin(lib, a[i], b)
    ensures multiset(EncodeEntries(lib, a)) == multiset(EncodeEntries(lib, b))
  {
    hide Encode, Compose, EncodeEntries;
    if a != [] {
      assert EncodedTwin(lib, a[0], b);
      var j :| 0 <= j < |b| && b[j].key == a[0].key && Encode(lib, b[j].value) == Encode(lib, a[0].value);
      var rest := b[..j] + b[j + 1..];
      forall i | 0 <= i < |a[1..]| ensures EncodedTwin(lib, a[1..][i], rest) {
        TwinStays(lib, a[i + 1], b, j);
      }
      SameMembers(lib, a[1..], rest);
      BagWithout(lib, a, 0);
      BagWithout(lib, b, j);
      assert a[..0] + a[1..] == a[1..];
    } else {
      assert b == [];
    }
  }

  lemma BagWithout(lib: Lib, s: seq<Entry>, i: nat)
    requires i < |s|
    ensures multiset(EncodeEntries(lib, s)) == multiset{MemberOf(lib, s[i])} + multiset(EncodeEntries(lib, s[..i] + s[i + 1..]))
  {
    hide EncodeEntries, MemberOf;
    assert s == s[..i] + [s[i]] + s[i + 1..];
    EncodeEntriesConcat(lib, s[..i] + [s[i]], s[i + 1..]);
    EncodeEntriesConcat(lib, s[..i], [s[i]]);
    EncodeEntriesConcat(lib, s[..i], s[i + 1..]);
    OneEntry(lib, s[i]);
  }

  lemma OneEntry(lib: Lib, e: Entry)
    ensures EncodeEntries(lib, [e]) == [MemberOf(lib, e)]
  {
    EncodeEntriesAt(lib, [e]);
  }

  lemma TwinStays(lib: Lib, e: Entry, b: seq<Entry>, j: nat)
    requires j < |b| && b[j].key != e.key && EncodedTwin(lib, e, b)
    ensures EncodedTwin(lib, e, b[..j] + b[j + 1..])
  {
    hide Encode;
    var k :| 0 <= k < |b| && b[k].key == e.key && Encode(lib, b[k].value) == Encode(lib, e.value);
    var rest := b[..j] + b[j + 1..];
    var l := if k < j then k else k - 1;
    assert rest[l] == b[k];
  }

  lemma AlikeNoTies(lib: Lib, entries: seq<Entry>)
    requires AlikeAgree(lib, Obj(entries))
    ensures NoTies(MemberLe, EncodeEntries(lib, entries))
  {
    hide Encode, Compose, StringLe, EncodeEntries;
    var ms := EncodeEntries(lib, entries);
    EncodeEntriesAt(lib, entries);
    forall x, y | x in ms && y in ms && MemberLe(x, y) && MemberLe(y, x) ensures x == y {
      StringLeTotal(x.key, y.key);
      var i :| 0 <= i < |ms| && ms[i] == x;
      var j :| 0 <= j < |ms| && ms[j] == y;
      assert x == MemberOf(lib, entries[i]) && y == MemberOf(lib, entries[j]);
    }
  }

  lemma SortsAlike(a: seq<Member>, b: seq<Member>)
    requires multiset(a) == multiset(b) && NoTies(MemberLe, a)
    ensures Sort(MemberLe, a) == Sort(MemberLe, b)
  {
    hide Sort, MemberLe, TotalPreorder, SortedBy;
    MemberOrder();
    SortSorts(MemberLe, a);
    SortSorts(MemberLe, b);
    SortPermutes(MemberLe, a);
    SortPermutes(MemberLe, b);
    PermutationMembers(Sort(MemberLe, a), a);
    PermutationMembers(Sort(MemberLe, b), a);
    SortedUnique(MemberLe, Sort(MemberLe, a), Sort(MemberLe, b));
  }

  lemma {:induction false} AgreeEncodes(lib: Lib, v: Value, w: Value)
    requires Reordered(v, w) && RawDistinct(v) && AlikeAgree(lib, v)
    ensures Encode(lib, v) == Encode(lib, w)
    decreases v
  {
    match v
    case Arr(items) =>
      forall i | 0 <= i < |items| ensures Encode(lib, items[i]) == Encode(lib, w.items[i]) {
        AgreeEncodes(lib, items[i], w.items[i]);
      }
      ItemsEncodeAlike(lib, items, w.items);
    case Obj(entries) =>
      forall i | 0 <= i < |entries| ensures EncodedTwin(lib, entries[i], w.entries) {
        assert ReorderedTwin(entries[i], w.entries);
        var j :| 0 <= j < |w.entries| && w.entries[j].key == entries[i].key && Reordered(entries[i].value, w.entries[j].value);
        AgreeEncodes(lib, entries[i].value, w.entries[j].value);
      }
      ObjectsEncodeAlike(lib, entries, w.entries);
    case _ =>
  }

  lemma ItemsEncodeAlike(lib: Lib, a: seq<Value>, b: seq<Value>)
    requires |a| == |b| && forall i | 0 <= i < |a| :: Encode(lib, a[i]) == Encode(lib, b[i])
    ensures Encode(lib, Arr(a)) == Encode(lib, Arr(b))
  {
    hide EncodeItems, JoinItems;
    EncodeItemsAt(lib, a);
    EncodeItemsAt(lib, b);
    assert EncodeItems(lib, a) == EncodeItems(lib, b);
  }

  lemma ObjectsEncodeAlike(lib: Lib, a: seq<Entry>, b: seq<Entry>)
    requires |a| == |b| && KeysDiffer(a) && AlikeAgree(lib, Obj(a)) && forall i | 0 <= i < |a| :: EncodedTwin(lib, a[i], b)
    ensures Encode(lib, Obj(a)) == Encode(lib, Obj(b))
  {
    SameMembers(lib, a, b);
    AlikeNoTies(lib, a);
    hide EncodeEntries, JoinMembers, Sort, MemberLe, AlikeAgree, EncodedTwin, NoTies;
    SortsAlike(EncodeEntries(lib, a), EncodeEntries(lib, b));
  }

  // ---- different encodings of alike members: some order shows ----

  lemma {:induction false} ReorderedSelf(v: Value)
    ensures Reordered(v, v)
  {
    match v
    case Arr(items) =>
      forall i | 0 <= i < |items| ensures Reordered(items[i], items[i]) {
        ReorderedSelf(items[i]);
      }
    case Obj(entries) =>
      forall i | 0 <= i < |entries| ensures ReorderedTwin(entries[i], entries) {
        ReorderedSelf(entries[i].value);
      }
    case _ =>
  }

  lemma ReorderedObject(a: seq<Entry>, b: seq<Entry>)
    requires |a| == |b| && (forall e | e in a :: ReorderedTwin(e, b))
    requires forall f | f in b :: Writable(f.value)
    ensures Reordered(Obj(a), Obj(b)) && Writable(Obj(b))
  {
    hide ReorderedTwin;
    forall i | 0 <= i < |b| ensures Writable(b[i].value) {
      assert b[i] in b;
    }
  }

  /** How many members at the front of s come strictly before the key. */
  function LeadBelow(m: Member, s: seq<Member>): (n: nat)
    ensures n <= |s|
  {
    if s == [] || MemberLe(m, s[0]) then 0 else 1 + LeadBelow(m, s[1..])
  }

  lemma {:induction false} InsertAt(m: Member, s: seq<Member>)
    ensures var n := LeadBelow(m, s); Insert(MemberLe, m, s) == s[..n] + [m] + s[n..]
  {
    hide MemberLe;
    if s != [] && !MemberLe(m, s[0]) {
      InsertAt(m, s[1..]);
      var n := LeadBelow(m, s[1..]);
      assert s[..n + 1] == [s[0]] + s[1..][..n] && s[n + 1..] == s[1..][n..];
    }
  }

  /** A member with the key of m goes where m goes. */
  lemma {:induction false} SamePlace(m: Member, o: Member, s: seq<Member>)
    requires m.key == o.key
    ensures LeadBelow(m, s) == LeadBelow(o, s)
  {
    if s != [] {
      SamePlace(m, o, s[1..]);
    }
  }

  /** A member with the key of m goes in front of m. */
  lemma {:induction false} InFront(o: Member, m: Member, s: seq<Member>)
    requires m.key == o.key
    ensures var n := LeadBelow(m, s); Insert(MemberLe, o, Insert(MemberLe, m, s)) == s[..n] + [o, m] + s[n..]
  {
    hide MemberLe;
    KeyDecides(o, m, m);
    if s != [] && !MemberLe(m, s[0]) {
      KeyDecides(o, m, s[0]);
      InFront(o, m, s[1..]);
      var n := LeadBelow(m, s[1..]);
      assert s[..n + 1] == [s[0]] + s[1..][..n] && s[n + 1..] == s[1..][n..];
      var rest := Insert(MemberLe, m, s[1..]);
      assert ([s[0]] + rest)[1..] == rest;
    } else {
      assert Insert(MemberLe, m, s) == [m] + s;
    }
  }

  lemma KeyDecides(o: Member, m: Member, x: Member)
    requires m.key == o.key
    ensures MemberLe(o, x) == MemberLe(m, x) && MemberLe(o, m)
  {
    StringLeTotal(m.key, o.key);
  }

  function Sorted(lib: Lib, entries: seq<Entry>): seq<Member> {
    Sort(MemberLe, EncodeEntries(lib, entries))
  }

  lemma SortedCons(lib: Lib, e: Entry, rest: seq<Entry>)
    ensures Sorted(lib, [e] + rest) == Insert(MemberLe, MemberOf(lib, e), Sorted(lib, rest))
  {
    hide Encode, Compose, MemberLe, Insert;
    assert ([e] + rest)[1..] == rest;
    var ms := EncodeEntries(lib, [e] + rest);
    assert ms == [MemberOf(lib, e)] + EncodeEntries(lib, rest);
    assert ms[1..] == EncodeEntries(lib, rest);
  }

  lemma ObjectText(lib: Lib, a: seq<Entry>, b: seq<Entry>)
    requires Writable(Obj(a)) && Encode(lib, Obj(a)) == Encode(lib, Obj(b))
    ensures var ja, jb := JoinMembers(Sorted(lib, a)), JoinMembers(Sorted(lib, b)); ja.Ok? && ja == jb
  {
    EncodeExact(lib, Obj(a));
    hide JoinMembers, Sort, EncodeEntries, MemberLe, Writable;
    var ja, jb := JoinMembers(Sorted(lib, a)).value, JoinMembers(Sorted(lib, b)).value;
    var x, y := [BeginObject] + ja + [EndObject], [BeginObject] + jb + [EndObject];
    assert ja == x[1..|x| - 1] && jb == y[1..|y| - 1];
  }

  lemma ClosesOf(lib: Lib, v: Value)
    requires Writable(v)
    ensures Encode(lib, v).Ok? && Closes(Encode(lib, v).value)
  {
    EncodeExact(lib, v);
    EncodeCloses(lib, v);
  }

  /** Objects that agree but for one value with another encoding encode differently. */
  lemma ValueShows(lib: Lib, e: Entry, f: Entry, rest: seq<Entry>)
    requires e.key == f.key && Writable(e.value) && Writable(f.value) && Writable(Obj([e] + rest))
    requires Encode(lib, e.value) != Encode(lib, f.value)
    ensures Encode(lib, Obj([e] + rest)) != Encode(lib, Obj([f] + rest))
  {
    hide Encode, Writable, Compose, Closes, MemberLe, Insert, JoinMembers, Sorted, LeadBelow;
    var m, o, s := MemberOf(lib, e), MemberOf(lib, f), Sorted(lib, rest);
    SortedCons(lib, e, rest);
    SortedCons(lib, f, rest);
    InsertAt(m, s);
    InsertAt(o, s);
    SamePlace(m, o, s);
    ClosesOf(lib, e.value);
    ClosesOf(lib, f.value);
    var n := LeadBelow(m, s);
    if Encode(lib, Obj([e] + rest)) == Encode(lib, Obj([f] + rest)) {
      ObjectText(lib, [e] + rest, [f] + rest);
      MemberPinned(s[..n], m, s[n..], o, s[n..]);
    }
  }

  /** Alike keys with different encodings encode differently in the two orders. */
  lemma SwapShows(lib: Lib, e: Entry, f: Entry, rest: seq<Entry>)
    requires Compose(lib.marks, e.key) == Compose(lib.marks, f.key)
    requires Writable(e.value) && Writable(f.value) && Writable(Obj([e] + ([f] + rest)))
    requires Encode(lib, e.value) != Encode(lib, f.value)
    ensures Encode(lib, Obj([e] + ([f] + rest))) != Encode(lib, Obj([f] + ([e] + rest)))
  {
    hide Encode, Writable, Compose, Closes, MemberLe, Insert, JoinMembers, Sorted, LeadBelow;
    var m, o, s := MemberOf(lib, e), MemberOf(lib, f), Sorted(lib, rest);
    SortedCons(lib, e, [f] + rest);
    SortedCons(lib, f, rest);
    SortedCons(lib, f, [e] + rest);
    SortedCons(lib, e, rest);
    InFront(m, o, s);
    InFront(o, m, s);
    SamePlace(m, o, s);
    ClosesOf(lib, e.value);
    ClosesOf(lib, f.value);
    var n := LeadBelow(m, s);
    if Encode(lib, Obj([e] + ([f] + rest))) == Encode(lib, Obj([f] + ([e] + rest))) {
      ObjectText(lib, [e] + ([f] + rest), [f] + ([e] + rest));
      assert s[..n] + [m, o] + s[n..] == s[..n] + [m] + ([o] + s[n..]);
      assert s[..n] + [o, m] + s[n..] == s[..n] + [o] + ([m] + s[n..]);
      MemberPinned(s[..n], m, [o] + s[n..], o, [m] + s[n..]);
    }
  }

  /** Arrays that agree but for one item with another encoding encode differently. */
  lemma ItemShows(lib: Lib, items: seq<Value>, i: nat, w: Value)
    requires i < |items| && Writable(Arr(items)) && Writable(w) && Encode(lib, items[i]) != Encode(lib, w)
    ensures Encode(lib, Arr(items)) != Encode(lib, Arr(items[i := w]))
  {
    ClosesOf(lib, items[i]);
    ClosesOf(lib, w);
    var xs := EncodeItems(lib, items);
    ItemsSplit(lib, items, i, w);
    hide Encode, EncodeItems, JoinItems, Closes, Writable;
    if Encode(lib, Arr(items)) == Encode(lib, Arr(items[i := w])) {
      ArrayText(lib, items, items[i := w]);
      ItemPinned(xs[..i], Encode(lib, items[i]), xs[i + 1..], Encode(lib, w), xs[i + 1..]);
    }
  }

  lemma ItemsSplit(lib: Lib, items: seq<Value>, i: nat, w: Value)
    requires i < |items|
    ensures var xs := EncodeItems(lib, items);
      && |xs| == |items|
      && xs == xs[..i] + [Encode(lib, items[i])] + xs[i + 1..]
      && EncodeItems(lib, items[i := w]) == xs[..i] + [Encode(lib, w)] + xs[i + 1..]
  {
    hide Encode, EncodeItems;
    EncodeItemsAt(lib, items);
    EncodeItemsAt(lib, items[i := w]);
  }

  lemma ArrayText(lib: Lib, a: seq<Value>, b: seq<Value>)
    requires Writable(Arr(a)) && Encode(lib, Arr(a)) == Encode(lib, Arr(b))
    ensures var ja, jb := JoinItems(EncodeItems(lib, a)), JoinItems(EncodeItems(lib, b)); ja.Ok? && ja == jb
  {
    EncodeExact(lib, Arr(a));
    hide JoinItems, EncodeItems, Writable;
    SameBodies(JoinItems(EncodeItems(lib, a)), JoinItems(EncodeItems(lib, b)));
  }

  lemma SameBodies(x: Result<seq<Token>, CanonError>, y: Result<seq<Token>, CanonError>)
    requires Bracket(BeginArray, x, EndArray).Ok? && Bracket(BeginArray, x, EndArray) == Bracket(BeginArray, y, EndArray)
    ensures x.Ok? && x == y
  {
    var a, b := [BeginArray] + x.value + [EndArray], [BeginArray] + y.value + [EndArray];
    assert x.value == a[1..|a| - 1] && y.value == b[1..|b| - 1];
  }

  function Without(s: seq<Entry>, i: nat): (r: seq<Entry>)
    requires i < |s|
    ensures |r| == |s| - 1
  {
    s[..i] + s[i + 1..]
  }

  lemma WithoutMembers(s: seq<Entry>, i: nat)
    requires i < |s|
    ensures forall e | e in s :: e == s[i] || e in Without(s, i)
    ensures forall e | e in Without(s, i) :: e in s
  {
    assert s == s[..i] + [s[i]] + s[i + 1..];
  }

  /** The front holds what the rest lacks, up to the order inside values. */
  lemma FrontOf(entries: seq<Entry>, i: nat, f: Entry)
    requires i < |entries| && Writable(Obj(entries))
    requires f.key == entries[i].key && Reordered(entries[i].value, f.value) && Writable(f.value)
    ensures Reordered(Obj(entries), Obj([f] + Without(entries, i))) && Writable(Obj([f] + Without(entries, i)))
  {
    var b := [f] + Without(entries, i);
    WithoutMembers(entries, i);
    forall e | e in entries ensures ReorderedTwin(e, b) {
      if e == entries[i] {
        assert f in b;
      } else {
        ReorderedSelf(e.value);
        assert e in b;
      }
    }
    WritableMembers(entries);
    hide Reordered, ReorderedTwin, Writable;
    ReorderedObject(entries, b);
  }

  lemma WritableMembers(entries: seq<Entry>)
    requires Writable(Obj(entries))
    ensures forall e | e in entries :: Writable(e.value)
  {
  }

  lemma FrontTwo(entries: seq<Entry>, i: nat, j: nat)
    requires i < j < |entries| && Writable(Obj(entries))
    ensures var rest := Without(Without(entries, j), i); var v, w := Obj([entries[i]] + ([entries[j]] + rest)), Obj([entries[j]] + ([entries[i]] + rest));
      Reordered(Obj(entries), v) && Reordered(Obj(entries), w) && Writable(v) && Writable(w)
  {
    var rest := Without(Without(entries, j), i);
    WithoutMembers(entries, j);
    WithoutMembers(Without(entries, j), i);
    WritableMembers(entries);
    var a, b := [entries[i]] + ([entries[j]] + rest), [entries[j]] + ([entries[i]] + rest);
    forall e | e in entries ensures ReorderedTwin(e, a) && ReorderedTwin(e, b) {
      ReorderedSelf(e.value);
      assert e in a && e in b;
    }
    hide Reordered, ReorderedTwin, Writable;
    ReorderedObject(entries, a);
    ReorderedObject(entries, b);
  }

  /** A reordering of v, writable too, that encodes differently. */
  ghost predicate Shows(lib: Lib, v: Value, w: Value) {
    Reordered(v, w) && Writable(w) && Encode(lib, w) != Encode(lib, v)
  }

  lemma {:induction false} Breaks(lib: Lib, v: Value) returns (w: Value)
    requires Writable(v) && !AlikeAgree(lib, v)
    ensures Shows(lib, v, w)
    decreases v, 0
  {
    match v
    case Arr(items) =>
      var i :| 0 <= i < |items| && !AlikeAgree(lib, items[i]);
      var x := Breaks(lib, items[i]);
      w := Arr(items[i := x]);
      ArrayShows(lib, items, i, x);
    case Obj(entries) =>
      if i :| 0 <= i < |entries| && !AlikeAgree(lib, entries[i].value) {
        var x := Breaks(lib, entries[i].value);
        w := ChildShows(lib, entries, i, x);
      } else {
        var i, j :| 0 <= i < j < |entries| && Compose(lib.marks, entries[i].key) == Compose(lib.marks, entries[j].key)
          && Encode(lib, entries[i].value) != Encode(lib, entries[j].value);
        w := PairShows(lib, entries, i, j);
      }
  }

  lemma ArrayShows(lib: Lib, items: seq<Value>, i: nat, x: Value)
    requires i < |items| && Writable(Arr(items)) && Shows(lib, items[i], x)
    ensures Shows(lib, Arr(items), Arr(items[i := x]))
  {
    forall k | 0 <= k < |items| ensures Reordered(items[k], items[i := x][k]) {
      ReorderedSelf(items[k]);
    }
    hide Encode;
    ItemShows(lib, items, i, x);
  }

  /** Of two reorderings that encode differently one shows. */
  lemma OneShows(lib: Lib, v: Value, x: Value, y: Value) returns (w: Value)
    requires Reordered(v, x) && Reordered(v, y) && Writable(x) && Writable(y) && Encode(lib, x) != Encode(lib, y)
    ensures Shows(lib, v, w)
  {
    hide Encode, Reordered, Writable;
    w := if Encode(lib, x) == Encode(lib, v) then y else x;
  }

  lemma ChildShows(lib: Lib, entries: seq<Entry>, i: nat, x: Value) returns (w: Value)
    requires i < |entries| && Writable(Obj(entries)) && Shows(lib, entries[i].value, x)
    ensures Shows(lib, Obj(entries), w)
  {
    WritableMembers(entries);
    hide Encode, Reordered, Writable, Without;
    var e, f, rest := entries[i], Entry(entries[i].key, x), Without(entries, i);
    assert e in entries;
    ReorderedSelf(e.value);
    FrontOf(entries, i, e);
    FrontOf(entries, i, f);
    ValueShows(lib, e, f, rest);
    w := OneShows(lib, Obj(entries), Obj([e] + rest), Obj([f] + rest));
  }

  lemma PairShows(lib: Lib, entries: seq<Entry>, i: nat, j: nat) returns (w: Value)
    requires i < j < |entries| && Writable(Obj(entries))
    requires Compose(lib.marks, entries[i].key) == Compose(lib.marks, entries[j].key)
    requires Encode(lib, entries[i].value) != Encode(lib, entries[j].value)
    ensures Shows(lib, Obj(entries), w)
  {
    WritableMembers(entries);
    hide Encode, Reordered, Writable, Without, Compose;
    var e, f, rest := entries[i], entries[j], Without(Without(entries, j), i);
    assert e in entries && f in entries;
    FrontTwo(entries, i, j);
    SwapShows(lib, e, f, rest);
    w := OneShows(lib, Obj(entries), Obj([e] + ([f] + rest)), Obj([f] + ([e] + rest)));
  }

  /**
   * Every order in which the maps of a value may be enumerated gives the same encoding exactly when,
   * in every object at every depth, members whose keys normalise alike have equal encodings.
   */
  lemma OrderExact(lib: Lib, v: Value)
    requires Writable(v) && RawDistinct(v)
    ensures (forall w | Reordered(v, w) :: Encode(lib, w) == Encode(lib, v)) <==> AlikeAgree(lib, v)
  {
    hide Encode, Reordered, Writable, RawDistinct, AlikeAgree;
    if AlikeAgree(lib, v) {
      forall w | Reordered(v, w) ensures Encode(lib, w) == Encode(lib, v) {
        AgreeEncodes(lib, v, w);
      }
    } else {
      var w := Breaks(lib, v);
      assert Reordered(v, w) && Encode(lib, w) != Encode(lib, v);
    }
  }

  // ---- distinct keys: one normal form ----

  lemma {:induction false} DistinctAgrees(lib: Lib, v: Value)
    requires DistinctKeys(lib, v)
    ensures RawDistinct(v) && AlikeAgree(lib, v)
  {
    hide Compose, Encode;
    match v
    case Arr(items) =>
      forall i | 0 <= i < |items| ensures RawDistinct(items[i]) && AlikeAgree(lib, items[i]) {
        DistinctAgrees(lib, items[i]);
      }
    case Obj(entries) =>
      forall i | 0 <= i < |entries| ensures RawDistinct(entries[i].value) && AlikeAgree(lib, entries[i].value) {
        DistinctAgrees(lib, entries[i].value);
      }
    case _ =>
  }

  predicate ComposedDiffer(lib: Lib, a: seq<Entry>) {
    forall i, j | 0 <= i < j < |a| :: Compose(lib.marks, a[i].key) != Compose(lib.marks, a[j].key)
  }

  predicate SharedMember(lib: Lib, a: seq<Entry>, f: Entry) {
    exists i :: 0 <= i < |a| && MemberOf(lib, a[i]) == MemberOf(lib, f)
  }

  /** Objects with the same members share the distinctness of keys, and every entry has a partner. */
  lemma SharedKeys(lib: Lib, a: seq<Entry>, b: seq<Entry>)
    requires multiset(EncodeEntries(lib, a)) == multiset(EncodeEntries(lib, b)) && ComposedDiffer(lib, a)
    ensures ComposedDiffer(lib, b)
    ensures forall j | 0 <= j < |b| :: SharedMember(lib, a, b[j])
  {
    hide EncodeEntries;
    var ms, ns := EncodeEntries(lib, a), EncodeEntries(lib, b);
    EncodeEntriesAt(lib, a);
    EncodeEntriesAt(lib, b);
    hide Encode, Compose;
    PermutationMembers(ms, ns);
    forall j | 0 <= j < |b| ensures SharedMember(lib, a, b[j]) {
      assert ns[j] in ms;
      var i :| 0 <= i < |ms| && ms[i] == ns[j];
    }
    hide MemberOf, SharedMember;
    BagDistinct(ms, ns);
    SameKeys(lib, a, ms);
    SameKeys(lib, b, ns);
  }

  predicate MembersDiffer(ms: seq<Member>) {
    forall i, j | 0 <= i < j < |ms| :: ms[i].key != ms[j].key
  }

  lemma SameKeys(lib: Lib, a: seq<Entry>, ms: seq<Member>)
    requires |ms| == |a| && forall i | 0 <= i < |a| :: ms[i] == MemberOf(lib, a[i])
    ensures MembersDiffer(ms) <==> ComposedDiffer(lib, a)
  {
    hide Compose, Encode;
  }

  lemma BagDistinct(ms: seq<Member>, ns: seq<Member>)
    requires multiset(ms) == multiset(ns)
    ensures MembersDiffer(ms) ==> MembersDiffer(ns)
  {
    PermutationMembers(ms, ns);
    forall i, j | MembersDiffer(ms) && 0 <= i < j < |ns| ensures ns[i].key != ns[j].key {
      assert ns[i] in ms && ns[j] in ms;
      var k :| 0 <= k < |ms| && ms[k] == ns[i];
      var l :| 0 <= l < |ms| && ms[l] == ns[j];
      if k == l {
        OnceEach(ms, ns[i]);
        TwiceCounted(ns, i, j);
      }
    }
  }

  lemma {:induction false} ReorderedDistinct(lib: Lib, v: Value, w: Value)
    requires Reordered(v, w) && DistinctKeys(lib, v)
    ensures DistinctKeys(lib, w)
    decreases v
  {
    match v
    case Arr(items) =>
      forall i | 0 <= i < |items| ensures DistinctKeys(lib, w.items[i]) {
        ReorderedDistinct(lib, items[i], w.items[i]);
      }
    case Obj(entries) =>
      hide Compose, Encode, EncodeEntries, AlikeAgree;
      var b := w.entries;
      TwinsShareKeys(lib, entries, b);
      forall j | 0 <= j < |b| ensures DistinctKeys(lib, b[j].value) {
        var i :| 0 <= i < |entries| && PartnerOf(entries[i], b[j]);
        ReorderedDistinct(lib, entries[i].value, b[j].value);
      }
    case _ =>
  }

  ghost predicate PartnerOf(e: Entry, f: Entry) {
    e.key == f.key && Reordered(e.value, f.value)
  }

  lemma TwinsShareKeys(lib: Lib, a: seq<Entry>, b: seq<Entry>)
    requires |a| == |b| && ComposedDiffer(lib, a)
    requires forall i | 0 <= i < |a| :: ReorderedTwin(a[i], b) && DistinctKeys(lib, a[i].value)
    ensures ComposedDiffer(lib, b)
    ensures forall j | 0 <= j < |b| :: exists i :: 0 <= i < |a| && PartnerOf(a[i], b[j])
  {
    hide Encode, Compose, EncodeEntries, Reordered, DistinctKeys, AlikeAgree;
    forall i | 0 <= i < |a| ensures EncodedTwin(lib, a[i], b) {
      TwinEncodes(lib, a[i], b);
    }
    RawFromComposed(lib, a);
    SameMembers(lib, a, b);
    SharedKeys(lib, a, b);
    hide EncodedTwin, SharedMember, ReorderedTwin;
    forall j | 0 <= j < |b| ensures exists i :: 0 <= i < |a| && PartnerOf(a[i], b[j]) {
      assert SharedMember(lib, a, b[j]);
      var i := Partner(lib, a, b, j);
    }
  }

  lemma Partner(lib: Lib, a: seq<Entry>, b: seq<Entry>, j: nat) returns (i: nat)
    requires j < |b| && ComposedDiffer(lib, b) && SharedMember(lib, a, b[j])
    requires forall i | 0 <= i < |a| :: ReorderedTwin(a[i], b)
    ensures i < |a| && PartnerOf(a[i], b[j])
  {
    hide Encode, Compose, Reordered;
    i :| 0 <= i < |a| && MemberOf(lib, a[i]) == MemberOf(lib, b[j]);
    assert ReorderedTwin(a[i], b);
    var k :| 0 <= k < |b| && b[k].key == a[i].key && Reordered(a[i].value, b[k].value);
    assert Compose(lib.marks, b[k].key) == Compose(lib.marks, b[j].key);
  }

  lemma TwinEncodes(lib: Lib, e: Entry, b: seq<Entry>)
    requires ReorderedTwin(e, b) && DistinctKeys(lib, e.value)
    ensures EncodedTwin(lib, e, b)
  {
    var j :| 0 <= j < |b| && b[j].key == e.key && Reordered(e.value, b[j].value);
    DistinctAgrees(lib, e.value);
    AgreeEncodes(lib, e.value, b[j].value);
  }

  lemma RawFromComposed(lib: Lib, a: seq<Entry>)
    requires ComposedDiffer(lib, a)
    ensures KeysDiffer(a)
  {
    hide Compose;
  }

  /** A reordering of a value whose normalised keys differ has them too, and the same normal form. */
  lemma OneNormalForm(lib: Lib, v: Value, w: Value)
    requires lib.Sound() && Reordered(v, w) && DistinctKeys(lib, v)
    ensures DistinctKeys(lib, w) && Normal(lib, v) == Normal(lib, w)
  {
    hide DistinctKeys, Reordered, Normal;
    ReorderedDistinct(lib, v, w);
    OrderIrrelevant(lib, v, w);
  }

  /** An accented key given composed and apart: the two orders of one map encode differently. */
  lemma AccentedKeysDependOnOrder(lib: Lib)
    requires lib.Sound() && lib.marks.mn('\U{0301}')
    ensures var a, b := Entry("e\U{0301}", Flag(true)), Entry("\U{00E9}", Flag(false));
      a.key != b.key && Encode(lib, Obj([a, b])) != Encode(lib, Obj([b, a]))
  {
    hide Encode, Compose;
    assert |"e\U{0301}"| == 2 && |"\U{00E9}"| == 1;
    AlikeKeys(lib);
    AlikeKeysDependOnOrder(lib, "e\U{0301}", "\U{00E9}");
  }
}
