/** What canonical JSON promises: one encoding for a value, which reads back to its normal form. */
module CanonicalLaws {
  import opened Wrappers
  import opened Sorting
  import opened TypeDefs
  import opened TypeParser
  import opened Nfc
  import opened CanonicalJson

  // ---- encoding succeeds exactly on writable values ----

  lemma {:induction false} EncodeExact(lib: Lib, v: Value)
    ensures Encode(lib, v).Ok? <==> Writable(v)
  {
    hide Compose, MemberLe, NumberText, ValidNumber;
    match v
    case Arr(items) => EncodeItemsExact(lib, items);
    case Obj(entries) =>
      EncodeEntriesExact(lib, entries);
      SortPermutes(MemberLe, EncodeEntries(lib, entries));
      JoinSorted(EncodeEntries(lib, entries), Sort(MemberLe, EncodeEntries(lib, entries)));
    case _ =>
  }

  lemma {:induction false} EncodeItemsExact(lib: Lib, items: seq<Value>)
    ensures JoinItems(EncodeItems(lib, items)).Ok? <==> forall i | 0 <= i < |items| :: Writable(items[i])
  {
    hide Encode;
    if items != [] {
      EncodeExact(lib, items[0]);
      EncodeItemsExact(lib, items[1..]);
      assert EncodeItems(lib, items)[1..] == EncodeItems(lib, items[1..]);
      assert items == [items[0]] + items[1..];
    }
  }

  lemma {:induction false} JoinMembersOk(members: seq<Member>)
    ensures JoinMembers(members).Ok? <==> forall m | m in members :: m.tokens.Ok?
  {
    if members != [] {
      JoinMembersOk(members[1..]);
      assert members == [members[0]] + members[1..];
    }
  }

  lemma JoinSorted(a: seq<Member>, b: seq<Member>)
    requires multiset(a) == multiset(b)
    ensures JoinMembers(a).Ok? <==> JoinMembers(b).Ok?
  {
    PermutationMembers(a, b);
    JoinMembersOk(a);
    JoinMembersOk(b);
  }

  lemma {:induction false} EncodeEntriesExact(lib: Lib, entries: seq<Entry>)
    ensures JoinMembers(EncodeEntries(lib, entries)).Ok? <==> forall i | 0 <= i < |entries| :: Writable(entries[i].value)
  {
    hide Encode, Compose;
    if entries != [] {
      EncodeExact(lib, entries[0].value);
      EncodeEntriesExact(lib, entries[1..]);
      assert EncodeEntries(lib, entries)[1..] == EncodeEntries(lib, entries[1..]);
      assert entries == [entries[0]] + entries[1..];
    }
  }

  // ---- encoding the normal form ----

  lemma MemberOrder()
    ensures TotalPreorder(MemberLe) && TotalPreorder(EntryLe)
  {
    hide StringLe;
    forall a, b ensures (MemberLe(a, b) || MemberLe(b, a)) {
      StringLeTotal(a.key, b.key);
    }
    forall a, b, c | MemberLe(a, b) && MemberLe(b, c) ensures MemberLe(a, c) {
      StringLeTransitive(a.key, b.key, c.key);
    }
    forall a, b ensures (EntryLe(a, b) || EntryLe(b, a)) {
      StringLeTotal(a.key, b.key);
    }
    forall a, b, c | EntryLe(a, b) && EntryLe(b, c) ensures EntryLe(a, c) {
      StringLeTransitive(a.key, b.key, c.key);
    }
  }

  /** Every key is in normal form. */
  predicate NormalKeys(lib: Lib, entries: seq<Entry>) {
    forall e | e in entries :: Compose(lib.marks, e.key) == e.key
  }

  lemma {:induction false} InsertEncodes(lib: Lib, e: Entry, entries: seq<Entry>)
    requires NormalKeys(lib, [e] + entries)
    ensures EncodeEntries(lib, Insert(EntryLe, e, entries))
      == Insert(MemberLe, Member(e.key, Encode(lib, e.value)), EncodeEntries(lib, entries))
    ensures NormalKeys(lib, Insert(EntryLe, e, entries))
  {
    hide Encode, Compose, StringLe;
    assert e in [e] + entries;
    var m := Member(e.key, Encode(lib, e.value));
    if entries == [] || EntryLe(e, entries[0]) {
      assert ([e] + entries)[1..] == entries;
      if entries != [] {
        assert entries[0] in [e] + entries;
      }
    } else {
      assert entries[0] in [e] + entries;
      forall x | x in [e] + entries[1..] ensures x in [e] + entries {
      }
      InsertEncodes(lib, e, entries[1..]);
      var rest := Insert(EntryLe, e, entries[1..]);
      assert ([entries[0]] + rest)[1..] == rest;
      assert EncodeEntries(lib, entries)[1..] == EncodeEntries(lib, entries[1..]);
    }
  }

  /** Sorting entries with normal keys and encoding them is encoding and sorting them. */
  lemma {:induction false} SortEncodes(lib: Lib, entries: seq<Entry>)
    requires NormalKeys(lib, entries)
    ensures EncodeEntries(lib, Sort(EntryLe, entries)) == Sort(MemberLe, EncodeEntries(lib, entries))
    ensures NormalKeys(lib, Sort(EntryLe, entries))
  {
    hide Encode, Compose, EntryLe, MemberLe, Insert;
    if entries != [] {
      assert entries == [entries[0]] + entries[1..];
      SortEncodes(lib, entries[1..]);
      var rest := Sort(EntryLe, entries[1..]);
      InsertEncodes(lib, entries[0], rest);
      assert entries[0] in entries;
      assert EncodeEntries(lib, entries)[1..] == EncodeEntries(lib, entries[1..]);
    }
  }

  lemma {:induction false} NormalEntriesKeys(lib: Lib, entries: seq<Entry>)
    requires lib.Sound()
    ensures NormalKeys(lib, NormalEntries(lib, entries))
  {
    hide Compose, Normal;
    if entries != [] {
      ComposeIdempotent(lib.marks, entries[0].key);
      NormalEntriesKeys(lib, entries[1..]);
    }
  }

  lemma SortMembersTwice(members: seq<Member>)
    ensures Sort(MemberLe, Sort(MemberLe, members)) == Sort(MemberLe, members)
  {
    MemberOrder();
    SortSorts(MemberLe, members);
    SortIdle(MemberLe, Sort(MemberLe, members));
  }

  /** The normal form encodes to the same tokens. */
  lemma {:induction false} EncodeNormal(lib: Lib, v: Value)
    requires lib.Sound()
    ensures Encode(lib, Normal(lib, v)) == Encode(lib, v)
  {
    hide Compose, MemberLe, EntryLe, JoinItems, JoinMembers, Sort;
    match v
    case Text(s) => ComposeIdempotent(lib.marks, s);
    case Arr(items) => EncodeNormalItems(lib, items);
    case Obj(entries) =>
      EncodeNormalEntries(lib, entries);
      NormalEntriesKeys(lib, entries);
      SortEncodes(lib, NormalEntries(lib, entries));
      SortMembersTwice(EncodeEntries(lib, entries));
    case _ =>
  }

  lemma {:induction false} EncodeNormalItems(lib: Lib, items: seq<Value>)
    requires lib.Sound()
    ensures EncodeItems(lib, NormalItems(lib, items)) == EncodeItems(lib, items)
  {
    hide Encode, Normal;
    if items != [] {
      EncodeNormal(lib, items[0]);
      EncodeNormalItems(lib, items[1..]);
      assert NormalItems(lib, items)[1..] == NormalItems(lib, items[1..]);
    }
  }

  lemma {:induction false} EncodeNormalEntries(lib: Lib, entries: seq<Entry>)
    requires lib.Sound()
    ensures EncodeEntries(lib, NormalEntries(lib, entries)) == EncodeEntries(lib, entries)
  {
    hide Encode, Normal, Compose;
    if entries != [] {
      EncodeNormal(lib, entries[0].value);
      ComposeIdempotent(lib.marks, entries[0].key);
      EncodeNormalEntries(lib, entries[1..]);
      assert NormalEntries(lib, entries)[1..] == NormalEntries(lib, entries[1..]);
    }
  }

  /** Strings and keys are normal, and entries are in order. */
  ghost predicate IsNormal(lib: Lib, v: Value) {
    match v
    case Text(s) => Compose(lib.marks, s) == s
    case Arr(items) => forall i | 0 <= i < |items| :: IsNormal(lib, items[i])
    case Obj(entries) =>
      && NormalKeys(lib, entries) && SortedBy(EntryLe, entries)
      && forall i | 0 <= i < |entries| :: IsNormal(lib, entries[i].value)
    case _ => true
  }

  lemma {:induction false} NormalIsNormal(lib: Lib, v: Value)
    requires lib.Sound()
    ensures IsNormal(lib, Normal(lib, v))
    ensures DistinctKeys(lib, Normal(lib, v)) <==> DistinctKeys(lib, v)
    ensures Writable(Normal(lib, v)) <==> Writable(v)
  {
    hide Compose, EntryLe, Sort, NormalEntries;
    match v
    case Text(s) => ComposeIdempotent(lib.marks, s);
    case Arr(items) => NormalItemsNormal(lib, items);
    case Obj(entries) =>
      NormalEntriesNormal(lib, entries);
      NormalObject(lib, entries);
    case _ =>
  }

  lemma NormalObject(lib: Lib, entries: seq<Entry>)
    requires lib.Sound()
    requires var ns := NormalEntries(lib, entries);
      forall i | 0 <= i < |entries| ::
        && IsNormal(lib, ns[i].value) && (DistinctKeys(lib, ns[i].value) <==> DistinctKeys(lib, entries[i].value))
        && (Writable(ns[i].value) <==> Writable(entries[i].value))
        && Compose(lib.marks, ns[i].key) == Compose(lib.marks, entries[i].key)
    ensures var v := Obj(entries);
      && IsNormal(lib, Normal(lib, v))
      && (DistinctKeys(lib, Normal(lib, v)) <==> DistinctKeys(lib, v))
      && (Writable(Normal(lib, v)) <==> Writable(v))
  {
    hide Compose, EntryLe, Sort, IsNormal, DistinctKeys, Writable;
    NormalEntriesKeys(lib, entries);
    SortedObject(lib, NormalEntries(lib, entries));
    SameDemands(lib, entries, NormalEntries(lib, entries));
  }

  /** Entries that agree in what is asked of each make objects that agree. */
  lemma SameDemands(lib: Lib, a: seq<Entry>, b: seq<Entry>)
    requires |a| == |b|
    requires forall i | 0 <= i < |a| ::
      && (DistinctKeys(lib, b[i].value) <==> DistinctKeys(lib, a[i].value))
      && (Writable(b[i].value) <==> Writable(a[i].value))
      && Compose(lib.marks, b[i].key) == Compose(lib.marks, a[i].key)
    ensures DistinctKeys(lib, Obj(b)) <==> DistinctKeys(lib, Obj(a))
    ensures Writable(Obj(b)) <==> Writable(Obj(a))
  {
    hide Compose;
  }

  lemma {:induction false} NormalItemsNormal(lib: Lib, items: seq<Value>)
    requires lib.Sound()
    ensures var ns := NormalItems(lib, items);
      forall i | 0 <= i < |items| ::
        IsNormal(lib, ns[i]) && (DistinctKeys(lib, ns[i]) <==> DistinctKeys(lib, items[i])) && (Writable(ns[i]) <==> Writable(items[i]))
  {
    hide IsNormal, DistinctKeys, Writable, Normal;
    if items != [] {
      NormalIsNormal(lib, items[0]);
      NormalItemsNormal(lib, items[1..]);
    }
  }

  lemma {:induction false} NormalEntriesNormal(lib: Lib, entries: seq<Entry>)
    requires lib.Sound()
    ensures var ns := NormalEntries(lib, entries);
      forall i | 0 <= i < |entries| ::
        && IsNormal(lib, ns[i].value) && (DistinctKeys(lib, ns[i].value) <==> DistinctKeys(lib, entries[i].value))
        && (Writable(ns[i].value) <==> Writable(entries[i].value))
        && Compose(lib.marks, ns[i].key) == Compose(lib.marks, entries[i].key)
  {
    hide IsNormal, DistinctKeys, Writable, Normal, Compose;
    if entries != [] {
      NormalIsNormal(lib, entries[0].value);
      ComposeIdempotent(lib.marks, entries[0].key);
      NormalEntriesNormal(lib, entries[1..]);
    }
  }

  /** Sorting entries keeps what an object promises about them. */
  lemma SortedObject(lib: Lib, entries: seq<Entry>)
    requires NormalKeys(lib, entries) && forall i | 0 <= i < |entries| :: IsNormal(lib, entries[i].value)
    ensures var sorted := Sort(EntryLe, entries);
      IsNormal(lib, Obj(sorted))
      && (DistinctKeys(lib, Obj(sorted)) <==> DistinctKeys(lib, Obj(entries)))
      && (Writable(Obj(sorted)) <==> Writable(Obj(entries)))
  {
    hide Compose, EntryLe, Sort, TotalPreorder;
    var sorted := Sort(EntryLe, entries);
    MemberOrder();
    SortSorts(EntryLe, entries);
    SortPermutes(EntryLe, entries);
    PermutationMembers(sorted, entries);
    AllPermuted(lib, sorted, entries);
    AllPermuted(lib, entries, sorted);
    forall e | e in sorted ensures Compose(lib.marks, e.key) == e.key {
      assert e in entries;
    }
    forall i | 0 <= i < |sorted| ensures IsNormal(lib, sorted[i].value) {
      assert sorted[i] in entries;
    }
  }

  /** What holds of the members of an object holds of a permutation of them. */
  lemma AllPermuted(lib: Lib, a: seq<Entry>, b: seq<Entry>)
    requires multiset(a) == multiset(b)
    ensures DistinctKeys(lib, Obj(a)) ==> DistinctKeys(lib, Obj(b))
    ensures Writable(Obj(a)) ==> Writable(Obj(b))
  {
    hide Compose;
    PermutationMembers(a, b);
    forall i | 0 <= i < |b| ensures exists k :: 0 <= k < |a| && a[k] == b[i] {
      assert b[i] in a;
    }
    if DistinctKeys(lib, Obj(a)) {
      forall i, j | 0 <= i < j < |b| ensures Compose(lib.marks, b[i].key) != Compose(lib.marks, b[j].key) {
        var k :| 0 <= k < |a| && a[k] == b[i];
        var l :| 0 <= l < |a| && a[l] == b[j];
        if k == l {
          OnceEach(a, b[i]);
          TwiceCounted(b, i, j);
        }
      }
    }
  }

  /** Taking the normal form again changes nothing. */
  lemma {:induction false} NormalIdle(lib: Lib, v: Value)
    requires IsNormal(lib, v)
    ensures Normal(lib, v) == v
  {
    hide Compose, EntryLe, Sort;
    match v
    case Arr(items) => NormalItemsIdle(lib, items);
    case Obj(entries) =>
      NormalEntriesIdle(lib, entries);
      SortIdle(EntryLe, entries);
    case _ =>
  }

  lemma {:induction false} NormalItemsIdle(lib: Lib, items: seq<Value>)
    requires forall i | 0 <= i < |items| :: IsNormal(lib, items[i])
    ensures NormalItems(lib, items) == items
  {
    hide IsNormal, Normal;
    if items != [] {
      NormalIdle(lib, items[0]);
      NormalItemsIdle(lib, items[1..]);
      assert items == [items[0]] + items[1..];
    }
  }

  lemma {:induction false} NormalEntriesIdle(lib: Lib, entries: seq<Entry>)
    requires NormalKeys(lib, entries) && forall i | 0 <= i < |entries| :: IsNormal(lib, entries[i].value)
    ensures NormalEntries(lib, entries) == entries
  {
    hide IsNormal, Normal, Compose;
    if entries != [] {
      NormalIdle(lib, entries[0].value);
      assert entries[0] in entries;
      assert entries == [entries[0]] + entries[1..];
      NormalEntriesIdle(lib, entries[1..]);
    }
  }

  // ---- the tokens of a normal value ----

  lemma {:induction false} SignificantConcat(a: seq<Token>, b: seq<Token>)
    ensures Significant(a + b) == Significant(a) + Significant(b)
  {
    if a == [] {
      assert a + b == b;
    } else {
      hide Visible;
      SignificantConcat(a[1..], b);
      assert (a + b)[1..] == a[1..] + b;
      var head, rest := Visible(a[0]), Significant(a[1..]);
      assert head + (rest + Significant(b)) == head + rest + Significant(b);
    }
  }

  lemma SignificantOne(t: Token)
    ensures Significant([t]) == if t.Comma? || t.Colon? then [] else [t]
    ensures Significant([]) == []
  {
    assert [t][1..] == [];
  }

  function Plain(lib: Lib, v: Value): seq<Token>
    requires Encode(lib, v).Ok?
  {
    Significant(Encode(lib, v).value)
  }

  function PlainItems(lib: Lib, items: seq<Value>): seq<Token>
    requires forall i | 0 <= i < |items| :: Encode(lib, items[i]).Ok?
  {
    if items == [] then [] else Plain(lib, items[0]) + PlainItems(lib, items[1..])
  }

  function PlainMembers(lib: Lib, entries: seq<Entry>): seq<Token>
    requires forall i | 0 <= i < |entries| :: Encode(lib, entries[i].value).Ok?
  {
    if entries == [] then []
    else [StringToken(Compose(lib.marks, entries[0].key))] + Plain(lib, entries[0].value) + PlainMembers(lib, entries[1..])
  }

  lemma {:induction false} PlainJoinedItems(lib: Lib, items: seq<Value>)
    requires forall i | 0 <= i < |items| :: Encode(lib, items[i]).Ok?
    ensures JoinItems(EncodeItems(lib, items)).Ok?
    ensures Significant(JoinItems(EncodeItems(lib, items)).value) == PlainItems(lib, items)
  {
    hide Encode, Significant;
    SignificantOne(Comma);
    if items != [] {
      PlainJoinedItems(lib, items[1..]);
      assert EncodeItems(lib, items)[1..] == EncodeItems(lib, items[1..]);
      var first, rest := Encode(lib, items[0]).value, JoinItems(EncodeItems(lib, items[1..])).value;
      var comma := if |EncodeItems(lib, items)| > 1 then [Comma] else [];
      SignificantConcat(first + comma, rest);
      SignificantConcat(first, comma);
    }
  }

  lemma {:induction false} PlainJoinedMembers(lib: Lib, entries: seq<Entry>)
    requires forall i | 0 <= i < |entries| :: Encode(lib, entries[i].value).Ok?
    ensures JoinMembers(EncodeEntries(lib, entries)).Ok?
    ensures Significant(JoinMembers(EncodeEntries(lib, entries)).value) == PlainMembers(lib, entries)
  {
    hide Encode, Significant, Compose;
    SignificantOne(Comma);
    SignificantOne(Colon);
    if entries != [] {
      PlainJoinedMembers(lib, entries[1..]);
      var all := EncodeEntries(lib, entries);
      assert all[1..] == EncodeEntries(lib, entries[1..]);
      var key := StringToken(Compose(lib.marks, entries[0].key));
      var first, rest := Encode(lib, entries[0].value).value, JoinMembers(all[1..]).value;
      var comma := if |all| > 1 then [Comma] else [];
      SignificantOne(key);
      SignificantConcat([key, Colon] + first + comma, rest);
      SignificantConcat([key, Colon] + first, comma);
      SignificantConcat([key, Colon], first);
      SignificantConcat([key], [Colon]);
      assert [key] + [Colon] == [key, Colon];
    }
  }

  lemma SignificantBracket(open: Token, body: seq<Token>, close: Token)
    requires !open.Comma? && !open.Colon? && !close.Comma? && !close.Colon?
    ensures Significant([open] + body + [close]) == [open] + Significant(body) + [close]
  {
    hide Significant;
    SignificantConcat([open] + body, [close]);
    SignificantConcat([open], body);
    SignificantOne(open);
    SignificantOne(close);
  }

  lemma PlainArray(lib: Lib, items: seq<Value>)
    requires Writable(Arr(items))
    ensures forall i | 0 <= i < |items| :: Encode(lib, items[i]).Ok?
    ensures Encode(lib, Arr(items)).Ok? && Plain(lib, Arr(items)) == [BeginArray] + PlainItems(lib, items) + [EndArray]
  {
    hide Significant, PlainItems, Writable;
    EncodeExact(lib, Arr(items));
    ItemsEncode(lib, items);
    PlainJoinedItems(lib, items);
    SignificantBracket(BeginArray, JoinItems(EncodeItems(lib, items)).value, EndArray);
  }

  lemma ItemsEncode(lib: Lib, items: seq<Value>)
    requires Writable(Arr(items))
    ensures forall i | 0 <= i < |items| :: Encode(lib, items[i]).Ok?
  {
    hide Encode;
    forall i | 0 <= i < |items| ensures Encode(lib, items[i]).Ok? {
      EncodeExact(lib, items[i]);
    }
  }

  lemma EntriesEncode(lib: Lib, entries: seq<Entry>)
    requires Writable(Obj(entries))
    ensures forall i | 0 <= i < |entries| :: Encode(lib, entries[i].value).Ok?
  {
    hide Encode;
    forall i | 0 <= i < |entries| ensures Encode(lib, entries[i].value).Ok? {
      EncodeExact(lib, entries[i].value);
    }
  }

  lemma PlainObject(lib: Lib, entries: seq<Entry>)
    requires Writable(Obj(entries)) && NormalKeys(lib, entries) && SortedBy(EntryLe, entries)
    ensures forall i | 0 <= i < |entries| :: Encode(lib, entries[i].value).Ok?
    ensures Encode(lib, Obj(entries)).Ok? && Plain(lib, Obj(entries)) == [BeginObject] + PlainMembers(lib, entries) + [EndObject]
  {
    hide Significant, PlainMembers, Writable, Sort, EntryLe, MemberLe, Compose;
    EncodeExact(lib, Obj(entries));
    EntriesEncode(lib, entries);
    SortEncodes(lib, entries);
    SortIdle(EntryLe, entries);
    PlainJoinedMembers(lib, entries);
    SignificantBracket(BeginObject, JoinMembers(EncodeEntries(lib, entries)).value, EndObject);
  }

  // ---- reading back what was written ----

  /** Every fraction in v is named by its shortest text. */
  predicate WellNamed(lib: Lib, v: Value) {
    match v
    case Number(f) => f.Fraction? ==> lib.shortest(f.text)
    case Arr(items) => forall i | 0 <= i < |items| :: WellNamed(lib, items[i])
    case Obj(entries) => forall i | 0 <= i < |entries| :: WellNamed(lib, entries[i].value)
    case _ => true
  }

  lemma {:induction false} DecimalHead(n: nat)
    ensures var s := Decimal(n);
      s != "" && (forall i | 0 <= i < |s| :: IsDigit(s[i])) && (|s| > 1 ==> s[0] != '0') && (n > 0 ==> s[0] != '0')
  {
    if n >= 10 {
      DecimalHead(n / 10);
    }
  }

  /** A safe whole number is written so that it is read back. */
  lemma WholeReads(lib: Lib, n: int)
    requires lib.Sound() && Safe(n)
    ensures ReadNumber(lib, Signed(n)) == Some(Whole(n))
  {
    var digits := Decimal(if n < 0 then -n else n);
    DecimalHead(if n < 0 then -n else n);
    assert n < 0 ==> Signed(n)[1..] == digits;
    assert lib.parseFloat(Signed(n)) == Some(Whole(n));
  }

  lemma NumberReads(lib: Lib, f: Float)
    requires lib.Sound() && ValidNumber(f) && (f.Fraction? ==> lib.shortest(f.text))
    ensures ReadNumber(lib, NumberText(f)) == Some(f)
  {
    hide HasExponent, LeadingZeros, Signed;
    match f
    case Whole(n) => WholeReads(lib, n);
    case Fraction(x) => assert lib.parseFloat(x) == Some(Fraction(x));
    case _ =>
  }

  /** r is the value with the rest, or an error. */
  predicate ReadsIf(good: bool, r: Result<(Value, seq<Token>), CanonError>, v: Value, rest: seq<Token>) {
    if good then r == Ok((v, rest)) else r.Err?
  }

  /** What an encoded value starts with. */
  lemma PlainStarts(lib: Lib, v: Value)
    requires IsNormal(lib, v) && Writable(v)
    ensures Encode(lib, v).Ok? && Plain(lib, v) != [] && !Plain(lib, v)[0].EndArray? && !Plain(lib, v)[0].EndObject?
  {
    hide Compose, NumberText;
    EncodeExact(lib, v);
    match v
    case Arr(items) => PlainArray(lib, items);
    case Obj(entries) => PlainObject(lib, entries);
    case _ => SignificantOne(Encode(lib, v).value[0]);
  }

  /** The tokens of a normal value are read back exactly when no object in it repeats a key. */
  lemma {:induction false} DecodeEncodes(lib: Lib, v: Value, rest: seq<Token>)
    requires lib.Sound() && IsNormal(lib, v) && Writable(v) && WellNamed(lib, v)
    ensures Encode(lib, v).Ok? && ReadsIf(DistinctKeys(lib, v), DecodeValue(lib, Plain(lib, v) + rest), v, rest)
    decreases v, 0
  {
    match v
    case Arr(items) => DecodeArray(lib, items, rest);
    case Obj(entries) => DecodeObject(lib, entries, rest);
    case _ => DecodeAtom(lib, v, rest);
  }

  lemma DecodeAtom(lib: Lib, v: Value, rest: seq<Token>)
    requires lib.Sound() && IsNormal(lib, v) && Writable(v) && WellNamed(lib, v) && !v.Arr? && !v.Obj?
    ensures Encode(lib, v).Ok? && DecodeValue(lib, Plain(lib, v) + rest) == Ok((v, rest))
  {
    hide Compose, NumberText, ReadNumber, Significant;
    EncodeExact(lib, v);
    SignificantOne(Encode(lib, v).value[0]);
    assert (Plain(lib, v) + rest)[1..] == rest;
    if v.Number? {
      NumberReads(lib, v.f);
    }
  }

  lemma {:induction false} DecodeArray(lib: Lib, items: seq<Value>, rest: seq<Token>)
    requires lib.Sound() && IsNormal(lib, Arr(items)) && Writable(Arr(items)) && WellNamed(lib, Arr(items))
    ensures Encode(lib, Arr(items)).Ok?
    ensures ReadsIf(DistinctKeys(lib, Arr(items)), DecodeValue(lib, Plain(lib, Arr(items)) + rest), Arr(items), rest)
    decreases Arr(items), 0, 2
  {
    hide Plain, PlainItems, DecodeItems, IsNormal, Writable, WellNamed;
    PlainArray(lib, items);
    DecodeItemsFrom(lib, items, 0, rest);
    assert items[0..] == items && items[..0] == [];
    var ts := Plain(lib, Arr(items)) + rest;
    assert ts[1..] == PlainItems(lib, items) + [EndArray] + rest;
    assert ts[0] == BeginArray;
  }

  lemma {:induction false} DecodeItemsFrom(lib: Lib, items: seq<Value>, k: nat, rest: seq<Token>)
    requires lib.Sound() && IsNormal(lib, Arr(items)) && Writable(Arr(items)) && WellNamed(lib, Arr(items)) && k <= |items|
    ensures forall i | 0 <= i < |items[k..]| :: Encode(lib, items[k..][i]).Ok?
    ensures ReadsIf(
      forall i | k <= i < |items| :: DistinctKeys(lib, items[i]),
      DecodeItems(lib, PlainItems(lib, items[k..]) + [EndArray] + rest, items[..k]), Arr(items), rest)
    decreases Arr(items), 0, 1, |items| - k
  {
    hide Plain, Encode, DecodeValue, DecodeItems, DistinctKeys, IsNormal, Writable, WellNamed;
    ItemsEncode(lib, items);
    if k == |items| {
      assert items[..k] == items && items[k..] == [];
      NoMoreItems(lib, items, rest);
    } else {
      var v := items[k];
      ItemAt(lib, items, k);
      PlainStarts(lib, v);
      var tail := PlainItems(lib, items[k + 1..]) + [EndArray] + rest;
      DecodeEncodes(lib, v, tail);
      DecodeItemsFrom(lib, items, k + 1, rest);
      assert items[k..][0] == v && items[k..][1..] == items[k + 1..];
      assert items[..k] + [v] == items[..k + 1];
      assert PlainItems(lib, items[k..]) + [EndArray] + rest == Plain(lib, v) + tail;
      assert (Plain(lib, v) + tail)[0] == Plain(lib, v)[0];
      OneMoreItem(lib, Plain(lib, v) + tail, v, tail, items[..k], DistinctKeys(lib, v));
    }
  }

  lemma NoMoreItems(lib: Lib, done: seq<Value>, rest: seq<Token>)
    ensures DecodeItems(lib, [] + [EndArray] + rest, done) == Ok((Arr(done), rest))
  {
    assert [] + [EndArray] + rest == [EndArray] + rest;
    assert ([EndArray] + rest)[1..] == rest;
  }

  lemma OneMoreItem(lib: Lib, ts: seq<Token>, v: Value, tail: seq<Token>, done: seq<Value>, good: bool)
    requires ts != [] && !ts[0].EndArray? && !ts[0].EndObject? && ReadsIf(good, DecodeValue(lib, ts), v, tail)
    ensures if good then DecodeItems(lib, ts, done) == DecodeItems(lib, tail, done + [v]) else DecodeItems(lib, ts, done).Err?
  {
    hide DecodeValue;
  }

  lemma ItemAt(lib: Lib, items: seq<Value>, k: nat)
    requires IsNormal(lib, Arr(items)) && Writable(Arr(items)) && WellNamed(lib, Arr(items)) && k < |items|
    ensures IsNormal(lib, items[k]) && Writable(items[k]) && WellNamed(lib, items[k])
  {
  }

  lemma EntryAt(lib: Lib, entries: seq<Entry>, k: nat)
    requires IsNormal(lib, Obj(entries)) && Writable(Obj(entries)) && WellNamed(lib, Obj(entries)) && k < |entries|
    ensures IsNormal(lib, entries[k].value) && Writable(entries[k].value) && WellNamed(lib, entries[k].value)
    ensures Compose(lib.marks, entries[k].key) == entries[k].key
  {
    assert entries[k] in entries;
  }

  lemma PlainNormalObject(lib: Lib, entries: seq<Entry>)
    requires IsNormal(lib, Obj(entries)) && Writable(Obj(entries))
    ensures forall i | 0 <= i < |entries| :: Encode(lib, entries[i].value).Ok?
    ensures Encode(lib, Obj(entries)).Ok? && Plain(lib, Obj(entries)) == [BeginObject] + PlainMembers(lib, entries) + [EndObject]
  {
    hide Encode, Significant, PlainMembers, Writable, EntryLe, Compose;
    PlainObject(lib, entries);
  }

  lemma {:induction false} DecodeObject(lib: Lib, entries: seq<Entry>, rest: seq<Token>)
    requires lib.Sound() && IsNormal(lib, Obj(entries)) && Writable(Obj(entries)) && WellNamed(lib, Obj(entries))
    ensures Encode(lib, Obj(entries)).Ok?
    ensures ReadsIf(DistinctKeys(lib, Obj(entries)), DecodeValue(lib, Plain(lib, Obj(entries)) + rest), Obj(entries), rest)
    decreases Obj(entries), 0, 2
  {
    hide Plain, PlainMembers, DecodeMembers, Writable, WellNamed, Compose, IsNormal, DistinctKeys, GoodFrom, Encode;
    PlainNormalObject(lib, entries);
    DecodeMembersFrom(lib, entries, 0, rest);
    assert entries[0..] == entries && entries[..0] == [];
    var ts := Plain(lib, Obj(entries)) + rest;
    assert ts[1..] == PlainMembers(lib, entries) + [EndObject] + rest;
    assert ts[0] == BeginObject;
    DistinctMembers(lib, entries);
  }

  /** From member k on, values are good and keys are new. */
  predicate GoodFrom(lib: Lib, entries: seq<Entry>, k: nat) {
    && (forall i | k <= i < |entries| :: DistinctKeys(lib, entries[i].value))
    && (forall i, j | 0 <= i < j < |entries| && k <= j :: entries[i].key != entries[j].key)
  }

  lemma DistinctMembers(lib: Lib, entries: seq<Entry>)
    requires IsNormal(lib, Obj(entries))
    ensures GoodFrom(lib, entries, 0) <==> DistinctKeys(lib, Obj(entries))
  {
    hide Compose, EntryLe;
    forall i | 0 <= i < |entries| ensures Compose(lib.marks, entries[i].key) == entries[i].key {
      assert entries[i] in entries;
    }
  }

  lemma GoodStep(lib: Lib, entries: seq<Entry>, k: nat)
    requires k < |entries|
    ensures GoodFrom(lib, entries, k) <==>
      DistinctKeys(lib, entries[k].value) && !HasKey(entries[..k], entries[k].key) && GoodFrom(lib, entries, k + 1)
  {
    hide DistinctKeys;
    if HasKey(entries[..k], entries[k].key) {
      var i :| 0 <= i < k && entries[..k][i].key == entries[k].key;
      assert entries[i].key == entries[k].key;
    } else {
      forall i | 0 <= i < k ensures entries[i].key != entries[k].key {
        assert entries[..k][i] == entries[i];
      }
    }
  }

  lemma {:induction false} DecodeMembersFrom(lib: Lib, entries: seq<Entry>, k: nat, rest: seq<Token>)
    requires lib.Sound() && IsNormal(lib, Obj(entries)) && Writable(Obj(entries)) && WellNamed(lib, Obj(entries)) && k <= |entries|
    ensures forall i | 0 <= i < |entries[k..]| :: Encode(lib, entries[k..][i].value).Ok?
    ensures ReadsIf(
      GoodFrom(lib, entries, k),
      DecodeMembers(lib, PlainMembers(lib, entries[k..]) + [EndObject] + rest, entries[..k]), Obj(entries), rest)
    decreases Obj(entries), 0, 1, |entries| - k
  {
    hide Plain, Encode, DecodeValue, DecodeMembers, DistinctKeys, IsNormal, Writable, WellNamed, Compose, HasKey, GoodFrom;
    EntriesEncode(lib, entries);
    if k == |entries| {
      assert entries[..k] == entries && entries[k..] == [];
      NoMoreMembers(lib, entries, rest);
    } else {
      var e := entries[k];
      EntryAt(lib, entries, k);
      var tail := PlainMembers(lib, entries[k + 1..]) + [EndObject] + rest;
      DecodeEncodes(lib, e.value, tail);
      DecodeMembersFrom(lib, entries, k + 1, rest);
      GoodStep(lib, entries, k);
      assert entries[k..][0] == e && entries[k..][1..] == entries[k + 1..];
      assert entries[..k] + [e] == entries[..k + 1];
      assert PlainMembers(lib, entries[k..]) + [EndObject] + rest == [StringToken(e.key)] + (Plain(lib, e.value) + tail);
      OneMoreMember(lib, Plain(lib, e.value) + tail, e, tail, entries[..k], DistinctKeys(lib, e.value));
    }
  }

  lemma NoMoreMembers(lib: Lib, done: seq<Entry>, rest: seq<Token>)
    ensures GoodFrom(lib, done, |done|)
    ensures DecodeMembers(lib, [] + [EndObject] + rest, done) == Ok((Obj(done), rest))
  {
    assert [] + [EndObject] + rest == [EndObject] + rest;
    assert ([EndObject] + rest)[1..] == rest;
  }

  lemma OneMoreMember(lib: Lib, ts: seq<Token>, e: Entry, tail: seq<Token>, done: seq<Entry>, good: bool)
    requires Compose(lib.marks, e.key) == e.key && ReadsIf(good, DecodeValue(lib, ts), e.value, tail)
    ensures var r := DecodeMembers(lib, [StringToken(e.key)] + ts, done);
      if good && !HasKey(done, e.key) then r == DecodeMembers(lib, tail, done + [e]) else r.Err?
  {
    hide DecodeValue, Compose, HasKey;
    assert ([StringToken(e.key)] + ts)[1..] == ts;
  }

  lemma {:induction false} NormalWellNamed(lib: Lib, v: Value)
    ensures WellNamed(lib, Normal(lib, v)) <==> WellNamed(lib, v)
  {
    hide Compose, EntryLe, Sort;
    match v
    case Arr(items) => NormalItemsWellNamed(lib, items);
    case Obj(entries) =>
      NormalEntriesWellNamed(lib, entries);
      var ns := NormalEntries(lib, entries);
      SortPermutes(EntryLe, ns);
      WellNamedPermuted(lib, ns, Sort(EntryLe, ns));
      WellNamedPermuted(lib, Sort(EntryLe, ns), ns);
    case _ =>
  }

  lemma {:induction false} NormalItemsWellNamed(lib: Lib, items: seq<Value>)
    ensures forall i | 0 <= i < |items| :: WellNamed(lib, NormalItems(lib, items)[i]) <==> WellNamed(lib, items[i])
  {
    hide WellNamed, Normal;
    if items != [] {
      NormalWellNamed(lib, items[0]);
      NormalItemsWellNamed(lib, items[1..]);
    }
  }

  lemma {:induction false} NormalEntriesWellNamed(lib: Lib, entries: seq<Entry>)
    ensures forall i | 0 <= i < |entries| :: WellNamed(lib, NormalEntries(lib, entries)[i].value) <==> WellNamed(lib, entries[i].value)
  {
    hide WellNamed, Normal, Compose;
    if entries != [] {
      NormalWellNamed(lib, entries[0].value);
      NormalEntriesWellNamed(lib, entries[1..]);
    }
  }

  lemma WellNamedPermuted(lib: Lib, a: seq<Entry>, b: seq<Entry>)
    requires multiset(a) == multiset(b)
    ensures WellNamed(lib, Obj(a)) ==> WellNamed(lib, Obj(b))
  {
    PermutationMembers(a, b);
    forall i | 0 <= i < |b| && WellNamed(lib, Obj(a)) ensures WellNamed(lib, b[i].value) {
      assert b[i] in a;
      var k :| 0 <= k < |a| && a[k] == b[i];
      assert WellNamed(lib, a[k].value);
    }
  }

  // ---- the main results ----

  /**
   * A value whose numbers can be written encodes, and its tokens decode to its normal form exactly
   * when no object in it has two keys that normalise alike; otherwise decoding reports an error.
   */
  lemma RoundTripExact(lib: Lib, v: Value, rest: seq<Token>)
    requires lib.Sound() && Writable(v) && WellNamed(lib, v)
    ensures Encode(lib, v).Ok?
    ensures ReadsIf(DistinctKeys(lib, v), DecodeValue(lib, Plain(lib, v) + rest), Normal(lib, v), rest)
  {
    hide Encode, Normal, IsNormal, DecodeValue, Writable, WellNamed, DistinctKeys, Significant;
    EncodeExact(lib, v);
    EncodeNormal(lib, v);
    NormalIsNormal(lib, v);
    NormalWellNamed(lib, v);
    DecodeEncodes(lib, Normal(lib, v), rest);
  }

  /** Encoding what was decoded from an encoding gives the same tokens, commas and colons included. */
  lemma ReencodeSame(lib: Lib, v: Value)
    requires lib.Sound() && Writable(v) && WellNamed(lib, v) && DistinctKeys(lib, v)
    ensures Encode(lib, v).Ok?
    ensures var r := DecodeValue(lib, Plain(lib, v)); r.Ok? && r.value.1 == [] && Encode(lib, r.value.0) == Encode(lib, v)
  {
    hide Encode, Normal, DecodeValue, Writable, WellNamed, DistinctKeys, Significant;
    EncodeExact(lib, v);
    RoundTripExact(lib, v, []);
    EncodeNormal(lib, v);
    assert Plain(lib, v) + [] == Plain(lib, v);
  }

  /** The same value with the entries of its maps enumerated in another order. */
  ghost predicate Reordered(v: Value, w: Value)
    decreases v
  {
    match v
    case Arr(items) =>
      w.Arr? && |items| == |w.items| && forall i | 0 <= i < |items| :: Reordered(items[i], w.items[i])
    case Obj(entries) =>
      w.Obj? && |entries| == |w.entries| && forall i | 0 <= i < |entries| :: ReorderedTwin(entries[i], w.entries)
    case _ => v == w
  }

  /** An entry of b has the same key and a reordering of the value. */
  ghost predicate ReorderedTwin(e: Entry, b: seq<Entry>)
    decreases e
  {
    exists j :: 0 <= j < |b| && b[j].key == e.key && Reordered(e.value, b[j].value)
  }

  lemma {:induction false} NormalItemsAgree(lib: Lib, a: seq<Value>, b: seq<Value>)
    requires |a| == |b| && forall i | 0 <= i < |a| :: Normal(lib, a[i]) == Normal(lib, b[i])
    ensures NormalItems(lib, a) == NormalItems(lib, b)
  {
    hide Normal;
    if a != [] {
      NormalItemsAgree(lib, a[1..], b[1..]);
    }
  }

  lemma {:induction false} NormalEntriesAt(lib: Lib, entries: seq<Entry>, i: nat)
    requires i < |entries|
    ensures NormalEntries(lib, entries)[i] == Entry(Compose(lib.marks, entries[i].key), Normal(lib, entries[i].value))
  {
    hide Normal, Compose;
    if i > 0 {
      NormalEntriesAt(lib, entries[1..], i - 1);
    }
  }

  /** Values that differ only in the order of enumeration have one normal form, and so one encoding. */
  lemma {:induction false} OrderIrrelevant(lib: Lib, v: Value, w: Value)
    requires lib.Sound() && Reordered(v, w) && DistinctKeys(lib, v) && DistinctKeys(lib, w)
    ensures Normal(lib, v) == Normal(lib, w) && Encode(lib, v) == Encode(lib, w)
    decreases v
  {
    EncodeNormal(lib, v);
    EncodeNormal(lib, w);
    hide Encode;
    match v
    case Arr(items) =>
      forall i | 0 <= i < |items| ensures Normal(lib, items[i]) == Normal(lib, w.items[i]) {
        OrderIrrelevant(lib, items[i], w.items[i]);
      }
      NormalItemsAgree(lib, items, w.items);
    case Obj(entries) =>
      forall i | 0 <= i < |entries|
        ensures SomeTwin(lib, entries[i], w.entries)
      {
        assert ReorderedTwin(entries[i], w.entries);
        var j :| 0 <= j < |w.entries| && w.entries[j].key == entries[i].key && Reordered(entries[i].value, w.entries[j].value);
        OrderIrrelevant(lib, entries[i].value, w.entries[j].value);
      }
      ObjectsAgree(lib, entries, w.entries);
    case _ =>
  }

  /** An entry of b has the same key and the same normal value. */
  predicate SomeTwin(lib: Lib, e: Entry, b: seq<Entry>) {
    exists j :: 0 <= j < |b| && b[j].key == e.key && Normal(lib, e.value) == Normal(lib, b[j].value)
  }

  predicate KeysDiffer(s: seq<Entry>) {
    forall i, j | 0 <= i < j < |s| :: s[i].key != s[j].key
  }

  lemma ObjectsAgree(lib: Lib, a: seq<Entry>, b: seq<Entry>)
    requires lib.Sound() && |a| == |b| && DistinctKeys(lib, Obj(a)) && DistinctKeys(lib, Obj(b))
    requires forall i | 0 <= i < |a| :: SomeTwin(lib, a[i], b)
    ensures Normal(lib, Obj(a)) == Normal(lib, Obj(b))
  {
    hide Compose, EntryLe, Sort;
    var ns, ms := NormalEntries(lib, a), NormalEntries(lib, b);
    NormalDistinct(lib, a);
    NormalDistinct(lib, b);
    forall e | e in ns ensures e in ms {
      var i :| 0 <= i < |ns| && ns[i] == e;
      NormalEntriesAt(lib, a, i);
      assert SomeTwin(lib, a[i], b);
      var j :| 0 <= j < |b| && b[j].key == a[i].key && Normal(lib, a[i].value) == Normal(lib, b[j].value);
      NormalEntriesAt(lib, b, j);
      assert ms[j] == e;
    }
    SubsetIsAll(ns, ms);
    SameMembersSameBag(ns, ms);
    UniqueSorted(ns, ms);
  }

  /** Normalised entries of an object with distinct keys have distinct keys. */
  lemma NormalDistinct(lib: Lib, a: seq<Entry>)
    requires lib.Sound() && DistinctKeys(lib, Obj(a))
    ensures KeysDiffer(NormalEntries(lib, a))
  {
    hide Compose, Normal;
    forall i | 0 <= i < |a| ensures NormalEntries(lib, a)[i].key == Compose(lib.marks, a[i].key) {
      NormalEntriesAt(lib, a, i);
    }
  }

  /** Distinct elements that all occur in a list of the same length are all of it. */
  lemma SubsetIsAll(a: seq<Entry>, b: seq<Entry>)
    requires |a| == |b| && forall e | e in a :: e in b
    requires KeysDiffer(a)
    requires KeysDiffer(b)
    ensures forall e :: e in a <==> e in b
  {
    var s, t := (set e | e in a), (set e | e in b);
    DistinctSize(a);
    DistinctSize(b);
    assert s <= t;
    assert |t - s| == |t| - |s| == 0;
    assert t - s == {};
    forall e | e in b ensures e in a {
      assert e in t && e !in t - s;
    }
  }

  lemma {:induction false} DistinctSize(a: seq<Entry>)
    requires KeysDiffer(a)
    ensures |set e | e in a| == |a|
  {
    if a != [] {
      var rest := a[1..];
      DistinctSize(rest);
      forall e ensures e in a <==> e == a[0] || e in rest {
        assert a == [a[0]] + rest;
      }
      assert (set e | e in a) == {a[0]} + (set e | e in rest);
      assert a[0] !in rest;
    }
  }

  lemma UniqueSorted(ns: seq<Entry>, ms: seq<Entry>)
    requires multiset(ns) == multiset(ms)
    requires KeysDiffer(ns)
    ensures Sort(EntryLe, ns) == Sort(EntryLe, ms)
  {
    hide StringLe, Sort;
    MemberOrder();
    SortSorts(EntryLe, ns);
    SortSorts(EntryLe, ms);
    SortPermutes(EntryLe, ns);
    SortPermutes(EntryLe, ms);
    PermutationMembers(Sort(EntryLe, ns), ns);
    PermutationMembers(Sort(EntryLe, ms), ns);
    NoEntryTies(ns);
    SortedUnique(EntryLe, Sort(EntryLe, ns), Sort(EntryLe, ms));
  }

  lemma NoEntryTies(ns: seq<Entry>)
    requires KeysDiffer(ns)
    ensures NoTies(EntryLe, ns)
  {
    hide StringLe;
    forall x, y | x in ns && y in ns && EntryLe(x, y) && EntryLe(y, x) ensures x == y {
      StringLeTotal(x.key, y.key);
      var i :| 0 <= i < |ns| && ns[i] == x;
      var j :| 0 <= j < |ns| && ns[j] == y;
    }
  }

  // ---- what decoding accepts ----

  /** Fit to be encoded and read back. */
  predicate Fit(lib: Lib, v: Value) {
    Writable(v) && WellNamed(lib, v) && DistinctKeys(lib, v)
  }

  predicate FitMembers(lib: Lib, done: seq<Entry>) {
    && (forall i | 0 <= i < |done| :: Fit(lib, done[i].value) && Compose(lib.marks, done[i].key) == done[i].key)
    && KeysDiffer(done)
  }

  lemma {:induction false} DecodedFit(lib: Lib, ts: seq<Token>)
    requires lib.Sound()
    ensures DecodeValue(lib, ts).Ok? ==> Fit(lib, DecodeValue(lib, ts).value.0)
    decreases |ts|, 0
  {
    hide Compose, ReadNumber;
    if ts != [] {
      match ts[0]
      case BeginObject => DecodedFitMembers(lib, ts[1..], []);
      case BeginArray => DecodedFitItems(lib, ts[1..], []);
      case NumberToken(raw) => ReadFit(lib, raw);
      case _ =>
    }
  }

  lemma ReadFit(lib: Lib, raw: string)
    requires lib.Sound()
    ensures ReadNumber(lib, raw).Some? ==> Fit(lib, Number(ReadNumber(lib, raw).value))
  {
    hide HasExponent, LeadingZeros;
  }

  lemma {:induction false} DecodedFitMembers(lib: Lib, ts: seq<Token>, done: seq<Entry>)
    requires lib.Sound() && FitMembers(lib, done)
    ensures DecodeMembers(lib, ts, done).Ok? ==> Fit(lib, DecodeMembers(lib, ts, done).value.0)
    decreases |ts|, 1
  {
    hide Compose, DecodeValue, Fit;
    if ts != [] && ts[0].EndObject? {
      FitObject(lib, done);
    } else if ts != [] && ts[0].StringToken? {
      DecodedFit(lib, ts[1..]);
      var key := Compose(lib.marks, ts[0].s);
      if !HasKey(done, key) && DecodeValue(lib, ts[1..]).Ok? {
        var (v, rest) := DecodeValue(lib, ts[1..]).value;
        ComposeIdempotent(lib.marks, ts[0].s);
        DecodedFitMembers(lib, rest, done + [Entry(key, v)]);
      }
    }
  }

  lemma FitObject(lib: Lib, done: seq<Entry>)
    requires FitMembers(lib, done)
    ensures Fit(lib, Obj(done))
  {
    hide Compose;
  }

  lemma {:induction false} DecodedFitItems(lib: Lib, ts: seq<Token>, done: seq<Value>)
    requires lib.Sound() && forall i | 0 <= i < |done| :: Fit(lib, done[i])
    ensures DecodeItems(lib, ts, done).Ok? ==> Fit(lib, DecodeItems(lib, ts, done).value.0)
    decreases |ts|, 1
  {
    hide DecodeValue;
    if ts != [] && !ts[0].EndObject? && !ts[0].EndArray? {
      DecodedFit(lib, ts);
      if DecodeValue(lib, ts).Ok? {
        var (v, rest) := DecodeValue(lib, ts).value;
        DecodedFitItems(lib, rest, done + [v]);
      }
    }
  }

  /** Whatever is accepted encodes, and putting the encoding through the same steps again gives the same tokens. */
  lemma CanonicalizeIdempotent(lib: Lib, ts: seq<Token>)
    requires lib.Sound() && DecodeValue(lib, ts).Ok?
    ensures var v := DecodeValue(lib, ts).value.0;
      && Encode(lib, v).Ok?
      && DecodeValue(lib, Plain(lib, v)) == Ok((Normal(lib, v), []))
      && Encode(lib, Normal(lib, v)) == Encode(lib, v)
  {
    hide DecodeValue, Encode, Normal, Writable, WellNamed, DistinctKeys, Significant;
    DecodedFit(lib, ts);
    var v := DecodeValue(lib, ts).value.0;
    RoundTripExact(lib, v, []);
    EncodeNormal(lib, v);
    assert Plain(lib, v) + [] == Plain(lib, v);
  }

  /** Keys that normalise alike make the encoding depend on the order of enumeration, and unreadable. */
  lemma AlikeKeysDependOnOrder(lib: Lib, ka: string, kb: string)
    requires Compose(lib.marks, ka) == Compose(lib.marks, kb)
    ensures var a, b := Entry(ka, Flag(true)), Entry(kb, Flag(false));
      Encode(lib, Obj([a, b])) != Encode(lib, Obj([b, a])) && !DistinctKeys(lib, Obj([a, b]))
  {
    EncodeTwoFlags(lib, ka, true, kb, false);
    EncodeTwoFlags(lib, kb, false, ka, true);
    var a, b := Entry(ka, Flag(true)), Entry(kb, Flag(false));
    assert Compose(lib.marks, [a, b][0].key) == Compose(lib.marks, [a, b][1].key);
    hide Encode, Compose;
    assert Encode(lib, Obj([a, b])).value[3] == BoolToken(true);
    assert Encode(lib, Obj([b, a])).value[3] == BoolToken(false);
  }

  lemma EncodeTwoFlags(lib: Lib, ka: string, x: bool, kb: string, y: bool)
    requires Compose(lib.marks, ka) == Compose(lib.marks, kb)
    ensures var key := StringToken(Compose(lib.marks, ka));
      Encode(lib, Obj([Entry(ka, Flag(x)), Entry(kb, Flag(y))]))
      == Ok([BeginObject] + [key, Colon, BoolToken(x), Comma, key, Colon, BoolToken(y)] + [EndObject])
  {
    hide Compose, StringLe;
    var a, b, key := Entry(ka, Flag(x)), Entry(kb, Flag(y)), Compose(lib.marks, ka);
    var ma, mb := Member(key, Ok([BoolToken(x)])), Member(key, Ok([BoolToken(y)]));
    StringLeTotal(key, key);
    assert [a, b][1..] == [b] && [b][1..] == [];
    assert EncodeEntries(lib, [b]) == [mb];
    assert EncodeEntries(lib, [a, b]) == [ma, mb];
    SortPair(ma, mb);
    TwoMembers(key, x, y);
  }

  /** There are such keys: a letter with its accent composed, and apart. */
  lemma AlikeKeys(lib: Lib)
    requires lib.Sound() && lib.marks.mn('\U{0301}')
    ensures Compose(lib.marks, "e\U{0301}") == "\U{00E9}" && Compose(lib.marks, "\U{00E9}") == "\U{00E9}"
  {
    var t := lib.marks;
    MarklessIdle(t, "\U{00E9}");
    var s := "e\U{0301}";
    assert s[1..] == "\U{0301}" && s[1..][1..] == "";
    assert LeadingMarks(t, "") == 0;
    assert LeadingMarks(t, s[1..]) == 1;
    assert s[1..2] == "\U{0301}" && s[2..] == "";
    assert ComposePair('e', '\U{0301}') == Some('\U{00E9}') by {
      assert VOWELS[1..] == "EIOUaeiou" && ACUTE[1..] == "\U{00C9}\U{00CD}\U{00D3}\U{00DA}\U{00E1}\U{00E9}\U{00ED}\U{00F3}\U{00FA}";
      SixthVowel();
    }
    assert Run('e', "\U{0301}") == Run('\U{00E9}', "");
    assert Compose(t, "") == "";
  }

  lemma SixthVowel()
    ensures At(VOWELS, ACUTE, 'e') == Some('\U{00E9}')
  {
    assert At("eiou", "\U{00E9}\U{00ED}\U{00F3}\U{00FA}", 'e') == Some('\U{00E9}');
    assert "aeiou"[1..] == "eiou" && "\U{00E1}\U{00E9}\U{00ED}\U{00F3}\U{00FA}"[1..] == "\U{00E9}\U{00ED}\U{00F3}\U{00FA}";
    assert At("aeiou", "\U{00E1}\U{00E9}\U{00ED}\U{00F3}\U{00FA}", 'e') == Some('\U{00E9}');
    var l, c := "Uaeiou", "\U{00DA}\U{00E1}\U{00E9}\U{00ED}\U{00F3}\U{00FA}";
    assert l[1..] == "aeiou" && c[1..] == "\U{00E1}\U{00E9}\U{00ED}\U{00F3}\U{00FA}";
    assert At(l, c, 'e') == Some('\U{00E9}');
    assert VOWELS[4..] == l && ACUTE[4..] == c;
    assert VOWELS[3..][1..] == VOWELS[4..] && ACUTE[3..][1..] == ACUTE[4..];
    assert At(VOWELS[3..], ACUTE[3..], 'e') == Some('\U{00E9}');
    assert VOWELS[2..][1..] == VOWELS[3..] && ACUTE[2..][1..] == ACUTE[3..];
    assert At(VOWELS[2..], ACUTE[2..], 'e') == Some('\U{00E9}');
    assert VOWELS[1..][1..] == VOWELS[2..] && ACUTE[1..][1..] == ACUTE[2..];
    assert At(VOWELS[1..], ACUTE[1..], 'e') == Some('\U{00E9}');
  }

  lemma SortPair(a: Member, b: Member)
    requires MemberLe(a, b)
    ensures Sort(MemberLe, [a, b]) == [a, b]
  {
    assert SortedBy(MemberLe, [a, b]);
    SortIdle(MemberLe, [a, b]);
  }

  lemma TwoMembers(key: string, x: bool, y: bool)
    ensures var ms := [Member(key, Ok([BoolToken(x)])), Member(key, Ok([BoolToken(y)]))];
      JoinMembers(ms) == Ok([StringToken(key), Colon, BoolToken(x), Comma, StringToken(key), Colon, BoolToken(y)])
  {
    var m, n := Member(key, Ok([BoolToken(x)])), Member(key, Ok([BoolToken(y)]));
    assert [m, n][1..] == [n] && [n][1..] == [];
    var last := [StringToken(key), Colon, BoolToken(y)];
    assert [StringToken(key), Colon] + [BoolToken(y)] + [] + [] == last;
    assert JoinMembers([n]) == Ok(last);
    assert [StringToken(key), Colon] + [BoolToken(x)] + [Comma] + last
      == [StringToken(key), Colon, BoolToken(x), Comma, StringToken(key), Colon, BoolToken(y)];
  }
}
