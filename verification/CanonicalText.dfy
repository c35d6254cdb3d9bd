/** What canonical JSON looks like, token by token: it is JSON, and the keys of an object ascend. */
module CanonicalText {
  import opened Wrappers
  import opened Sorting
  import opened TypeDefs
  import opened Nfc
  import opened CanonicalJson
  import opened CanonicalLaws
  import opened CanonicalOrder

  // ---- the keys of an object ----

  /** The string at the front if a colon follows it. */
  function KeyHere(ts: seq<Token>): seq<string> {
    if |ts| > 1 && ts[0].StringToken? && ts[1].Colon? then [ts[0].s] else []
  }

  /** The strings that stand before a colon d brackets deep, in order. */
  function KeysAt(ts: seq<Token>, d: int): seq<string> {
    if ts == [] then []
    else if d == 0 then KeyHere(ts) + KeysAt(ts[1..], -Turn(ts[0]))
    else KeysAt(ts[1..], d - Turn(ts[0]))
  }

  lemma KeysStep(ts: seq<Token>, d: int)
    requires ts != []
    ensures KeysAt(ts, d) == (if d == 0 then KeyHere(ts) else []) + KeysAt(ts[1..], d - Turn(ts[0]))
  {
    hide KeyHere;
  }

  lemma KeyHereConcat(a: seq<Token>, b: seq<Token>)
    requires a != [] && (b != [] ==> !b[0].Colon?)
    ensures KeyHere(a + b) == KeyHere(a)
  {
  }

  lemma {:induction false} KeysConcat(a: seq<Token>, b: seq<Token>, d: int)
    requires b != [] ==> !b[0].Colon?
    ensures KeysAt(a + b, d) == KeysAt(a, d) + KeysAt(b, d - Depth(a))
  {
    if a == [] {
      assert a + b == b;
    } else {
      hide KeysAt, KeyHere, Turn;
      assert (a + b)[1..] == a[1..] + b && (a + b)[0] == a[0];
      KeysConcat(a[1..], b, d - Turn(a[0]));
      KeysStep(a + b, d);
      KeysStep(a, d);
      KeyHereConcat(a, b);
    }
  }

  /** Deeper than here there is no key of here. */
  lemma {:induction false} NoKeys(ts: seq<Token>, d: int)
    requires forall k | 0 <= k < |ts| :: d != Depth(ts[..k])
    ensures KeysAt(ts, d) == []
  {
    if ts != [] {
      assert ts[..0] == [];
      forall k | 0 <= k < |ts[1..]| ensures d - Turn(ts[0]) != Depth(ts[1..][..k]) {
        assert ts[..k + 1][1..] == ts[1..][..k];
      }
      NoKeys(ts[1..], d - Turn(ts[0]));
    }
  }

  /** An encoding by itself has no keys outside its own brackets. */
  lemma ValueHasNoKeys(ts: seq<Token>)
    requires Closes(ts)
    ensures KeysAt(ts, 0) == []
  {
    hide KeysAt, KeyHere;
    var rest := ts[1..];
    forall k | 0 <= k < |rest| ensures -Turn(ts[0]) != Depth(rest[..k]) {
      assert ts[..k + 1][1..] == rest[..k];
    }
    NoKeys(rest, -Turn(ts[0]));
    KeysStep(ts, 0);
    NoKeyHere(ts);
  }

  lemma NoKeyHere(ts: seq<Token>)
    requires Closes(ts)
    ensures KeyHere(ts) == []
  {
    if |ts| > 1 {
      assert ts[..1] == [ts[0]] && [ts[0]][1..] == [];
      assert Depth(ts[..1]) >= 1;
    }
  }

  function KeysOf(members: seq<Member>): seq<string> {
    if members == [] then [] else [members[0].key] + KeysOf(members[1..])
  }

  lemma FlatThen(flat: seq<Token>, rest: seq<Token>)
    requires Depth(flat) == 0 && (rest != [] ==> !rest[0].Colon?)
    ensures KeysAt(flat + rest, 0) == KeysAt(flat, 0) + KeysAt(rest, 0)
  {
    hide KeysAt, Depth;
    KeysConcat(flat, rest, 0);
  }

  lemma KeyAndValue(key: string, value: seq<Token>, more: bool, rest: seq<Token>)
    requires Closes(value) && !value[0].Colon? && (rest != [] ==> !rest[0].Colon?)
    ensures KeysAt([StringToken(key), Colon] + value + (if more then [Comma] else []) + rest, 0) == [key] + KeysAt(rest, 0)
  {
    hide KeysAt, Depth, Closes;
    var head, mid := [StringToken(key), Colon], if more then [Comma] else [];
    HeadKeys(key);
    ValueHasNoKeys(value);
    ClosedDepth(value);
    FlatThen(mid, rest);
    FlatThen(value, mid + rest);
    FlatThen(head, value + (mid + rest));
    assert head + value + mid + rest == head + (value + (mid + rest));
  }

  lemma ClosedDepth(ts: seq<Token>)
    requires Closes(ts)
    ensures ts != [] && Depth(ts) == 0
  {
  }

  lemma HeadKeys(key: string)
    ensures KeysAt([StringToken(key), Colon], 0) == [key] && Depth([StringToken(key), Colon]) == 0
    ensures KeysAt([Comma], 0) == [] && Depth([Comma]) == 0 && KeysAt([], 0) == [] && Depth([]) == 0
  {
    var head := [StringToken(key), Colon];
    assert head[1..] == [Colon] && [Colon][1..] == [] && [Comma][1..] == [];
    assert KeysAt([Colon], 0) == [];
  }

  /** The tokens of a value are bracketed and do not start with a colon. */
  predicate IsBlock(r: Result<seq<Token>, CanonError>) {
    r.Ok? ==> Closes(r.value) && !r.value[0].Colon?
  }

  lemma EncodesBlock(lib: Lib, v: Value)
    ensures IsBlock(Encode(lib, v))
  {
    EncodeCloses(lib, v);
  }

  lemma {:induction false} EntriesBlocks(lib: Lib, entries: seq<Entry>)
    ensures forall m | m in EncodeEntries(lib, entries) :: IsBlock(m.tokens)
  {
    if entries != [] {
      EncodesBlock(lib, entries[0].value);
      EntriesBlocks(lib, entries[1..]);
      hide Encode, IsBlock, Compose;
    }
  }

  lemma BlocksLevel(members: seq<Member>)
    requires forall m | m in members :: IsBlock(m.tokens)
    requires JoinMembers(members).Ok?
    ensures Depth(JoinMembers(members).value) == 0
  {
    hide Depth, JoinMembers;
    MembersLevel(members);
  }

  lemma {:induction false} JoinedKeys(members: seq<Member>)
    requires forall m | m in members :: IsBlock(m.tokens)
    requires JoinMembers(members).Ok?
    ensures var body := JoinMembers(members).value;
      KeysAt(body, 0) == KeysOf(members) && (body != [] ==> !body[0].Colon?) && Depth(body) == 0
  {
    BlocksLevel(members);
    hide Depth, Closes, KeysAt;
    if members == [] {
      HeadKeys("");
    } else {
      assert members[0] in members;
      JoinedKeys(members[1..]);
      KeyAndValue(members[0].key, members[0].tokens.value, |members| > 1, JoinMembers(members[1..]).value);
    }
  }

  /** The keys of a written object are those of its members, normalised, each below the next. */
  lemma KeysAscend(lib: Lib, entries: seq<Entry>)
    requires Encode(lib, Obj(entries)).Ok?
    ensures var keys := KeysAt(Encode(lib, Obj(entries)).value, 1);
      && multiset(keys) == multiset(seq(|entries|, i requires 0 <= i < |entries| => Compose(lib.marks, entries[i].key)))
      && forall i, j | 0 <= i < j < |keys| :: Below(keys[i], keys[j])
  {
    hide EncodeEntries, JoinMembers, Sort, KeysAt, Compose, Below, StringLe, MemberLe, IsBlock;
    var members := EncodeEntries(lib, entries);
    var sorted := Sort(MemberLe, members);
    EntriesBlocks(lib, entries);
    SortPermutes(MemberLe, members);
    PermutationMembers(sorted, members);
    JoinedKeys(sorted);
    ObjectKeys(JoinMembers(sorted).value);
    EntryKeys(lib, entries);
    KeysPermute(sorted, members);
    SortedKeys(members);
  }

  /** The brackets around the members bring their keys one level down. */
  lemma ObjectKeys(body: seq<Token>)
    requires body != [] ==> !body[0].Colon?
    requires Depth(body) == 0
    ensures KeysAt([BeginObject] + body + [EndObject], 1) == KeysAt(body, 0)
  {
    var open, close := [BeginObject], [EndObject];
    assert open[1..] == [] && close[1..] == [];
    assert Depth(open) == 1 && KeysAt(open, 1) == [] && KeysAt(close, 0) == [];
    hide Depth, KeysAt;
    DepthConcat(open, body);
    KeysConcat(open + body, close, 1);
    KeysConcat(open, body, 1);
  }

  lemma {:induction false} EntryKeys(lib: Lib, entries: seq<Entry>)
    ensures KeysOf(EncodeEntries(lib, entries))
      == seq(|entries|, i requires 0 <= i < |entries| => Compose(lib.marks, entries[i].key))
  {
    hide Encode, Compose;
    if entries != [] {
      EntryKeys(lib, entries[1..]);
      assert EncodeEntries(lib, entries)[1..] == EncodeEntries(lib, entries[1..]);
    }
  }

  lemma KeysOfStep(a: seq<Member>)
    requires a != []
    ensures KeysOf(a) == [a[0].key] + KeysOf(a[1..])
  {
  }

  lemma {:induction false} KeysConcatOf(a: seq<Member>, b: seq<Member>)
    ensures KeysOf(a + b) == KeysOf(a) + KeysOf(b)
  {
    if a == [] {
      assert a + b == b;
    } else {
      KeysOfStep(a);
      KeysOfStep(a + b);
      hide KeysOf;
      KeysConcatOf(a[1..], b);
      assert (a + b)[1..] == a[1..] + b && (a + b)[0] == a[0];
    }
  }

  lemma WithoutOne(s: seq<Member>, i: nat)
    requires i < |s|
    ensures multiset(s[..i] + s[i + 1..]) == multiset(s) - multiset{s[i]}
  {
    assert s == s[..i] + [s[i]] + s[i + 1..];
    assert multiset(s) == multiset(s[..i] + s[i + 1..]) + multiset{s[i]};
  }

  lemma WithoutFirst(a: seq<Member>)
    requires a != []
    ensures multiset(a[1..]) == multiset(a) - multiset{a[0]}
  {
    assert a == [a[0]] + a[1..];
    assert multiset(a) == multiset{a[0]} + multiset(a[1..]);
  }

  lemma PlaceOf(b: seq<Member>, m: Member) returns (i: nat)
    requires m in multiset(b)
    ensures i < |b| && b[i] == m
  {
    assert m in b;
    i :| 0 <= i < |b| && b[i] == m;
  }

  /** Where the first of a is in b; without it the two are again permutations. */
  lemma FindFirst(a: seq<Member>, b: seq<Member>) returns (i: nat)
    requires multiset(a) == multiset(b) && a != []
    ensures i < |b| && b[i] == a[0] && multiset(a[1..]) == multiset(b[..i] + b[i + 1..])
  {
    i := PlaceOf(b, a[0]);
    WithoutFirst(a);
    WithoutOne(b, i);
  }

  lemma KeysMiddle(left: seq<Member>, m: Member, right: seq<Member>)
    ensures multiset(KeysOf(left + [m] + right)) == multiset{m.key} + multiset(KeysOf(left + right))
  {
    assert KeysOf([m]) == [m.key];
    hide KeysOf;
    KeysConcatOf(left + [m], right);
    KeysConcatOf(left, [m]);
    KeysConcatOf(left, right);
  }

  lemma {:induction false} KeysPermute(a: seq<Member>, b: seq<Member>)
    requires multiset(a) == multiset(b)
    ensures multiset(KeysOf(a)) == multiset(KeysOf(b))
  {
    hide KeysOf;
    if a == [] {
      assert b == [] by { PermutationMembers(a, b); }
    } else {
      var i := FindFirst(a, b);
      KeysPermute(a[1..], b[..i] + b[i + 1..]);
      KeysMiddle(b[..i], b[i], b[i + 1..]);
      assert b == b[..i] + [b[i]] + b[i + 1..];
      FirstKey(a);
    }
  }

  lemma FirstKey(a: seq<Member>)
    requires a != []
    ensures multiset(KeysOf(a)) == multiset{a[0].key} + multiset(KeysOf(a[1..]))
  {
  }

  lemma {:induction false} KeyIs(members: seq<Member>, i: nat)
    requires i < |members|
    ensures |KeysOf(members)| == |members| && KeysOf(members)[i] == members[i].key
  {
    if i > 0 {
      KeyIs(members[1..], i - 1);
    } else if |members| > 1 {
      KeyIs(members[1..], 0);
    }
  }

  lemma SortedKeys(members: seq<Member>)
    ensures var keys := KeysOf(Sort(MemberLe, members));
      forall i, j | 0 <= i < j < |keys| :: Below(keys[i], keys[j])
  {
    hide KeysOf, StringLe, Below;
    var sorted := Sort(MemberLe, members);
    MemberOrder();
    SortSorts(MemberLe, members);
    hide Sort;
    var keys := KeysOf(sorted);
    if sorted == [] {
      NoMembers();
    }
    forall i, j | 0 <= i < j < |keys| ensures Below(keys[i], keys[j]) {
      KeyIs(sorted, 0);
      KeyIs(sorted, i);
      KeyIs(sorted, j);
      StringLeExact(sorted[i].key, sorted[j].key);
      assert MemberLe(sorted[i], sorted[j]);
    }
  }

  lemma NoMembers()
    ensures KeysOf([]) == []
  {
  }

  // ---- the grammar of JSON ----

  /** Reads one value as RFC 8259 writes it, with its commas and colons, and gives what follows. */
  function AfterValue(ts: seq<Token>): (r: Option<seq<Token>>)
    ensures r.Some? ==> |r.value| < |ts|
    decreases |ts|, 0
  {
    if ts == [] then None
    else
      match ts[0]
      case BeginArray => if |ts| > 1 && ts[1].EndArray? then Some(ts[2..]) else AfterItems(ts[1..])
      case BeginObject => if |ts| > 1 && ts[1].EndObject? then Some(ts[2..]) else AfterMembers(ts[1..])
      case EndArray => None
      case EndObject => None
      case Comma => None
      case Colon => None
      case _ => Some(ts[1..])
  }

  function AfterItems(ts: seq<Token>): (r: Option<seq<Token>>)
    ensures r.Some? ==> |r.value| < |ts|
    decreases |ts|, 1
  {
    var one := AfterValue(ts);
    if one.None? || one.value == [] then None
    else if one.value[0].Comma? then AfterItems(one.value[1..])
    else if one.value[0].EndArray? then Some(one.value[1..])
    else None
  }

  function AfterMembers(ts: seq<Token>): (r: Option<seq<Token>>)
    ensures r.Some? ==> |r.value| < |ts|
    decreases |ts|, 1
  {
    if |ts| < 2 || !ts[0].StringToken? || !ts[1].Colon? then None
    else
      var one := AfterValue(ts[2..]);
      if one.None? || one.value == [] then None
      else if one.value[0].Comma? then AfterMembers(one.value[1..])
      else if one.value[0].EndObject? then Some(one.value[1..])
      else None
  }

  /** The tokens are one JSON value, whatever follows them. */
  ghost predicate IsJson(ts: seq<Token>) {
    forall rest :: AfterValue(ts + rest) == Some(rest)
  }

  /** It is JSON if it could be written. */
  ghost predicate JsonIfOk(r: Result<seq<Token>, CanonError>) {
    r.Ok? ==> r.value != [] && IsJson(r.value) && Opens(r.value[0])
  }

  /** A value can start with this token. */
  predicate Opens(t: Token) {
    !t.EndArray? && !t.EndObject? && !t.Comma? && !t.Colon?
  }

  lemma JsonThen(ts: seq<Token>, rest: seq<Token>)
    requires IsJson(ts)
    ensures AfterValue(ts + rest) == Some(rest)
  {
  }

  lemma {:induction false} ItemsRead(items: seq<Result<seq<Token>, CanonError>>, rest: seq<Token>)
    requires items != [] && forall r | r in items :: JsonIfOk(r)
    requires JoinItems(items).Ok?
    ensures AfterItems(JoinItems(items).value + ([EndArray] + rest)) == Some(rest)
    ensures JoinItems(items).value != [] && Opens(JoinItems(items).value[0])
  {
    hide AfterValue, IsJson;
    assert items[0] in items;
    var first, more := items[0].value, JoinItems(items[1..]).value;
    if |items| == 1 {
      assert items[1..] == [];
      assert JoinItems(items).value == first;
      JsonThen(first, [EndArray] + rest);
      assert ([EndArray] + rest)[1..] == rest;
    } else {
      ItemsRead(items[1..], rest);
      var tail := more + ([EndArray] + rest);
      assert JoinItems(items).value + ([EndArray] + rest) == first + ([Comma] + tail);
      JsonThen(first, [Comma] + tail);
      assert ([Comma] + tail)[1..] == tail;
    }
  }

  lemma {:induction false} MembersRead(members: seq<Member>, rest: seq<Token>)
    requires members != [] && forall m | m in members :: JsonIfOk(m.tokens)
    requires JoinMembers(members).Ok?
    ensures AfterMembers(JoinMembers(members).value + ([EndObject] + rest)) == Some(rest)
    ensures JoinMembers(members).value != [] && JoinMembers(members).value[0].StringToken?
  {
    hide AfterValue, IsJson;
    assert members[0] in members;
    var head, first, more := [StringToken(members[0].key), Colon], members[0].tokens.value, JoinMembers(members[1..]).value;
    if |members| == 1 {
      assert members[1..] == [];
      var ts := JoinMembers(members).value + ([EndObject] + rest);
      assert ts == head + (first + ([EndObject] + rest));
      assert ts[2..] == first + ([EndObject] + rest);
      JsonThen(first, [EndObject] + rest);
      assert ([EndObject] + rest)[1..] == rest;
    } else {
      MembersRead(members[1..], rest);
      var tail := more + ([EndObject] + rest);
      var ts := JoinMembers(members).value + ([EndObject] + rest);
      assert ts == head + (first + ([Comma] + tail));
      assert ts[2..] == first + ([Comma] + tail);
      JsonThen(first, [Comma] + tail);
      assert ([Comma] + tail)[1..] == tail;
    }
  }

  lemma ArrayJson(items: seq<Result<seq<Token>, CanonError>>)
    requires forall r | r in items :: JsonIfOk(r)
    ensures JsonIfOk(Bracket(BeginArray, JoinItems(items), EndArray))
  {
    if JoinItems(items).Ok? {
      var body := JoinItems(items).value;
      var ts := [BeginArray] + body + [EndArray];
      forall rest ensures AfterValue(ts + rest) == Some(rest) {
        assert ts + rest == [BeginArray] + (body + ([EndArray] + rest));
        assert (ts + rest)[1..] == body + ([EndArray] + rest);
        if items == [] {
          assert (ts + rest)[2..] == rest;
        } else {
          ItemsRead(items, rest);
        }
      }
    }
  }

  lemma ObjectJson(members: seq<Member>)
    requires forall m | m in members :: JsonIfOk(m.tokens)
    ensures JsonIfOk(Bracket(BeginObject, JoinMembers(members), EndObject))
  {
    if JoinMembers(members).Ok? {
      var body := JoinMembers(members).value;
      var ts := [BeginObject] + body + [EndObject];
      forall rest ensures AfterValue(ts + rest) == Some(rest) {
        assert ts + rest == [BeginObject] + (body + ([EndObject] + rest));
        assert (ts + rest)[1..] == body + ([EndObject] + rest);
        if members == [] {
          assert (ts + rest)[2..] == rest;
        } else {
          MembersRead(members, rest);
        }
      }
    }
  }

  lemma AtomJson(t: Token)
    requires t.StringToken? || t.NumberToken? || t.BoolToken? || t.NullToken?
    ensures JsonIfOk(Ok([t]))
  {
    forall rest ensures AfterValue([t] + rest) == Some(rest) {
      assert ([t] + rest)[1..] == rest;
    }
  }

  /** Whatever is written is one JSON value, with a comma between and only between items, and a colon after each key. */
  lemma {:induction false} WritesJson(lib: Lib, v: Value)
    ensures JsonIfOk(Encode(lib, v))
  {
    hide JsonIfOk, JoinItems, JoinMembers, Bracket, Sort;
    match v
    case Arr(items) =>
      ItemsJson(lib, items);
      ArrayJson(EncodeItems(lib, items));
    case Obj(entries) =>
      EntriesJson(lib, entries);
      var members := EncodeEntries(lib, entries);
      SortPermutes(MemberLe, members);
      PermutationMembers(Sort(MemberLe, members), members);
      ObjectJson(Sort(MemberLe, members));
    case NullValue => AtomJson(NullToken);
    case Flag(b) => AtomJson(BoolToken(b));
    case Number(f) =>
      AtomJson(NumberToken(NumberText(f)));
      FailedJson(AmbiguousNumber);
    case Text(s) => AtomJson(StringToken(Compose(lib.marks, s)));
  }

  lemma FailedJson(e: CanonError)
    ensures JsonIfOk(Err(e))
  {
  }

  lemma {:induction false} ItemsJson(lib: Lib, items: seq<Value>)
    ensures forall r | r in EncodeItems(lib, items) :: JsonIfOk(r)
  {
    hide JsonIfOk, Encode;
    if items != [] {
      WritesJson(lib, items[0]);
      ItemsJson(lib, items[1..]);
    }
  }

  lemma {:induction false} EntriesJson(lib: Lib, entries: seq<Entry>)
    ensures forall m | m in EncodeEntries(lib, entries) :: JsonIfOk(m.tokens)
  {
    hide JsonIfOk, Encode, Compose;
    if entries != [] {
      WritesJson(lib, entries[0].value);
      EntriesJson(lib, entries[1..]);
    }
  }

  /** A whole number is written exactly when it is below 2 to the 53 in magnitude; its text is its decimal digits. */
  lemma WholeExact(lib: Lib, n: int)
    ensures Encode(lib, Number(Whole(n))) ==
      if -9_007_199_254_740_992 < n < 9_007_199_254_740_992
      then Ok([NumberToken(if n < 0 then "-" + Decimal(-n) else Decimal(n))]) else Err(AmbiguousNumber)
    ensures Encode(lib, Number(NegativeZero)).Err? && Encode(lib, Number(NaN)).Err?
    ensures forall negative :: Encode(lib, Number(Infinity(negative))).Err?
  {
  }

  /** The number starts with a zero, after its sign if it has one, and goes on with other than a point. */
  ghost predicate ZeroFirst(raw: string) {
    exists sign, c, rest :: (sign == "" || sign == "-") && raw == sign + ['0', c] + rest && c != '.'
  }

  lemma LeadingZerosExact(raw: string)
    ensures LeadingZeros(raw) <==> ZeroFirst(raw)
  {
    if LeadingZeros(raw) {
      if raw[0] == '-' {
        assert raw == "-" + ['0', raw[2]] + raw[3..];
      } else {
        assert raw == "" + ['0', raw[1]] + raw[2..];
      }
    }
    if sign, c, rest :| (sign == "" || sign == "-") && raw == sign + ['0', c] + rest && c != '.' {
      assert sign == "-" ==> raw[0] == '-' && raw[1] == '0' && raw[2] == c;
      assert sign == "" ==> raw[0] == '0' && raw[1] == c;
    }
  }

  /**
   * A number in the text is accepted exactly when it is written without an exponent and without leading
   * zeros and stands for a fraction or a whole number below 2 to the 53 in magnitude, and it is that number.
   */
  lemma NumberReadExact(lib: CanonicalJson.Lib, raw: string, f: Float)
    ensures ReadNumber(lib, raw) == Some(f) <==>
      && (forall i | 0 <= i < |raw| :: raw[i] != 'e' && raw[i] != 'E') && !ZeroFirst(raw) && lib.parseFloat(raw) == Some(f)
      && (f.Fraction? || (f.Whole? && -9_007_199_254_740_992 < f.n < 9_007_199_254_740_992))
  {
    LeadingZerosExact(raw);
    hide LeadingZeros, ZeroFirst;
    assert HasExponent(raw) <==> exists i :: 0 <= i < |raw| && (raw[i] == 'e' || raw[i] == 'E');
  }

  /** A fraction is written as its shortest text. */
  lemma FractionWritten(lib: CanonicalJson.Lib, text: string)
    ensures Encode(lib, Number(Fraction(text))) == Ok([NumberToken(text)])
  {
  }
}
