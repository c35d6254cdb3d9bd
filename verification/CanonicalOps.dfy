/** The encoder and the decoder of internal/cmd/canonical.go, step by step. */
module CanonicalOps {
  import opened Wrappers
  import opened Sorting
  import opened Nfc
  import opened CanonicalJson
  import opened CanonicalLaws

  /** bytes.Buffer. */
  class Buffer {
    var out: seq<Token>

    constructor ()
      ensures out == []
    {
      out := [];
    }

    method Write(ts: seq<Token>)
      modifies this
      ensures out == old(out) + ts
    {
      out := out + ts;
    }
  }

  /** The buffer holds what it held, and after it the encoding; or encoding failed. */
  predicate Wrote(before: seq<Token>, after: seq<Token>, r: Result<seq<Token>, CanonError>, err: Option<CanonError>) {
    match r
    case Ok(ts) => err == None && after == before + ts
    case Err(e) => err == Some(e) && before <= after
  }

  method EncodeCanonical(lib: Lib, buf: Buffer, v: Value) returns (err: Option<CanonError>)
    requires lib.Sound()
    modifies buf
    ensures Wrote(old(buf.out), buf.out, Encode(lib, v), err)
    decreases v, 2
  {
    match v
    case Obj(_) => err := EncodeObject(lib, buf, v);
    case Arr(_) => err := EncodeArray(lib, buf, v);
    case Text(s) =>
      EncodeString(lib, buf, s);
      err := None;
    case Number(f) =>
      if !ValidNumber(f) {
        return Some(AmbiguousNumber);
      }
      buf.Write([NumberToken(NumberText(f))]);
      err := None;
    case Flag(b) =>
      buf.Write([BoolToken(b)]);
      err := None;
    case NullValue =>
      buf.Write([NullToken]);
      err := None;
  }

  method EncodeString(lib: Lib, buf: Buffer, s: string)
    requires lib.Sound()
    modifies buf
    ensures buf.out == old(buf.out) + [StringToken(Compose(lib.marks, s))]
  {
    var normalised := NormalizeUnicodeString(lib.marks, s);
    buf.Write([StringToken(normalised)]);
  }

  lemma JoinItemsFrom(lib: Lib, items: seq<Value>, i: nat)
    requires i < |items|
    ensures JoinItems(EncodeItems(lib, items[i..])) ==
      match Encode(lib, items[i])
      case Err(e) => Err(e)
      case Ok(first) =>
        match JoinItems(EncodeItems(lib, items[i + 1..]))
        case Err(e) => Err(e)
        case Ok(rest) => Ok(first + (if i + 1 < |items| then [Comma] else []) + rest)
  {
    hide Encode;
    assert items[i..][1..] == items[i + 1..];
    EncodeItemsLength(lib, items[i..]);
    assert EncodeItems(lib, items[i..])[1..] == EncodeItems(lib, items[i + 1..]);
  }

  lemma {:induction false} EncodeItemsLength(lib: Lib, items: seq<Value>)
    ensures |EncodeItems(lib, items)| == |items|
  {
    hide Encode;
    if items != [] {
      EncodeItemsLength(lib, items[1..]);
    }
  }

  /** What is written so far, followed by what is still to come. */
  function Then(done: seq<Token>, rest: Result<seq<Token>, CanonError>): Result<seq<Token>, CanonError> {
    match rest
    case Err(e) => Err(e)
    case Ok(ts) => Ok(done + ts)
  }

  method EncodeArray(lib: Lib, buf: Buffer, v: Value) returns (err: Option<CanonError>)
    requires lib.Sound() && v.Arr?
    modifies buf
    ensures Wrote(old(buf.out), buf.out, Encode(lib, v), err)
    decreases v, 1
  {
    hide Encode, EncodeItems, JoinItems;
    EncodeArrayIs(lib, v.items);
    buf.Write([BeginArray]);
    err := EncodeItemList(lib, buf, v.items, v);
    if err.None? {
      buf.Write([EndArray]);
    }
  }

  /** The items of v with commas between. */
  method EncodeItemList(lib: Lib, buf: Buffer, arr: seq<Value>, ghost v: Value) returns (err: Option<CanonError>)
    requires lib.Sound() && v.Arr? && v.items == arr
    modifies buf
    ensures Wrote(old(buf.out), buf.out, JoinItems(EncodeItems(lib, arr)), err)
    decreases v, 0
  {
    hide Encode, EncodeItems, JoinItems;
    ghost var done: seq<Token> := [];
    ghost var all := JoinItems(EncodeItems(lib, arr));
    assert arr[0..] == arr;
    assert all.Ok? ==> [] + all.value == all.value;
    for i := 0 to |arr|
      invariant buf.out == old(buf.out) + done
      invariant all == Then(Separated(done, i, |arr|), JoinItems(EncodeItems(lib, arr[i..])))
    {
      if i > 0 {
        buf.Write([Comma]);
        done := done + [Comma];
      }
      ItemStep(lib, arr, i, done, all);
      err := EncodeCanonical(lib, buf, arr[i]);
      if err.Some? {
        return;
      }
      done := done + Encode(lib, arr[i]).value;
    }
    NothingLeft(lib, arr);
    err := None;
  }

  /** Writing one item moves it from what is to come to what is done. */
  lemma ItemStep(lib: Lib, items: seq<Value>, i: nat, done: seq<Token>, all: Result<seq<Token>, CanonError>)
    requires i < |items| && all == Then(done, JoinItems(EncodeItems(lib, items[i..])))
    ensures match Encode(lib, items[i])
      case Err(e) => all == Err(e)
      case Ok(first) =>
        all == Then(Separated(done + first, i + 1, |items|), JoinItems(EncodeItems(lib, items[i + 1..])))
  {
    hide Encode, EncodeItems, JoinItems;
    JoinItemsFrom(lib, items, i);
    if Encode(lib, items[i]).Ok? {
      ThenStep(done, Encode(lib, items[i]).value, i + 1 < |items|, JoinItems(EncodeItems(lib, items[i + 1..])));
    }
  }

  lemma NothingLeft(lib: Lib, items: seq<Value>)
    ensures JoinItems(EncodeItems(lib, items[|items|..])) == Ok([])
  {
  }

  /** Writing one element moves it from what is to come to what is done. */
  lemma ThenStep(done: seq<Token>, first: seq<Token>, more: bool, rest: Result<seq<Token>, CanonError>)
    ensures var comma := if more then [Comma] else [];
      rest.Ok? ==> done + (first + comma + rest.value) == (if more then done + first + [Comma] else done + first) + rest.value
  {
  }

  /** Between two items the comma is already counted. */
  function Separated(done: seq<Token>, i: nat, n: nat): seq<Token> {
    if 0 < i < n then done + [Comma] else done
  }

  lemma EncodeArrayIs(lib: Lib, items: seq<Value>)
    ensures Encode(lib, Arr(items)) == Bracket(BeginArray, JoinItems(EncodeItems(lib, items)), EndArray)
  {
  }

  /** The entries with normalised keys, as encodeObject pairs them up. */
  function Pairs(lib: Lib, entries: seq<Entry>): (r: seq<Entry>)
    ensures |r| == |entries|
    ensures forall i | 0 <= i < |r| :: r[i] == Entry(Compose(lib.marks, entries[i].key), entries[i].value)
  {
    if entries == [] then []
    else [Entry(Compose(lib.marks, entries[0].key), entries[0].value)] + Pairs(lib, entries[1..])
  }

  lemma {:induction false} PairsEncode(lib: Lib, entries: seq<Entry>)
    requires lib.Sound()
    ensures EncodeEntries(lib, Pairs(lib, entries)) == EncodeEntries(lib, entries)
    ensures NormalKeys(lib, Pairs(lib, entries))
  {
    hide Encode, Compose;
    if entries != [] {
      ComposeIdempotent(lib.marks, entries[0].key);
      PairsEncode(lib, entries[1..]);
      assert Pairs(lib, entries)[1..] == Pairs(lib, entries[1..]);
    }
  }

  lemma EncodeObjectIs(lib: Lib, entries: seq<Entry>)
    requires lib.Sound()
    ensures var sorted := Sort(EntryLe, Pairs(lib, entries));
      Encode(lib, Obj(entries)) == Bracket(BeginObject, JoinMembers(EncodeEntries(lib, sorted)), EndObject) && NormalKeys(lib, sorted)
  {
    hide Compose, Sort, EntryLe, MemberLe, NormalKeys;
    PairsEncode(lib, entries);
    SortEncodes(lib, Pairs(lib, entries));
  }

  lemma JoinMembersFrom(lib: Lib, entries: seq<Entry>, i: nat)
    requires i < |entries|
    ensures JoinMembers(EncodeEntries(lib, entries[i..])) ==
      match Encode(lib, entries[i].value)
      case Err(e) => Err(e)
      case Ok(first) =>
        match JoinMembers(EncodeEntries(lib, entries[i + 1..]))
        case Err(e) => Err(e)
        case Ok(rest) =>
          Ok([StringToken(Compose(lib.marks, entries[i].key)), Colon] + first + (if i + 1 < |entries| then [Comma] else []) + rest)
  {
    hide Encode, Compose;
    assert entries[i..][1..] == entries[i + 1..];
    EncodeEntriesLength(lib, entries[i..]);
    assert EncodeEntries(lib, entries[i..])[1..] == EncodeEntries(lib, entries[i + 1..]);
  }

  lemma {:induction false} EncodeEntriesLength(lib: Lib, entries: seq<Entry>)
    ensures |EncodeEntries(lib, entries)| == |entries|
  {
    hide Encode, Compose;
    if entries != [] {
      EncodeEntriesLength(lib, entries[1..]);
    }
  }

  /** Writing one member moves it from what is to come to what is done. */
  lemma MemberStep(lib: Lib, entries: seq<Entry>, i: nat, done: seq<Token>, all: Result<seq<Token>, CanonError>)
    requires i < |entries| && all == Then(done, JoinMembers(EncodeEntries(lib, entries[i..])))
    ensures match Encode(lib, entries[i].value)
      case Err(e) => all == Err(e)
      case Ok(first) =>
        var head := [StringToken(Compose(lib.marks, entries[i].key)), Colon];
        all == Then(Separated(done + (head + first), i + 1, |entries|), JoinMembers(EncodeEntries(lib, entries[i + 1..])))
  {
    hide Encode, EncodeEntries, JoinMembers, Compose;
    JoinMembersFrom(lib, entries, i);
    if Encode(lib, entries[i].value).Ok? {
      var head := [StringToken(Compose(lib.marks, entries[i].key)), Colon];
      ThenStep(done, head + Encode(lib, entries[i].value).value, i + 1 < |entries|, JoinMembers(EncodeEntries(lib, entries[i + 1..])));
    }
  }

  lemma NoneLeft(lib: Lib, entries: seq<Entry>)
    ensures JoinMembers(EncodeEntries(lib, entries[|entries|..])) == Ok([])
  {
  }

  /** A sorted pair holds one of the object's values. */
  lemma FromObject(lib: Lib, entries: seq<Entry>, i: nat) returns (k: nat)
    requires i < |Sort(EntryLe, Pairs(lib, entries))|
    ensures k < |entries| && entries[k].value == Sort(EntryLe, Pairs(lib, entries))[i].value
  {
    hide Compose, Sort;
    SortPermutes(EntryLe, Pairs(lib, entries));
    PermutationMembers(Sort(EntryLe, Pairs(lib, entries)), Pairs(lib, entries));
    var e := Sort(EntryLe, Pairs(lib, entries))[i];
    assert e in Pairs(lib, entries);
    k :| 0 <= k < |entries| && Pairs(lib, entries)[k] == e;
  }

  method MakePairs(lib: Lib, entries: seq<Entry>) returns (pairs: seq<Entry>)
    requires lib.Sound()
    ensures pairs == Pairs(lib, entries)
  {
    hide Compose;
    pairs := [];
    for i := 0 to |entries|
      invariant |pairs| == i
      invariant forall k | 0 <= k < i :: pairs[k] == Entry(Compose(lib.marks, entries[k].key), entries[k].value)
    {
      var norm := NormalizeUnicodeString(lib.marks, entries[i].key);
      pairs := pairs + [Entry(norm, entries[i].value)];
    }
  }

  /** The key, the colon and the value. */
  method EncodeMember(lib: Lib, buf: Buffer, e: Entry) returns (err: Option<CanonError>)
    requires lib.Sound()
    modifies buf
    ensures var head := [StringToken(Compose(lib.marks, e.key)), Colon];
      Wrote(old(buf.out), buf.out, Then(head, Encode(lib, e.value)), err)
    decreases e.value, 3
  {
    hide Encode, Compose;
    EncodeString(lib, buf, e.key);
    buf.Write([Colon]);
    assert buf.out == old(buf.out) + [StringToken(Compose(lib.marks, e.key)), Colon];
    err := EncodeCanonical(lib, buf, e.value);
  }

  method EncodeObject(lib: Lib, buf: Buffer, v: Value) returns (err: Option<CanonError>)
    requires lib.Sound() && v.Obj?
    modifies buf
    ensures Wrote(old(buf.out), buf.out, Encode(lib, v), err)
    decreases v, 1
  {
    hide Encode, EncodeEntries, JoinMembers, Sort, Pairs, NormalKeys;
    EncodeObjectIs(lib, v.entries);
    buf.Write([BeginObject]);
    var pairs := MakePairs(lib, v.entries);
    pairs := Sort(EntryLe, pairs);
    SmallerValues(lib, v);
    err := EncodeMembers(lib, buf, pairs, v);
    if err.None? {
      buf.Write([EndObject]);
    }
  }

  lemma SmallerValues(lib: Lib, v: Value)
    requires v.Obj?
    ensures forall e | e in Sort(EntryLe, Pairs(lib, v.entries)) :: e.value < v
  {
    hide Compose, Sort, Pairs;
    var sorted := Sort(EntryLe, Pairs(lib, v.entries));
    forall e | e in sorted ensures e.value < v {
      var i :| 0 <= i < |sorted| && sorted[i] == e;
      var k := FromObject(lib, v.entries, i);
    }
  }

  /** The sorted members of v with commas between. */
  method EncodeMembers(lib: Lib, buf: Buffer, pairs: seq<Entry>, ghost v: Value) returns (err: Option<CanonError>)
    requires lib.Sound() && forall e | e in pairs :: e.value < v
    modifies buf
    ensures Wrote(old(buf.out), buf.out, JoinMembers(EncodeEntries(lib, pairs)), err)
    decreases v, 0
  {
    hide Encode, EncodeEntries, JoinMembers, Compose;
    ghost var done: seq<Token> := [];
    ghost var all := JoinMembers(EncodeEntries(lib, pairs));
    assert pairs[0..] == pairs;
    assert all.Ok? ==> [] + all.value == all.value;
    for i := 0 to |pairs|
      invariant buf.out == old(buf.out) + done
      invariant all == Then(Separated(done, i, |pairs|), JoinMembers(EncodeEntries(lib, pairs[i..])))
    {
      if i > 0 {
        buf.Write([Comma]);
        done := done + [Comma];
      }
      MemberStep(lib, pairs, i, done, all);
      err := EncodeMember(lib, buf, pairs[i]);
      if err.Some? {
        return;
      }
      done := done + Then([StringToken(Compose(lib.marks, pairs[i].key)), Colon], Encode(lib, pairs[i].value)).value;
    }
    NoneLeft(lib, pairs);
    err := None;
  }

  method CanonicalJSON(lib: Lib, v: Value) returns (r: Result<seq<Token>, CanonError>)
    requires lib.Sound()
    ensures r == Encode(lib, v)
  {
    hide Encode;
    var buf := new Buffer();
    var err := EncodeCanonical(lib, buf, v);
    if err.Some? {
      return Err(err.value);
    }
    ghost var spec := Encode(lib, v);
    assert spec.Ok? ==> [] + spec.value == spec.value;
    r := Ok(buf.out);
  }

  /** json.Decoder, handing out significant tokens. */
  class Decoder {
    var tokens: seq<Token>

    constructor (ts: seq<Token>)
      ensures tokens == ts
    {
      tokens := ts;
    }

    method NextToken() returns (tok: Option<Token>)
      modifies this
      ensures old(tokens) == [] ==> tok == None && tokens == []
      ensures old(tokens) != [] ==> tok == Some(old(tokens)[0]) && tokens == old(tokens)[1..]
    {
      if tokens == [] {
        return None;
      }
      tok := Some(tokens[0]);
      tokens := tokens[1..];
    }

    method More() returns (more: bool)
      ensures more == (tokens != [] && !tokens[0].EndArray? && !tokens[0].EndObject?)
    {
      more := tokens != [] && !tokens[0].EndArray? && !tokens[0].EndObject?;
    }
  }

  /** The tokens left over are those the function leaves, or reading failed alike. */
  predicate Took(left: seq<Token>, spec: Result<(Value, seq<Token>), CanonError>, r: Result<Value, CanonError>) {
    match spec
    case Ok((v, rest)) => r == Ok(v) && left == rest
    case Err(e) => r == Err(e)
  }

  method DecodeCanonicalValue(lib: Lib, dec: Decoder) returns (r: Result<Value, CanonError>)
    requires lib.Sound()
    modifies dec
    ensures Took(dec.tokens, DecodeValue(lib, old(dec.tokens)), r)
    decreases |dec.tokens|, 0
  {
    hide Compose, ReadNumber, DecodeMembers, DecodeItems;
    var tok := dec.NextToken();
    match tok
    case None => r := Err(Syntax);
    case Some(BeginObject) => r := DecodeCanonicalObject(lib, dec);
    case Some(BeginArray) => r := DecodeCanonicalArray(lib, dec);
    case Some(NumberToken(raw)) =>
      var f := ReadNumber(lib, raw);
      r := if f.Some? then Ok(Number(f.value)) else Err(AmbiguousNumber);
    case Some(StringToken(s)) =>
      var normalised := NormalizeUnicodeString(lib.marks, s);
      r := Ok(Text(normalised));
    case Some(BoolToken(b)) => r := Ok(Flag(b));
    case Some(NullToken) => r := Ok(NullValue);
    case Some(_) => r := Err(Syntax);
  }

  method DecodeCanonicalObject(lib: Lib, dec: Decoder) returns (r: Result<Value, CanonError>)
    requires lib.Sound()
    modifies dec
    ensures Took(dec.tokens, DecodeMembers(lib, old(dec.tokens), []), r)
    decreases |dec.tokens|, 1
  {
    hide Compose, DecodeValue;
    var seen: set<string> := {};
    var result: seq<Entry> := [];
    while true
      invariant |dec.tokens| <= |old(dec.tokens)|
      invariant DecodeMembers(lib, old(dec.tokens), []) == DecodeMembers(lib, dec.tokens, result)
      invariant forall k :: k in seen <==> HasKey(result, k)
      decreases |dec.tokens|
    {
      var tok := dec.NextToken();
      if tok.None? || !(tok.value.EndObject? || tok.value.StringToken?) {
        return Err(Syntax);
      }
      if tok.value.EndObject? {
        return Ok(Obj(result));
      }
      var normKey := NormalizeUnicodeString(lib.marks, tok.value.s);
      if normKey in seen {
        return Err(DuplicateKey(normKey));
      }
      seen := seen + {normKey};
      var val := DecodeCanonicalValue(lib, dec);
      if val.Err? {
        return Err(val.error);
      }
      HasKeyGrows(result, Entry(normKey, val.value));
      result := result + [Entry(normKey, val.value)];
    }
  }

  lemma HasKeyGrows(entries: seq<Entry>, e: Entry)
    ensures forall k :: HasKey(entries + [e], k) <==> HasKey(entries, k) || k == e.key
  {
    forall k ensures HasKey(entries + [e], k) <==> HasKey(entries, k) || k == e.key {
      assert (entries + [e])[|entries|] == e;
      if HasKey(entries, k) {
        var i :| 0 <= i < |entries| && entries[i].key == k;
        assert (entries + [e])[i].key == k;
      }
    }
  }

  method DecodeCanonicalArray(lib: Lib, dec: Decoder) returns (r: Result<Value, CanonError>)
    requires lib.Sound()
    modifies dec
    ensures Took(dec.tokens, DecodeItems(lib, old(dec.tokens), []), r)
    decreases |dec.tokens|, 1
  {
    hide DecodeValue;
    var arr: seq<Value> := [];
    var more := dec.More();
    while more
      invariant |dec.tokens| <= |old(dec.tokens)|
      invariant more == (dec.tokens != [] && !dec.tokens[0].EndArray? && !dec.tokens[0].EndObject?)
      invariant DecodeItems(lib, old(dec.tokens), []) == DecodeItems(lib, dec.tokens, arr)
      decreases |dec.tokens|
    {
      var val := DecodeCanonicalValue(lib, dec);
      if val.Err? {
        return Err(val.error);
      }
      arr := arr + [val.value];
      more := dec.More();
    }
    var close := dec.NextToken();
    if close.None? || close.value.EndObject? {
      return Err(Syntax);
    }
    r := Ok(Arr(arr));
  }
}
