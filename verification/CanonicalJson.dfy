/** Canonical JSON (internal/cmd/canonical.go) over tokens: strings and numbers are atomic. */
module CanonicalJson {
  import opened Wrappers
  import opened Sorting
  import opened TypeDefs
  import opened Nfc

  const MAX_SAFE_INTEGER := 0x1f_ffff_ffff_ffff

  /** A float64: the special values, whole numbers, and fractions named by their shortest decimal text. */
  datatype Float = NaN | Infinity(negative: bool) | NegativeZero | Whole(n: int) | Fraction(text: string)

  /** `entries` lists a map in the order its enumeration yields it. */
  datatype Value =
    | NullValue
    | Flag(b: bool)
    | Number(f: Float)
    | Text(s: string)
    | Arr(items: seq<Value>)
    | Obj(entries: seq<Entry>)

  datatype Entry = Entry(key: string, value: Value)

  datatype Token =
    | BeginObject | EndObject | BeginArray | EndArray | Comma | Colon
    | StringToken(s: string) | NumberToken(raw: string) | BoolToken(b: bool) | NullToken

  datatype CanonError = AmbiguousNumber | DuplicateKey(key: string) | Syntax

  /** Unicode categories, and the conversions between floats and text. */
  datatype Lib = Lib(marks: Marks, parseFloat: string -> Option<Float>, shortest: string -> bool)
  {
    ghost predicate Sound() {
      && marks.Sound()
      && (forall n | Safe(n) :: parseFloat(Signed(n)) == Some(Whole(n)))
      && (forall x | shortest(x) :: parseFloat(x) == Some(Fraction(x)) && !HasExponent(x) && !LeadingZeros(x))
      && (forall x | parseFloat(x).Some? && parseFloat(x).value.Fraction? :: shortest(parseFloat(x).value.text))
    }
  }

  predicate Safe(n: int) {
    -MAX_SAFE_INTEGER <= n <= MAX_SAFE_INTEGER
  }

  // ---- numbers ----

  /** validateCanonicalNumber. */
  predicate ValidNumber(f: Float) {
    match f
    case NaN => false
    case Infinity(_) => false
    case NegativeZero => false
    case Whole(n) => Safe(n)
    case Fraction(_) => true
  }

  predicate HasExponent(raw: string) {
    'e' in raw || 'E' in raw
  }

  /** The integer part starts with a zero and goes on. */
  predicate LeadingZeros(raw: string) {
    var intPart := if raw != "" && raw[0] == '-' then raw[1..] else raw;
    |intPart| > 1 && intPart[0] == '0' && intPart[1] != '.'
  }

  /** validateCanonicalNumberStr followed by the conversion. */
  function ReadNumber(lib: Lib, raw: string): Option<Float> {
    if HasExponent(raw) || LeadingZeros(raw) then None
    else
      match lib.parseFloat(raw)
      case None => None
      case Some(f) => if ValidNumber(f) then Some(f) else None
  }

  /** marshalFloat. */
  function NumberText(f: Float): string {
    match f
    case Whole(n) => Signed(n)
    case Fraction(text) => text
    case _ => ""
  }

  // ---- encoding ----

  /** An object member, its key normalised and its value encoded. */
  datatype Member = Member(key: string, tokens: Result<seq<Token>, CanonError>)

  predicate MemberLe(a: Member, b: Member) { StringLe(a.key, b.key) }
  predicate EntryLe(a: Entry, b: Entry) { StringLe(a.key, b.key) }

  function Encode(lib: Lib, v: Value): Result<seq<Token>, CanonError> {
    match v
    case NullValue => Ok([NullToken])
    case Flag(b) => Ok([BoolToken(b)])
    case Number(f) => if ValidNumber(f) then Ok([NumberToken(NumberText(f))]) else Err(AmbiguousNumber)
    case Text(s) => Ok([StringToken(Compose(lib.marks, s))])
    case Arr(items) => Bracket(BeginArray, JoinItems(EncodeItems(lib, items)), EndArray)
    case Obj(entries) => Bracket(BeginObject, JoinMembers(Sort(MemberLe, EncodeEntries(lib, entries))), EndObject)
  }

  function EncodeItems(lib: Lib, items: seq<Value>): seq<Result<seq<Token>, CanonError>> {
    if items == [] then [] else [Encode(lib, items[0])] + EncodeItems(lib, items[1..])
  }

  function EncodeEntries(lib: Lib, entries: seq<Entry>): seq<Member> {
    if entries == [] then []
    else [Member(Compose(lib.marks, entries[0].key), Encode(lib, entries[0].value))] + EncodeEntries(lib, entries[1..])
  }

  function Bracket(open: Token, body: Result<seq<Token>, CanonError>, close: Token): Result<seq<Token>, CanonError> {
    match body
    case Err(e) => Err(e)
    case Ok(ts) => Ok([open] + ts + [close])
  }

  /** Items in order with commas between; the first error wins. */
  function JoinItems(items: seq<Result<seq<Token>, CanonError>>): Result<seq<Token>, CanonError> {
    if items == [] then Ok([])
    else
      match items[0]
      case Err(e) => Err(e)
      case Ok(first) =>
        match JoinItems(items[1..])
        case Err(e) => Err(e)
        case Ok(rest) => Ok(first + (if |items| > 1 then [Comma] else []) + rest)
  }

  function JoinMembers(members: seq<Member>): Result<seq<Token>, CanonError> {
    if members == [] then Ok([])
    else
      match members[0].tokens
      case Err(e) => Err(e)
      case Ok(first) =>
        match JoinMembers(members[1..])
        case Err(e) => Err(e)
        case Ok(rest) => Ok([StringToken(members[0].key), Colon] + first + (if |members| > 1 then [Comma] else []) + rest)
  }

  // ---- the normal form ----

  /** Strings normalised, object entries in order of their normalised keys. */
  function Normal(lib: Lib, v: Value): Value {
    match v
    case Text(s) => Text(Compose(lib.marks, s))
    case Arr(items) => Arr(NormalItems(lib, items))
    case Obj(entries) => Obj(Sort(EntryLe, NormalEntries(lib, entries)))
    case _ => v
  }

  function NormalItems(lib: Lib, items: seq<Value>): (r: seq<Value>)
    ensures |r| == |items|
  {
    if items == [] then [] else [Normal(lib, items[0])] + NormalItems(lib, items[1..])
  }

  function NormalEntries(lib: Lib, entries: seq<Entry>): (r: seq<Entry>)
    ensures |r| == |entries|
  {
    if entries == [] then []
    else [Entry(Compose(lib.marks, entries[0].key), Normal(lib, entries[0].value))] + NormalEntries(lib, entries[1..])
  }

  /** Every number in v can be written. */
  predicate Writable(v: Value) {
    match v
    case Number(f) => ValidNumber(f)
    case Arr(items) => forall i | 0 <= i < |items| :: Writable(items[i])
    case Obj(entries) => forall i | 0 <= i < |entries| :: Writable(entries[i].value)
    case _ => true
  }

  /** At every level the normalised keys differ. */
  predicate DistinctKeys(lib: Lib, v: Value) {
    match v
    case Arr(items) => forall i | 0 <= i < |items| :: DistinctKeys(lib, items[i])
    case Obj(entries) =>
      && (forall i | 0 <= i < |entries| :: DistinctKeys(lib, entries[i].value))
      && (forall i, j | 0 <= i < j < |entries| :: Compose(lib.marks, entries[i].key) != Compose(lib.marks, entries[j].key))
    case _ => true
  }

  // ---- decoding ----

  /** The tokens the JSON tokenizer hands out: it checks commas and colons itself. */
  function Significant(ts: seq<Token>): seq<Token> {
    if ts == [] then [] else Visible(ts[0]) + Significant(ts[1..])
  }

  function Visible(t: Token): seq<Token> {
    if t.Comma? || t.Colon? then [] else [t]
  }

  predicate HasKey(entries: seq<Entry>, key: string) {
    exists i :: 0 <= i < |entries| && entries[i].key == key
  }

  /** decodeCanonicalValue: the value and the tokens after it. */
  function DecodeValue(lib: Lib, ts: seq<Token>): (r: Result<(Value, seq<Token>), CanonError>)
    ensures r.Ok? ==> |r.value.1| < |ts|
    decreases |ts|, 0
  {
    if ts == [] then Err(Syntax)
    else
      match ts[0]
      case BeginObject => DecodeMembers(lib, ts[1..], [])
      case BeginArray => DecodeItems(lib, ts[1..], [])
      case StringToken(s) => Ok((Text(Compose(lib.marks, s)), ts[1..]))
      case BoolToken(b) => Ok((Flag(b), ts[1..]))
      case NullToken => Ok((NullValue, ts[1..]))
      case NumberToken(raw) =>
        (match ReadNumber(lib, raw)
         case None => Err(AmbiguousNumber)
         case Some(f) => Ok((Number(f), ts[1..])))
      case _ => Err(Syntax)
  }

  /** decodeCanonicalObject, with the members read so far. */
  function DecodeMembers(lib: Lib, ts: seq<Token>, done: seq<Entry>): (r: Result<(Value, seq<Token>), CanonError>)
    ensures r.Ok? ==> |r.value.1| < |ts|
    decreases |ts|, 1
  {
    if ts == [] then Err(Syntax)
    else if ts[0].EndObject? then Ok((Obj(done), ts[1..]))
    else if !ts[0].StringToken? then Err(Syntax)
    else
      var key := Compose(lib.marks, ts[0].s);
      if HasKey(done, key) then Err(DuplicateKey(key))
      else
        match DecodeValue(lib, ts[1..])
        case Err(e) => Err(e)
        case Ok((v, rest)) => DecodeMembers(lib, rest, done + [Entry(key, v)])
  }

  /** decodeCanonicalArray, with the items read so far. */
  function DecodeItems(lib: Lib, ts: seq<Token>, done: seq<Value>): (r: Result<(Value, seq<Token>), CanonError>)
    ensures r.Ok? ==> |r.value.1| < |ts|
    decreases |ts|, 1
  {
    if ts == [] || ts[0].EndObject? then Err(Syntax)
    else if ts[0].EndArray? then Ok((Arr(done), ts[1..]))
    else
      match DecodeValue(lib, ts)
      case Err(e) => Err(e)
      case Ok((v, rest)) => DecodeItems(lib, rest, done + [v])
  }
}
