/** Reading a printed type back (internal/abi/importer.go). */
module TypeParser {
  import opened Wrappers
  import opened TypeDefs

  datatype ParseError =
    | Unbalanced
    | WrongCount(got: nat)
    | BadSize
    | Unrecognised

  // ---- brackets and blanks ----

  /** What one character adds to the bracket depth; the two kinds of bracket are not told apart. */
  function Delta(c: char): int {
    if c == '<' || c == '(' then 1 else if c == '>' || c == ')' then -1 else 0
  }

  function Net(s: string): int {
    if s == "" then 0 else Delta(s[0]) + Net(s[1..])
  }

  predicate IsBlank(c: char) { c == ' ' || c == '\t' }

  function TrimLeft(s: string): (r: string)
    ensures |r| <= |s|
  {
    if s != "" && IsBlank(s[0]) then TrimLeft(s[1..]) else s
  }

  function TrimRight(s: string): (r: string)
    ensures |r| <= |s|
  {
    if s != "" && IsBlank(s[|s| - 1]) then TrimRight(s[..|s| - 1]) else s
  }

  function Trim(s: string): (r: string)
    ensures |r| <= |s|
  {
    TrimRight(TrimLeft(s))
  }

  /** Index of the first comma met at depth 0 when the scan starts at depth d, or |s|. */
  function CommaIndex(s: string, d: int): (i: nat)
    ensures i <= |s|
    ensures i < |s| ==> s[i] == ','
  {
    if s == "" then 0
    else if s[0] == ',' && d == 0 then 0
    else 1 + CommaIndex(s[1..], d + Delta(s[0]))
  }

  /** The comma-separated pieces of s, trimmed; an empty last piece is dropped. */
  function Split(s: string): Result<seq<string>, ParseError>
    decreases |s|
  {
    var i := CommaIndex(s, 0);
    if i == |s| then
      if Net(s) != 0 then Err(Unbalanced)
      else if Trim(s) == "" then Ok([]) else Ok([Trim(s)])
    else
      match Split(s[i + 1..])
      case Err(e) => Err(e)
      case Ok(rest) => Ok([Trim(s[..i])] + rest)
  }

  lemma {:induction false} SplitShrinks(s: string)
    requires Split(s).Ok?
    ensures forall p <- Split(s).value :: |p| <= |s|
    decreases |s|
  {
    var i := CommaIndex(s, 0);
    if i < |s| {
      SplitShrinks(s[i + 1..]);
    }
  }

  /** The trimming loop: two indices close in on the first and the last non-blank. */
  method TrimSpace(s: string) returns (r: string)
    ensures r == Trim(s)
  {
    var start, end := 0, |s|;
    while start < end && IsBlank(s[start])
      invariant 0 <= start <= end == |s|
      invariant TrimLeft(s[start..]) == TrimLeft(s)
    {
      assert s[start..][1..] == s[start + 1..];
      start := start + 1;
    }
    assert TrimLeft(s) == s[start..] == s[start..end];
    while end > start && IsBlank(s[end - 1])
      invariant start <= end <= |s|
      invariant TrimRight(s[start..end]) == Trim(s)
    {
      assert s[start..end][..end - start - 1] == s[start..end - 1];
      end := end - 1;
    }
    r := s[start..end];
  }

  /** What is left to do of a split: the open piece s[start..i] with its depth, and the rest s[i..]. */
  ghost function SplitOpen(open: string, depth: int, rest: string): Result<seq<string>, ParseError> {
    var i := CommaIndex(rest, depth);
    var piece := open + rest[..i];
    if i == |rest| then
      if depth + Net(rest) != 0 then Err(Unbalanced)
      else if Trim(piece) == "" then Ok([]) else Ok([Trim(piece)])
    else
      match Split(rest[i + 1..])
      case Err(e) => Err(e)
      case Ok(more) => Ok([Trim(piece)] + more)
  }

  lemma SplitOpenStart(s: string)
    ensures SplitOpen("", 0, s) == Split(s)
  {
    hide Net, CommaIndex, Trim;
    var i := CommaIndex(s, 0);
    assert "" + s[..i] == s[..i];
    if i == |s| {
      assert s[..i] == s;
    }
  }

  lemma SplitOpenStep(open: string, depth: int, c: char, rest: string)
    requires !(c == ',' && depth == 0)
    ensures SplitOpen(open, depth, [c] + rest) == SplitOpen(open + [c], depth + Delta(c), rest)
  {
    var s, i := [c] + rest, CommaIndex(rest, depth + Delta(c));
    assert s[1..] == rest;
    assert CommaIndex(s, depth) == 1 + i;
    assert open + s[..1 + i] == open + [c] + rest[..i];
    assert s[1 + i..] == rest[i..];
    if i < |rest| {
      assert s[1 + i + 1..] == rest[i + 1..];
    }
  }

  lemma SplitOpenCut(open: string, rest: string)
    ensures SplitOpen(open, 0, "," + rest) == Prepend([Trim(open)], Split(rest))
  {
    assert ("," + rest)[1..] == rest;
    assert open + ("," + rest)[..0] == open;
  }

  /** The pieces found so far, followed by what the rest of the text gives. */
  ghost function Prepend(parts: seq<string>, r: Result<seq<string>, ParseError>): Result<seq<string>, ParseError> {
    if r.Ok? then Ok(parts + r.value) else r
  }

  lemma PrependNone(r: Result<seq<string>, ParseError>)
    ensures Prepend([], r) == r
  {
    assert r.Ok? ==> [] + r.value == r.value;
  }

  lemma PrependPiece(parts: seq<string>, piece: string, r: Result<seq<string>, ParseError>)
    ensures Prepend(parts, Prepend([piece], r)) == Prepend(parts + [piece], r)
  {
    assert r.Ok? ==> parts + ([piece] + r.value) == parts + [piece] + r.value;
  }

  lemma SplitOpenEnd(open: string, depth: int)
    ensures SplitOpen(open, depth, "") ==
      if depth != 0 then Err(Unbalanced) else if Trim(open) == "" then Ok([]) else Ok([Trim(open)])
  {
    assert open + "" == open;
  }

  /** The splitting loop: one pass with the bracket depth and the start of the open piece. */
  method SplitTypes(s: string) returns (r: Result<seq<string>, ParseError>)
    ensures r == Split(s)
  {
    hide Split, SplitOpen, Trim;
    var parts: seq<string> := [];
    var depth, start := 0, 0;
    SplitOpenStart(s);
    assert s[0..0] == "" && s[0..] == s;
    PrependNone(Split(s));
    for i := 0 to |s|
      invariant 0 <= start <= i
      invariant Prepend(parts, SplitOpen(s[start..i], depth, s[i..])) == Split(s)
    {
      ghost var rest := s[i + 1..];
      assert s[i..] == [s[i]] + rest;
      if s[i] == '<' || s[i] == '(' {
        SplitOpenStep(s[start..i], depth, s[i], rest);
        assert s[start..i] + [s[i]] == s[start..i + 1];
        depth := depth + 1;
      } else if s[i] == '>' || s[i] == ')' {
        SplitOpenStep(s[start..i], depth, s[i], rest);
        assert s[start..i] + [s[i]] == s[start..i + 1];
        depth := depth - 1;
      } else if s[i] == ',' && depth == 0 {
        SplitOpenCut(s[start..i], rest);
        var piece := TrimSpace(s[start..i]);
        PrependPiece(parts, piece, Split(rest));
        parts := parts + [piece];
        start := i + 1;
        SplitOpenStart(rest);
        assert s[start..i + 1] == "";
      } else {
        SplitOpenStep(s[start..i], depth, s[i], rest);
        assert s[start..i] + [s[i]] == s[start..i + 1];
      }
    }
    assert s[start..] == s[start..|s|] && s[|s|..] == "";
    SplitOpenEnd(s[start..], depth);
    if depth != 0 {
      return Err(Unbalanced);
    }
    var last := TrimSpace(s[start..]);
    assert parts + [] == parts;
    if last != "" {
      parts := parts + [last];
    }
    r := Ok(parts);
  }

  // ---- numbers ----

  /** The characters fmt's scanner skips before a number; a newline is an error instead. */
  predicate IsScanSpace(c: char) {
    var n := c as int;
    || (0x09 <= n <= 0x0d && n != 0x0a) || n == 0x20 || n == 0x85 || n == 0xa0 || n == 0x1680
    || 0x2000 <= n <= 0x200a || n == 0x2028 || n == 0x2029 || n == 0x202f || n == 0x205f || n == 0x3000
  }

  predicate IsDigit(c: char) { '0' <= c <= '9' }

  function SkipSpace(s: string): string {
    if s != "" && IsScanSpace(s[0]) then SkipSpace(s[1..]) else s
  }

  /** The longest prefix of digits. */
  function Digits(s: string): string {
    if s != "" && IsDigit(s[0]) then [s[0]] + Digits(s[1..]) else ""
  }

  function DigitOf(c: char): nat
    requires IsDigit(c)
  {
    c as int - '0' as int
  }

  function DigitValue(s: string): nat
    requires forall i | 0 <= i < |s| :: IsDigit(s[i])
  {
    if s == "" then 0 else 10 * DigitValue(s[..|s| - 1]) + DigitOf(s[|s| - 1])
  }

  lemma DigitsAreDigits(s: string)
    ensures forall i | 0 <= i < |Digits(s)| :: IsDigit(Digits(s)[i])
  {
  }

  /** `Sscanf(s, "%d")` into a uint32: leading blanks are skipped, trailing text is ignored. */
  function ScanU32(s: string): Result<U32, ParseError> {
    var ds := Digits(SkipSpace(s));
    DigitsAreDigits(SkipSpace(s));
    if ds == "" || DigitValue(ds) >= 0x1_0000_0000 then Err(BadSize) else Ok(DigitValue(ds))
  }

  // ---- types ----

  function PrimOf(s: string): Option<Prim> {
    if s == "Val" then Some(Val)
    else if s == "Bool" then Some(Bool)
    else if s == "Void" then Some(Void)
    else if s == "Error" then Some(Error)
    else if s == "U32" then Some(U32Type)
    else if s == "I32" then Some(I32)
    else if s == "U64" then Some(U64)
    else if s == "I64" then Some(I64)
    else if s == "Timepoint" then Some(Timepoint)
    else if s == "Duration" then Some(Duration)
    else if s == "U128" then Some(U128)
    else if s == "I128" then Some(I128)
    else if s == "U256" then Some(U256)
    else if s == "I256" then Some(I256)
    else if s == "Bytes" then Some(Bytes)
    else if s == "String" then Some(String)
    else if s == "Symbol" then Some(Symbol)
    else if s == "Address" then Some(Address)
    else if s == "MuxedAddress" then Some(MuxedAddress)
    else None
  }

  function StripWrapper(s: string, prefix: string, suffix: string): (r: Option<string>)
    ensures r.Some? <==> exists inner :: s == prefix + inner + suffix
    ensures r.Some? ==> s == prefix + r.value + suffix
  {
    if |s| >= |prefix| + |suffix| && s[..|prefix|] == prefix && s[|s| - |suffix|..] == suffix then
      var inner := s[|prefix|..|s| - |suffix|];
      assert s == prefix + inner + suffix;
      Some(inner)
    else
      assert forall inner :: s == prefix + inner + suffix ==>
        s[..|prefix|] == prefix && s[|s| - |suffix|..] == suffix;
      None
  }

  function ParseTypeDef(s: string): Result<TypeDef, ParseError>
    decreases |s|, 0
  {
    if PrimOf(s).Some? then Ok(Primitive(PrimOf(s).value))
    else if StripWrapper(s, "Option<", ">").Some? then
      match ParseTypeDef(StripWrapper(s, "Option<", ">").value)
      case Ok(t) => Ok(OptionOf(t))
      case Err(e) => Err(e)
    else if StripWrapper(s, "Vec<", ">").Some? then
      match ParseTypeDef(StripWrapper(s, "Vec<", ">").value)
      case Ok(t) => Ok(VecOf(t))
      case Err(e) => Err(e)
    else if StripWrapper(s, "Map<", ">").Some? then
      match ParsePair(StripWrapper(s, "Map<", ">").value)
      case Ok(kv) => Ok(MapOf(kv.0, kv.1))
      case Err(e) => Err(e)
    else if StripWrapper(s, "Result<", ">").Some? then
      match ParsePair(StripWrapper(s, "Result<", ">").value)
      case Ok(oe) => Ok(ResultOf(oe.0, oe.1))
      case Err(e) => Err(e)
    else if StripWrapper(s, "BytesN(", ")").Some? then
      match ScanU32(StripWrapper(s, "BytesN(", ")").value)
      case Ok(n) => Ok(BytesN(n))
      case Err(e) => Err(e)
    else if StripWrapper(s, "(", ")").Some? then
      var inner := StripWrapper(s, "(", ")").value;
      match Split(inner)
      case Err(e) => Err(e)
      case Ok(parts) =>
        SplitShrinks(inner);
        match ParseAll(parts, |inner|)
        case Ok(ts) => Ok(TupleOf(ts))
        case Err(e) => Err(e)
    else if s != "" then Ok(Udt(s))
    else Err(Unrecognised)
  }

  /** Exactly two types, as in the argument of Map and Result. */
  function ParsePair(s: string): Result<(TypeDef, TypeDef), ParseError>
    decreases |s|, 1
  {
    match Split(s)
    case Err(e) => Err(e)
    case Ok(parts) =>
      if |parts| != 2 then Err(WrongCount(|parts|))
      else
        SplitShrinks(s);
        match ParseTypeDef(parts[0])
        case Err(e) => Err(e)
        case Ok(k) =>
          match ParseTypeDef(parts[1])
          case Err(e) => Err(e)
          case Ok(v) => Ok((k, v))
  }

  /** Every piece in order; the first failure wins. `bound` is any bound on the pieces' lengths. */
  function ParseAll(parts: seq<string>, bound: nat): Result<seq<TypeDef>, ParseError>
    requires forall p <- parts :: |p| <= bound
    decreases bound, 1 + |parts|
  {
    if parts == [] then Ok([])
    else
      assert parts[0] in parts;
      match ParseTypeDef(parts[0])
      case Err(e) => Err(e)
      case Ok(t) =>
        match ParseAll(parts[1..], bound)
        case Err(e) => Err(e)
        case Ok(ts) => Ok([t] + ts)
  }
}
