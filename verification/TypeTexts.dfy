/** What the parser accepts, told of the text alone: bracket counts, commas and blanks spelt out. */
module TypeTexts {
  import opened Wrappers
  import opened TypeDefs
  import opened TypeParser
  import opened BracketDepth
  import opened TypeShapes
  import Spaces

  // ---- counting brackets ----

  function Openers(s: string): nat {
    if s == "" then 0 else Openers(s[..|s| - 1]) + if s[|s| - 1] in "<(" then 1 else 0
  }

  function Closers(s: string): nat {
    if s == "" then 0 else Closers(s[..|s| - 1]) + if s[|s| - 1] in ">)" then 1 else 0
  }

  /** As many brackets open as close before position i. */
  predicate Level(s: string, i: nat)
    requires i <= |s|
  {
    Openers(s[..i]) == Closers(s[..i])
  }

  /** As many brackets open as close, and every comma is inside some. */
  predicate Piece(s: string) {
    Level(s, |s|) && forall i | 0 <= i < |s| && s[i] == ',' :: !Level(s, i)
  }

  lemma {:induction false} NetCounts(s: string)
    ensures Net(s) == Openers(s) - Closers(s)
  {
    if s != "" {
      var front, last := s[..|s| - 1], s[|s| - 1..];
      NetCounts(front);
      assert s == front + last;
      NetConcat(front, last);
      assert last[1..] == "";
      assert last[0] in "<(" <==> last[0] == '<' || last[0] == '(';
      assert last[0] in ">)" <==> last[0] == '>' || last[0] == ')';
    }
  }

  lemma {:induction false} CommaAt(s: string, d: int, i: nat)
    requires i < |s| && s[i] == ',' && Net(s[..i]) == d
    ensures HasComma(s, d)
  {
    if i > 0 {
      assert s[..i][1..] == s[1..][..i - 1];
      CommaAt(s[1..], d - Delta(s[0]), i - 1);
    }
  }

  lemma {:induction false} CommaFound(s: string, d: int) returns (i: nat)
    requires HasComma(s, d)
    ensures i < |s| && s[i] == ',' && Net(s[..i]) == d
  {
    if s[0] == ',' && d == 0 {
      i := 0;
      assert s[..0] == "";
    } else {
      var j := CommaFound(s[1..], d - Delta(s[0]));
      i := j + 1;
      assert s[..i][1..] == s[1..][..j];
    }
  }

  /** A piece is what the splitter leaves whole. */
  lemma PieceExact(s: string)
    ensures Piece(s) <==> Net(s) == 0 && !HasComma(s, 0)
  {
    assert s[..|s|] == s;
    NetCounts(s);
    if HasComma(s, 0) {
      var i := CommaFound(s, 0);
      NetCounts(s[..i]);
    } else {
      forall i | 0 <= i < |s| && s[i] == ',' ensures !Level(s, i) {
        NetCounts(s[..i]);
        if Level(s, i) {
          CommaAt(s, 0, i);
        }
      }
    }
  }

  // ---- blanks ----

  predicate Blank(s: string) {
    forall i | 0 <= i < |s| :: s[i] == ' ' || s[i] == '\t'
  }

  /** t is s without the blanks around it. */
  ghost predicate Core(s: string, t: string) {
    && (t == "" || (!Blank(t[..1]) && !Blank(t[|t| - 1..])))
    && exists left, right :: Blank(left) && Blank(right) && s == left + t + right
  }

  lemma {:induction false} SkipLeft(left: string, s: string)
    requires Blank(left)
    ensures TrimLeft(left + s) == TrimLeft(s)
  {
    if left == "" {
      assert left + s == s;
    } else {
      SkipLeft(left[1..], s);
      assert (left + s)[1..] == left[1..] + s;
    }
  }

  lemma {:induction false} SkipRight(s: string, right: string)
    requires Blank(right)
    ensures TrimRight(s + right) == TrimRight(s)
  {
    if right == "" {
      assert s + right == s;
    } else {
      SkipRight(s, right[..|right| - 1]);
      assert (s + right)[..|s + right| - 1] == s + right[..|right| - 1];
    }
  }

  lemma CoreExact(s: string, t: string)
    ensures Core(s, t) <==> t == Trim(s)
  {
    var l, r := TrimParts(s);
    TrimTrims(s);
    assert Core(s, Trim(s)) by {
      assert Blank(l) && Blank(r) && s == l + Trim(s) + r;
    }
    if Core(s, t) {
      var left, right :| Blank(left) && Blank(right) && s == left + t + right;
      assert left + t + right == left + (t + right);
      SkipLeft(left, t + right);
      if t == "" {
        assert t + right == right + "";
        SkipLeft(right, "");
      } else {
        assert (t + right)[0] == t[0] && t[..1][0] == t[0];
        assert t[|t| - 1..][0] == t[|t| - 1];
        SkipRight(t, right);
      }
    }
  }

  // ---- splitting ----

  /** x is the pieces joined by single commas. */
  ghost predicate Pieces(x: string, raws: seq<string>) {
    raws != [] && x == Join(raws, ",") && forall r <- raws :: Piece(r)
  }

  /** The pieces without their blanks; an empty last one does not count. */
  ghost predicate Cores(raws: seq<string>, parts: seq<string>)
    requires raws != []
  {
    && (forall i | 0 <= i < |parts| && i < |raws| :: Core(raws[i], parts[i]))
    && if Blank(raws[|raws| - 1]) then |parts| == |raws| - 1 else |parts| == |raws|
  }

  lemma BlankCore(s: string)
    ensures Blank(s) <==> Trim(s) == ""
  {
    var left, right := TrimParts(s);
    if Blank(s) {
      assert s + "" == s;
      SkipLeft(s, "");
    }
  }

  /** The pieces of an accepted text before they are trimmed. */
  lemma {:induction false} RawPieces(x: string) returns (raws: seq<string>)
    requires Split(x).Ok?
    ensures Pieces(x, raws) && Cores(raws, Split(x).value)
    decreases |x|
  {
    hide Core, Piece, Blank, Trim;
    var i := CommaIndex(x, 0);
    CommaIndexProfile(x, 0);
    PieceExact(x[..i]);
    CoreExact(x[..i], Trim(x[..i]));
    if i == |x| {
      assert x[..i] == x;
      BlankCore(x);
      raws := [x];
    } else {
      var rest := RawPieces(x[i + 1..]);
      raws := [x[..i]] + rest;
      assert raws[1..] == rest;
      assert x == x[..i] + "," + x[i + 1..];
      CoresFirst(x[..i], Trim(x[..i]), rest, Split(x[i + 1..]).value);
    }
  }

  lemma CoresFirst(raw: string, core: string, raws: seq<string>, parts: seq<string>)
    requires raws != [] && Core(raw, core)
    ensures Cores([raw] + raws, [core] + parts) <==> Cores(raws, parts)
  {
    hide Core, Blank;
    var all, cores := [raw] + raws, [core] + parts;
    assert all[|all| - 1] == raws[|raws| - 1];
    if Cores(all, cores) {
      forall i | 0 <= i < |parts| && i < |raws| ensures Core(raws[i], parts[i]) {
        assert Core(all[i + 1], cores[i + 1]);
      }
    }
  }

  lemma SplitLast(raw: string)
    requires Piece(raw)
    ensures Split(raw) == Ok(if Trim(raw) == "" then [] else [Trim(raw)])
  {
    hide Piece, Trim;
    PieceExact(raw);
    CommaIndexSkips(raw, "", 0);
    assert raw + "" == raw;
  }

  lemma SplitAt(x: string, head: string, rest: string)
    requires CommaIndex(x, 0) == |head| < |x| && x[..|head|] == head && x[|head| + 1..] == rest
    requires Split(rest).Ok?
    ensures Split(x) == Ok([Trim(head)] + Split(rest).value)
  {
    hide CommaIndex, Trim, Net;
  }

  lemma SplitHead(raw: string, rest: string)
    requires Piece(raw) && Split(rest).Ok?
    ensures Split(raw + ("," + rest)) == Ok([Trim(raw)] + Split(rest).value)
  {
    hide Piece, Trim, CommaIndex, Net, Split;
    var x := raw + ("," + rest);
    PieceExact(raw);
    CommaIndexSkips(raw, "," + rest, 0);
    CommaFirst(rest);
    SplitAt(x, raw, rest);
  }

  lemma {:induction false} SplitRaws(raws: seq<string>, parts: seq<string>)
    requires raws != [] && Cores(raws, parts) && forall r <- raws :: Piece(r)
    ensures Split(Join(raws, ",")) == Ok(parts)
    decreases |raws|
  {
    hide Core, Piece, Blank, Trim, Split;
    var first := raws[0];
    if |raws| == 1 {
      SplitLast(first);
      LastCore(first, parts);
    } else {
      assert Join(raws, ",") == first + ("," + Join(raws[1..], ","));
      assert raws == [first] + raws[1..];
      FirstCore(first, raws, parts);
      assert parts == [parts[0]] + parts[1..];
      CoresFirst(first, parts[0], raws[1..], parts[1..]);
      SplitRaws(raws[1..], parts[1..]);
      SplitHead(first, Join(raws[1..], ","));
    }
  }

  lemma FirstCore(first: string, raws: seq<string>, parts: seq<string>)
    requires |raws| >= 2 && raws[0] == first && Cores(raws, parts)
    ensures parts != [] && Core(first, parts[0]) && parts[0] == Trim(first)
  {
    hide Core, Blank, Trim;
    assert Core(raws[0], parts[0]);
    CoreExact(first, parts[0]);
  }

  lemma CommaFirst(rest: string)
    ensures CommaIndex("," + rest, 0) == 0
  {
  }

  lemma LastCore(raw: string, parts: seq<string>)
    requires Cores([raw], parts)
    ensures parts == if Trim(raw) == "" then [] else [Trim(raw)]
  {
    BlankCore(raw);
    if parts != [] {
      CoreExact(raw, parts[0]);
    }
  }

  /** A text splits into these parts exactly when it is pieces joined by commas, and the parts are their cores. */
  lemma SplitExact(x: string, parts: seq<string>)
    ensures Split(x) == Ok(parts) <==> exists raws :: Pieces(x, raws) && Cores(raws, parts)
  {
    hide Split, Cores, Piece;
    if Split(x) == Ok(parts) {
      var raws := RawPieces(x);
    } else if raws :| Pieces(x, raws) && Cores(raws, parts) {
      SplitRaws(raws, parts);
    }
  }

  /** A text splits at all exactly when as many brackets open as close. */
  lemma {:induction false} SplitsExact(x: string)
    ensures Split(x).Ok? <==> Openers(x) == Closers(x)
  {
    NetCounts(x);
    if Split(x).Ok? {
      SplitPieces(x);
    } else {
      UnbalancedNet(x);
    }
  }

  lemma {:induction false} UnbalancedNet(x: string)
    requires Split(x).Err?
    ensures Net(x) != 0
    decreases |x|
  {
    hide Net;
    var i := CommaIndex(x, 0);
    if i < |x| {
      CommaIndexProfile(x, 0);
      UnbalancedNet(x[i + 1..]);
      CutProfile(x[..i], x[i + 1..]);
      assert x == x[..i] + ("," + x[i + 1..]);
    }
  }

  // ---- pairs ----

  /** x is a comma b, perhaps followed by a comma and blanks; p and q are a and b without their blanks. */
  ghost predicate IsPair(x: string, a: string, b: string, p: string, q: string) {
    && Piece(a) && Piece(b) && Core(a, p) && Core(b, q)
    && (x == a + "," + b || exists tail :: Blank(tail) && x == a + "," + b + "," + tail)
  }

  /** The text holds two types, k and v in that order. */
  ghost predicate HoldsPair(x: string, k: TypeDef, v: TypeDef) {
    exists a, b, p, q :: IsPair(x, a, b, p, q) && ParseTypeDef(p) == Ok(k) && ParseTypeDef(q) == Ok(v)
  }

  lemma JoinTwo(a: string, b: string)
    ensures Join([a, b], ",") == a + "," + b
  {
    assert [a, b][1..] == [b];
  }

  lemma JoinThree(a: string, b: string, c: string)
    ensures Join([a, b, c], ",") == a + "," + b + "," + c
  {
    assert [a, b, c][1..] == [b, c];
    JoinTwo(b, c);
    assert a + "," + (b + "," + c) == a + "," + b + "," + c;
  }

  lemma BlankPiece(s: string)
    requires Blank(s)
    ensures Piece(s)
  {
    PlainIsFlat(s, 0);
    PieceExact(s);
  }

  lemma PairSplits(x: string, p: string, q: string)
    requires p != "" && q != ""
    ensures Split(x) == Ok([p, q]) <==> exists a, b :: IsPair(x, a, b, p, q)
  {
    hide Core, Piece, Split, Blank;
    if Split(x) == Ok([p, q]) {
      var raws := RawPieces(x);
      var a, b := raws[0], raws[1];
      if |raws| == 2 {
        assert raws == [a, b];
        JoinTwo(a, b);
      } else {
        assert raws == [a, b, raws[2]];
        JoinThree(a, b, raws[2]);
      }
      assert IsPair(x, a, b, p, q);
    } else if a, b :| IsPair(x, a, b, p, q) {
      NotBlank(b, q);
      if x == a + "," + b {
        JoinTwo(a, b);
        SplitRaws([a, b], [p, q]);
      } else {
        var tail :| Blank(tail) && x == a + "," + b + "," + tail;
        JoinThree(a, b, tail);
        BlankPiece(tail);
        SplitRaws([a, b, tail], [p, q]);
      }
    }
  }

  lemma NotBlank(s: string, t: string)
    requires Core(s, t) && t != ""
    ensures !Blank(s)
  {
    CoreExact(s, t);
    BlankCore(s);
  }

  /** Two types are read exactly from a text that holds the two: more or fewer pieces are refused. */
  lemma PairExact(x: string, k: TypeDef, v: TypeDef)
    ensures ParsePair(x) == Ok((k, v)) <==> HoldsPair(x, k, v)
  {
    hide Split, ParseTypeDef, IsPair;
    EmptyRefused();
    if ParsePair(x) == Ok((k, v)) {
      var p, q := Split(x).value[0], Split(x).value[1];
      assert Split(x).value == [p, q];
      PairSplits(x, p, q);
    } else if a, b, p, q :| IsPair(x, a, b, p, q) && ParseTypeDef(p) == Ok(k) && ParseTypeDef(q) == Ok(v) {
      PairSplits(x, p, q);
    }
  }

  lemma EmptyRefused()
    ensures ParseTypeDef("").Err?
  {
    NoWrapper("Option<", ">");
    NoWrapper("Vec<", ">");
    NoWrapper("Map<", ">");
    NoWrapper("Result<", ">");
    NoWrapper("BytesN(", ")");
    NoWrapper("(", ")");
  }

  lemma NoWrapper(prefix: string, suffix: string)
    requires prefix != ""
    ensures StripWrapper("", prefix, suffix).None?
  {
  }

  /** A map type is read from "Map<...>" exactly when two types stand between the brackets, and likewise a result type. */
  lemma PairTextExact(x: string, t: TypeDef)
    ensures ParseTypeDef("Map<" + x + ">") == Ok(t) <==> exists k, v :: HoldsPair(x, k, v) && t == MapOf(k, v)
    ensures ParseTypeDef("Result<" + x + ">") == Ok(t) <==> exists o, e :: HoldsPair(x, o, e) && t == ResultOf(o, e)
  {
    MapShape(x);
    ResultShape(x);
    hide ParseTypeDef, ParsePair, HoldsPair;
    if ParsePair(x).Ok? {
      PairExact(x, ParsePair(x).value.0, ParsePair(x).value.1);
    }
    forall k, v | HoldsPair(x, k, v) ensures ParsePair(x) == Ok((k, v)) {
      PairExact(x, k, v);
    }
  }

  // ---- tuples ----

  /** The parts read as these types, one by one. */
  ghost predicate Read(parts: seq<string>, ts: seq<TypeDef>) {
    |parts| == |ts| && forall i | 0 <= i < |ts| :: ParseTypeDef(parts[i]) == Ok(ts[i])
  }

  /** A tuple type is read from "(...)" exactly when the parts between the parentheses read as its types. */
  lemma TupleTextExact(x: string, ts: seq<TypeDef>)
    ensures ParseTypeDef("(" + x + ")") == Ok(TupleOf(ts)) <==>
      exists raws, parts :: Pieces(x, raws) && Cores(raws, parts) && Read(parts, ts)
  {
    hide Piece, Cores, Read, ParseTypeDef;
    if raws, parts :| Pieces(x, raws) && Cores(raws, parts) && Read(parts, ts) {
      SplitExact(x, parts);
      TupleReads(x, ts);
    } else if ParseTypeDef("(" + x + ")") == Ok(TupleOf(ts)) {
      TupleSplits(x);
      TupleReads(x, ts);
      SplitExact(x, Split(x).value);
    }
  }

  lemma TupleSplits(x: string)
    requires ParseTypeDef("(" + x + ")").Ok?
    ensures Split(x).Ok?
  {
    var s := "(" + x + ")";
    NotPrim(s);
    assert s[0] == '(';
    NoStrip(s, "Option<", ">");
    NoStrip(s, "Vec<", ">");
    NoStrip(s, "Map<", ">");
    NoStrip(s, "Result<", ">");
    NoStrip(s, "BytesN(", ")");
    assert StripWrapper(s, "(", ")") == Some(x);
  }

  lemma TupleReads(x: string, ts: seq<TypeDef>)
    requires Split(x).Ok?
    ensures ParseTypeDef("(" + x + ")") == Ok(TupleOf(ts)) <==> Read(Split(x).value, ts)
  {
    var parts := Split(x).value;
    SplitShrinks(x);
    TupleShape(x, parts);
    ParseAllExact(parts, |x|);
    hide ParseTypeDef, ParseAll, Split;
    if Read(parts, ts) {
      assert ParseAll(parts, |x|).value == ts;
    }
  }

  // ---- sizes ----

  predicate AllDigits(s: string) {
    forall i | 0 <= i < |s| :: '0' <= s[i] <= '9'
  }

  /** A line feed is not among the blanks the number scanner skips. */
  predicate Skipped(s: string) {
    forall i | 0 <= i < |s| :: IsScanSpace(s[i])
  }

  /** The digits of x after its leading blanks have the value n, whatever follows them. */
  ghost predicate HoldsSize(x: string, n: nat) {
    exists blanks, digits, rest ::
      && x == blanks + digits + rest && Skipped(blanks) && digits != "" && AllDigits(digits) && DigitValue(digits) == n
      && (rest == "" || !AllDigits(rest[..1]))
  }

  lemma {:induction false} SkipParts(s: string) returns (blanks: string)
    ensures s == blanks + SkipSpace(s) && Skipped(blanks)
  {
    if s != "" && IsScanSpace(s[0]) {
      var more := SkipParts(s[1..]);
      blanks := [s[0]] + more;
    } else {
      blanks := "";
    }
  }

  lemma {:induction false} DigitParts(s: string) returns (rest: string)
    ensures s == Digits(s) + rest && AllDigits(Digits(s)) && (rest == "" || !AllDigits(rest[..1]))
  {
    if s != "" && IsDigit(s[0]) {
      rest := DigitParts(s[1..]);
    } else {
      rest := s;
    }
  }

  lemma {:induction false} SkipBlanks(blanks: string, s: string)
    requires Skipped(blanks) && (s == "" || !IsScanSpace(s[0]))
    ensures SkipSpace(blanks + s) == s
  {
    if blanks == "" {
      assert blanks + s == s;
    } else {
      SkipBlanks(blanks[1..], s);
      assert (blanks + s)[1..] == blanks[1..] + s;
    }
  }

  lemma {:induction false} TakeDigits(digits: string, rest: string)
    requires AllDigits(digits) && (rest == "" || !AllDigits(rest[..1]))
    ensures Digits(digits + rest) == digits
  {
    if digits == "" {
      assert digits + rest == rest;
    } else {
      TakeDigits(digits[1..], rest);
      assert (digits + rest)[1..] == digits[1..] + rest;
    }
  }

  lemma SizeScans(x: string, n: U32)
    requires HoldsSize(x, n)
    ensures ScanU32(x) == Ok(n)
  {
    var blanks, digits, rest :| x == blanks + digits + rest && Skipped(blanks) && digits != "" && AllDigits(digits)
      && DigitValue(digits) == n && (rest == "" || !AllDigits(rest[..1]));
    hide DigitValue;
    assert x == blanks + (digits + rest);
    assert (digits + rest)[0] == digits[0];
    SkipBlanks(blanks, digits + rest);
    TakeDigits(digits, rest);
  }

  lemma ScanHolds(x: string, n: U32)
    requires ScanU32(x) == Ok(n)
    ensures HoldsSize(x, n)
  {
    var blanks := SkipParts(x);
    var rest := DigitParts(SkipSpace(x));
    hide DigitValue, SkipSpace, Digits;
    assert x == blanks + Digits(SkipSpace(x)) + rest;
  }

  /** A size is read exactly when the digits after the leading blanks stand for a number of 32 bits. */
  lemma SizeTextExact(x: string, n: U32)
    ensures ParseTypeDef("BytesN(" + x + ")") == Ok(BytesN(n)) <==> HoldsSize(x, n)
  {
    BytesNShape(x);
    hide ParseTypeDef, ScanU32, HoldsSize;
    if ScanU32(x) == Ok(n) {
      ScanHolds(x, n);
    } else if HoldsSize(x, n) {
      SizeScans(x, n);
    }
  }

  /** The number scanner skips what is white space and no line feed. */
  lemma ScanSpaceExact(c: char)
    ensures IsScanSpace(c) <==> Spaces.IsSpace(c) && c as int != 10
  {
  }
}
