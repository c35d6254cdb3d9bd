/** What the parser makes of each printed shape: one lemma per constructor, and lists of types. */
module TypeShapes {
  import opened Wrappers
  import opened TypeDefs
  import opened TypeParser
  import opened BracketDepth

  // ---- numbers ----

  lemma {:induction false} DecimalReads(n: nat)
    ensures |Decimal(n)| > 0
    ensures forall i | 0 <= i < |Decimal(n)| :: IsDigit(Decimal(n)[i])
    ensures DigitValue(Decimal(n)) == n
  {
    if n >= 10 {
      DecimalReads(n / 10);
      assert Decimal(n)[..|Decimal(n)| - 1] == Decimal(n / 10);
    }
  }

  lemma {:induction false} DigitsOfDigits(s: string)
    requires forall i | 0 <= i < |s| :: IsDigit(s[i])
    ensures Digits(s) == s
  {
    if s != "" {
      DigitsOfDigits(s[1..]);
    }
  }

  lemma {:induction false} ScanDecimal(n: U32)
    ensures ScanU32(Decimal(n)) == Ok(n)
  {
    DecimalReads(n);
    DigitsOfDigits(Decimal(n));
    assert SkipSpace(Decimal(n)) == Decimal(n);
  }

  // ---- one lemma per printed shape ----

  lemma PrimReads(p: Prim)
    ensures PrimOf(PrimName(p)) == Some(p)
  {
  }

  lemma PrimNamePlain(p: Prim)
    ensures var s := PrimName(p);
      s != "" && s[|s| - 1] != '>' && s[|s| - 1] != ')' && !IsBlank(s[0]) && !IsBlank(s[|s| - 1])
    ensures forall i | 0 <= i < |PrimName(p)| :: IsPlain(PrimName(p)[i])
  {
  }

  lemma PrimShape(s: string)
    requires PrimOf(s).Some?
    ensures s == PrimName(PrimOf(s).value)
  {
  }

  lemma PrimAtom(p: Prim)
    ensures Atom(PrimName(p))
  {
    PrimNamePlain(p);
    PlainIsFlat(PrimName(p), 0);
  }

  lemma NoStrip(s: string, prefix: string, suffix: string)
    requires s != "" && prefix != "" && s[0] != prefix[0]
    ensures StripWrapper(s, prefix, suffix).None?
  {
  }

  lemma OptionShape(x: string)
    ensures var s := "Option<" + x + ">";
      && ParseTypeDef(s).Ok? == ParseTypeDef(x).Ok?
      && (ParseTypeDef(x).Ok? ==> ParseTypeDef(s) == Ok(OptionOf(ParseTypeDef(x).value)))
  {
    var s := "Option<" + x + ">";
    NotPrim(s);
    assert StripWrapper(s, "Option<", ">") == Some(x);
  }

  lemma VecShape(x: string)
    ensures var s := "Vec<" + x + ">";
      && ParseTypeDef(s).Ok? == ParseTypeDef(x).Ok?
      && (ParseTypeDef(x).Ok? ==> ParseTypeDef(s) == Ok(VecOf(ParseTypeDef(x).value)))
  {
    var s := "Vec<" + x + ">";
    NotPrim(s);
    assert s[0] == 'V';
    NoStrip(s, "Option<", ">");
    assert StripWrapper(s, "Vec<", ">") == Some(x);
  }

  lemma MapShape(x: string)
    ensures var s := "Map<" + x + ">";
      && ParseTypeDef(s).Ok? == ParsePair(x).Ok?
      && (ParsePair(x).Ok? ==> ParseTypeDef(s) == Ok(MapOf(ParsePair(x).value.0, ParsePair(x).value.1)))
  {
    var s := "Map<" + x + ">";
    NotPrim(s);
    assert s[0] == 'M';
    NoStrip(s, "Option<", ">");
    NoStrip(s, "Vec<", ">");
    assert StripWrapper(s, "Map<", ">") == Some(x);
  }

  lemma ResultShape(x: string)
    ensures var s := "Result<" + x + ">";
      && ParseTypeDef(s).Ok? == ParsePair(x).Ok?
      && (ParsePair(x).Ok? ==> ParseTypeDef(s) == Ok(ResultOf(ParsePair(x).value.0, ParsePair(x).value.1)))
  {
    var s := "Result<" + x + ">";
    NotPrim(s);
    assert s[0] == 'R';
    NoStrip(s, "Option<", ">");
    NoStrip(s, "Vec<", ">");
    NoStrip(s, "Map<", ">");
    assert StripWrapper(s, "Result<", ">") == Some(x);
  }

  lemma BytesNShape(x: string)
    ensures var s := "BytesN(" + x + ")";
      && ParseTypeDef(s).Ok? == ScanU32(x).Ok?
      && (ScanU32(x).Ok? ==> ParseTypeDef(s) == Ok(BytesN(ScanU32(x).value)))
  {
    var s := "BytesN(" + x + ")";
    NotPrim(s);
    assert s[0] == 'B';
    NoStrip(s, "Option<", ">");
    NoStrip(s, "Vec<", ">");
    NoStrip(s, "Map<", ">");
    NoStrip(s, "Result<", ">");
    assert StripWrapper(s, "BytesN(", ")") == Some(x);
  }

  lemma TupleShape(x: string, parts: seq<string>)
    requires Split(x) == Ok(parts)
    requires forall p <- parts :: |p| <= |x|
    ensures var s := "(" + x + ")";
      && ParseTypeDef(s).Ok? == ParseAll(parts, |x|).Ok?
      && (ParseAll(parts, |x|).Ok? ==> ParseTypeDef(s) == Ok(TupleOf(ParseAll(parts, |x|).value)))
  {
    var s := "(" + x + ")";
    NotPrim(s);
    assert s[0] == '(';
    NoStrip(s, "Option<", ">");
    NoStrip(s, "Vec<", ">");
    NoStrip(s, "Map<", ">");
    NoStrip(s, "Result<", ">");
    NoStrip(s, "BytesN(", ")");
    assert StripWrapper(s, "(", ")") == Some(x);
  }

  lemma NotPrim(s: string)
    requires s != "" && (s[|s| - 1] == '>' || s[|s| - 1] == ')')
    ensures PrimOf(s).None?
  {
    if PrimOf(s).Some? {
      PrimShape(s);
      PrimNamePlain(PrimOf(s).value);
    }
  }

  // ---- lists of types ----

  lemma {:induction false} FormatAllAt(ts: seq<TypeDef>, i: nat)
    requires i < |ts|
    ensures FormatAll(ts)[i] == FormatTypeDef(ts[i])
  {
    if i > 0 {
      FormatAllAt(ts[1..], i - 1);
    }
  }

  /** Parsing a list succeeds exactly when every piece parses, and gives the pieces' types in order. */
  lemma {:induction false} ParseAllExact(parts: seq<string>, bound: nat)
    requires forall p <- parts :: |p| <= bound
    ensures ParseAll(parts, bound).Ok? <==> forall i | 0 <= i < |parts| :: ParseTypeDef(parts[i]).Ok?
    ensures ParseAll(parts, bound).Ok? ==>
      && |ParseAll(parts, bound).value| == |parts|
      && forall i | 0 <= i < |parts| :: ParseTypeDef(parts[i]) == Ok(ParseAll(parts, bound).value[i])
    decreases |parts|
  {
    hide ParseTypeDef;
    if parts != [] {
      assert parts[0] in parts;
      ParseAllExact(parts[1..], bound);
      if ParseAll(parts, bound).Ok? {
        forall i | 0 <= i < |parts| ensures ParseTypeDef(parts[i]) == Ok(ParseAll(parts, bound).value[i]) {
          if i > 0 {
            assert parts[i] == parts[1..][i - 1];
          }
        }
      } else if ParseTypeDef(parts[0]).Ok? {
        var i :| 0 <= i < |parts[1..]| && ParseTypeDef(parts[1..][i]).Err?;
        assert parts[i + 1] == parts[1..][i];
      }
    }
  }

  lemma {:induction false} JoinProfile(parts: seq<string>, d: int)
    requires forall i | 0 <= i < |parts| :: Net(parts[i]) == 0
    ensures Net(Join(parts, ", ")) == 0
    ensures HasComma(Join(parts, ", "), d) ==>
      (|parts| >= 2 && d == 0) || exists i | 0 <= i < |parts| :: HasComma(parts[i], d)
  {
    if |parts| >= 2 {
      var rest := Join(parts[1..], ", ");
      JoinProfile(parts[1..], d);
      PairProfile(parts[0], rest, d);
      if HasComma(rest, d) && d != 0 {
        var i :| 0 <= i < |parts[1..]| && HasComma(parts[1..][i], d);
        assert HasComma(parts[i + 1], d);
      }
    }
  }

  lemma PairProfile(a: string, b: string, d: int)
    requires Net(a) == 0
    ensures Net(a + ", " + b) == Net(b)
    ensures HasComma(a + ", " + b, d) <==> HasComma(a, d) || d == 0 || HasComma(b, d)
  {
    PlainIsFlat(" ", d);
    assert Net(", ") == 0 && (HasComma(", ", d) <==> d == 0) by {
      assert ", "[1..] == " ";
    }
    NetConcat(a + ", ", b);
    NetConcat(a, ", ");
    CommaConcat(a + ", ", b, d);
    CommaConcat(a, ", ", d);
  }

  lemma NetOne(c: char, d: int)
    ensures Net([c]) == Delta(c)
    ensures c != ',' ==> !HasComma([c], d)
  {
    assert [c][1..] == "";
  }

  lemma WrapProfile(open: string, x: string, close: string, d: int)
    requires open != "" && |close| == 1 && Delta(close[0]) == -1
    requires Delta(open[|open| - 1]) == 1
    requires forall i | 0 <= i < |open| - 1 :: IsPlain(open[i])
    ensures Net(open + x + close) == Net(x)
    ensures HasComma(open + x + close, d) <==> HasComma(x, d - 1)
  {
    var word, bracket := open[..|open| - 1], [open[|open| - 1]];
    assert open == word + bracket;
    PlainIsFlat(word, d);
    NetConcat(word, bracket);
    CommaConcat(word, bracket, d);
    assert !HasComma(bracket, d) && Net(bracket) == 1;
    assert close == [close[0]];
    NetOne(close[0], d - 1 - Net(x));
    NetOne(open[|open| - 1], d);
    assert !HasComma(close, d - 1 - Net(x)) && Net(close) == -1;
    NetConcat(open + x, close);
    NetConcat(open, x);
    CommaConcat(open + x, close, d);
    CommaConcat(open, x, d);
  }
}
