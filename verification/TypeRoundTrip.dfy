/** Printing and parsing of type strings undo each other, exactly on the stable types. */
module TypeRoundTrip {
  import opened Wrappers
  import opened TypeDefs
  import opened TypeParser
  import opened BracketDepth
  import opened TypeShapes

  // ---- printing a parsed string keeps its bracket profile ----

  /** f can stand wherever s stood: balanced if s was, trimmed if s was, and no comma at a new depth. */
  ghost predicate Inherits(f: string, s: string) {
    && f != ""
    && (Net(s) == 0 ==> Net(f) == 0)
    && (Trimmed(s) ==> Trimmed(f))
    && forall d :: HasComma(f, d) ==> HasComma(s, d)
  }

  lemma WrapInherits(open: string, f: string, x: string, close: string)
    requires open != "" && |close| == 1 && Delta(close[0]) == -1
    requires Delta(open[|open| - 1]) == 1 && !IsBlank(open[0])
    requires forall i | 0 <= i < |open| - 1 :: IsPlain(open[i])
    requires BodyInherits(f, x)
    ensures Inherits(open + f + close, open + x + close)
  {
    forall d ensures HasComma(open + f + close, d) ==> HasComma(open + x + close, d) {
      WrapProfile(open, f, close, d);
      WrapProfile(open, x, close, d);
    }
    WrapProfile(open, f, close, 0);
    WrapProfile(open, x, close, 0);
  }

  /** f is the printed form of what the argument text x parses to. */
  ghost predicate BodyInherits(f: string, x: string) {
    && (Net(x) == 0 ==> Net(f) == 0)
    && forall d :: HasComma(f, d) ==> HasComma(x, d)
  }

  lemma {:induction false} PrintingInherits(s: string)
    requires ParseTypeDef(s).Ok?
    ensures Inherits(FormatTypeDef(ParseTypeDef(s).value), s)
    decreases |s|, 2
  {
    if PrimOf(s).Some? {
      PrimShape(s);
      PrimAtom(PrimOf(s).value);
    } else if StripWrapper(s, "Option<", ">").Some? {
      OptionInherits(StripWrapper(s, "Option<", ">").value);
    } else if StripWrapper(s, "Vec<", ">").Some? {
      VecInherits(StripWrapper(s, "Vec<", ">").value);
    } else if StripWrapper(s, "Map<", ">").Some? {
      MapInherits(StripWrapper(s, "Map<", ">").value);
    } else if StripWrapper(s, "Result<", ">").Some? {
      ResultInherits(StripWrapper(s, "Result<", ">").value);
    } else if StripWrapper(s, "BytesN(", ")").Some? {
      BytesNInherits(StripWrapper(s, "BytesN(", ")").value);
    } else if StripWrapper(s, "(", ")").Some? {
      TupleInherits(StripWrapper(s, "(", ")").value);
    }
  }

  lemma {:induction false} OptionInherits(x: string)
    requires ParseTypeDef("Option<" + x + ">").Ok?
    ensures var s := "Option<" + x + ">"; Inherits(FormatTypeDef(ParseTypeDef(s).value), s)
    decreases |x|, 3
  {
    hide ParseTypeDef, Net, HasComma;
    OptionShape(x);
    PrintingInherits(x);
    WrapInherits("Option<", FormatTypeDef(ParseTypeDef(x).value), x, ">");
  }

  lemma {:induction false} VecInherits(x: string)
    requires ParseTypeDef("Vec<" + x + ">").Ok?
    ensures var s := "Vec<" + x + ">"; Inherits(FormatTypeDef(ParseTypeDef(s).value), s)
    decreases |x|, 3
  {
    hide ParseTypeDef, Net, HasComma;
    VecShape(x);
    PrintingInherits(x);
    WrapInherits("Vec<", FormatTypeDef(ParseTypeDef(x).value), x, ">");
  }

  lemma {:induction false} MapInherits(x: string)
    requires ParseTypeDef("Map<" + x + ">").Ok?
    ensures var s := "Map<" + x + ">"; Inherits(FormatTypeDef(ParseTypeDef(s).value), s)
    decreases |x|, 4
  {
    hide ParseTypeDef, ParsePair, Net, HasComma;
    MapShape(x);
    PairInherits(x);
    WrapInherits("Map<", PairText(x), x, ">");
  }

  lemma {:induction false} ResultInherits(x: string)
    requires ParseTypeDef("Result<" + x + ">").Ok?
    ensures var s := "Result<" + x + ">"; Inherits(FormatTypeDef(ParseTypeDef(s).value), s)
    decreases |x|, 4
  {
    hide ParseTypeDef, ParsePair, Net, HasComma;
    ResultShape(x);
    PairInherits(x);
    WrapInherits("Result<", PairText(x), x, ">");
  }

  lemma BytesNInherits(x: string)
    requires ParseTypeDef("BytesN(" + x + ")").Ok?
    ensures var s := "BytesN(" + x + ")"; Inherits(FormatTypeDef(ParseTypeDef(s).value), s)
  {
    hide ParseTypeDef, ScanU32, Decimal, Net, HasComma;
    BytesNShape(x);
    DecimalInherits(ScanU32(x).value, x);
    WrapInherits("BytesN(", Decimal(ScanU32(x).value), x, ")");
  }

  lemma {:induction false} TupleInherits(x: string)
    requires ParseTypeDef("(" + x + ")").Ok?
    ensures var s := "(" + x + ")"; Inherits(FormatTypeDef(ParseTypeDef(s).value), s)
    decreases |x|, 5
  {
    hide ParseTypeDef, ParseAll, Split, Net, HasComma, Join;
    TupleSplits(x);
    TupleShape(x, Split(x).value);
    TupleTextInherits(x);
    WrapInherits("(", TupleText(x), x, ")");
  }

  lemma TupleSplits(x: string)
    requires ParseTypeDef("(" + x + ")").Ok?
    ensures Split(x).Ok?
    ensures forall p <- Split(x).value :: |p| <= |x|
  {
    var s := "(" + x + ")";
    NotPrim(s);
    assert s[0] == '(';
    NoStrip(s, "Option<", ">");
    NoStrip(s, "Vec<", ">");
    NoStrip(s, "Map<", ">");
    NoStrip(s, "Result<", ">");
    NoStrip(s, "BytesN(", ")");
    assert StripWrapper(s, "(", ")") == Some(x);
    SplitShrinks(x);
  }

  lemma DecimalInherits(n: nat, x: string)
    ensures BodyInherits(Decimal(n), x)
  {
    DecimalReads(n);
    forall d ensures Net(Decimal(n)) == 0 && !HasComma(Decimal(n), d) {
      PlainIsFlat(Decimal(n), d);
    }
    PlainIsFlat(Decimal(n), 0);
  }

  function PairText(x: string): string
    requires ParsePair(x).Ok?
  {
    FormatTypeDef(ParsePair(x).value.0) + ", " + FormatTypeDef(ParsePair(x).value.1)
  }

  ghost function TupleText(x: string): string
    requires Split(x).Ok?
    requires forall p <- Split(x).value :: |p| <= |x|
    requires ParseAll(Split(x).value, |x|).Ok?
  {
    Join(FormatAll(ParseAll(Split(x).value, |x|).value), ", ")
  }

  lemma {:induction false} PairInherits(x: string)
    requires ParsePair(x).Ok?
    ensures BodyInherits(PairText(x), x)
    decreases |x|, 3
  {
    var parts := Split(x).value;
    SplitPieces(x);
    assert PieceOf(parts[0], x) && PieceOf(parts[1], x);
    PrintingInherits(parts[0]);
    PrintingInherits(parts[1]);
    var a, b := FormatTypeDef(ParsePair(x).value.0), FormatTypeDef(ParsePair(x).value.1);
    forall d ensures Net(PairText(x)) == 0 && (HasComma(PairText(x), d) ==> HasComma(x, d)) {
      PairProfile(a, b, d);
    }
    assert Net(PairText(x)) == 0;
  }

  lemma {:induction false} TupleTextInherits(x: string)
    requires Split(x).Ok?
    requires forall p <- Split(x).value :: |p| <= |x|
    requires ParseAll(Split(x).value, |x|).Ok?
    ensures BodyInherits(TupleText(x), x)
    decreases |x|, 4
  {
    hide ParseTypeDef, ParseAll, Split, Net, HasComma, Join;
    var parts := Split(x).value;
    var ts := ParseAll(parts, |x|).value;
    SplitPieces(x);
    ParseAllExact(parts, |x|);
    forall i | 0 <= i < |parts| ensures BodyInherits(FormatAll(ts)[i], x) && Net(FormatAll(ts)[i]) == 0 {
      assert PieceOf(parts[i], x);
      FormatAllAt(ts, i);
      PrintingInherits(parts[i]);
    }
    JoinInherits(FormatAll(ts), x);
  }

  lemma JoinInherits(fs: seq<string>, x: string)
    requires forall i | 0 <= i < |fs| :: BodyInherits(fs[i], x) && Net(fs[i]) == 0
    requires |fs| >= 2 ==> HasComma(x, 0)
    ensures BodyInherits(Join(fs, ", "), x)
  {
    forall d ensures Net(Join(fs, ", ")) == 0 && (HasComma(Join(fs, ", "), d) ==> HasComma(x, d)) {
      JoinProfile(fs, d);
    }
    assert Net(Join(fs, ", ")) == 0;
  }

  // ---- one pass reaches the normal form ----

  predicate RoundTrips(t: TypeDef) {
    ParseTypeDef(FormatTypeDef(t)) == Ok(t)
  }

  /** Whatever text a type was read from, printing it gives text that reads as the same type. */
  lemma {:induction false} NormalForm(s: string)
    requires ParseTypeDef(s).Ok?
    ensures RoundTrips(ParseTypeDef(s).value)
    decreases |s|, 2
  {
    hide FormatTypeDef, Net, HasComma;
    if PrimOf(s).Some? {
      PrimRoundTrips(PrimOf(s).value);
    } else if StripWrapper(s, "Option<", ">").Some? {
      var x := StripWrapper(s, "Option<", ">").value;
      NormalForm(x);
      OptionRoundTrips(ParseTypeDef(x).value);
    } else if StripWrapper(s, "Vec<", ">").Some? {
      var x := StripWrapper(s, "Vec<", ">").value;
      NormalForm(x);
      VecRoundTrips(ParseTypeDef(x).value);
    } else if StripWrapper(s, "Map<", ">").Some? {
      var x := StripWrapper(s, "Map<", ">").value;
      PairNormalForm(x);
      MapRoundTrips(ParsePair(x).value.0, ParsePair(x).value.1);
    } else if StripWrapper(s, "Result<", ">").Some? {
      var x := StripWrapper(s, "Result<", ">").value;
      PairNormalForm(x);
      ResultRoundTrips(ParsePair(x).value.0, ParsePair(x).value.1);
    } else if StripWrapper(s, "BytesN(", ")").Some? {
      BytesNRoundTrips(ScanU32(StripWrapper(s, "BytesN(", ")").value).value);
    } else if StripWrapper(s, "(", ")").Some? {
      TupleNormalForm(StripWrapper(s, "(", ")").value);
    } else {
      assert FormatTypeDef(Udt(s)) == s by { UdtText(s); }
    }
  }

  lemma UdtText(name: string)
    ensures FormatTypeDef(Udt(name)) == name
  {
  }

  /** The printed form of t can be one piece of a list. */
  predicate Listable(t: TypeDef) {
    Atom(FormatTypeDef(t))
  }

  lemma PieceListable(p: string, s: string)
    requires PieceOf(p, s) && ParseTypeDef(p).Ok?
    ensures Listable(ParseTypeDef(p).value)
  {
    hide ParseTypeDef, FormatTypeDef, Net, HasComma;
    PrintingInherits(p);
  }

  lemma {:induction false} PairNormalForm(x: string)
    requires ParsePair(x).Ok?
    ensures var kv := ParsePair(x).value;
      RoundTrips(kv.0) && RoundTrips(kv.1) && Listable(kv.0) && Listable(kv.1)
    decreases |x|, 3
  {
    hide ParseTypeDef, Split, RoundTrips, Listable, PieceOf;
    var parts := Split(x).value;
    SplitPieces(x);
    SplitShrinks(x);
    assert PieceOf(parts[0], x) && PieceOf(parts[1], x);
    NormalForm(parts[0]);
    NormalForm(parts[1]);
    PieceListable(parts[0], x);
    PieceListable(parts[1], x);
  }

  lemma {:induction false} TupleElements(x: string)
    requires Split(x).Ok?
    requires forall p <- Split(x).value :: |p| <= |x|
    requires ParseAll(Split(x).value, |x|).Ok?
    ensures var ts := ParseAll(Split(x).value, |x|).value;
      forall i | 0 <= i < |ts| :: RoundTrips(ts[i]) && Listable(ts[i])
    decreases |x|, 3
  {
    hide ParseTypeDef, ParseAll, Split, RoundTrips, Listable, PieceOf;
    var parts := Split(x).value;
    SplitPieces(x);
    ParseAllExact(parts, |x|);
    var ts := ParseAll(parts, |x|).value;
    forall i | 0 <= i < |ts| ensures RoundTrips(ts[i]) && Listable(ts[i]) {
      assert PieceOf(parts[i], x) && |parts[i]| <= |x|;
      NormalForm(parts[i]);
      PieceListable(parts[i], x);
    }
  }

  lemma {:induction false} TupleNormalForm(x: string)
    requires ParseTypeDef("(" + x + ")").Ok?
    ensures RoundTrips(ParseTypeDef("(" + x + ")").value)
    decreases |x|, 4
  {
    hide ParseTypeDef, ParseAll, Split, RoundTrips, Listable;
    TupleSplits(x);
    TupleShape(x, Split(x).value);
    TupleElements(x);
    TupleRoundTrips(ParseAll(Split(x).value, |x|).value);
  }

  // ---- each constructor round-trips when its parts do ----

  lemma PrimRoundTrips(p: Prim)
    ensures RoundTrips(Primitive(p))
  {
    PrimReads(p);
  }

  lemma OptionRoundTrips(t: TypeDef)
    ensures RoundTrips(OptionOf(t)) <==> RoundTrips(t)
  {
    hide ParseTypeDef;
    OptionShape(FormatTypeDef(t));
  }

  lemma VecRoundTrips(t: TypeDef)
    ensures RoundTrips(VecOf(t)) <==> RoundTrips(t)
  {
    hide ParseTypeDef;
    VecShape(FormatTypeDef(t));
  }

  lemma BytesNRoundTrips(n: U32)
    ensures RoundTrips(BytesN(n))
  {
    hide ParseTypeDef;
    BytesNShape(Decimal(n));
    ScanDecimal(n);
  }

  lemma PairRoundTrips(k: TypeDef, v: TypeDef)
    requires RoundTrips(k) && RoundTrips(v) && Listable(k) && Listable(v)
    ensures ParsePair(FormatTypeDef(k) + ", " + FormatTypeDef(v)) == Ok((k, v))
  {
    hide ParseTypeDef, FormatTypeDef, Split;
    var parts := [FormatTypeDef(k), FormatTypeDef(v)];
    SplitJoin(parts);
    assert parts[1..] == [FormatTypeDef(v)];
    assert Join(parts, ", ") == FormatTypeDef(k) + ", " + FormatTypeDef(v);
  }

  lemma MapRoundTrips(k: TypeDef, v: TypeDef)
    requires RoundTrips(k) && RoundTrips(v) && Listable(k) && Listable(v)
    ensures RoundTrips(MapOf(k, v))
  {
    hide ParseTypeDef, ParsePair, Listable;
    PairRoundTrips(k, v);
    var x := FormatTypeDef(k) + ", " + FormatTypeDef(v);
    MapShape(x);
    assert FormatTypeDef(MapOf(k, v)) == "Map<" + x + ">";
  }

  lemma ResultRoundTrips(o: TypeDef, e: TypeDef)
    requires RoundTrips(o) && RoundTrips(e) && Listable(o) && Listable(e)
    ensures RoundTrips(ResultOf(o, e))
  {
    hide ParseTypeDef, ParsePair, Listable;
    PairRoundTrips(o, e);
    var x := FormatTypeDef(o) + ", " + FormatTypeDef(e);
    ResultShape(x);
    assert FormatTypeDef(ResultOf(o, e)) == "Result<" + x + ">";
  }

  lemma TupleRoundTrips(ts: seq<TypeDef>)
    requires forall i | 0 <= i < |ts| :: RoundTrips(ts[i]) && Listable(ts[i])
    ensures RoundTrips(TupleOf(ts))
  {
    hide ParseTypeDef, ParseAll, Split;
    var fs := FormatAll(ts);
    forall i | 0 <= i < |fs| ensures Atom(fs[i]) && ParseTypeDef(fs[i]) == Ok(ts[i]) {
      FormatAllAt(ts, i);
      assert RoundTrips(ts[i]) && Listable(ts[i]);
    }
    SplitJoin(fs);
    var x := Join(fs, ", ");
    SplitShrinks(x);
    ParseAllExact(fs, |x|);
    TupleShape(x, fs);
    assert ParseAll(fs, |x|).value == ts;
  }

  // ---- exactly which types round-trip ----

  /** A name the parser cannot take for anything but a user-defined type. */
  predicate IsUdtName(name: string) {
    && name != "" && PrimOf(name).None?
    && StripWrapper(name, "Option<", ">").None?
    && StripWrapper(name, "Vec<", ">").None?
    && StripWrapper(name, "Map<", ">").None?
    && StripWrapper(name, "Result<", ">").None?
    && StripWrapper(name, "BytesN(", ")").None?
    && StripWrapper(name, "(", ")").None?
  }

  predicate Stable(t: TypeDef) {
    match t
    case Primitive(_) => true
    case BytesN(_) => true
    case OptionOf(v) => Stable(v)
    case VecOf(v) => Stable(v)
    case MapOf(k, v) => Stable(k) && Stable(v) && Listable(k) && Listable(v)
    case ResultOf(o, e) => Stable(o) && Stable(e) && Listable(o) && Listable(e)
    case TupleOf(ts) => forall i | 0 <= i < |ts| :: Stable(ts[i]) && Listable(ts[i])
    case Udt(name) => IsUdtName(name)
    case NilPayload(_) => false
    case Unknown(_) => false
  }

  lemma {:induction false} RoundTripExact(t: TypeDef)
    ensures RoundTrips(t) <==> Stable(t)
  {
    match t
    case Primitive(p) => PrimRoundTrips(p);
    case BytesN(n) => BytesNRoundTrips(n);
    case OptionOf(v) => RoundTripExact(v); OptionRoundTrips(v);
    case VecOf(v) => RoundTripExact(v); VecRoundTrips(v);
    case MapOf(k, v) => RoundTripExact(k); RoundTripExact(v); MapExact(k, v);
    case ResultOf(o, e) => RoundTripExact(o); RoundTripExact(e); ResultExact(o, e);
    case TupleOf(ts) =>
      forall i | 0 <= i < |ts| ensures RoundTrips(ts[i]) <==> Stable(ts[i]) {
        RoundTripExact(ts[i]);
      }
      TupleExact(ts);
    case Udt(name) => UdtExact(name);
    case NilPayload(b) => NilNeverReads(b);
    case Unknown(tag) => UnknownNeverReads(tag);
  }

  lemma UdtExact(name: string)
    ensures RoundTrips(Udt(name)) <==> IsUdtName(name)
  {
    hide ParsePair, ParseAll, Split, ScanU32;
  }

  lemma MapExact(k: TypeDef, v: TypeDef)
    ensures RoundTrips(MapOf(k, v)) <==> RoundTrips(k) && RoundTrips(v) && Listable(k) && Listable(v)
  {
    hide ParseTypeDef, ParsePair, Listable;
    if RoundTrips(MapOf(k, v)) {
      var x := FormatTypeDef(k) + ", " + FormatTypeDef(v);
      MapShape(x);
      PairNormalForm(x);
    } else if RoundTrips(k) && RoundTrips(v) && Listable(k) && Listable(v) {
      MapRoundTrips(k, v);
    }
  }

  lemma ResultExact(o: TypeDef, e: TypeDef)
    ensures RoundTrips(ResultOf(o, e)) <==> RoundTrips(o) && RoundTrips(e) && Listable(o) && Listable(e)
  {
    hide ParseTypeDef, ParsePair, Listable;
    if RoundTrips(ResultOf(o, e)) {
      var x := FormatTypeDef(o) + ", " + FormatTypeDef(e);
      ResultShape(x);
      PairNormalForm(x);
    } else if RoundTrips(o) && RoundTrips(e) && Listable(o) && Listable(e) {
      ResultRoundTrips(o, e);
    }
  }

  lemma TupleExact(ts: seq<TypeDef>)
    ensures RoundTrips(TupleOf(ts)) <==> forall i | 0 <= i < |ts| :: RoundTrips(ts[i]) && Listable(ts[i])
  {
    hide ParseTypeDef, ParseAll, Split, Listable;
    if RoundTrips(TupleOf(ts)) {
      var x := Join(FormatAll(ts), ", ");
      TupleSplits(x);
      TupleShape(x, Split(x).value);
      TupleElements(x);
      assert ParseAll(Split(x).value, |x|).value == ts;
    } else if forall i | 0 <= i < |ts| :: RoundTrips(ts[i]) && Listable(ts[i]) {
      TupleRoundTrips(ts);
    }
  }

  /** Text the parser can only read as a name. */
  lemma NameReads(s: string)
    requires IsUdtName(s)
    ensures ParseTypeDef(s) == Ok(Udt(s))
  {
  }

  lemma UnknownNeverReads(tag: int)
    ensures !RoundTrips(Unknown(tag))
  {
    hide ParseTypeDef;
    var s := FormatTypeDef(Unknown(tag));
    assert s[0] == 'U' && s[|s| - 1] == ')';
    NotPrim(s);
    NoStrip(s, "Option<", ">");
    NoStrip(s, "Vec<", ">");
    NoStrip(s, "Map<", ">");
    NoStrip(s, "Result<", ">");
    NoStrip(s, "BytesN(", ")");
    NoStrip(s, "(", ")");
    NameReads(s);
  }

  lemma NilUdtNeverReads()
    ensures !RoundTrips(NilPayload(UdtBody))
  {
    hide ParseTypeDef;
    var s := "UDT(?)";
    NotPrim(s);
    NoStrip(s, "Option<", ">");
    NoStrip(s, "Vec<", ">");
    NoStrip(s, "Map<", ">");
    NoStrip(s, "Result<", ">");
    NoStrip(s, "BytesN(", ")");
    NoStrip(s, "(", ")");
    NameReads(s);
  }

  lemma NilNeverReads(b: Payload)
    ensures !RoundTrips(NilPayload(b))
  {
    hide ParseTypeDef, ParsePair, ParseAll;
    match b
    case OptionBody => OptionShape("?"); assert FormatTypeDef(NilPayload(b)) == "Option<" + "?" + ">";
    case VecBody => VecShape("?"); assert FormatTypeDef(NilPayload(b)) == "Vec<" + "?" + ">";
    case MapBody => MapShape("?, ?"); assert FormatTypeDef(NilPayload(b)) == "Map<" + "?, ?" + ">";
    case ResultBody => ResultShape("?, ?"); assert FormatTypeDef(NilPayload(b)) == "Result<" + "?, ?" + ">";
    case TupleBody => TupleShape("", []); assert FormatTypeDef(NilPayload(b)) == "(" + "" + ")";
    case BytesNBody => BytesNShape("?"); assert FormatTypeDef(NilPayload(b)) == "BytesN(" + "?" + ")";
    case UdtBody => NilUdtNeverReads();
  }

  /** Printing tells any two stable types apart. */
  lemma PrintingInjective(a: TypeDef, b: TypeDef)
    requires Stable(a) && Stable(b)
    requires FormatTypeDef(a) == FormatTypeDef(b)
    ensures a == b
  {
    hide ParseTypeDef, FormatTypeDef;
    RoundTripExact(a);
    RoundTripExact(b);
  }

  /** An unstable name prints like another type, and one pass replaces it by that type. */
  lemma UnstableNameCollides()
    ensures FormatTypeDef(Udt("Vec<U32>")) == FormatTypeDef(VecOf(Primitive(U32Type)))
    ensures !Stable(Udt("Vec<U32>")) && Stable(VecOf(Primitive(U32Type)))
  {
    assert "Vec<U32>" == "Vec<" + "U32" + ">";
    assert StripWrapper("Vec<U32>", "Vec<", ">").Some?;
  }

  // ---- the names contracts actually use ----

  predicate IsPlainName(name: string) {
    && name != "" && PrimOf(name).None?
    && forall i | 0 <= i < |name| :: IsPlain(name[i]) && !IsBlank(name[i])
  }

  /** Every name is non-empty, not a built-in, and free of brackets, commas and blanks. */
  predicate WellNamed(t: TypeDef) {
    match t
    case Primitive(_) => true
    case BytesN(_) => true
    case OptionOf(v) => WellNamed(v)
    case VecOf(v) => WellNamed(v)
    case MapOf(k, v) => WellNamed(k) && WellNamed(v)
    case ResultOf(o, e) => WellNamed(o) && WellNamed(e)
    case TupleOf(ts) => forall i | 0 <= i < |ts| :: WellNamed(ts[i])
    case Udt(name) => IsPlainName(name)
    case NilPayload(_) => false
    case Unknown(_) => false
  }

  /** Balanced, trimmed, and with every comma inside some bracket. */
  ghost predicate Enclosed(s: string) {
    s != "" && Trimmed(s) && Net(s) == 0 && forall d :: d <= 0 ==> !HasComma(s, d)
  }

  /** Balanced, with every comma at the top or inside some bracket: what a wrapper can enclose. */
  ghost predicate Enclosable(s: string) {
    Net(s) == 0 && forall d :: d < 0 ==> !HasComma(s, d)
  }

  lemma WrapEncloses(open: string, x: string, close: string)
    requires open != "" && |close| == 1 && Delta(close[0]) == -1
    requires Delta(open[|open| - 1]) == 1 && !IsBlank(open[0])
    requires forall i | 0 <= i < |open| - 1 :: IsPlain(open[i])
    requires Enclosable(x)
    ensures Enclosed(open + x + close)
  {
    forall d | d <= 0 ensures Net(open + x + close) == 0 && !HasComma(open + x + close, d) {
      WrapProfile(open, x, close, d);
    }
    WrapProfile(open, x, close, 0);
  }

  lemma PairEnclosable(a: string, b: string)
    requires Enclosed(a) && Enclosed(b)
    ensures Enclosable(a + ", " + b)
  {
    forall d | d < 0 ensures !HasComma(a + ", " + b, d) {
      PairProfile(a, b, d);
    }
    PairProfile(a, b, 0);
  }

  lemma JoinEnclosable(fs: seq<string>)
    requires forall i | 0 <= i < |fs| :: Enclosed(fs[i])
    ensures Enclosable(Join(fs, ", "))
  {
    forall d | d < 0 ensures !HasComma(Join(fs, ", "), d) {
      JoinProfile(fs, d);
    }
    JoinProfile(fs, 0);
  }

  lemma {:induction false} WellNamedEnclosed(t: TypeDef)
    requires WellNamed(t)
    ensures Enclosed(FormatTypeDef(t))
  {
    hide Net, HasComma, Enclosed, Enclosable;
    match t
    case Primitive(p) => PrimNamePlain(p); NameEnclosed(PrimName(p));
    case BytesN(n) => DecimalEnclosed(n);
    case OptionOf(v) =>
      WellNamedEnclosed(v);
      EnclosedEnclosable(FormatTypeDef(v));
      WrapEncloses("Option<", FormatTypeDef(v), ">");
    case VecOf(v) =>
      WellNamedEnclosed(v);
      EnclosedEnclosable(FormatTypeDef(v));
      WrapEncloses("Vec<", FormatTypeDef(v), ">");
    case MapOf(k, v) =>
      WellNamedEnclosed(k);
      WellNamedEnclosed(v);
      PairEnclosable(FormatTypeDef(k), FormatTypeDef(v));
      WrapEncloses("Map<", FormatTypeDef(k) + ", " + FormatTypeDef(v), ">");
    case ResultOf(o, e) =>
      WellNamedEnclosed(o);
      WellNamedEnclosed(e);
      PairEnclosable(FormatTypeDef(o), FormatTypeDef(e));
      WrapEncloses("Result<", FormatTypeDef(o) + ", " + FormatTypeDef(e), ">");
    case TupleOf(ts) =>
      forall i | 0 <= i < |ts| ensures Enclosed(FormatAll(ts)[i]) {
        FormatAllAt(ts, i);
        WellNamedEnclosed(ts[i]);
      }
      JoinEnclosable(FormatAll(ts));
      WrapEncloses("(", Join(FormatAll(ts), ", "), ")");
    case Udt(name) => NameEnclosed(name);
  }

  lemma EnclosedEnclosable(s: string)
    requires Enclosed(s)
    ensures Enclosable(s)
  {
  }

  lemma DecimalEnclosed(n: U32)
    ensures Enclosed("BytesN(" + Decimal(n) + ")")
  {
    DecimalReads(n);
    NameEnclosed(Decimal(n));
    WrapEncloses("BytesN(", Decimal(n), ")");
  }

  lemma NameEnclosed(s: string)
    requires s != "" && forall i | 0 <= i < |s| :: IsPlain(s[i])
    requires !IsBlank(s[0]) && !IsBlank(s[|s| - 1])
    ensures Enclosed(s)
  {
    forall d ensures Net(s) == 0 && !HasComma(s, d) {
      PlainIsFlat(s, d);
    }
    PlainIsFlat(s, 0);
  }

  lemma {:induction false} WellNamedStable(t: TypeDef)
    requires WellNamed(t)
    ensures Stable(t) && Listable(t)
  {
    hide FormatTypeDef, Net, HasComma, ParseTypeDef;
    WellNamedEnclosed(t);
    match t
    case Primitive(p) =>
    case BytesN(n) =>
    case OptionOf(v) => WellNamedStable(v);
    case VecOf(v) => WellNamedStable(v);
    case MapOf(k, v) => WellNamedStable(k); WellNamedStable(v);
    case ResultOf(o, e) => WellNamedStable(o); WellNamedStable(e);
    case TupleOf(ts) =>
      forall i | 0 <= i < |ts| ensures Stable(ts[i]) && Listable(ts[i]) {
        WellNamedStable(ts[i]);
      }
    case Udt(name) => PlainNameIsUdtName(name);
  }

  lemma PlainNameIsUdtName(name: string)
    requires IsPlainName(name)
    ensures IsUdtName(name)
  {
    assert IsPlain(name[|name| - 1]);
  }

  lemma {:induction false} WellNamedRoundTrips(t: TypeDef)
    requires WellNamed(t)
    ensures RoundTrips(t)
  {
    hide ParseTypeDef, FormatTypeDef;
    WellNamedStable(t);
    RoundTripExact(t);
  }
}
