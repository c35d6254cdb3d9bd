/** The texts that types are printed as, described without the parser and the printer. */
module TypeGrammar {
  import opened Wrappers
  import opened TypeDefs
  import opened TypeParser
  import opened BracketDepth
  import opened TypeShapes
  import opened TypeRoundTrip

  /** How a text is made up. */
  datatype TextShape =
    | PrimText(p: Prim)
    | OptionText(x: string)
    | VecText(x: string)
    | MapText(x: string, y: string)
    | ResultText(x: string, y: string)
    | SizeText(n: U32)
    | TupleText(parts: seq<string>)
    | NameText

  /**
   * A built-in name; a wrapper around a text of the grammar; two such texts without outer commas or
   * blanks around them, separated by ", "; a size in plain decimal; a list of such texts; or a name.
   */
  ghost predicate HasShape(s: string, shape: TextShape)
    decreases |s|, 0
  {
    match shape
    case PrimText(p) => s == PrimName(p)
    case OptionText(x) => |x| < |s| && s == "Option<" + x + ">" && SpeltText(x)
    case VecText(x) => |x| < |s| && s == "Vec<" + x + ">" && SpeltText(x)
    case MapText(x, y) => |x| < |s| && |y| < |s| && s == "Map<" + (x + ", " + y) + ">" && SpeltPiece(x) && SpeltPiece(y)
    case ResultText(x, y) => |x| < |s| && |y| < |s| && s == "Result<" + (x + ", " + y) + ">" && SpeltPiece(x) && SpeltPiece(y)
    case SizeText(n) => s == "BytesN(" + Decimal(n) + ")"
    case TupleText(parts) =>
      s == "(" + Join(parts, ", ") + ")" && forall i | 0 <= i < |parts| :: |parts[i]| < |s| && SpeltPiece(parts[i])
    case NameText => IsUdtName(s)
  }

  ghost predicate SpeltPiece(x: string)
    decreases |x|, 2
  {
    Atom(x) && SpeltText(x)
  }

  ghost predicate SpeltText(s: string)
    decreases |s|, 1
  {
    exists shape :: HasShape(s, shape)
  }

  // ---- what is printed of a type that survives is such a text ----

  lemma {:induction false} JoinLonger(parts: seq<string>, i: nat)
    requires i < |parts|
    ensures |parts[i]| <= |Join(parts, ", ")|
  {
    if |parts| > 1 && i > 0 {
      JoinLonger(parts[1..], i - 1);
    }
  }

  lemma {:induction false} StableSpelt(u: TypeDef)
    requires Stable(u)
    ensures SpeltText(FormatTypeDef(u))
  {
    hide Atom, IsUdtName, SpeltText, HasShape;
    match u
    case Primitive(p) => ShapeGives(PrimName(p), PrimText(p));
    case BytesN(n) => ShapeGives("BytesN(" + Decimal(n) + ")", SizeText(n));
    case OptionOf(v) => StableSpelt(v); ShapeGives("Option<" + FormatTypeDef(v) + ">", OptionText(FormatTypeDef(v)));
    case VecOf(v) => StableSpelt(v); ShapeGives("Vec<" + FormatTypeDef(v) + ">", VecText(FormatTypeDef(v)));
    case MapOf(k, v) =>
      StableSpelt(k);
      StableSpelt(v);
      var x, y := FormatTypeDef(k), FormatTypeDef(v);
      ShapeGives("Map<" + (x + ", " + y) + ">", MapText(x, y));
    case ResultOf(o, e) =>
      StableSpelt(o);
      StableSpelt(e);
      var x, y := FormatTypeDef(o), FormatTypeDef(e);
      ShapeGives("Result<" + (x + ", " + y) + ">", ResultText(x, y));
    case TupleOf(ts) =>
      forall i | 0 <= i < |ts| ensures SpeltPiece(FormatAll(ts)[i]) {
        FormatAllAt(ts, i);
        assert Stable(ts[i]) && Listable(ts[i]);
        StableSpelt(ts[i]);
      }
      TupleSpelt(FormatAll(ts));
    case Udt(name) => ShapeGives(name, NameText);
  }

  /** A text put together from texts of the grammar is one, tuples aside. */
  lemma ShapeGives(s: string, shape: TextShape)
    requires match shape
      case PrimText(p) => s == PrimName(p)
      case OptionText(x) => s == "Option<" + x + ">" && SpeltText(x)
      case VecText(x) => s == "Vec<" + x + ">" && SpeltText(x)
      case MapText(x, y) => s == "Map<" + (x + ", " + y) + ">" && SpeltPiece(x) && SpeltPiece(y)
      case ResultText(x, y) => s == "Result<" + (x + ", " + y) + ">" && SpeltPiece(x) && SpeltPiece(y)
      case SizeText(n) => s == "BytesN(" + Decimal(n) + ")"
      case TupleText(_) => false
      case NameText => IsUdtName(s)
    ensures SpeltText(s)
  {
    hide SpeltPiece, PrimName, Decimal, IsUdtName;
    assert HasShape(s, shape);
  }

  lemma TupleSpelt(parts: seq<string>)
    requires forall i | 0 <= i < |parts| :: SpeltPiece(parts[i])
    ensures SpeltText("(" + Join(parts, ", ") + ")")
  {
    hide SpeltPiece;
    var s := "(" + Join(parts, ", ") + ")";
    forall i | 0 <= i < |parts| ensures |parts[i]| < |s| {
      JoinLonger(parts, i);
    }
    assert HasShape(s, TupleText(parts));
  }

  // ---- and every such text is printed of one ----

  lemma {:induction false} SpeltStable(s: string) returns (u: TypeDef)
    requires SpeltText(s)
    ensures Stable(u) && FormatTypeDef(u) == s
    decreases |s|, 1
  {
    hide HasShape;
    var shape :| HasShape(s, shape);
    u := ShapeStable(s, shape);
  }

  lemma {:induction false} ShapeStable(s: string, shape: TextShape) returns (u: TypeDef)
    requires HasShape(s, shape)
    ensures Stable(u) && FormatTypeDef(u) == s
    decreases |s|, 0
  {
    hide Atom, IsUdtName, PrimName, Decimal, Join, SpeltText;
    match shape
    case PrimText(p) => u := Primitive(p);
    case OptionText(x) =>
      var v := SpeltStable(x);
      u := OptionOf(v);
    case VecText(x) =>
      var v := SpeltStable(x);
      u := VecOf(v);
    case MapText(x, y) =>
      var k := SpeltStable(x);
      var v := SpeltStable(y);
      u := MapOf(k, v);
    case ResultText(x, y) =>
      var o := SpeltStable(x);
      var e := SpeltStable(y);
      u := ResultOf(o, e);
    case SizeText(n) => u := BytesN(n);
    case TupleText(parts) =>
      var ts := SpeltAll(parts, |s|);
      u := TupleOf(ts);
    case NameText => u := Udt(s);
  }

  lemma {:induction false} SpeltAll(parts: seq<string>, bound: nat) returns (ts: seq<TypeDef>)
    requires forall i | 0 <= i < |parts| :: |parts[i]| < bound && SpeltPiece(parts[i])
    ensures FormatAll(ts) == parts && forall i | 0 <= i < |ts| :: Stable(ts[i]) && Listable(ts[i])
    decreases bound, 0, |parts|
  {
    hide Atom, SpeltText, Stable, FormatTypeDef;
    if parts == [] {
      ts := [];
    } else {
      assert SpeltPiece(parts[0]);
      var t := SpeltStable(parts[0]);
      var rest := SpeltAll(parts[1..], bound);
      ts := [t] + rest;
      assert ts[1..] == rest && parts == [parts[0]] + parts[1..];
    }
  }

  /** The texts of the grammar are exactly those that types which survive printing are printed as. */
  lemma GrammarExact(s: string)
    ensures SpeltText(s) <==> exists u :: Stable(u) && FormatTypeDef(u) == s
  {
    hide SpeltText, Stable, FormatTypeDef;
    if SpeltText(s) {
      var u := SpeltStable(s);
    }
    if u :| Stable(u) && FormatTypeDef(u) == s {
      StableSpelt(u);
    }
  }
}
