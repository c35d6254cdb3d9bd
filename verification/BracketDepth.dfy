/** Bracket-depth profiles of type strings, and what splitting at top-level commas does to them. */
module BracketDepth {
  import opened Wrappers
  import opened TypeDefs
  import opened TypeParser

  // ---- bracket-depth profiles ----

  /** Some comma of s sits at depth d, counting from depth 0 at the start of s. */
  predicate HasComma(s: string, d: int) {
    s != "" && ((s[0] == ',' && d == 0) || HasComma(s[1..], d - Delta(s[0])))
  }

  lemma {:induction false} NetConcat(a: string, b: string)
    ensures Net(a + b) == Net(a) + Net(b)
  {
    if a == "" {
      assert a + b == b;
    } else {
      assert (a + b)[1..] == a[1..] + b;
      NetConcat(a[1..], b);
    }
  }

  lemma {:induction false} CommaConcat(a: string, b: string, d: int)
    ensures HasComma(a + b, d) <==> HasComma(a, d) || HasComma(b, d - Net(a))
  {
    if a == "" {
      assert a + b == b;
    } else {
      assert (a + b)[1..] == a[1..] + b;
      CommaConcat(a[1..], b, d - Delta(a[0]));
    }
  }

  /** The scan for the first comma stops at the end of a prefix that has none at its depth. */
  lemma CommaIndexStep(s: string, d: int)
    requires s != "" && !(s[0] == ',' && d == 0)
    ensures CommaIndex(s, d) == 1 + CommaIndex(s[1..], d + Delta(s[0]))
  {
  }

  lemma NoCommaStep(s: string, d: int)
    requires s != "" && !HasComma(s, -d)
    ensures !(s[0] == ',' && d == 0) && !HasComma(s[1..], -(d + Delta(s[0])))
    ensures Net(s) == Delta(s[0]) + Net(s[1..])
  {
  }

  lemma {:induction false} CommaIndexSkips(a: string, b: string, d: int)
    requires !HasComma(a, -d)
    ensures CommaIndex(a + b, d) == |a| + CommaIndex(b, d + Net(a))
  {
    hide CommaIndex, HasComma, Net, Delta;
    if a == "" {
      assert a + b == b;
      NetEmpty();
    } else {
      var s, rest := a + b, a[1..];
      assert s[0] == a[0];
      assert s[1..] == rest + b;
      NoCommaStep(a, d);
      CommaIndexStep(s, d);
      CommaIndexSkips(rest, b, d + Delta(a[0]));
    }
  }

  lemma NetEmpty()
    ensures Net("") == 0
  {
  }

  /** Where the scan stops, the text so far is balanced and free of such commas. */
  lemma {:induction false} CommaIndexProfile(s: string, d: int)
    ensures var i := CommaIndex(s, d);
      !HasComma(s[..i], -d) && (i < |s| ==> Net(s[..i]) == -d)
  {
    var i := CommaIndex(s, d);
    if s != "" && !(s[0] == ',' && d == 0) {
      CommaIndexProfile(s[1..], d + Delta(s[0]));
      assert s[..i][1..] == s[1..][..i - 1];
    }
  }

  // ---- blanks ----

  /** Neither a bracket nor a comma. */
  predicate IsPlain(c: char) {
    Delta(c) == 0 && c != ','
  }

  lemma {:induction false} PlainIsFlat(s: string, d: int)
    requires forall i | 0 <= i < |s| :: IsPlain(s[i])
    ensures Net(s) == 0 && !HasComma(s, d)
  {
    if s != "" {
      PlainIsFlat(s[1..], d);
    }
  }

  /** Trimming removes blanks at both ends and nothing else. */
  lemma TrimParts(s: string) returns (left: string, right: string)
    ensures s == left + Trim(s) + right
    ensures forall i | 0 <= i < |left| :: IsBlank(left[i])
    ensures forall i | 0 <= i < |right| :: IsBlank(right[i])
  {
    left := TrimLeftPart(s);
    right := TrimRightPart(TrimLeft(s));
  }

  lemma {:induction false} TrimLeftPart(s: string) returns (left: string)
    ensures s == left + TrimLeft(s)
    ensures forall i | 0 <= i < |left| :: IsBlank(left[i])
  {
    if s != "" && IsBlank(s[0]) {
      var rest := TrimLeftPart(s[1..]);
      left := [s[0]] + rest;
    } else {
      left := "";
    }
  }

  lemma {:induction false} TrimRightPart(s: string) returns (right: string)
    ensures s == TrimRight(s) + right
    ensures forall i | 0 <= i < |right| :: IsBlank(right[i])
  {
    if s != "" && IsBlank(s[|s| - 1]) {
      var rest := TrimRightPart(s[..|s| - 1]);
      right := rest + [s[|s| - 1]];
    } else {
      right := "";
    }
  }

  predicate Trimmed(s: string) {
    s != "" ==> !IsBlank(s[0]) && !IsBlank(s[|s| - 1])
  }

  lemma {:induction false} TrimmedIsFixed(s: string)
    requires Trimmed(s)
    ensures Trim(s) == s
  {
  }

  lemma TrimLeftStart(s: string)
    ensures TrimLeft(s) != "" ==> !IsBlank(TrimLeft(s)[0])
  {
  }

  lemma {:induction false} TrimRightEnd(s: string)
    ensures var r := TrimRight(s);
      r <= s && (r != "" ==> !IsBlank(r[|r| - 1]))
  {
    if s != "" && IsBlank(s[|s| - 1]) {
      TrimRightEnd(s[..|s| - 1]);
    }
  }

  lemma {:induction false} TrimTrims(s: string)
    ensures Trimmed(Trim(s))
  {
    TrimLeftStart(s);
    TrimRightEnd(TrimLeft(s));
  }

  lemma {:induction false} TrimLeadingBlank(s: string)
    ensures Trim(" " + s) == Trim(s)
  {
    assert (" " + s)[1..] == s;
  }

  lemma {:induction false} TrimProfile(s: string, d: int)
    ensures Net(Trim(s)) == Net(s)
    ensures HasComma(Trim(s), d) <==> HasComma(s, d)
  {
    var left, right := TrimParts(s);
    PlainIsFlat(left, d);
    PlainIsFlat(right, d - Net(left + Trim(s)));
    NetConcat(left + Trim(s), right);
    NetConcat(left, Trim(s));
    PlainIsFlat(right, d);
    CommaConcat(left + Trim(s), right, d);
    CommaConcat(left, Trim(s), d);
  }

  // ---- splitting ----

  /** A string that survives as one piece inside a comma-separated list. */
  predicate Atom(s: string) {
    s != "" && Trimmed(s) && Net(s) == 0 && !HasComma(s, 0)
  }

  lemma {:induction false} SplitLeadingBlank(s: string)
    ensures Split(" " + s) == Split(s)
  {
    var t := " " + s;
    var i := CommaIndex(s, 0);
    assert t[1..] == s;
    assert CommaIndex(t, 0) == 1 + i;
    TrimLeadingBlank(s);
    NetConcat(" ", s);
    if i < |s| {
      assert t[1 + i + 1..] == s[i + 1..];
      assert t[..1 + i] == " " + s[..i];
      TrimLeadingBlank(s[..i]);
    }
  }

  lemma {:induction false} SplitOne(p: string)
    requires Atom(p)
    ensures Split(p) == Ok([p])
  {
    TrimmedIsFixed(p);
    CommaIndexSkips(p, "", 0);
    assert p + "" == p;
  }

  lemma {:induction false} SplitFirst(p: string, rest: string)
    requires Atom(p)
    requires Split(rest).Ok?
    ensures Split(p + (", " + rest)) == Ok([p] + Split(rest).value)
  {
    var s := p + (", " + rest);
    TrimmedIsFixed(p);
    CommaIndexSkips(p, ", " + rest, 0);
    assert (", " + rest)[0] == ',';
    assert CommaIndex(s, 0) == |p|;
    assert s[..|p|] == p;
    assert s[|p| + 1..] == " " + rest;
    SplitLeadingBlank(rest);
  }

  lemma {:induction false} SplitJoin(parts: seq<string>)
    requires forall i | 0 <= i < |parts| :: Atom(parts[i])
    ensures Split(Join(parts, ", ")) == Ok(parts)
  {
    if |parts| == 1 {
      SplitOne(parts[0]);
      assert parts == [parts[0]];
    } else if |parts| > 1 {
      SplitJoin(parts[1..]);
      SplitFirst(parts[0], Join(parts[1..], ", "));
      assert Join(parts, ", ") == parts[0] + (", " + Join(parts[1..], ", "));
      assert parts == [parts[0]] + parts[1..];
    }
  }

  /** What every piece of a split inherits from the split string. */
  ghost predicate PieceOf(p: string, s: string) {
    && |p| <= |s|
    && Trimmed(p) && Net(p) == 0 && !HasComma(p, 0)
    && forall d :: HasComma(p, d) ==> HasComma(s, d)
  }

  lemma CutProfile(head: string, tail: string)
    ensures Net(head + ("," + tail)) == Net(head) + Net(tail)
    ensures Net(head) == 0 ==>
      forall d :: HasComma(head + ("," + tail), d) <==> HasComma(head, d) || d == 0 || HasComma(tail, d)
  {
    assert ("," + tail)[1..] == tail;
    NetConcat(head, "," + tail);
    forall d ensures HasComma(head + ("," + tail), d) <==> HasComma(head, d) || HasComma("," + tail, d - Net(head)) {
      CommaConcat(head, "," + tail, d);
    }
  }

  lemma {:induction false} SplitPieces(s: string)
    requires Split(s).Ok?
    ensures Net(s) == 0
    ensures forall p <- Split(s).value :: PieceOf(p, s)
    ensures |Split(s).value| >= 2 ==> HasComma(s, 0)
    decreases |s|
  {
    hide Net, HasComma, CommaIndex;
    var i := CommaIndex(s, 0);
    CommaIndexProfile(s, 0);
    if i == |s| {
      assert s[..i] == s;
      WholePiece(s);
    } else {
      var head, tail := s[..i], s[i + 1..];
      assert s == head + ("," + tail);
      SplitPieces(tail);
      CutProfile(head, tail);
      WholePiece(head);
      assert Split(s).value == [Trim(head)] + Split(tail).value;
    }
  }

  lemma {:induction false} WholePiece(s: string)
    requires Net(s) == 0 && !HasComma(s, 0)
    ensures PieceOf(Trim(s), s)
  {
    TrimTrims(s);
    forall d ensures HasComma(Trim(s), d) <==> HasComma(s, d) && Net(Trim(s)) == Net(s) {
      TrimProfile(s, d);
    }
    TrimProfile(s, 0);
  }
}
