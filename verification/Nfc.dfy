/** The Unicode composition of internal/cmd/canonical.go: a table of Latin pairs, applied run by run. */
module Nfc {
  import opened Wrappers

  /** The Unicode categories: non-spacing marks, and enclosing or spacing marks. */
  datatype Marks = Marks(mn: char -> bool, other: char -> bool)
  {
    /** The first combining mark of either kind is U+0300. */
    ghost predicate Sound() {
      forall c: char :: c as int < 0x300 ==> !mn(c) && !other(c)
    }
  }

  function At(letters: string, composed: string, c: char): Option<char>
    requires |letters| == |composed|
  {
    if letters == "" then None
    else if letters[0] == c then Some(composed[0])
    else At(letters[1..], composed[1..], c)
  }

  // nfcComposeTable, one row a mark.
  const VOWELS := "AEIOUaeiou"
  const TILDE_LETTERS := "ANOano"
  const GRAVE := "\U{00C0}\U{00C8}\U{00CC}\U{00D2}\U{00D9}\U{00E0}\U{00E8}\U{00EC}\U{00F2}\U{00F9}"
  const ACUTE := "\U{00C1}\U{00C9}\U{00CD}\U{00D3}\U{00DA}\U{00E1}\U{00E9}\U{00ED}\U{00F3}\U{00FA}"
  const CIRCUMFLEX := "\U{00C2}\U{00CA}\U{00CE}\U{00D4}\U{00DB}\U{00E2}\U{00EA}\U{00EE}\U{00F4}\U{00FB}"
  const DIAERESIS := "\U{00C4}\U{00CB}\U{00CF}\U{00D6}\U{00DC}\U{00E4}\U{00EB}\U{00EF}\U{00F6}\U{00FC}"
  const TILDE := "\U{00C3}\U{00D1}\U{00D5}\U{00E3}\U{00F1}\U{00F5}"

  function ComposePair(starter: char, mark: char): Option<char> {
    match mark
    case '\U{0300}' => At(VOWELS, GRAVE, starter)
    case '\U{0301}' => At(VOWELS, ACUTE, starter)
    case '\U{0302}' => At(VOWELS, CIRCUMFLEX, starter)
    case '\U{0308}' => At(VOWELS, DIAERESIS, starter)
    case '\U{0303}' => At(TILDE_LETTERS, TILDE, starter)
    case _ => None
  }

  /** Composing a starter with its marks in order; a mark that does not compose becomes the next starter. */
  function Run(starter: char, marks: string): string
    decreases marks
  {
    if marks == "" then [starter]
    else
      match ComposePair(starter, marks[0])
      case Some(p) => Run(p, marks[1..])
      case None => [starter] + Run(marks[0], marks[1..])
  }

  function LeadingMarks(t: Marks, s: string): (n: nat)
    ensures n <= |s|
    ensures forall i | 0 <= i < n :: t.mn(s[i])
    ensures n < |s| ==> !t.mn(s[n])
  {
    if s == "" || !t.mn(s[0]) then 0 else 1 + LeadingMarks(t, s[1..])
  }

  /** The composed form. */
  function Compose(t: Marks, s: string): string {
    if s == "" then ""
    else
      var n := LeadingMarks(t, s[1..]);
      Run(s[0], s[1..1 + n]) + Compose(t, s[1 + n..])
  }

  // ---- the loops ----

  /** Whether there are combining marks of any kind. */
  method HasCombining(t: Marks, s: string) returns (r: bool)
    ensures r <==> exists i :: 0 <= i < |s| && (t.mn(s[i]) || t.other(s[i]))
  {
    for k := 0 to |s|
      invariant forall j | 0 <= j < k :: !t.mn(s[j]) && !t.other(s[j])
    {
      if t.mn(s[k]) || t.other(s[k]) {
        return true;
      }
    }
    r := false;
  }

  /** nfcString; without combining marks the text is returned as it is. */
  method NfcString(t: Marks, s: string) returns (r: string)
    ensures r == Compose(t, s)
  {
    hide Compose, Run, LeadingMarks;
    var combining := HasCombining(t, s);
    if !combining {
      MarklessIdle(t, s);
      return s;
    }
    r := "";
    var i := 0;
    assert s[0..] == s;
    while i < |s|
      invariant i <= |s| && Compose(t, s) == r + Compose(t, s[i..])
    {
      ComposeFrom(t, s, i);
      var end := MarksEnd(t, s, i + 1);
      var run := ComposeRun(s[i], s[i + 1..end]);
      r := r + run;
      i := end;
    }
    MarklessIdle(t, "");
    assert s[|s|..] == "" && r + "" == r;
  }

  lemma ComposeFrom(t: Marks, s: string, i: nat)
    requires i < |s|
    ensures var end := i + 1 + LeadingMarks(t, s[i + 1..]);
      Compose(t, s[i..]) == Run(s[i], s[i + 1..end]) + Compose(t, s[end..])
  {
    hide Run;
    var n := LeadingMarks(t, s[i + 1..]);
    assert s[i..][1..] == s[i + 1..];
    assert s[i..][1..1 + n] == s[i + 1..i + 1 + n] && s[i..][1 + n..] == s[i + 1 + n..];
  }

  /** The end of the marks that start at `first`. */
  method MarksEnd(t: Marks, s: string, first: nat) returns (i: nat)
    requires first <= |s|
    ensures i == first + LeadingMarks(t, s[first..])
  {
    hide LeadingMarks;
    ghost var n := LeadingMarks(t, s[first..]);
    forall j | first <= j < first + n ensures t.mn(s[j]) {
      assert s[first..][j - first] == s[j];
    }
    assert first + n < |s| ==> s[first..][n] == s[first + n];
    i := first;
    while i < |s| && t.mn(s[i])
      invariant first <= i <= first + n
    {
      i := i + 1;
    }
  }

  method ComposeRun(first: char, combiners: string) returns (composed: string)
    ensures composed == Run(first, combiners)
  {
    hide ComposePair;
    composed := "";
    var starter := first;
    assert combiners[0..] == combiners;
    for i := 0 to |combiners|
      invariant Run(first, combiners) == composed + Run(starter, combiners[i..])
    {
      assert combiners[i..][1..] == combiners[i + 1..];
      var precomposed := ComposePair(starter, combiners[i]);
      if precomposed.Some? {
        starter := precomposed.value;
      } else {
        composed := composed + [starter];
        starter := combiners[i];
      }
    }
    composed := composed + [starter];
  }

  /** normalizeUnicodeString: text in ASCII is left alone, and the loops agree with that. */
  method NormalizeUnicodeString(t: Marks, s: string) returns (r: string)
    requires t.Sound()
    ensures r == Compose(t, s)
  {
    var ascii := true;
    for i := 0 to |s|
      invariant ascii && forall j | 0 <= j < i :: s[j] as int <= 0x7f
    {
      if s[i] as int > 0x7f {
        ascii := false;
        break;
      }
    }
    if ascii {
      MarklessIdle(t, s);
      return s;
    }
    r := NfcString(t, s);
  }

  lemma {:induction false} MarklessIdle(t: Marks, s: string)
    requires forall i | 0 <= i < |s| :: !t.mn(s[i])
    ensures Compose(t, s) == s
  {
    if s != "" {
      MarklessIdle(t, s[1..]);
      assert LeadingMarks(t, s[1..]) == 0;
      assert s[1..1] == "" && s == [s[0]] + s[1..];
    }
  }

  // ---- idempotence ----

  lemma {:induction false} AtRange(letters: string, composed: string, c: char)
    requires |letters| == |composed|
    ensures At(letters, composed, c).Some? ==> c in letters && At(letters, composed, c).value in composed
  {
    if letters != "" {
      AtRange(letters[1..], composed[1..], c);
    }
  }

  predicate InTableRange(starter: char, mark: char, p: char) {
    starter as int < 0x80 && mark as int >= 0x300 && 0xC0 <= p as int < 0x100
  }

  lemma GraveRange(starter: char)
    ensures var p := At(VOWELS, GRAVE, starter);
      p.Some? ==> starter as int < 0x80 && 0xC0 <= p.value as int < 0x100
  {
    AtRange(VOWELS, GRAVE, starter);
    hide At;
  }

  lemma AcuteRange(starter: char)
    ensures var p := At(VOWELS, ACUTE, starter);
      p.Some? ==> starter as int < 0x80 && 0xC0 <= p.value as int < 0x100
  {
    AtRange(VOWELS, ACUTE, starter);
    hide At;
  }

  lemma CircumflexRange(starter: char)
    ensures var p := At(VOWELS, CIRCUMFLEX, starter);
      p.Some? ==> starter as int < 0x80 && 0xC0 <= p.value as int < 0x100
  {
    AtRange(VOWELS, CIRCUMFLEX, starter);
    hide At;
  }

  lemma DiaeresisRange(starter: char)
    ensures var p := At(VOWELS, DIAERESIS, starter);
      p.Some? ==> starter as int < 0x80 && 0xC0 <= p.value as int < 0x100
  {
    AtRange(VOWELS, DIAERESIS, starter);
    hide At;
  }

  lemma TildeRange(starter: char)
    ensures var p := At(TILDE_LETTERS, TILDE, starter);
      p.Some? ==> starter as int < 0x80 && 0xC0 <= p.value as int < 0x100
  {
    AtRange(TILDE_LETTERS, TILDE, starter);
    hide At;
  }

  /** Only ASCII letters compose, only with marks, and what they compose to composes no further. */
  lemma TableRange(starter: char, mark: char)
    ensures ComposePair(starter, mark).Some? ==> InTableRange(starter, mark, ComposePair(starter, mark).value)
  {
    hide At;
    GraveRange(starter);
    AcuteRange(starter);
    CircumflexRange(starter);
    DiaeresisRange(starter);
    TildeRange(starter);
  }

  lemma {:induction false} RunInert(starter: char, marks: string)
    requires starter as int >= 0x80 && forall i | 0 <= i < |marks| :: marks[i] as int >= 0x300
    ensures Run(starter, marks) == [starter] + marks
    decreases marks
  {
    hide ComposePair;
    if marks != "" {
      TableRange(starter, marks[0]);
      RunInert(marks[0], marks[1..]);
      assert marks == [marks[0]] + marks[1..];
    }
  }

  /** A run changes its starter at most, and is then settled. */
  lemma RunSettles(starter: char, marks: string)
    requires forall i | 0 <= i < |marks| :: marks[i] as int >= 0x300
    ensures var r := Run(starter, marks);
      && r != "" && |r| <= 1 + |marks|
      && (r[0] == starter || r[0] as int < 0x300)
      && r[1..] == marks[1 + |marks| - |r|..]
      && Run(r[0], r[1..]) == r
  {
    hide ComposePair;
    if marks != "" {
      TableRange(starter, marks[0]);
      match ComposePair(starter, marks[0])
      case Some(p) => RunInert(p, marks[1..]);
      case None =>
        RunInert(marks[0], marks[1..]);
        assert marks == [marks[0]] + marks[1..];
    }
  }

  lemma {:induction false} LeadingIs(t: Marks, a: string, b: string)
    requires forall i | 0 <= i < |a| :: t.mn(a[i])
    requires b != "" ==> !t.mn(b[0])
    ensures LeadingMarks(t, a + b) == |a|
  {
    if a == "" {
      assert a + b == b;
    } else {
      assert (a + b)[1..] == a[1..] + b && (a + b)[0] == a[0];
      LeadingIs(t, a[1..], b);
    }
  }

  /** Composing twice is composing once. */
  lemma {:induction false} ComposeIdempotent(t: Marks, s: string)
    requires t.Sound()
    ensures Compose(t, Compose(t, s)) == Compose(t, s)
    ensures Compose(t, s) != "" ==> s != "" && (t.mn(Compose(t, s)[0]) ==> t.mn(s[0]))
    decreases |s|
  {
    hide Run, Compose, LeadingMarks;
    if s != "" {
      var n := LeadingMarks(t, s[1..]);
      var marks, rest := s[1..1 + n], s[1 + n..];
      forall i | 0 <= i < |marks| ensures t.mn(marks[i]) {
        assert marks[i] == s[1..][i];
      }
      assert rest != "" ==> rest[0] == s[1..][n];
      ComposeIdempotent(t, rest);
      ComposeHead(t, s);
      RunThenRest(t, s[0], marks, Compose(t, rest));
    } else {
      MarklessIdle(t, "");
    }
  }

  lemma ComposeHead(t: Marks, s: string)
    requires s != ""
    ensures var n := LeadingMarks(t, s[1..]); Compose(t, s) == Run(s[0], s[1..1 + n]) + Compose(t, s[1 + n..])
  {
    hide Run, LeadingMarks;
  }

  /** A settled run in front of composed text composes to itself. */
  lemma RunThenRest(t: Marks, starter: char, marks: string, c: string)
    requires t.Sound() && forall i | 0 <= i < |marks| :: t.mn(marks[i])
    requires Compose(t, c) == c && (c != "" ==> !t.mn(c[0]))
    ensures var r := Run(starter, marks);
      Compose(t, r + c) == r + c && r + c != "" && (t.mn((r + c)[0]) ==> t.mn(starter))
  {
    hide Run, Compose, LeadingMarks;
    var r := Run(starter, marks);
    assert forall i | 0 <= i < |marks| :: marks[i] as int >= 0x300;
    RunSettles(starter, marks);
    forall i | 0 <= i < |r[1..]| ensures t.mn(r[1..][i]) {
      assert r[1..][i] == marks[1 + |marks| - |r|..][i];
    }
    LeadingIs(t, r[1..], c);
    ComposeHead(t, r + c);
    var k := |r| - 1;
    assert (r + c)[1..] == r[1..] + c;
    assert (r + c)[1..1 + k] == r[1..] && (r + c)[1 + k..] == c;
  }
}
