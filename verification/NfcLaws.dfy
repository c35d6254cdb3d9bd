/** Exactly which texts normalise alike, and where that differs from canonical equivalence. */
module NfcLaws {
  import opened Wrappers
  import opened Nfc

  /** The marks of the composition table are marks. */
  ghost predicate Complete(t: Marks) {
    && t.Sound()
    && t.mn('\U{0300}') && t.mn('\U{0301}') && t.mn('\U{0302}') && t.mn('\U{0303}') && t.mn('\U{0308}')
  }

  /** A letter of one row with its mark, or None when it is not in the row. */
  function Row(letters: string, composed: string, mark: char, p: char): Option<string>
    requires |letters| == |composed|
  {
    match At(composed, letters, p)
    case None => None
    case Some(base) => Some([base, mark])
  }

  function OrElse(a: Option<string>, b: Option<string>): Option<string> {
    if a.Some? then a else b
  }

  /** The letter and the mark a composed letter stands for. */
  function Parts(p: char): Option<string> {
    OrElse(Row(VOWELS, GRAVE, '\U{0300}', p),
    OrElse(Row(VOWELS, ACUTE, '\U{0301}', p),
    OrElse(Row(VOWELS, CIRCUMFLEX, '\U{0302}', p),
    OrElse(Row(VOWELS, DIAERESIS, '\U{0308}', p),
           Row(TILDE_LETTERS, TILDE, '\U{0303}', p)))))
  }

  function SpellChar(c: char): string {
    match Parts(c)
    case None => [c]
    case Some(two) => two
  }

  /** Every composed letter of the table written as its letter and its mark. */
  function SpellOut(s: string): string {
    if s == "" then "" else SpellChar(s[0]) + SpellOut(s[1..])
  }

  // ---- the table read backwards ----

  ghost predicate Repeats(s: string) {
    exists i, j :: 0 <= i < j < |s| && s[i] == s[j]
  }

  /** A row without repetitions can be read backwards. */
  lemma {:induction false} AtBack(letters: string, composed: string, c: char, p: char)
    requires |letters| == |composed| && !Repeats(letters) && !Repeats(composed)
    ensures At(letters, composed, c) == Some(p) <==> At(composed, letters, p) == Some(c)
  {
    if letters != "" {
      AtRange(letters[1..], composed[1..], c);
      AtRange(composed[1..], letters[1..], p);
      AtBack(letters[1..], composed[1..], c, p);
      assert letters == [letters[0]] + letters[1..] && composed == [composed[0]] + composed[1..];
    }
  }

  lemma RowsDistinct()
    ensures !Repeats(VOWELS) && !Repeats(TILDE_LETTERS)
    ensures !Repeats(GRAVE) && !Repeats(ACUTE) && !Repeats(CIRCUMFLEX) && !Repeats(DIAERESIS) && !Repeats(TILDE)
  {
  }

  lemma RowsApart(p: char)
    ensures p in GRAVE ==> p !in ACUTE && p !in CIRCUMFLEX && p !in DIAERESIS && p !in TILDE
    ensures p in ACUTE ==> p !in CIRCUMFLEX && p !in DIAERESIS && p !in TILDE
    ensures p in CIRCUMFLEX ==> p !in DIAERESIS && p !in TILDE
    ensures p in DIAERESIS ==> p !in TILDE
  {
  }

  /** The table composes a pair to p exactly when p is spelt out as that pair. */
  lemma PartsExact(starter: char, mark: char, p: char)
    ensures ComposePair(starter, mark) == Some(p) <==> Parts(p) == Some([starter, mark])
  {
    RowsDistinct();
    RowsApart(p);
    AtBack(VOWELS, GRAVE, starter, p);
    AtBack(VOWELS, ACUTE, starter, p);
    AtBack(VOWELS, CIRCUMFLEX, starter, p);
    AtBack(VOWELS, DIAERESIS, starter, p);
    AtBack(TILDE_LETTERS, TILDE, starter, p);
    AtRange(GRAVE, VOWELS, p);
    AtRange(ACUTE, VOWELS, p);
    AtRange(CIRCUMFLEX, VOWELS, p);
    AtRange(DIAERESIS, VOWELS, p);
    AtRange(TILDE, TILDE_LETTERS, p);
    hide At, Repeats;
  }

  lemma PartsPair(p: char) returns (starter: char, mark: char)
    requires Parts(p).Some?
    ensures Parts(p) == Some([starter, mark]) && ComposePair(starter, mark) == Some(p) && InTableRange(starter, mark, p)
  {
    starter, mark := Parts(p).value[0], Parts(p).value[1];
    assert Parts(p).value == [starter, mark];
    PartsExact(starter, mark, p);
    TableRange(starter, mark);
  }

  lemma PartsRange(p: char)
    requires p as int < 0xC0 || p as int >= 0x100
    ensures SpellChar(p) == [p]
  {
    hide Parts;
    if Parts(p).Some? {
      var starter, mark := PartsPair(p);
    }
  }

  // ---- spelling out ----

  lemma {:induction false} SpellConcat(a: string, b: string)
    ensures SpellOut(a + b) == SpellOut(a) + SpellOut(b)
  {
    hide SpellChar;
    if a == "" {
      assert a + b == b;
    } else {
      SpellConcat(a[1..], b);
      assert (a + b)[0] == a[0] && (a + b)[1..] == a[1..] + b;
      SpellHead(a);
      SpellHead(a + b);
      hide SpellOut;
      Associates(SpellChar(a[0]), SpellOut(a[1..]), SpellOut(b));
    }
  }

  lemma SpellHead(s: string)
    requires s != ""
    ensures SpellOut(s) == SpellChar(s[0]) + SpellOut(s[1..])
  {
  }

  lemma Associates(a: string, b: string, c: string)
    ensures a + b + c == a + (b + c)
  {
  }

  lemma SpellOne(c: char)
    ensures SpellOut([c]) == SpellChar(c)
  {
    hide SpellChar;
    assert [c][1..] == "";
    assert SpellChar(c) + "" == SpellChar(c);
  }

  lemma {:induction false} SpellMarks(s: string)
    requires forall i | 0 <= i < |s| :: s[i] as int >= 0x300
    ensures SpellOut(s) == s
  {
    hide SpellChar;
    if s != "" {
      PartsRange(s[0]);
      SpellMarks(s[1..]);
      assert s == [s[0]] + s[1..];
    }
  }

  /** A composed run spells out as before. */
  lemma {:induction false} RunSpelling(starter: char, marks: string)
    ensures SpellOut(Run(starter, marks)) == SpellOut([starter] + marks)
    decreases marks
  {
    hide ComposePair, SpellOut, SpellChar;
    if marks == "" {
      assert [starter] + marks == [starter];
    } else {
      var rest := marks[1..];
      assert [starter] + marks == [starter] + ([marks[0]] + rest);
      match ComposePair(starter, marks[0])
      case Some(p) =>
        RunSpelling(p, rest);
        SpellConcat([p], rest);
        PairSpelling(starter, marks[0], p);
        assert [starter] + marks == [starter, marks[0]] + rest;
        SpellConcat([starter, marks[0]], rest);
      case None =>
        RunSpelling(marks[0], rest);
        SpellConcat([starter], Run(marks[0], rest));
        SpellConcat([starter], [marks[0]] + rest);
    }
  }

  lemma PairSpelling(starter: char, mark: char, p: char)
    requires ComposePair(starter, mark) == Some(p)
    ensures SpellOut([p]) == SpellOut([starter, mark]) == [starter, mark]
    ensures SpellChar(p) == [starter, mark]
  {
    hide ComposePair, SpellOut, Parts;
    TableRange(starter, mark);
    PartsExact(starter, mark, p);
    SpellOne(p);
    PartsRange(starter);
    PartsRange(mark);
    SpellOne(starter);
    SpellOne(mark);
    assert [starter, mark] == [starter] + [mark];
    SpellConcat([starter], [mark]);
  }

  /** Composing a text does not change how it is spelt out. */
  lemma {:induction false} ComposeSpelling(t: Marks, s: string)
    ensures SpellOut(Compose(t, s)) == SpellOut(s)
    decreases |s|
  {
    hide Run, SpellOut, LeadingMarks;
    if s != "" {
      var n := LeadingMarks(t, s[1..]);
      var marks, rest := s[1..1 + n], s[1 + n..];
      ComposeSpelling(t, rest);
      RunSpelling(s[0], marks);
      SpellConcat(Run(s[0], marks), Compose(t, rest));
      assert s == [s[0]] + marks + rest;
      SpellConcat([s[0]] + marks, rest);
    }
  }

  // ---- composing what was spelt out ----

  lemma SpellStart(t: Marks, s: string)
    requires t.Sound() && s != "" && !t.mn(s[0])
    ensures SpellOut(s) != "" && !t.mn(SpellOut(s)[0])
  {
    hide Parts;
    if Parts(s[0]).Some? {
      var starter, mark := PartsPair(s[0]);
    }
  }

  /** A run, its starter spelt out, in front of text that does not start with a mark. */
  lemma ComposeRunSpelt(t: Marks, starter: char, marks: string, rest: string)
    requires Complete(t) && (forall i | 0 <= i < |marks| :: t.mn(marks[i])) && (rest != "" ==> !t.mn(rest[0]))
    ensures Compose(t, SpellChar(starter) + marks + rest) == Run(starter, marks) + Compose(t, rest)
  {
    hide Parts, ComposePair, Compose;
    if Parts(starter).None? {
      ComposeRunFirst(t, starter, marks, rest);
    } else {
      var base, mark := PartsPair(starter);
      TableMark(t, base, mark);
      var more := [mark] + marks;
      assert SpellChar(starter) + marks + rest == [base] + more + rest;
      ComposeRunFirst(t, base, more, rest);
      assert more[1..] == marks && more[0] == mark;
    }
  }

  lemma TableMark(t: Marks, base: char, mark: char)
    requires Complete(t) && ComposePair(base, mark).Some?
    ensures t.mn(mark)
  {
    hide At;
  }

  lemma ComposeRunFirst(t: Marks, starter: char, marks: string, rest: string)
    requires (forall i | 0 <= i < |marks| :: t.mn(marks[i])) && (rest != "" ==> !t.mn(rest[0]))
    ensures Compose(t, [starter] + marks + rest) == Run(starter, marks) + Compose(t, rest)
  {
    hide Run, Compose, LeadingMarks;
    var s := [starter] + marks + rest;
    assert s[1..] == marks + rest;
    LeadingIs(t, marks, rest);
    ComposeHead(t, s);
    assert s[1..1 + |marks|] == marks && s[1 + |marks|..] == rest;
  }

  /** The spelt-out text composes to the same text. */
  lemma {:induction false} SpellingComposes(t: Marks, s: string)
    requires Complete(t)
    ensures Compose(t, SpellOut(s)) == Compose(t, s)
    decreases |s|
  {
    hide Run, SpellOut, SpellChar, LeadingMarks, Compose;
    if s == "" {
      assert SpellOut(s) == "" by { SpellMarks(s); }
    } else {
      var n := LeadingMarks(t, s[1..]);
      var marks, rest := s[1..1 + n], s[1 + n..];
      forall i | 0 <= i < |marks| ensures t.mn(marks[i]) && marks[i] as int >= 0x300 {
        assert marks[i] == s[1..][i];
      }
      assert rest != "" ==> rest[0] == s[1..][n];
      SpellMarks(marks);
      SpellRun(s[0], marks, rest);
      assert s == [s[0]] + marks + rest;
      if rest != "" {
        SpellStart(t, rest);
      } else {
        SpellMarks(rest);
      }
      SpellingComposes(t, rest);
      ComposeRunSpelt(t, s[0], marks, SpellOut(rest));
      ComposeHead(t, s);
    }
  }

  lemma SpellRun(starter: char, marks: string, rest: string)
    requires SpellOut(marks) == marks
    ensures SpellOut([starter] + marks + rest) == SpellChar(starter) + marks + SpellOut(rest)
  {
    hide SpellOut, SpellChar;
    SpellConcat([starter] + marks, rest);
    SpellConcat([starter], marks);
    SpellOne(starter);
  }

  // ---- the main results ----

  /** Two texts normalise alike exactly when they agree once every composed letter of the table is spelt out. */
  lemma AlikeExact(t: Marks, a: string, b: string)
    requires Complete(t)
    ensures Compose(t, a) == Compose(t, b) <==> SpellOut(a) == SpellOut(b)
  {
    hide Compose, SpellOut;
    ComposeSpelling(t, a);
    ComposeSpelling(t, b);
    SpellingComposes(t, a);
    SpellingComposes(t, b);
  }

  /** Anywhere in a text a letter of the table may be composed or apart. */
  lemma ComposedOrApart(t: Marks, before: string, starter: char, mark: char, p: char, after: string)
    requires Complete(t) && ComposePair(starter, mark) == Some(p)
    ensures Compose(t, before + [starter, mark] + after) == Compose(t, before + [p] + after)
  {
    hide Compose, SpellOut, ComposePair;
    PairSpelling(starter, mark, p);
    SpellConcat(before + [starter, mark], after);
    SpellConcat(before, [starter, mark]);
    SpellConcat(before + [p], after);
    SpellConcat(before, [p]);
    AlikeExact(t, before + [starter, mark] + after, before + [p] + after);
  }

  /**
   * The dot below (combining class 220) and the circumflex (class 230) commute under canonical
   * equivalence in Unicode Standard Annex #15, but the order they come in is kept.
   */
  lemma MarkOrderShows(t: Marks)
    requires Complete(t)
    ensures Compose(t, "a\U{0323}\U{0302}") != Compose(t, "a\U{0302}\U{0323}")
  {
    hide Compose, SpellOut, SpellChar;
    var below, above := "a\U{0323}\U{0302}", "a\U{0302}\U{0323}";
    AlikeExact(t, below, above);
    PartsRange('a');
    SpellOne('a');
    SpellMarks("\U{0323}\U{0302}");
    SpellMarks("\U{0302}\U{0323}");
    assert below == "a" + "\U{0323}\U{0302}" && above == "a" + "\U{0302}\U{0323}";
    SpellConcat("a", "\U{0323}\U{0302}");
    SpellConcat("a", "\U{0302}\U{0323}");
    assert SpellOut(below) == below && SpellOut(above) == above && below[1] != above[1];
  }

  // ---- the table as the code chart of Latin-1 has it ----

  /** Where the accented forms of a capital vowel start in the chart. */
  function VowelBlock(upper: char): Option<int> {
    match upper
    case 'A' => Some(0xC0)
    case 'E' => Some(0xC8)
    case 'I' => Some(0xCC)
    case 'O' => Some(0xD2)
    case 'U' => Some(0xD9)
    case _ => None
  }

  /** The place of the mark in a block: grave, acute, circumflex, tilde where there is one, diaeresis. */
  function Place(upper: char, mark: char): Option<int> {
    var tilde := upper == 'A' || upper == 'O';
    match mark
    case '\U{0300}' => Some(0)
    case '\U{0301}' => Some(1)
    case '\U{0302}' => Some(2)
    case '\U{0303}' => if tilde then Some(3) else None
    case '\U{0308}' => if tilde then Some(4) else Some(3)
    case _ => None
  }

  /** The code of a capital with a mark. */
  function ChartCode(upper: char, mark: char): Option<int> {
    if upper == 'N' && mark == '\U{0303}' then Some(0xD1)
    else
      match VowelBlock(upper)
      case None => None
      case Some(start) =>
        match Place(upper, mark)
        case None => None
        case Some(k) => Some(start + k)
  }

  /** The code of a letter with a mark: a small letter is 32 behind its capital, accented or not. */
  function LetterCode(c: char, mark: char): Option<int> {
    if 'a' <= c <= 'z' then
      match ChartCode((c as int - 32) as char, mark)
      case None => None
      case Some(code) => Some(code + 32)
    else ChartCode(c, mark)
  }

  lemma {:induction false} AtIndex(letters: string, composed: string, i: nat)
    requires i < |letters| == |composed|
    requires forall j | 0 <= j < i :: letters[j] != letters[i]
    ensures At(letters, composed, letters[i]) == Some(composed[i])
  {
    if i > 0 {
      assert letters[0] != letters[i];
      AtIndex(letters[1..], composed[1..], i - 1);
    }
  }

  lemma {:induction false} AtNone(letters: string, composed: string, c: char)
    requires |letters| == |composed| && c !in letters
    ensures At(letters, composed, c) == None
  {
    if letters != "" {
      AtNone(letters[1..], composed[1..], c);
    }
  }

  /** The row holds the code of every letter with the mark. */
  ghost predicate RowIsChart(letters: string, composed: string, mark: char) {
    && |letters| == |composed|
    && forall i | 0 <= i < |letters| :: LetterCode(letters[i], mark) == Some(composed[i] as int)
  }

  lemma RowReads(letters: string, composed: string, mark: char, c: char)
    requires RowIsChart(letters, composed, mark)
    requires forall i, j | 0 <= i < j < |letters| :: letters[i] != letters[j]
    requires c !in letters ==> LetterCode(c, mark) == None
    ensures var r := At(letters, composed, c);
      (if r.Some? then Some(r.value as int) else None) == LetterCode(c, mark)
  {
    hide LetterCode;
    if c in letters {
      var i :| 0 <= i < |letters| && letters[i] == c;
      AtIndex(letters, composed, i);
    } else {
      AtNone(letters, composed, c);
    }
  }

  lemma VowelsAreVowels(c: char, mark: char)
    requires mark != '\U{0303}'
    ensures c !in VOWELS ==> LetterCode(c, mark) == None
    ensures forall i, j | 0 <= i < j < |VOWELS| :: VOWELS[i] != VOWELS[j]
  {
    assert VOWELS[0] == 'A' && VOWELS[1] == 'E' && VOWELS[2] == 'I' && VOWELS[3] == 'O' && VOWELS[4] == 'U';
    assert VOWELS[5] == 'a' && VOWELS[6] == 'e' && VOWELS[7] == 'i' && VOWELS[8] == 'o' && VOWELS[9] == 'u';
  }

  lemma TildesAreTildes(c: char)
    ensures c !in TILDE_LETTERS ==> LetterCode(c, '\U{0303}') == None
    ensures forall i, j | 0 <= i < j < |TILDE_LETTERS| :: TILDE_LETTERS[i] != TILDE_LETTERS[j]
  {
    assert TILDE_LETTERS[0] == 'A' && TILDE_LETTERS[1] == 'N' && TILDE_LETTERS[2] == 'O';
    assert TILDE_LETTERS[3] == 'a' && TILDE_LETTERS[4] == 'n' && TILDE_LETTERS[5] == 'o';
  }

  lemma GraveIsChart()
    ensures RowIsChart(VOWELS, GRAVE, '\U{0300}')
  {
  }

  lemma AcuteIsChart()
    ensures RowIsChart(VOWELS, ACUTE, '\U{0301}')
  {
  }

  lemma CircumflexIsChart()
    ensures RowIsChart(VOWELS, CIRCUMFLEX, '\U{0302}')
  {
  }

  lemma DiaeresisIsChart()
    ensures RowIsChart(VOWELS, DIAERESIS, '\U{0308}')
  {
  }

  lemma TildeIsChart()
    ensures RowIsChart(TILDE_LETTERS, TILDE, '\U{0303}')
  {
  }

  lemma OtherMarks(c: char, mark: char)
    requires mark !in ['\U{0300}', '\U{0301}', '\U{0302}', '\U{0303}', '\U{0308}']
    ensures ComposePair(c, mark) == None && LetterCode(c, mark) == None
  {
  }

  /** The composition table is the part of the Latin-1 chart with these five marks. */
  lemma ComposesByChart(c: char, mark: char)
    ensures var r := ComposePair(c, mark);
      (if r.Some? then Some(r.value as int) else None) == LetterCode(c, mark)
  {
    hide LetterCode, RowIsChart, At;
    if mark == '\U{0303}' {
      TildesAreTildes(c);
      TildeIsChart();
      RowReads(TILDE_LETTERS, TILDE, mark, c);
    } else {
      VowelsAreVowels(c, mark);
      match mark
      case '\U{0300}' => GraveIsChart(); RowReads(VOWELS, GRAVE, mark, c);
      case '\U{0301}' => AcuteIsChart(); RowReads(VOWELS, ACUTE, mark, c);
      case '\U{0302}' => CircumflexIsChart(); RowReads(VOWELS, CIRCUMFLEX, mark, c);
      case '\U{0308}' => DiaeresisIsChart(); RowReads(VOWELS, DIAERESIS, mark, c);
      case _ => OtherMarks(c, mark);
    }
  }
}
