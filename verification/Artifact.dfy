/** The metadata header of generated bindings (internal/bindings/artifact.go). */
module Artifact {
  import opened Wrappers
  import opened Spaces

  const META_BLOCK_OPEN := "/* @glassbox-bindings-meta"
  const META_BLOCK_CLOSE := " */"
  const META_PREFIX := " * "

  /** The zero time, in nanoseconds from 1970. */
  const ZERO_TIME := -62_135_596_800_000_000_000

  /** One token of the line scanner, with its line break, fills its buffer at most. */
  const MAX_SCAN_TOKEN_SIZE := 65536

  datatype ArtifactMetadata = ArtifactMetadata(abiHash: string, contractId: string, generatedAt: int, glassboxVersion: string)

  datatype HeaderError = LineTooLong | BadTimestamp(text: string)

  const SECOND := 1_000_000_000

  /** The start of the year 0 and of the year 10000, in nanoseconds from 1970. */
  const YEAR_ZERO := -62_167_219_200 * SECOND
  const YEAR_TEN_THOUSAND := 253_402_300_800 * SECOND

  /** The year of t is printed with four digits. */
  predicate FourDigitYear(t: int) {
    YEAR_ZERO <= t < YEAR_TEN_THOUSAND
  }

  /** t without the fraction of its second. */
  function WholeSeconds(t: int): int {
    t - t % SECOND
  }

  /** RFC 3339 times in UTC: printing drops fractions of a second, and reading takes years of four digits. */
  datatype Lib = Lib(format: int -> string, parse: string -> Option<int>)
  {
    ghost predicate Sound() {
      forall t ::
        && CleanText(format(t)) && format(t) != ""
        && parse(format(t)) == if FourDigitYear(t) then Some(WholeSeconds(t)) else None
    }
  }

  /** Trimmed, and on one line. */
  predicate CleanText(s: string) {
    Trimmed(s) && '\n' !in s
  }

  function Utf8Length(s: string): nat {
    if s == "" then 0
    else
      (var c := s[0] as int; if c < 0x80 then 1 else if c < 0x800 then 2 else if c < 0x1_0000 then 3 else 4) + Utf8Length(s[1..])
  }

  predicate Scannable(line: string) {
    Utf8Length(line) < MAX_SCAN_TOKEN_SIZE
  }

  function FieldLine(name: string, pad: string, value: string): string {
    META_PREFIX + name + ":" + pad + value
  }

  function HashLine(m: ArtifactMetadata): string { FieldLine("abi-hash", "    ", m.abiHash) }
  function ContractLine(m: ArtifactMetadata): string { FieldLine("contract-id", " ", m.contractId) }
  function TimeLine(lib: Lib, m: ArtifactMetadata): string { FieldLine("generated", "   ", lib.format(m.generatedAt)) }
  function VersionLine(m: ArtifactMetadata): string { FieldLine("glassbox", "    ", m.glassboxVersion) }

  method RenderMetadataHeader(lib: Lib, m: ArtifactMetadata) returns (b: string)
    ensures b == Header(lib, m)
  {
    hide FieldLine;
    Labels(m.abiHash, m.contractId, lib.format(m.generatedAt), m.glassboxVersion);
    b := META_BLOCK_OPEN + "\n";
    var line := META_PREFIX + "abi-hash:    " + m.abiHash;
    b := b + line + "\n";
    line := META_PREFIX + "contract-id: " + m.contractId;
    b := b + line + "\n";
    line := META_PREFIX + "generated:   " + lib.format(m.generatedAt);
    b := b + line + "\n";
    line := META_PREFIX + "glassbox:    " + m.glassboxVersion;
    b := b + line + "\n";
    b := b + META_BLOCK_CLOSE + "\n";
  }

  lemma Labels(a: string, b: string, c: string, d: string)
    ensures META_PREFIX + "abi-hash:    " + a == FieldLine("abi-hash", "    ", a)
    ensures META_PREFIX + "contract-id: " + b == FieldLine("contract-id", " ", b)
    ensures META_PREFIX + "generated:   " + c == FieldLine("generated", "   ", c)
    ensures META_PREFIX + "glassbox:    " + d == FieldLine("glassbox", "    ", d)
  {
    assert "abi-hash:    " == "abi-hash" + ":" + "    ";
    assert "contract-id: " == "contract-id" + ":" + " ";
    assert "generated:   " == "generated" + ":" + "   ";
    assert "glassbox:    " == "glassbox" + ":" + "    ";
  }

  function Header(lib: Lib, m: ArtifactMetadata): string {
    META_BLOCK_OPEN + "\n" + HashLine(m) + "\n" + ContractLine(m) + "\n" + TimeLine(lib, m) + "\n" + VersionLine(m) + "\n"
    + META_BLOCK_CLOSE + "\n"
  }

  // ---- scanning ----

  /** The line up to the first line break, and what follows it. */
  function CutLine(s: string): (r: (string, string))
    ensures s != "" ==> |r.1| < |s|
    ensures '\n' !in r.0
  {
    if s == "" then ("", "")
    else if s[0] == '\n' then ("", s[1..])
    else
      var (line, rest) := CutLine(s[1..]);
      ([s[0]] + line, rest)
  }

  function DropReturn(line: string): string {
    if line != "" && line[|line| - 1] == '\r' then line[..|line| - 1] else line
  }

  function IndexOf(c: char, s: string): (i: nat)
    ensures i <= |s| && (i < |s| ==> s[i] == c) && c !in s[..i]
  {
    if s == "" || s[0] == c then 0
    else
      var i := 1 + IndexOf(c, s[1..]);
      assert s[..i] == [s[0]] + s[1..][..i - 1];
      i
  }

  datatype Meaning = Close | Skip | Pair(key: string, value: string)

  /** What a line inside the block means. */
  function Classify(line: string): Meaning {
    if TrimSpace(line) == TrimSpace(META_BLOCK_CLOSE) then Close
    else if !(META_PREFIX <= line) then Skip
    else
      var trimmed := line[|META_PREFIX|..];
      var idx := IndexOf(':', trimmed);
      if idx == |trimmed| then Skip else Pair(TrimSpace(trimmed[..idx]), TrimSpace(trimmed[idx + 1..]))
  }

  /** The key-value pairs of the block in s. */
  function Scan(s: string, inBlock: bool, kv: map<string, string>): Result<map<string, string>, HeaderError>
    decreases |s|
  {
    if s == "" then Ok(kv)
    else
      var (raw, rest) := CutLine(s);
      var line := DropReturn(raw);
      if !Scannable(raw) then Err(LineTooLong)
      else if !inBlock then Scan(rest, TrimSpace(line) == META_BLOCK_OPEN, kv)
      else
        match Classify(line)
        case Close => Ok(kv)
        case Skip => Scan(rest, true, kv)
        case Pair(key, value) => Scan(rest, true, kv[key := value])
  }

  function Get(kv: map<string, string>, key: string): string {
    if key in kv then kv[key] else ""
  }

  function Assemble(lib: Lib, kv: map<string, string>): Result<Option<ArtifactMetadata>, HeaderError> {
    if kv == map[] then Ok(None)
    else
      var ts := Get(kv, "generated");
      if ts == "" then
        Ok(Some(ArtifactMetadata(Get(kv, "abi-hash"), Get(kv, "contract-id"), ZERO_TIME, Get(kv, "glassbox"))))
      else
        match lib.parse(ts)
        case None => Err(BadTimestamp(ts))
        case Some(t) => Ok(Some(ArtifactMetadata(Get(kv, "abi-hash"), Get(kv, "contract-id"), t, Get(kv, "glassbox"))))
  }

  function Parsed(lib: Lib, content: string): Result<Option<ArtifactMetadata>, HeaderError> {
    match Scan(content, false, map[])
    case Err(e) => Err(e)
    case Ok(kv) => Assemble(lib, kv)
  }

  method ParseMetadataHeader(lib: Lib, content: string) returns (r: Result<Option<ArtifactMetadata>, HeaderError>)
    ensures r == Parsed(lib, content)
  {
    hide Classify, TrimSpace, Utf8Length, CutLine, DropReturn;
    var inBlock, kv, rest := false, map[], content;
    while rest != ""
      invariant Scan(content, false, map[]) == Scan(rest, inBlock, kv)
      decreases |rest|
    {
      var (raw, next) := CutLine(rest);
      if !Scannable(raw) {
        return Err(LineTooLong);
      }
      var line := DropReturn(raw);
      rest := next;
      if !inBlock {
        inBlock := TrimSpace(line) == META_BLOCK_OPEN;
        continue;
      }
      match Classify(line) {
        case Close => break;
        case Skip =>
        case Pair(key, value) => kv := kv[key := value];
      }
    }
    r := Assemble(lib, kv);
  }

  // ---- one line ----

  lemma {:induction false} CutJoined(line: string, rest: string)
    requires '\n' !in line
    ensures CutLine(line + "\n" + rest) == (line, rest)
  {
    if line == "" {
      assert ("" + "\n" + rest)[1..] == rest;
    } else {
      CutJoined(line[1..], rest);
      assert (line + "\n" + rest)[1..] == line[1..] + "\n" + rest;
      assert line == [line[0]] + line[1..];
    }
  }

  lemma {:induction false} IndexAt(a: string, c: char, b: string)
    requires c !in a
    ensures IndexOf(c, a + [c] + b) == |a|
  {
    if a != "" {
      IndexAt(a[1..], c, b);
      assert (a + [c] + b)[1..] == a[1..] + [c] + b;
    }
  }

  predicate IsLabel(name: string) {
    name != "" && Trimmed(name) && ':' !in name && '\n' !in name
  }

  /** A line of the header is read as its label and its value. */
  lemma ClassifyField(name: string, pad: string, value: string)
    requires IsLabel(name) && AllSpace(pad) && Trimmed(value)
    ensures Classify(FieldLine(name, pad, value)) == Pair(name, value)
  {
    hide TrimSpace, IndexOf;
    var line := FieldLine(name, pad, value);
    FieldIsNotClose(line);
    assert line[|META_PREFIX|..] == name + ":" + (pad + value);
    IndexAt(name, ':', pad + value);
    assert (name + ":" + (pad + value))[..|name|] == name;
    assert (name + ":" + (pad + value))[|name| + 1..] == pad + value;
    TrimIdle(name);
    TrimPadded(pad, value);
  }

  lemma CloseMark()
    ensures TrimSpace(META_BLOCK_CLOSE) == "*/"
  {
    assert META_BLOCK_CLOSE == " " + "*/";
    TrimPadded(" ", "*/");
  }

  /** A line that starts with the prefix does not close the block. */
  lemma FieldIsNotClose(line: string)
    requires META_PREFIX <= line
    ensures TrimSpace(line) != TrimSpace(META_BLOCK_CLOSE)
  {
    hide TrimSpace;
    CloseMark();
    var pre, post := TrimSplits(line);
    assert line[1] == '*' && line[2] == ' ';
  }

  // ---- the header read back ----

  predicate Blank(pad: string) {
    forall i | 0 <= i < |pad| :: pad[i] == ' '
  }

  /** Printed fields are one line and do not end in a carriage return. */
  lemma FieldIsLine(name: string, pad: string, value: string)
    requires IsLabel(name) && Blank(pad) && CleanText(value)
    ensures var line := FieldLine(name, pad, value); '\n' !in line && DropReturn(line) == line
  {
  }

  /** Reading on from a line inside the block that holds one field. */
  lemma ScanField(name: string, pad: string, value: string, rest: string, kv: map<string, string>)
    requires IsLabel(name) && Blank(pad) && CleanText(value)
    ensures var line := FieldLine(name, pad, value);
      Scan(line + "\n" + rest, true, kv) ==
      if Scannable(line) then Scan(rest, true, kv[name := value]) else Err(LineTooLong)
  {
    hide Classify, Scannable, FieldLine, DropReturn, CutLine;
    var line := FieldLine(name, pad, value);
    FieldIsLine(name, pad, value);
    CutJoined(line, rest);
    ClassifyField(name, pad, value);
    assert line + "\n" + rest != "";
  }

  predicate Clean(m: ArtifactMetadata) {
    CleanText(m.abiHash) && CleanText(m.contractId) && CleanText(m.glassboxVersion)
  }

  /** Every line of the header fits the scanner's buffer. */
  predicate Fits(lib: Lib, m: ArtifactMetadata) {
    Scannable(HashLine(m)) && Scannable(ContractLine(m)) && Scannable(TimeLine(lib, m)) && Scannable(VersionLine(m))
  }

  function Fields(lib: Lib, m: ArtifactMetadata): map<string, string> {
    map["abi-hash" := m.abiHash, "contract-id" := m.contractId, "generated" := lib.format(m.generatedAt), "glassbox" := m.glassboxVersion]
  }

  lemma ScanOpen(rest: string)
    ensures Scan(META_BLOCK_OPEN + "\n" + rest, false, map[]) == Scan(rest, true, map[])
  {
    CutJoined(META_BLOCK_OPEN, rest);
    TrimIdle(META_BLOCK_OPEN);
    assert DropReturn(META_BLOCK_OPEN) == META_BLOCK_OPEN;
    hide Scannable, TrimSpace, Classify, CutLine, DropReturn;
    assert META_BLOCK_OPEN + "\n" + rest != "";
    ShortIsScannable(META_BLOCK_OPEN);
  }

  lemma ScanClose(rest: string, kv: map<string, string>)
    ensures Scan(META_BLOCK_CLOSE + "\n" + rest, true, kv) == Ok(kv)
  {
    CutJoined(META_BLOCK_CLOSE, rest);
    assert META_BLOCK_CLOSE + "\n" + rest != "";
    ShortIsScannable(META_BLOCK_CLOSE);
  }

  lemma {:induction false} Utf8Bound(s: string)
    ensures Utf8Length(s) <= 4 * |s|
  {
    if s != "" {
      Utf8Bound(s[1..]);
    }
  }

  lemma ShortIsScannable(s: string)
    requires |s| < 1000
    ensures Scannable(s)
  {
    Utf8Bound(s);
  }

  /** Scanning a clean header finds its four fields, or fails on a line that is too long. */
  lemma ScanHeader(lib: Lib, m: ArtifactMetadata, body: string)
    requires lib.Sound() && Clean(m)
    ensures Scan(Header(lib, m) + body, false, map[]) == if Fits(lib, m) then Ok(Fields(lib, m)) else Err(LineTooLong)
  {
    hide Scan, FieldLine, Scannable, CleanText;
    var a, b, c, d := HashLine(m), ContractLine(m), TimeLine(lib, m), VersionLine(m);
    var r5 := META_BLOCK_CLOSE + "\n" + body;
    var r4 := d + "\n" + r5;
    var r3 := c + "\n" + r4;
    var r2 := b + "\n" + r3;
    var r1 := a + "\n" + r2;
    HeaderLines(lib, m, body);
    LabelsAre();
    var k1 := map["abi-hash" := m.abiHash];
    var k2 := k1["contract-id" := m.contractId];
    var k3 := k2["generated" := lib.format(m.generatedAt)];
    var k4 := k3["glassbox" := m.glassboxVersion];
    ScanOpen(r1);
    ScanField("abi-hash", "    ", m.abiHash, r2, map[]);
    ScanField("contract-id", " ", m.contractId, r3, k1);
    ScanField("generated", "   ", lib.format(m.generatedAt), r4, k2);
    ScanField("glassbox", "    ", m.glassboxVersion, r5, k3);
    ScanClose(body, k4);
    assert map[]["abi-hash" := m.abiHash] == k1;
    assert k4 == Fields(lib, m);
  }

  lemma LabelsAre()
    ensures IsLabel("abi-hash") && IsLabel("contract-id") && IsLabel("generated") && IsLabel("glassbox")
  {
  }

  lemma HeaderLines(lib: Lib, m: ArtifactMetadata, body: string)
    ensures Header(lib, m) + body ==
      META_BLOCK_OPEN + "\n" + (HashLine(m) + "\n" + (ContractLine(m) + "\n" + (TimeLine(lib, m) + "\n" + (VersionLine(m) + "\n"
      + (META_BLOCK_CLOSE + "\n" + body)))))
  {
    hide FieldLine;
  }

  // ---- exactly which metadata comes back ----

  ghost predicate CleanValues(kv: map<string, string>) {
    forall k | k in kv :: CleanText(kv[k])
  }

  lemma ClassifiedClean(line: string)
    requires '\n' !in line
    ensures Classify(line).Pair? ==> CleanText(Classify(line).value)
  {
    hide TrimSpace, IndexOf;
    if Classify(line).Pair? {
      var trimmed := line[|META_PREFIX|..];
      var rest := trimmed[IndexOf(':', trimmed) + 1..];
      var pre, post := TrimSplits(rest);
      forall c | c in TrimSpace(rest) ensures c in line {
        assert c in pre + TrimSpace(rest) + post;
      }
    }
  }

  /** The values a scan collects are trimmed and on one line. */
  lemma {:induction false} ScannedClean(s: string, inBlock: bool, kv: map<string, string>)
    requires CleanValues(kv)
    ensures Scan(s, inBlock, kv).Ok? ==> CleanValues(Scan(s, inBlock, kv).value)
    decreases |s|
  {
    hide Classify, CutLine, Scannable, TrimSpace, CleanText;
    if s != "" {
      var (raw, rest) := CutLine(s);
      var line := DropReturn(raw);
      if !inBlock {
        ScannedClean(rest, TrimSpace(line) == META_BLOCK_OPEN, kv);
      } else {
        ClassifiedClean(line);
        match Classify(line)
        case Close =>
        case Skip => ScannedClean(rest, true, kv);
        case Pair(key, value) => ScannedClean(rest, true, kv[key := value]);
      }
    }
  }

  lemma ParsedClean(lib: Lib, content: string)
    ensures Parsed(lib, content).Ok? && Parsed(lib, content).value.Some? ==> Clean(Parsed(lib, content).value.value)
  {
    hide Scan;
    ScannedClean(content, false, map[]);
  }

  /**
   * Metadata comes back from its header, whatever follows it, exactly when its fields are trimmed
   * single lines that the scanner can take and its timestamp is a whole second of a four-digit year.
   */
  lemma HeaderRoundTripExact(lib: Lib, m: ArtifactMetadata, body: string)
    requires lib.Sound()
    ensures Parsed(lib, Header(lib, m) + body) == Ok(Some(m))
      <==> Clean(m) && Fits(lib, m) && m.generatedAt % SECOND == 0 && FourDigitYear(m.generatedAt)
  {
    hide Header, Scan, Fits, Parsed, CleanText;
    assert lib.parse(lib.format(m.generatedAt)) == if FourDigitYear(m.generatedAt) then Some(WholeSeconds(m.generatedAt)) else None;
    if Clean(m) {
      ScanHeader(lib, m, body);
      ParsedHeader(lib, m, body);
    } else {
      ParsedClean(lib, Header(lib, m) + body);
    }
  }

  lemma ParsedHeader(lib: Lib, m: ArtifactMetadata, body: string)
    requires lib.Sound() && Scan(Header(lib, m) + body, false, map[]) == if Fits(lib, m) then Ok(Fields(lib, m)) else Err(LineTooLong)
    ensures Parsed(lib, Header(lib, m) + body) ==
      if !Fits(lib, m) then Err(LineTooLong)
      else
        if FourDigitYear(m.generatedAt) then Ok(Some(m.(generatedAt := WholeSeconds(m.generatedAt))))
        else Err(BadTimestamp(lib.format(m.generatedAt)))
  {
    hide Header, Scan, Fits, CleanText;
    assert lib.parse(lib.format(m.generatedAt)) == if FourDigitYear(m.generatedAt) then Some(WholeSeconds(m.generatedAt)) else None;
    if Fits(lib, m) {
      var kv := Fields(lib, m);
      assert "generated" in kv;
      assert Get(kv, "abi-hash") == m.abiHash && Get(kv, "contract-id") == m.contractId;
      assert Get(kv, "generated") == lib.format(m.generatedAt) && Get(kv, "glassbox") == m.glassboxVersion;
    }
  }

  /** Content without the opening line has no metadata. */
  lemma {:induction false} NoBlockNoMetadata(lib: Lib, content: string)
    requires NoOpening(content) && Scan(content, false, map[]).Ok?
    ensures Parsed(lib, content) == Ok(None)
  {
    hide TrimSpace, CutLine, Scannable;
    NothingScanned(content);
  }

  predicate NoOpening(s: string)
    decreases |s|
  {
    s == "" || (var (raw, rest) := CutLine(s); TrimSpace(DropReturn(raw)) != META_BLOCK_OPEN && NoOpening(rest))
  }

  lemma {:induction false} NothingScanned(s: string)
    requires NoOpening(s)
    ensures Scan(s, false, map[]).Ok? ==> Scan(s, false, map[]).value == map[]
    decreases |s|
  {
    hide TrimSpace, CutLine, Scannable;
    if s != "" {
      NothingScanned(CutLine(s).1);
    }
  }

  // ---- limits in numbers ----

  /** Every character of the text takes n bytes in UTF-8. */
  predicate Takes(s: string, n: nat) {
    forall i | 0 <= i < |s| ::
      var c := s[i] as int;
      (n == 1 && c <= 0x7F) || (n == 2 && 0x80 <= c <= 0x7FF) || (n == 3 && 0x800 <= c <= 0xFFFF) || (n == 4 && 0x1_0000 <= c)
  }

  lemma {:induction false} Utf8Uniform(s: string, n: nat)
    requires Takes(s, n)
    ensures Utf8Length(s) == n * |s|
  {
    if s != "" {
      Utf8Uniform(s[1..], n);
    }
  }

  lemma {:induction false} Utf8Concat(s: string, t: string)
    ensures Utf8Length(s + t) == Utf8Length(s) + Utf8Length(t)
  {
    if s == "" {
      assert s + t == t;
    } else {
      Utf8Concat(s[1..], t);
      assert (s + t)[1..] == s[1..] + t;
    }
  }

  /** A line of characters of one to four bytes each can be scanned exactly when they take fewer than 64 KiB. */
  lemma ScannableExact(a: string, b: string, c: string, d: string)
    requires Takes(a, 1) && Takes(b, 2) && Takes(c, 3) && Takes(d, 4)
    ensures Scannable(a + b + c + d) <==> |a| + 2 * |b| + 3 * |c| + 4 * |d| <= 65_535
  {
    hide Utf8Length;
    Utf8Uniform(a, 1);
    Utf8Uniform(b, 2);
    Utf8Uniform(c, 3);
    Utf8Uniform(d, 4);
    Utf8Concat(a + b + c, d);
    Utf8Concat(a + b, c);
    Utf8Concat(a, b);
  }

  /** The years of four digits are the 3652425 days from the one that is 719528 days before 1970. */
  lemma FourDigitYearsExact(t: int)
    ensures FourDigitYear(t) <==> 0 <= t + 719_528 * 24 * 60 * 60 * 1_000_000_000 < 3_652_425 * 24 * 60 * 60 * 1_000_000_000
  {
  }
}
