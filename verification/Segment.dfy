/** Segment file names, manifests and digests (internal/audit/segment.go). */
module Segments {
  import opened Wrappers
  import opened TypeDefs
  import opened TypeParser
  import opened TypeShapes

  type Byte = n: nat | n < 256
  type Bytes = seq<Byte>

  const NEWLINE: Byte := 10

  const SCHEMA_VERSION := "1"
  const ACTIVE_SEGMENT_NAME := "current.jsonl"
  const SEGMENT_FILE_PREFIX := "segment-"
  const BODY_SUFFIX := ".jsonl"
  const MANIFEST_SUFFIX := ".manifest.json"
  const TEMP_INFIX := ".tmp-"

  /** A UTC time printed as 20060102T150405Z. */
  predicate IsStamp(s: string) {
    && |s| == 16 && s[8] == 'T' && s[15] == 'Z'
    && forall i | 0 <= i < 15 && i != 8 :: IsDigit(s[i])
  }

  type Stamp = s: string | IsStamp(s) witness "20260101T000000Z"

  /** A clock reading together with its printed form. */
  datatype Instant = Instant(nanos: int, stamp: Stamp)

  datatype SegmentManifest = SegmentManifest(
    schemaVersion: string,
    segment: string,
    sequence: nat,
    createdAt: Instant,
    closedAt: Instant,
    recordCount: nat,
    sizeBytes: nat,
    sha256: string,
    previousSegmentHash: string)

  /** JSON coding of manifests and the hex digest, as the libraries provide them. */
  datatype Lib = Lib(
    encode: SegmentManifest -> Bytes,
    decode: Bytes -> Option<SegmentManifest>,
    hash: Bytes -> string)
  {
    ghost predicate Sound() {
      && (forall m :: decode(encode(m)) == Some(m))
      && (forall b :: IsHex(hash(b)))
    }
  }

  // ---- digests ----

  predicate IsHexDigit(c: char) {
    IsDigit(c) || 'a' <= c <= 'f' || 'A' <= c <= 'F'
  }

  /** ValidateSHA256Hex accepts exactly these. */
  predicate IsHex(h: string) {
    |h| == 64 && forall i | 0 <= i < |h| :: IsHexDigit(h[i])
  }

  function LowerChar(c: char): char {
    if 'A' <= c <= 'F' then (c as int + 32) as char else c
  }

  /** Case folding of hexadecimal digits. */
  function LowerHex(h: string): string {
    if h == "" then "" else [LowerChar(h[0])] + LowerHex(h[1..])
  }

  // ---- names ----

  function ZeroPad(s: string, width: nat): string
    decreases width - |s|
  {
    if |s| >= width then s else ZeroPad("0" + s, width)
  }

  function FormatSegmentName(sequence: nat, closedAt: Stamp): string {
    SEGMENT_FILE_PREFIX + ZeroPad(Decimal(sequence), 6) + "-" + closedAt + BODY_SUFFIX
  }

  /** The pattern ^segment-(\d{6})-(\d{8}T\d{6}Z)\.jsonl$ and its first group as a number. */
  function ParseSegmentSequence(name: string): Option<nat> {
    if |name| == 37 && name[..8] == SEGMENT_FILE_PREFIX && name[14] == '-'
       && IsStamp(name[15..31]) && name[31..] == BODY_SUFFIX
       && forall i | 0 <= i < |name[8..14]| :: IsDigit(name[8..14][i])
    then Some(DigitValue(name[8..14]))
    else None
  }

  predicate IsClosedSegmentName(name: string) {
    ParseSegmentSequence(name).Some?
  }

  predicate HasSuffix(s: string, suffix: string) {
    |s| >= |suffix| && s[|s| - |suffix|..] == suffix
  }

  function TrimSuffix(s: string, suffix: string): string {
    if HasSuffix(s, suffix) then s[..|s| - |suffix|] else s
  }

  function ManifestNameFor(segmentName: string): string {
    TrimSuffix(segmentName, BODY_SUFFIX) + MANIFEST_SUFFIX
  }

  function BodyNameFor(manifestName: string): string {
    TrimSuffix(manifestName, MANIFEST_SUFFIX) + BODY_SUFFIX
  }

  predicate IsManifestName(name: string) {
    HasSuffix(name, MANIFEST_SUFFIX)
  }

  /** The names os.CreateTemp can pick for a manifest: a random decimal string follows the infix. */
  function TempName(manifestName: string, random: string): string {
    manifestName + TEMP_INFIX + random
  }

  predicate IsRandom(random: string) {
    random != "" && forall i | 0 <= i < |random| :: IsDigit(random[i])
  }

  // ---- what the names keep apart ----

  lemma {:induction false} ZeroPadKeeps(s: string, width: nat)
    requires forall i | 0 <= i < |s| :: IsDigit(s[i])
    ensures var r := ZeroPad(s, width);
      && |r| == (if |s| < width then width else |s|)
      && (forall i | 0 <= i < |r| :: IsDigit(r[i]))
      && DigitValue(r) == DigitValue(s)
    decreases width - |s|
  {
    if |s| < width {
      LeadingZero(s);
      ZeroPadKeeps("0" + s, width);
    }
  }

  lemma {:induction false} LeadingZero(s: string)
    requires forall i | 0 <= i < |s| :: IsDigit(s[i])
    ensures forall i | 0 <= i < |"0" + s| :: IsDigit(("0" + s)[i])
    ensures DigitValue("0" + s) == DigitValue(s)
  {
    if s == "" {
      assert DigitValue("0") == 10 * DigitValue("") + 0;
    } else {
      LeadingZero(s[..|s| - 1]);
      assert ("0" + s)[..|s|] == "0" + s[..|s| - 1];
    }
  }

  /** How long a number prints. */
  lemma {:induction false} DecimalWidth(n: nat)
    ensures |Decimal(n)| <= 6 <==> n <= 999_999
  {
    if n < 10 {
    } else if n < 100 {
    } else if n < 1_000 {
      assert n / 10 / 10 == n / 100;
      assert |Decimal(n)| == 2 + |Decimal(n / 10 / 10)|;
    } else {
      assert |Decimal(n)| == 1 + |Decimal(n / 10)|;
      assert |Decimal(n / 10)| == 1 + |Decimal(n / 10 / 10)|;
      assert |Decimal(n / 10 / 10)| == 1 + |Decimal(n / 10 / 10 / 10)|;
      DecimalWidth3(n / 10 / 10 / 10);
    }
  }

  lemma {:induction false} DecimalWidth3(n: nat)
    ensures |Decimal(n)| <= 3 <==> n <= 999
    ensures |Decimal(n)| >= 1
  {
    if n >= 1_000 {
      DecimalReads(n / 10 / 10 / 10);
      assert |Decimal(n)| == 1 + |Decimal(n / 10)|;
      assert |Decimal(n / 10)| == 1 + |Decimal(n / 10 / 10)|;
      assert |Decimal(n / 10 / 10)| == 1 + |Decimal(n / 10 / 10 / 10)|;
    } else if n >= 100 {
      assert |Decimal(n)| == 1 + |Decimal(n / 10)|;
      assert |Decimal(n / 10)| == 1 + |Decimal(n / 10 / 10)|;
    }
  }

  /** A closed name carries its sequence number back exactly while it fits six digits. */
  lemma SequenceReadsBack(sequence: nat, closedAt: Stamp)
    ensures ParseSegmentSequence(FormatSegmentName(sequence, closedAt)) ==
      if sequence <= 999_999 then Some(sequence) else None
  {
    var digits := ZeroPad(Decimal(sequence), 6);
    DecimalReads(sequence);
    ZeroPadKeeps(Decimal(sequence), 6);
    DecimalWidth(sequence);
    var name := FormatSegmentName(sequence, closedAt);
    if sequence <= 999_999 {
      assert name[..8] == SEGMENT_FILE_PREFIX;
      assert name[8..14] == digits;
      assert name[15..31] == closedAt;
      assert name[31..] == BODY_SUFFIX;
    } else {
      assert |name| > 37;
    }
  }

  lemma SegmentNameEnds(sequence: nat, closedAt: Stamp)
    ensures HasSuffix(FormatSegmentName(sequence, closedAt), BODY_SUFFIX)
    ensures FormatSegmentName(sequence, closedAt) != ACTIVE_SEGMENT_NAME
    ensures !IsManifestName(FormatSegmentName(sequence, closedAt))
  {
    var name := FormatSegmentName(sequence, closedAt);
    assert name[|name| - 6..] == BODY_SUFFIX;
    assert name[0] == 's' && name[|name| - 1] == 'l';
  }

  /** Names that end like a body have distinct manifests, and each manifest leads back to its body. */
  lemma ManifestLeadsBack(name: string)
    requires HasSuffix(name, BODY_SUFFIX)
    ensures BodyNameFor(ManifestNameFor(name)) == name
    ensures IsManifestName(ManifestNameFor(name))
  {
    var stem := name[..|name| - 6];
    var man := ManifestNameFor(name);
    assert man == stem + MANIFEST_SUFFIX;
    assert man[|man| - 14..] == MANIFEST_SUFFIX && man[..|man| - 14] == stem;
    assert stem + BODY_SUFFIX == name;
  }

  lemma ClosedNameEnds(name: string)
    requires IsClosedSegmentName(name)
    ensures HasSuffix(name, BODY_SUFFIX) && !IsManifestName(name) && name != ACTIVE_SEGMENT_NAME
  {
    assert name[|name| - 6..] == BODY_SUFFIX;
    assert name[|name| - 1] == 'l' && |name| == 37;
  }

  lemma BodySuffixEnds(name: string)
    requires HasSuffix(name, BODY_SUFFIX)
    ensures name[|name| - 1] == 'l'
  {
    assert name[|name| - 6..][5] == 'l';
  }

  lemma ManifestNameIsNotClosed(name: string)
    requires IsManifestName(name)
    ensures !IsClosedSegmentName(name) && name != ACTIVE_SEGMENT_NAME
  {
    assert name[|name| - 1] == 'n';
    if IsClosedSegmentName(name) {
      ClosedNameEnds(name);
    }
  }

  lemma ActiveIsNotClosed()
    ensures !IsClosedSegmentName(ACTIVE_SEGMENT_NAME) && !IsManifestName(ACTIVE_SEGMENT_NAME)
  {
    assert ACTIVE_SEGMENT_NAME[|ACTIVE_SEGMENT_NAME| - 1] == 'l';
  }

  /** A temp file left by a crash is neither a body, nor a manifest, nor the active file. */
  lemma TempIsInert(manifestName: string, random: string)
    requires IsManifestName(manifestName) && IsRandom(random)
    ensures var t := TempName(manifestName, random);
      !IsClosedSegmentName(t) && !IsManifestName(t) && t != ACTIVE_SEGMENT_NAME
  {
    var t := TempName(manifestName, random);
    assert IsDigit(t[|t| - 1]);
    if IsClosedSegmentName(t) {
      ClosedNameEnds(t);
      BodySuffixEnds(t);
    }
  }

  /** Sequence and stamp are both recoverable, so closed names never clash. */
  lemma SegmentNameInjective(i: nat, s: Stamp, j: nat, t: Stamp)
    requires i <= 999_999 && j <= 999_999
    requires FormatSegmentName(i, s) == FormatSegmentName(j, t)
    ensures i == j && s == t
  {
    SequenceReadsBack(i, s);
    SequenceReadsBack(j, t);
    var head := SEGMENT_FILE_PREFIX + ZeroPad(Decimal(i), 6) + "-";
    assert FormatSegmentName(i, s)[|head|..|head| + 16] == s;
    assert FormatSegmentName(j, t)[|head|..|head| + 16] == t;
  }
}
