/**
 * Bundle checksums and the framing of the ledger state (internal/bundle/bundle.go).
 * A byte string is a string of characters below 256.
 */
module Bundle {
  import opened Sorting

  const TWO32: nat := 0x1_0000_0000

  type LedgerState = map<string, string>

  /** A 32-bit length, most significant byte first; longer lengths wrap around. */
  function Header(n: nat): string {
    var m := n % TWO32;
    [(m / 0x100_0000) as char, (m / 0x1_0000 % 0x100) as char, (m / 0x100 % 0x100) as char, (m % 0x100) as char]
  }

  function Framed(data: string): string {
    Header(|data|) + data
  }

  /** The frames of the keys in the given order, each followed by its value's. */
  function Frames(state: LedgerState, keys: seq<string>): string
    requires forall k | k in keys :: k in state
  {
    if keys == [] then "" else Framed(keys[0]) + Framed(state[keys[0]]) + Frames(state, keys[1..])
  }

  /** What is fed to the hash. */
  ghost predicate HashInput(state: LedgerState, input: string) {
    if state == map[] then input == "{}"
    else exists keys :: Ascending(keys, state.Keys) && input == Frames(state, keys)
  }

  // ---- the code ----

  method WriteFramed(buffer: string, data: string) returns (r: string)
    ensures r == buffer + Framed(data)
  {
    var n := |data| % TWO32;
    r := buffer + [(n / 0x100_0000) as char, (n / 0x1_0000 % 0x100) as char, (n / 0x100 % 0x100) as char, (n % 0x100) as char];
    r := r + data;
  }

  /** The keys, collected in any order and sorted. */
  method CollectKeys(state: LedgerState) returns (keys: seq<string>)
    ensures Ascending(keys, state.Keys)
  {
    hide StringLe, SortedBy, Ascending;
    var todo := state.Keys;
    var found: seq<string> := [];
    while todo != {}
      invariant todo <= state.Keys
      invariant forall k :: k in found <==> k in state && k !in todo
      invariant forall i, j | 0 <= i < j < |found| :: found[i] != found[j]
    {
      var k :| k in todo;
      todo := todo - {k};
      found := found + [k];
    }
    keys := Sort(StringLe, found);
    SortAscending(found, state.Keys);
  }

  /** The framing loop over the sorted keys. */
  method WriteFrames(state: LedgerState, keys: seq<string>) returns (buffer: string)
    requires forall k | k in keys :: k in state
    ensures buffer == Frames(state, keys)
  {
    hide Framed, Frames;
    buffer := "";
    assert keys[0..] == keys;
    assert "" + Frames(state, keys) == Frames(state, keys);
    for i := 0 to |keys|
      invariant buffer + Frames(state, keys[i..]) == Frames(state, keys)
    {
      ghost var left := keys[i..];
      assert keys[i] in keys && left[0] == keys[i] && left[1..] == keys[i + 1..];
      FramesCons(state, left);
      ghost var before, rest := buffer, Frames(state, keys[i + 1..]);
      buffer := WriteFramed(buffer, keys[i]);
      buffer := WriteFramed(buffer, state[keys[i]]);
      Regroup(before, Framed(keys[i]), Framed(state[keys[i]]), rest);
    }
    FramesNone(state, keys[|keys|..]);
    assert buffer + "" == buffer;
  }

  lemma Regroup(a: string, b: string, c: string, d: string)
    ensures a + b + c + d == a + (b + c + d)
  {
  }

  /** The bytes sha256HexOfLedgerState writes into the hasher. */
  method LedgerStateInput(state: LedgerState) returns (input: string)
    ensures HashInput(state, input)
  {
    hide StringLe, Frames;
    if |state| == 0 {
      return "{}";
    }
    var keys := CollectKeys(state);
    input := WriteFrames(state, keys);
  }

  lemma FramesCons(state: LedgerState, keys: seq<string>)
    requires keys != [] && forall k | k in keys :: k in state
    ensures Frames(state, keys) == Framed(keys[0]) + Framed(state[keys[0]]) + Frames(state, keys[1..])
  {
  }

  lemma FramesNone(state: LedgerState, keys: seq<string>)
    requires keys == []
    ensures Frames(state, keys) == ""
  {
  }

  // ---- the framing is injective ----

  lemma HeaderInjective(m: nat, n: nat)
    requires m < TWO32 && n < TWO32 && Header(m) == Header(n)
    ensures m == n
  {
    var a, b := Header(m), Header(n);
    assert a[0] == b[0] && a[1] == b[1] && a[2] == b[2] && a[3] == b[3];
    HeaderValue(m);
    HeaderValue(n);
  }

  lemma ByteCut(m: nat, d: nat)
    requires d == 0x1_0000 || d == 0x100 || d == 1
    ensures m / d == m / (d * 0x100) * 0x100 + m / d % 0x100
  {
  }

  lemma HeaderValue(m: nat)
    requires m < TWO32
    ensures var h := Header(m);
      m == h[0] as nat * 0x100_0000 + h[1] as nat * 0x1_0000 + h[2] as nat * 0x100 + h[3] as nat
  {
    ByteCut(m, 0x1_0000);
    ByteCut(m, 0x100);
    ByteCut(m, 1);
    var a, b, c, d := m / 0x100_0000, m / 0x1_0000 % 0x100, m / 0x100 % 0x100, m % 0x100;
    assert m == ((a * 0x100 + b) * 0x100 + c) * 0x100 + d;
    HeaderBytes(m, a, b, c, d);
  }

  lemma HeaderBytes(m: nat, a: nat, b: nat, c: nat, d: nat)
    requires m < TWO32 && a == m / 0x100_0000 && b == m / 0x1_0000 % 0x100 && c == m / 0x100 % 0x100 && d == m % 0x100
    ensures a < 0x100 && Header(m) == [a as char, b as char, c as char, d as char]
  {
  }

  /** Two framed strings followed by anything can be told apart. */
  lemma FramedPrefix(a: string, x: string, b: string, y: string)
    requires |a| < TWO32 && |b| < TWO32
    requires Framed(a) + x == Framed(b) + y
    ensures a == b && x == y
  {
    var s, t := Framed(a) + x, Framed(b) + y;
    assert s[..4] == Header(|a|) && t[..4] == Header(|b|);
    HeaderInjective(|a|, |b|);
    assert s[4..4 + |a|] == a && t[4..4 + |b|] == b;
    assert s[4 + |a|..] == x && t[4 + |b|..] == y;
  }

  ghost predicate Short(state: LedgerState) {
    ShorterThan(TWO32, state)
  }

  /** Every key and value is shorter than n. */
  ghost predicate ShorterThan(n: nat, state: LedgerState) {
    forall k | k in state :: |k| < n && |state[k]| < n
  }

  lemma {:induction false} FramesInjective(s: LedgerState, ks: seq<string>, t: LedgerState, kt: seq<string>)
    requires Short(s) && Short(t)
    requires (forall k | k in ks :: k in s) && (forall k | k in kt :: k in t)
    requires Frames(s, ks) == Frames(t, kt)
    ensures ks == kt && forall k | k in ks :: s[k] == t[k]
  {
    hide Framed, Frames, Short;
    if ks == [] || kt == [] {
      FramesEmptyExact(s, ks);
      FramesEmptyExact(t, kt);
    } else {
      var k, l := ks[0], kt[0];
      assert k in ks && l in kt;
      FramesCons(s, ks);
      FramesCons(t, kt);
      var u, v := Frames(s, ks[1..]), Frames(t, kt[1..]);
      assert Frames(s, ks) == Framed(k) + (Framed(s[k]) + u);
      assert Frames(t, kt) == Framed(l) + (Framed(t[l]) + v);
      ShortEntry(s, k);
      ShortEntry(t, l);
      FramedPrefix(k, Framed(s[k]) + u, l, Framed(t[l]) + v);
      FramedPrefix(s[k], u, t[l], v);
      FramesInjective(s, ks[1..], t, kt[1..]);
      assert ks == [k] + ks[1..] && kt == [l] + kt[1..];
    }
  }

  lemma ShortEntry(s: LedgerState, k: string)
    requires Short(s) && k in s
    ensures |k| < TWO32 && |s[k]| < TWO32
  {
  }

  lemma FramesEmptyExact(state: LedgerState, keys: seq<string>)
    requires forall k | k in keys :: k in state
    ensures Frames(state, keys) == "" <==> keys == []
  {
  }

  lemma FramesLong(state: LedgerState, keys: seq<string>)
    requires keys != [] && forall k | k in keys :: k in state
    ensures |Frames(state, keys)| >= 8
  {
  }

  /** Whatever the order in which the map was walked, the hashed bytes determine the ledger state. */
  lemma LedgerStateInjective(s: LedgerState, x: string, t: LedgerState, y: string)
    requires Short(s) && Short(t) && HashInput(s, x) && HashInput(t, y)
    ensures x == y <==> s == t
  {
    hide StringLe, Frames;
    if s == map[] || t == map[] {
      if s != map[] {
        NonEmptyInput(s, x);
      }
      if t != map[] {
        NonEmptyInput(t, y);
      }
    } else {
      var ks :| Ascending(ks, s.Keys) && x == Frames(s, ks);
      var kt :| Ascending(kt, t.Keys) && y == Frames(t, kt);
      if x == y {
        FramesInjective(s, ks, t, kt);
        assert s.Keys == t.Keys;
      } else if s == t {
        AscendingUnique(ks, kt, s.Keys);
      }
    }
  }

  lemma NonEmptyInput(s: LedgerState, x: string)
    requires s != map[] && HashInput(s, x)
    ensures |x| >= 8
  {
    var ks :| Ascending(ks, s.Keys) && x == Frames(s, ks);
    var k :| k in s;
    assert k in ks;
    FramesLong(s, ks);
  }

  lemma OneFrame(state: LedgerState, k: string)
    requires state.Keys == {k}
    ensures HashInput(state, Framed(k) + Framed(state[k]))
  {
    hide StringLe;
    assert k in state.Keys && k in state;
    assert Ascending([k], state.Keys);
    assert [k][1..] == [] && Frames(state, []) == "";
    assert Frames(state, [k]) == Framed(k) + Framed(state[k]) + "";
    assert Framed(k) + Framed(state[k]) + "" == Framed(k) + Framed(state[k]);
  }

  /** From 2^32 bytes on the lengths wrap: two different states that feed the same bytes to the hash. */
  lemma LongStatesCollide(u: string)
    requires |u| == TWO32 - 4
    ensures var s, t := map[Header(0) + u := ""], map["" := u + Header(0)];
      s != t && exists x :: HashInput(s, x) && HashInput(t, x)
  {
    var zero := Header(0);
    var k, v := zero + u, u + zero;
    var s, t := map[k := ""], map["" := v];
    assert |k| == TWO32 && |v| == TWO32;
    assert Header(|k|) == zero && Header(|v|) == zero;
    OneFrame(s, k);
    OneFrame(t, "");
    hide HashInput;
    assert Framed(k) + Framed("") == zero + zero + u + zero;
    assert Framed("") + Framed(v) == zero + zero + u + zero;
    assert "" !in s;
  }

  /** The hashed bytes tell apart all states whose keys and values are shorter than n. */
  ghost predicate TellsApart(n: nat) {
    forall s, x, t, y | ShorterThan(n, s) && ShorterThan(n, t) && HashInput(s, x) && HashInput(t, y) :: x == y ==> s == t
  }

  /** 2^32 is the exact bound below which no two states share their bytes. */
  lemma FramingBoundExact(n: nat)
    ensures TellsApart(n) <==> n <= TWO32
  {
    hide HashInput;
    if n <= TWO32 {
      forall s, x, t, y | ShorterThan(n, s) && ShorterThan(n, t) && HashInput(s, x) && HashInput(t, y) ensures x == y ==> s == t {
        LedgerStateInjective(s, x, t, y);
      }
    } else {
      var u := seq(TWO32 - 4, i => 'a');
      var s, t := map[Header(0) + u := ""], map["" := u + Header(0)];
      LongStatesCollide(u);
      var x :| HashInput(s, x) && HashInput(t, x);
      assert ShorterThan(n, s) && ShorterThan(n, t);
    }
  }

  // ---- checksums and verification ----

  datatype Member = EnvelopeXdr | ResultMetaXdr | LedgerStateMember | ProvenanceMember | NetworkMember

  function MemberName(m: Member): string {
    match m
    case EnvelopeXdr => "envelope_xdr"
    case ResultMetaXdr => "result_meta_xdr"
    case LedgerStateMember => "ledger_state"
    case ProvenanceMember => "provenance"
    case NetworkMember => "network"
  }

  /** A bundle; provenance and network are the JSON texts that are hashed for them. */
  datatype Manifest = Manifest(
    envelope: string,
    resultMeta: string,
    ledgerState: LedgerState,
    provenance: string,
    network: string,
    checksums: map<string, string>)

  datatype VerificationReport = VerificationReport(ok: bool, fieldErrors: set<string>, missingMembers: seq<string>)

  /** The bytes hashed for a member. */
  ghost predicate MemberInput(m: Manifest, member: Member, input: string) {
    match member
    case EnvelopeXdr => input == m.envelope
    case ResultMetaXdr => input == m.resultMeta
    case LedgerStateMember => HashInput(m.ledgerState, input)
    case ProvenanceMember => input == m.provenance
    case NetworkMember => input == m.network
  }

  /** sums holds the digest of every member and nothing else. */
  ghost predicate AreChecksums(hash: string -> string, m: Manifest, sums: map<string, string>) {
    && sums.Keys == {"envelope_xdr", "result_meta_xdr", "ledger_state", "provenance", "network"}
    && forall member: Member :: IsMemberSum(hash, m, member, sums[MemberName(member)])
  }

  /** sum is the digest of what is hashed for the member. */
  ghost predicate IsMemberSum(hash: string -> string, m: Manifest, member: Member, sum: string) {
    exists input :: MemberInput(m, member, input) && sum == hash(input)
  }

  method ComputeChecksums(hash: string -> string, m: Manifest) returns (sums: map<string, string>)
    ensures AreChecksums(hash, m, sums)
  {
    var state := LedgerStateInput(m.ledgerState);
    sums := map[
      "envelope_xdr" := hash(m.envelope),
      "result_meta_xdr" := hash(m.resultMeta),
      "ledger_state" := hash(state),
      "provenance" := hash(m.provenance),
      "network" := hash(m.network)];
    forall member: Member ensures IsMemberSum(hash, m, member, sums[MemberName(member)]) {
      match member
      case EnvelopeXdr => assert MemberInput(m, member, m.envelope);
      case ResultMetaXdr => assert MemberInput(m, member, m.resultMeta);
      case LedgerStateMember => assert MemberInput(m, member, state);
      case ProvenanceMember => assert MemberInput(m, member, m.provenance);
      case NetworkMember => assert MemberInput(m, member, m.network);
    }
  }

  /** Verify: every recomputed checksum is compared with the stored one. */
  method Verify(hash: string -> string, m: Manifest) returns (report: VerificationReport, ghost live: map<string, string>)
    ensures AreChecksums(hash, m, live)
    ensures report.ok <==> forall n | n in live :: n in m.checksums && m.checksums[n] == live[n]
    ensures report.fieldErrors == set n | n in live && n in m.checksums && m.checksums[n] != live[n]
    ensures forall n :: n in report.missingMembers <==> n in live && n !in m.checksums
    ensures SortedBy(StringLe, report.missingMembers)
  {
    hide StringLe;
    var sums := ComputeChecksums(hash, m);
    live := sums;
    var todo := sums.Keys;
    var ok, errors, missing := true, {}, [];
    while todo != {}
      invariant todo <= sums.Keys
      invariant ok <==> forall n | n in sums && n !in todo :: n in m.checksums && m.checksums[n] == sums[n]
      invariant errors == set n | n in sums && n !in todo && n in m.checksums && m.checksums[n] != sums[n]
      invariant forall n :: n in missing <==> n in sums && n !in todo && n !in m.checksums
    {
      var n :| n in todo;
      todo := todo - {n};
      if n !in m.checksums {
        missing := missing + [n];
        ok := false;
      } else if m.checksums[n] != sums[n] {
        errors := errors + {n};
        ok := false;
      }
    }
    var sorted := Sort(StringLe, missing);
    StringLePreorder();
    SortSorts(StringLe, missing);
    SortPermutes(StringLe, missing);
    PermutationMembers(sorted, missing);
    report := VerificationReport(ok, errors, sorted);
  }

  /** The digest separates the members of the two bundles. */
  ghost predicate NoCollision(hash: string -> string, m: Manifest, n: Manifest) {
    forall member: Member, x, y | MemberInput(m, member, x) && MemberInput(n, member, y) && hash(x) == hash(y) :: x == y
  }

  /** A bundle compared with the checksums of another passes exactly when no member has changed. */
  lemma VerifyExact(hash: string -> string, m: Manifest, sealed: map<string, string>, n: Manifest, live: map<string, string>)
    requires AreChecksums(hash, m, sealed) && AreChecksums(hash, n, live)
    requires Short(m.ledgerState) && Short(n.ledgerState) && NoCollision(hash, m, n)
    ensures sealed == live <==>
      m.envelope == n.envelope && m.resultMeta == n.resultMeta && m.ledgerState == n.ledgerState
      && m.provenance == n.provenance && m.network == n.network
  {
    hide HashInput;
    SameMember(hash, m, sealed, n, live, EnvelopeXdr);
    SameMember(hash, m, sealed, n, live, ResultMetaXdr);
    SameMember(hash, m, sealed, n, live, LedgerStateMember);
    SameMember(hash, m, sealed, n, live, ProvenanceMember);
    SameMember(hash, m, sealed, n, live, NetworkMember);
  }

  lemma SameMember(hash: string -> string, m: Manifest, sealed: map<string, string>, n: Manifest, live: map<string, string>, member: Member)
    requires AreChecksums(hash, m, sealed) && AreChecksums(hash, n, live)
    requires Short(m.ledgerState) && Short(n.ledgerState) && NoCollision(hash, m, n)
    ensures MemberName(member) in sealed && MemberName(member) in live
    ensures sealed[MemberName(member)] == live[MemberName(member)] <==>
      match member
      case EnvelopeXdr => m.envelope == n.envelope
      case ResultMetaXdr => m.resultMeta == n.resultMeta
      case LedgerStateMember => m.ledgerState == n.ledgerState
      case ProvenanceMember => m.provenance == n.provenance
      case NetworkMember => m.network == n.network
  {
    hide HashInput, Short;
    assert IsMemberSum(hash, m, member, sealed[MemberName(member)]);
    assert IsMemberSum(hash, n, member, live[MemberName(member)]);
    var x :| MemberInput(m, member, x) && sealed[MemberName(member)] == hash(x);
    var y :| MemberInput(n, member, y) && live[MemberName(member)] == hash(y);
    if member.LedgerStateMember? {
      LedgerStateInjective(m.ledgerState, x, n.ledgerState, y);
    }
  }

  /** An empty ledger state is hashed as the two characters of an empty object, and no other state is. */
  lemma EmptyStateText(state: LedgerState, input: string)
    requires HashInput(state, input)
    ensures input == ['{', '}'] <==> |state| == 0
  {
    if state != map[] {
      NonEmptyInput(state, input);
    }
  }
}
