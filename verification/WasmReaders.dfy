/** The section readers on any bytes, truncated ones included: what is read, which error is given, what is warned of. */
module WasmReaders {
  import opened Wrappers
  import opened TypeDefs
  import opened Wasm

  // ---- length prefixes ----

  lemma HighBit(b: bv8)
    ensures More(b) <==> b >= 0x80
  {
  }

  lemma {:induction false} LengthIs(data: Bytes, offset: nat, i: nat)
    requires offset + i <= |data|
    ensures var n := LebLength(data, offset, i);
      && (forall k | offset + i <= k < offset + n :: data[k] >= 0x80)
      && (offset + n < |data| ==> data[offset + n] < 0x80)
    decreases |data| - offset - i
  {
    if offset + i < |data| {
      HighBit(data[offset + i]);
      if More(data[offset + i]) {
        LengthIs(data, offset, i + 1);
      }
    }
  }

  /** From the offset on, n bytes have their high bit set. */
  predicate HighFor(data: Bytes, offset: nat, n: nat) {
    offset + n <= |data| && forall k | offset <= k < offset + n :: data[k] >= 0x80
  }

  /**
   * A length prefix ends unexpectedly exactly when fewer than five bytes are left and all have the high
   * bit set; it is too large exactly when five have it; and otherwise it ends at the first byte without,
   * and is the number written, as far as 32 bits hold it.
   */
  lemma LebExact(data: Bytes, offset: nat, v: nat, n: nat)
    ensures DecodeLeb(data, offset) == Err(UnexpectedEnd)
      <==> |data| < offset + 5 && (offset <= |data| ==> HighFor(data, offset, |data| - offset))
    ensures DecodeLeb(data, offset) == Err(IntegerTooLarge) <==> HighFor(data, offset, 5)
    ensures DecodeLeb(data, offset) == Ok((v, n))
      <==> (1 <= n <= 5 && HighFor(data, offset, n - 1) && offset + n <= |data| && data[offset + n - 1] < 0x80
            && v == LebValue(data[offset..offset + n]) % 0x1_0000_0000)
  {
    hide LebValue, LebLength;
    if offset < |data| {
      LengthIs(data, offset, 0);
      var i := LebLength(data, offset, 0);
      assert HighFor(data, offset, i);
      if offset + i < |data| {
        assert data[offset + i] < 0x80;
      }
      if 1 <= n <= 5 && HighFor(data, offset, n - 1) && offset + n <= |data| && data[offset + n - 1] < 0x80 {
        assert n == i + 1;
      }
    }
  }

  // ---- the sections before the end, or before the fault ----

  /** Sections follow one another from the offset up to the end given. */
  ghost predicate Reach(wasm: Bytes, offset: nat, frames: seq<Frame>, end: nat)
    decreases |frames|
  {
    if frames == [] then end == offset
    else
      var f := frames[0];
      && offset < |wasm| && f.id == wasm[offset] && f.start > offset && f.start + f.size <= |wasm|
      && DecodeLeb(wasm, offset + 1) == Ok((f.size, f.start - offset - 1))
      && Reach(wasm, f.start + f.size, frames[1..], end)
  }

  /** What keeps a section from starting there: its length cannot be read, or it runs past the end of the bytes. */
  ghost predicate FaultAt(wasm: Bytes, at: nat, e: WasmError) {
    && at < |wasm|
    && match DecodeLeb(wasm, at + 1)
       case Err(err) => e == err
       case Ok((size, n)) => at + 1 + n + size > |wasm| && e == SectionPastEnd
  }

  /** The sections that can be read, and the fault that ends them, if one does. */
  ghost predicate Readable(wasm: Bytes, offset: nat, frames: seq<Frame>, fault: Option<WasmError>) {
    exists end :: Reach(wasm, offset, frames, end) && StopsAt(wasm, end, fault)
  }

  ghost predicate StopsAt(wasm: Bytes, end: nat, fault: Option<WasmError>) {
    if fault.None? then end >= |wasm| else FaultAt(wasm, end, fault.value)
  }

  /** The section decides the search: it is a custom section that has the name, or whose name cannot be read. */
  predicate Decides(wasm: Bytes, f: Frame, name: Bytes)
    requires f.start + f.size <= |wasm|
  {
    f.id == 0 && match CustomName(wasm, f.start, f.start + f.size) case Err(_) => true case Ok((found, _)) => found == name
  }

  /** What the deciding section answers: the rest of it, or why its name cannot be read. */
  function Answer(wasm: Bytes, f: Frame): Result<Option<Bytes>, WasmError>
    requires f.start + f.size <= |wasm|
  {
    match CustomName(wasm, f.start, f.start + f.size)
    case Err(e) => Err(e)
    case Ok((_, from)) => Ok(Some(wasm[from..f.start + f.size]))
  }

  lemma {:induction false} ReachFits(wasm: Bytes, offset: nat, frames: seq<Frame>, end: nat)
    requires Reach(wasm, offset, frames, end)
    ensures forall i | 0 <= i < |frames| :: frames[i].start + frames[i].size <= |wasm|
    decreases |frames|
  {
    if frames != [] {
      ReachFits(wasm, frames[0].start + frames[0].size, frames[1..], end);
      assert frames == [frames[0]] + frames[1..];
    }
  }

  lemma ExtractStep(wasm: Bytes, offset: nat, f: Frame, name: Bytes)
    requires offset < |wasm| && f.id == wasm[offset] && f.start > offset && f.start + f.size <= |wasm|
    requires DecodeLeb(wasm, offset + 1) == Ok((f.size, f.start - offset - 1))
    ensures Extract(wasm, offset, name) == if Decides(wasm, f, name) then Answer(wasm, f) else Extract(wasm, f.start + f.size, name)
  {
    hide DecodeLeb, CustomName;
  }

  /** As long as no section decides, the search goes on behind them. */
  lemma {:induction false} ExtractPasses(wasm: Bytes, offset: nat, frames: seq<Frame>, end: nat, name: Bytes, n: nat)
    requires Reach(wasm, offset, frames, end) && n <= |frames|
    requires forall i | 0 <= i < |frames| :: frames[i].start + frames[i].size <= |wasm|
    requires forall i | 0 <= i < n :: !Decides(wasm, frames[i], name)
    ensures n < |frames| && Decides(wasm, frames[n], name) ==> Extract(wasm, offset, name) == Answer(wasm, frames[n])
    ensures n == |frames| ==> Extract(wasm, offset, name) == Extract(wasm, end, name)
    decreases |frames|
  {
    hide DecodeLeb, Decides, Answer, Extract;
    if frames != [] {
      var f, rest := frames[0], frames[1..];
      ExtractStep(wasm, offset, f, name);
      if n > 0 {
        forall i | 0 <= i < n - 1 ensures !Decides(wasm, rest[i], name) {
          assert rest[i] == frames[i + 1];
        }
        ExtractPasses(wasm, f.start + f.size, rest, end, name, n - 1);
        assert n < |frames| ==> rest[n - 1] == frames[n];
      }
    }
  }

  lemma ExtractStops(wasm: Bytes, end: nat, fault: Option<WasmError>, name: Bytes)
    requires StopsAt(wasm, end, fault)
    ensures Extract(wasm, end, name) == if fault.Some? then Err(fault.value) else Ok(None)
  {
    hide DecodeLeb, CustomName;
  }

  /** Any bytes have one such reading. */
  lemma {:induction false} ReadableExists(wasm: Bytes, offset: nat) returns (frames: seq<Frame>, fault: Option<WasmError>)
    ensures Readable(wasm, offset, frames, fault)
    ensures fault.None? ==> Frames(wasm, offset) == Ok(frames)
    ensures fault.Some? ==> Frames(wasm, offset) == Err(fault.value)
    decreases |wasm| - offset
  {
    hide DecodeLeb;
    frames := [];
    if offset >= |wasm| {
      fault := None;
      assert Reach(wasm, offset, [], offset) && StopsAt(wasm, offset, fault);
    } else if DecodeLeb(wasm, offset + 1).Err? {
      fault := Some(DecodeLeb(wasm, offset + 1).error);
      assert Reach(wasm, offset, [], offset) && StopsAt(wasm, offset, fault);
    } else {
      var (size, n) := DecodeLeb(wasm, offset + 1).value;
      var start := offset + 1 + n;
      if start + size > |wasm| {
        fault := Some(SectionPastEnd);
        assert Reach(wasm, offset, [], offset) && StopsAt(wasm, offset, fault);
      } else {
        var rest;
        rest, fault := ReadableExists(wasm, start + size);
        var end :| Reach(wasm, start + size, rest, end) && StopsAt(wasm, end, fault);
        frames := [Frame(wasm[offset], size, start)] + rest;
        assert frames[1..] == rest;
        assert Reach(wasm, offset, frames, end);
      }
    }
  }

  /**
   * On any bytes: the first section that has the name, or a custom section before it whose name cannot
   * be read, answers the search; without one the answer is the fault that ends the sections, or none.
   */
  lemma ExtractExact(wasm: Bytes, offset: nat, frames: seq<Frame>, fault: Option<WasmError>, name: Bytes, n: nat)
    requires Readable(wasm, offset, frames, fault) && n <= |frames|
    ensures forall i | 0 <= i < |frames| :: frames[i].start + frames[i].size <= |wasm|
    ensures (forall i | 0 <= i < n :: !Decides(wasm, frames[i], name)) && n < |frames| && Decides(wasm, frames[n], name) ==>
      Extract(wasm, offset, name) == Answer(wasm, frames[n])
    ensures (forall i | 0 <= i < |frames| :: !Decides(wasm, frames[i], name)) ==>
      Extract(wasm, offset, name) == if fault.Some? then Err(fault.value) else Ok(None)
  {
    hide Extract, Decides, Answer, Reach, StopsAt;
    var end :| Reach(wasm, offset, frames, end) && StopsAt(wasm, end, fault);
    ReachFits(wasm, offset, frames, end);
    ExtractStops(wasm, end, fault, name);
    if forall i | 0 <= i < n :: !Decides(wasm, frames[i], name) {
      ExtractPasses(wasm, offset, frames, end, name, n);
    }
    if forall i | 0 <= i < |frames| :: !Decides(wasm, frames[i], name) {
      ExtractPasses(wasm, offset, frames, end, name, |frames|);
    }
  }

  // ---- names and warnings ----

  /** The names the analysis gives to the standard sections, by id. */
  const NAMES := [
    "custom", "type", "import", "function", "table", "memory", "global",
    "export", "start", "element", "code", "data", "data_count"]

  /** The name of a section with a standard id, and a numbered one for any other. */
  function NameFor(id: bv8): string {
    if id < 13 then NAMES[id as nat] else "unknown_" + Decimal(id as nat)
  }

  lemma {:induction false} SizeWarningsExact(frames: seq<Frame>, w: Warning)
    ensures w in SizeWarnings(frames) <==>
      w.LargeSection? && exists i :: 0 <= i < |frames| && frames[i].size == w.size && w.size > 131_072 && SectionName(frames[i].id) == w.name
  {
    hide SectionName;
    if frames != [] {
      var front, last := frames[..|frames| - 1], frames[|frames| - 1];
      SizeWarningsExact(front, w);
      assert frames == front + [last];
    }
  }

  lemma NameOf(id: bv8)
    ensures SectionName(id) == NameFor(id)
  {
    if id < 13 {
      var n := id as nat;
      if n == 0 { assert id == 0; }
      else if n == 1 { assert id == 1; }
      else if n == 2 { assert id == 2; }
      else if n == 3 { assert id == 3; }
      else if n == 4 { assert id == 4; }
      else if n == 5 { assert id == 5; }
      else if n == 6 { assert id == 6; }
      else if n == 7 { assert id == 7; }
      else if n == 8 { assert id == 8; }
      else if n == 9 { assert id == 9; }
      else if n == 10 { assert id == 10; }
      else if n == 11 { assert id == 11; }
      else { assert id == 12; }
    }
  }

  /**
   * A section is warned of exactly when it is longer than 128 KiB, under its name or number; the file
   * exactly when it has 256 KiB or more, and as critically large from 512 KiB on.
   */
  lemma WarningsExact(frames: seq<Frame>, total: nat, w: Warning)
    ensures w in SizeWarnings(frames) + TotalWarning(total) <==>
      match w
      case LargeSection(name, size) =>
        size > 128 * 1024 && exists i :: 0 <= i < |frames| && frames[i].size == size && name == NameFor(frames[i].id)
      case CriticallyLarge(n) => n == total && total >= 512 * 1024
      case Large(n) => n == total && 256 * 1024 <= total < 512 * 1024
  {
    SizeWarningsExact(frames, w);
    forall i | 0 <= i < |frames| ensures SectionName(frames[i].id) == NameFor(frames[i].id) {
      NameOf(frames[i].id);
    }
    hide SectionName, SizeWarnings, NameFor;
  }

  /** The analysis lists every section in order, with its id, the name for it and its size. */
  lemma SectionsListed(frames: seq<Frame>, i: nat)
    requires i < |frames|
    ensures |Infos(frames)| == |frames|
    ensures var s := Infos(frames)[i];
      s.id == frames[i].id && s.size == frames[i].size && s.name == NameFor(frames[i].id)
  {
    NameOf(frames[i].id);
    hide SectionName;
  }

  /** The name of a custom section is as many bytes as the length in front of it says, within the section. */
  lemma CustomNameExact(wasm: Bytes, start: nat, end: nat, name: Bytes, from: nat)
    requires start <= end <= |wasm|
    ensures CustomName(wasm, start, end) == Ok((name, from)) <==>
      exists n :: DecodeLeb(wasm, start) == Ok((|name|, n)) && from == start + n + |name| <= end && wasm[start + n..from] == name
    ensures CustomName(wasm, start, end) == Err(NamePastSection) <==>
      exists len, n :: DecodeLeb(wasm, start) == Ok((len, n)) && end < start + n + len
  {
    LebErrors(wasm, start);
    hide DecodeLeb;
    if DecodeLeb(wasm, start).Ok? {
      var (len, n) := DecodeLeb(wasm, start).value;
      assert DecodeLeb(wasm, start) == Ok((len, n));
      if start + n + len <= end {
        var found := wasm[start + n..start + n + len];
        assert |found| == len && CustomName(wasm, start, end) == Ok((found, start + n + len));
        if CustomName(wasm, start, end) == Ok((name, from)) {
          assert DecodeLeb(wasm, start) == Ok((|name|, n));
        }
      } else {
        assert CustomName(wasm, start, end) == Err(NamePastSection);
      }
    }
  }

  lemma LebErrors(data: Bytes, offset: nat)
    ensures DecodeLeb(data, offset).Err? ==> DecodeLeb(data, offset).error in {UnexpectedEnd, IntegerTooLarge}
  {
  }
}
