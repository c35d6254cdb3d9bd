/**
 * Reading WebAssembly section framing (internal/abi/wasm.go, internal/abi/wasm_size.go), after
 * sections 5.2.2, 5.5.2 and 5.5.3 of the WebAssembly Core Specification.
 */
module Wasm {
  import opened Wrappers
  import opened TypeDefs

  type Bytes = seq<bv8>

  datatype WasmError =
    | TooShort
    | BadMagic
    | UnexpectedEnd
    | IntegerTooLarge
    | SectionPastEnd
    | NamePastSection

  // ---- LEB128 ----

  const TWO32: nat := 0x1_0000_0000

  function Pow128(i: nat): (p: nat)
    ensures p > 0
  {
    if i == 0 then 1 else 128 * Pow128(i - 1)
  }

  function Low7(b: bv8): nat { (b & 0x7f) as nat }

  predicate More(b: bv8) { b & 0x80 != 0 }

  /** The number a group of bytes stands for, least significant first and unbounded. */
  function LebValue(bytes: Bytes): nat {
    if bytes == [] then 0
    else LebValue(bytes[..|bytes| - 1]) + Low7(bytes[|bytes| - 1]) * Pow128(|bytes| - 1)
  }

  /** Every byte but the last has its continuation bit set. */
  predicate LebShape(bytes: Bytes) {
    && 0 < |bytes|
    && !More(bytes[|bytes| - 1])
    && forall i | 0 <= i < |bytes| - 1 :: More(bytes[i])
  }

  /** The number of bytes before the first clear continuation bit, or the bound. */
  function LebLength(data: Bytes, offset: nat, i: nat): (n: nat)
    requires offset + i <= |data|
    ensures i <= n && offset + n <= |data|
    decreases |data| - offset - i
  {
    if offset + i == |data| || !More(data[offset + i]) then i else LebLength(data, offset, i + 1)
  }

  /** decodeLEB128: at most five bytes, and the value modulo 2^32. */
  function DecodeLeb(data: Bytes, offset: nat): Result<(nat, nat), WasmError> {
    if offset >= |data| then Err(UnexpectedEnd)
    else
      var i := LebLength(data, offset, 0);
      if i >= 5 then Err(IntegerTooLarge)
      else if offset + i == |data| then Err(UnexpectedEnd)
      else Ok((LebValue(data[offset..offset + i + 1]) % TWO32, i + 1))
  }

  /** `x << shift` on a 32-bit word, for the five shifts the loop uses. */
  function ShiftLeft(x: bv32, shift: nat): bv32
    requires shift in {0, 7, 14, 21, 28}
  {
    if shift == 0 then x
    else if shift == 7 then x << 7
    else if shift == 14 then x << 14
    else if shift == 21 then x << 21
    else x << 28
  }

  /** One step of the accumulation, on 32-bit words. */
  function Accumulate(result: bv32, b: bv8, shift: nat): bv32
    requires shift in {0, 7, 14, 21, 28}
  {
    result | ShiftLeft((b & 0x7f) as bv32, shift)
  }

  lemma Or0(x: bv32)
    requires x < 0x80
    ensures 0 | x == x
  {
  }

  lemma Or7(r: bv32, x: bv32)
    requires r < 0x80 && x < 0x80
    ensures (r | (x << 7)) as nat == r as nat + x as nat * 128
    ensures r | (x << 7) < 0x4000
  {
  }

  lemma Or14(r: bv32, x: bv32)
    requires r < 0x4000 && x < 0x80
    ensures (r | (x << 14)) as nat == r as nat + x as nat * 16384
    ensures r | (x << 14) < 0x20_0000
  {
  }

  lemma Or21(r: bv32, x: bv32)
    requires r < 0x20_0000 && x < 0x80
    ensures (r | (x << 21)) as nat == r as nat + x as nat * 2097152
    ensures r | (x << 21) < 0x1000_0000
  {
  }

  /** The fifth step keeps four of its seven bits. */
  lemma Or28(r: bv32, x: bv32)
    requires r < 0x1000_0000 && x < 0x80
    ensures (r | (x << 28)) as nat == r as nat + (x & 0xf) as nat * 268435456
    ensures (x & 0xf) as nat == x as nat % 16
  {
  }

  lemma Widen(b: bv8)
    ensures ((b & 0x7f) as bv32) as nat == Low7(b)
    ensures ((b & 0x7f) as bv32) < 0x80
  {
  }

  /** The accumulator after i bytes stays below 2^(7i). */
  predicate Below(r: bv32, i: nat) {
    (i == 0 ==> r == 0) && (i == 1 ==> r < 0x80) && (i == 2 ==> r < 0x4000)
    && (i == 3 ==> r < 0x20_0000) && (i == 4 ==> r < 0x1000_0000)
  }

  lemma Step0(b: bv8)
    ensures Accumulate(0, b, 0) as nat == Low7(b)
    ensures Accumulate(0, b, 0) < 0x80
  {
    hide Low7;
    Widen(b);
    Or0((b & 0x7f) as bv32);
  }

  lemma Step7(r: bv32, b: bv8)
    requires r < 0x80
    ensures Accumulate(r, b, 7) as nat == r as nat + Low7(b) * 128
    ensures Accumulate(r, b, 7) < 0x4000
  {
    hide Low7;
    Widen(b);
    Or7(r, (b & 0x7f) as bv32);
  }

  lemma Step14(r: bv32, b: bv8)
    requires r < 0x4000
    ensures Accumulate(r, b, 14) as nat == r as nat + Low7(b) * 16384
    ensures Accumulate(r, b, 14) < 0x20_0000
  {
    hide Low7;
    Widen(b);
    Or14(r, (b & 0x7f) as bv32);
  }

  lemma Step21(r: bv32, b: bv8)
    requires r < 0x20_0000
    ensures Accumulate(r, b, 21) as nat == r as nat + Low7(b) * 2097152
    ensures Accumulate(r, b, 21) < 0x1000_0000
  {
    hide Low7;
    Widen(b);
    Or21(r, (b & 0x7f) as bv32);
  }

  lemma Step28(r: bv32, b: bv8)
    requires r < 0x1000_0000
    ensures Accumulate(r, b, 28) as nat == r as nat + Low7(b) % 16 * 268435456
  {
    hide Low7;
    Widen(b);
    Or28(r, (b & 0x7f) as bv32);
  }

  /** One step of the loop adds the byte's seven bits at its weight; the fifth keeps four of them. */
  lemma AccumulateStep(r: bv32, b: bv8, i: nat)
    requires i < 5 && Below(r, i)
    ensures var r' := Accumulate(r, b, 7 * i);
      && r' as nat == r as nat + (if i < 4 then Low7(b) else Low7(b) % 16) * Pow128(i)
      && (i < 4 ==> Below(r', i + 1))
  {
    hide Low7, Accumulate;
    Powers();
    if i == 0 {
      Step0(b);
    } else if i == 1 {
      Step7(r, b);
    } else if i == 2 {
      Step14(r, b);
    } else if i == 3 {
      Step21(r, b);
    } else {
      Step28(r, b);
    }
  }

  lemma Powers()
    ensures Pow128(0) == 1 && Pow128(1) == 128 && Pow128(2) == 16384 && Pow128(3) == 2097152 && Pow128(4) == 268435456
  {
    assert Pow128(4) == 128 * (128 * Pow128(2));
  }

  /** Dropping the high bits of the fifth byte is reduction modulo 2^32. */
  lemma DropIsModulo(r: nat, x: nat)
    requires r < 268435456
    ensures r + x % 16 * 268435456 == (r + x * 268435456) % TWO32
  {
    assert x == 16 * (x / 16) + x % 16;
    assert x * 268435456 == (x / 16) * TWO32 + x % 16 * 268435456;
    ModAdds(r + x % 16 * 268435456, x / 16);
  }

  lemma ModAdds(r: nat, k: nat)
    requires r < TWO32
    ensures (r + k * TWO32) % TWO32 == r
  {
  }

  lemma {:induction false} LebBound(bytes: Bytes)
    ensures LebValue(bytes) < Pow128(|bytes|)
  {
    if bytes != [] {
      LebBound(bytes[..|bytes| - 1]);
      Low7Bound(bytes[|bytes| - 1]);
      WeightBound(LebValue(bytes[..|bytes| - 1]), Low7(bytes[|bytes| - 1]), Pow128(|bytes| - 1));
    }
  }

  lemma Low7Bound(b: bv8)
    ensures Low7(b) < 128
  {
  }

  lemma WeightBound(v: nat, d: nat, p: nat)
    requires v < p && d < 128
    ensures v + d * p < 128 * p
  {
    assert d * p <= 127 * p;
  }

  /** decodeLEB128, bit by bit as it is written. */
  method DecodeLEB128(data: Bytes, offset: nat) returns (r: Result<(nat, nat), WasmError>)
    ensures r == DecodeLeb(data, offset)
  {
    hide Accumulate, Low7, LebLength, ShiftLeft, LebValue, Below;
    NothingRead(data, offset);
    var result: bv32 := 0;
    for i := 0 to 5
      invariant i == 0 || offset + i <= |data|
      invariant offset < |data| ==> offset + i <= |data| && LebLength(data, offset, 0) == LebLength(data, offset, i)
      invariant offset < |data| && i < 5 ==> result as nat == LebValue(data[offset..offset + i]) && Below(result, i)
    {
      if offset + i >= |data| {
        if offset < |data| {
          LebLengthEnds(data, offset, i);
        }
        return Err(UnexpectedEnd);
      }
      var b := data[offset + i];
      LebLengthEnds(data, offset, i);
      ByteRead(data, offset, i, result);
      result := Accumulate(result, b, 7 * i);
      if !More(b) {
        return Ok((result as nat, i + 1));
      }
    }
    LebLengthGrows(data, offset, 5);
    return Err(IntegerTooLarge);
  }

  lemma NothingRead(data: Bytes, offset: nat)
    ensures offset < |data| ==> LebValue(data[offset..offset + 0]) == 0
    ensures Below(0, 0)
  {
  }

  /** What the accumulator holds after one more byte. */
  lemma ByteRead(data: Bytes, offset: nat, i: nat, sofar: bv32)
    requires i < 5 && offset + i < |data|
    requires sofar as nat == LebValue(data[offset..offset + i]) && Below(sofar, i)
    ensures var r := Accumulate(sofar, data[offset + i], 7 * i);
      && (i < 4 ==> r as nat == LebValue(data[offset..offset + i + 1]) && Below(r, i + 1))
      && r as nat == LebValue(data[offset..offset + i + 1]) % TWO32
  {
    hide Accumulate, Low7, ShiftLeft, Below;
    var b, before, after := data[offset + i], data[offset..offset + i], data[offset..offset + i + 1];
    assert after[..i] == before && after[i] == b;
    AccumulateStep(sofar, b, i);
    LebBound(before);
    LastValue(sofar as nat, Low7(b), i, before, after);
    LebBoundSmall(i + 1, after);
  }

  lemma LebLengthEnds(data: Bytes, offset: nat, i: nat)
    requires offset + i <= |data|
    ensures offset + i == |data| || !More(data[offset + i]) ==> LebLength(data, offset, i) == i
    ensures offset + i < |data| && More(data[offset + i]) ==> LebLength(data, offset, i) == LebLength(data, offset, i + 1)
  {
  }

  lemma LebLengthGrows(data: Bytes, offset: nat, i: nat)
    requires offset + i <= |data|
    ensures LebLength(data, offset, i) >= i
  {
  }

  /** The value after one more byte, reduced as the fifth step reduces it. */
  lemma LastValue(r: nat, d: nat, i: nat, before: Bytes, after: Bytes)
    requires i < 5 && |after| == i + 1 && after[..i] == before && d == Low7(after[i])
    requires r == LebValue(before) && r < Pow128(i)
    ensures i < 4 ==> r + d * Pow128(i) == LebValue(after)
    ensures i == 4 ==> r + d % 16 * Pow128(4) == LebValue(after) % TWO32
  {
    hide Low7;
    Powers();
    if i == 4 {
      DropIsModulo(r, d);
    }
  }

  lemma LebBoundSmall(n: nat, bytes: Bytes)
    requires |bytes| == n
    ensures n < 5 ==> LebValue(bytes) % TWO32 == LebValue(bytes)
  {
    hide LebValue, Low7;
    LebBound(bytes);
    Powers();
    if n < 5 {
      PowMonotone(n, 4);
    }
  }

  lemma {:induction false} PowMonotone(m: nat, n: nat)
    requires m <= n
    ensures Pow128(m) <= Pow128(n)
  {
    if m < n {
      PowMonotone(m, n - 1);
    }
  }

  // ---- encoding, as section 5.2.2 prescribes it ----

  /** The shortest encoding of n. */
  function EncodeLeb(n: nat): (r: Bytes)
    ensures r != []
  {
    if n < 128 then [n as bv8] else [(n % 128) as bv8 | 0x80] + EncodeLeb(n / 128)
  }

  lemma LowByte(n: nat)
    requires n < 128
    ensures Low7(n as bv8) == n && !More(n as bv8)
    ensures Low7(n as bv8 | 0x80) == n && More(n as bv8 | 0x80)
  {
    SmallByte(n);
    LowByteBits(n as bv8);
  }

  lemma SmallByte(n: nat)
    requires n < 128
    ensures (n as bv8) as nat == n && (n as bv8) < 0x80
  {
  }

  lemma LowByteBits(x: bv8)
    requires x < 0x80
    ensures x & 0x7f == x && x & 0x80 == 0
    ensures (x | 0x80) & 0x7f == x && (x | 0x80) & 0x80 != 0
  {
  }

  lemma {:induction false} LebFront(b: bv8, rest: Bytes)
    ensures LebValue([b] + rest) == Low7(b) + 128 * LebValue(rest)
  {
    hide Low7;
    var all := [b] + rest;
    if rest == [] {
      assert all[..0] == [];
      assert LebValue([b]) == LebValue([]) + Low7(b) * Pow128(0);
    } else {
      var front := rest[..|rest| - 1];
      assert all[..|all| - 1] == [b] + front;
      LebFront(b, front);
      WeightShift(Low7(rest[|rest| - 1]), Pow128(|rest| - 1));
    }
  }

  lemma WeightShift(d: nat, p: nat)
    ensures d * (128 * p) == 128 * (d * p)
  {
  }

  lemma {:induction false} EncodeReads(n: nat)
    ensures LebShape(EncodeLeb(n)) && LebValue(EncodeLeb(n)) == n
    ensures n < Pow128(5) ==> |EncodeLeb(n)| <= 5
  {
    hide Low7, More;
    EncodeShape(n);
    EncodeValue(n);
    if n < Pow128(5) {
      EncodeLength(n, 5);
    }
  }

  lemma {:induction false} EncodeShape(n: nat)
    ensures LebShape(EncodeLeb(n))
  {
    hide Low7, More;
    if n < 128 {
      LowByte(n);
    } else {
      LowByte(n % 128);
      EncodeShape(n / 128);
      var rest := EncodeLeb(n / 128);
      assert EncodeLeb(n)[1..] == rest;
    }
  }

  lemma {:induction false} EncodeValue(n: nat)
    ensures LebValue(EncodeLeb(n)) == n
  {
    hide Low7;
    if n < 128 {
      LowByte(n);
      assert LebValue([n as bv8]) == LebValue([]) + Low7(n as bv8) * Pow128(0);
    } else {
      LowByte(n % 128);
      EncodeValue(n / 128);
      LebFront((n % 128) as bv8 | 0x80, EncodeLeb(n / 128));
    }
  }

  lemma {:induction false} EncodeLength(n: nat, k: nat)
    requires n < Pow128(k) && k > 0
    ensures |EncodeLeb(n)| <= k
  {
    if n >= 128 {
      EncodeLength(n / 128, k - 1);
    }
  }

  /** The first clear continuation bit of a well-shaped group is its last byte, wherever it stands. */
  lemma {:induction false} LengthOfShape(data: Bytes, offset: nat, bytes: Bytes, i: nat)
    requires LebShape(bytes) && i < |bytes|
    requires offset + |bytes| <= |data| && data[offset..offset + |bytes|] == bytes
    ensures LebLength(data, offset, i) == |bytes| - 1
    decreases |bytes| - i
  {
    hide More;
    assert data[offset + i] == bytes[i];
    if i < |bytes| - 1 {
      LengthOfShape(data, offset, bytes, i + 1);
    }
  }

  /** Any well-shaped group of at most five bytes decodes to its value modulo 2^32. */
  lemma DecodeShape(data: Bytes, offset: nat, bytes: Bytes)
    requires LebShape(bytes) && |bytes| <= 5
    requires offset + |bytes| <= |data| && data[offset..offset + |bytes|] == bytes
    ensures DecodeLeb(data, offset) == Ok((LebValue(bytes) % TWO32, |bytes|))
  {
    hide LebValue, More;
    LengthOfShape(data, offset, bytes, 0);
  }

  /** Decoding undoes encoding, whatever surrounds the bytes. */
  lemma LebRoundTrip(n: nat, before: Bytes, after: Bytes)
    requires n < TWO32
    ensures DecodeLeb(before + EncodeLeb(n) + after, |before|) == Ok((n, |EncodeLeb(n)|))
  {
    hide LebValue, LebShape, EncodeLeb;
    Powers();
    assert Pow128(5) == 128 * Pow128(4);
    EncodeReads(n);
    var data := before + EncodeLeb(n) + after;
    assert data[|before|..|before| + |EncodeLeb(n)|] == EncodeLeb(n);
    DecodeShape(data, |before|, EncodeLeb(n));
  }

  /**
   * The decoder also accepts five-byte groups that the specification rejects: the decoded value is
   * the number written exactly when the three unused bits of a fifth byte are clear.
   */
  lemma DecodeFaithfulExact(data: Bytes, offset: nat)
    requires DecodeLeb(data, offset).Ok?
    ensures var (v, n) := DecodeLeb(data, offset).value;
      v == LebValue(data[offset..offset + n]) <==> n < 5 || Low7(data[offset + 4]) < 16
  {
    hide Low7;
    var (v, n) := DecodeLeb(data, offset).value;
    var bytes := data[offset..offset + n];
    if n < 5 {
      LebBoundSmall(n, bytes);
    } else {
      Powers();
      LebBound(bytes[..4]);
      Low7Bound(bytes[4]);
      DropIsModulo(LebValue(bytes[..4]), Low7(bytes[4]));
    }
  }

  lemma LebStep(bytes: Bytes, b: bv8)
    ensures LebValue(bytes + [b]) == LebValue(bytes) + Low7(b) * Pow128(|bytes|)
    ensures LebValue([]) == 0
  {
    assert (bytes + [b])[..|bytes|] == bytes;
  }

  /** A five-byte group with a spare bit set stands for 2^32 and is decoded as 0. */
  lemma SpareBitsLost()
    ensures var data: Bytes := [0x80, 0x80, 0x80, 0x80, 0x10];
      LebShape(data) && LebValue(data) == TWO32 && DecodeLeb(data, 0) == Ok((0, 5))
  {
    var data: Bytes := [0x80, 0x80, 0x80, 0x80, 0x10];
    Powers();
    assert Low7(0x80) == 0 && Low7(0x10) == 16;
    assert data[..5] == data && data[..0] == [];
    forall k | 0 <= k < 5 ensures data[..k + 1] == data[..k] + [data[k]] {
    }
    LebStep(data[..0], data[0]);
    LebStep(data[..1], data[1]);
    LebStep(data[..2], data[2]);
    LebStep(data[..3], data[3]);
    assert LebValue(data[..4]) == 0;
    LebStep(data[..4], data[4]);
    assert LebLength(data, 0, 4) == 4 && LebLength(data, 0, 2) == LebLength(data, 0, 4) && LebLength(data, 0, 0) == LebLength(data, 0, 2);
    assert data[0..0 + 4 + 1] == data;
  }

  // ---- sections ----

  const MAGIC: Bytes := [0x00, 0x61, 0x73, 0x6d]

  /** One section as framed in a binary: its id, the size it declares, and where its contents start. */
  datatype Frame = Frame(id: bv8, size: nat, start: nat)

  function Header(wasm: Bytes): Option<WasmError> {
    if |wasm| < 8 then Some(TooShort) else if wasm[..4] != MAGIC then Some(BadMagic) else None
  }

  /** The frames from an offset to the end of the binary. */
  function Frames(wasm: Bytes, offset: nat): Result<seq<Frame>, WasmError>
    decreases |wasm| - offset
  {
    if offset >= |wasm| then Ok([])
    else
      match DecodeLeb(wasm, offset + 1)
      case Err(e) => Err(e)
      case Ok((size, n)) =>
        var start := offset + 1 + n;
        if start + size > |wasm| then Err(SectionPastEnd)
        else
          match Frames(wasm, start + size)
          case Err(e) => Err(e)
          case Ok(rest) => Ok([Frame(wasm[offset], size, start)] + rest)
  }

  /** Every frame begins where the one before ends, and the last one ends the binary. */
  ghost predicate Tiles(wasm: Bytes, offset: nat, frames: seq<Frame>)
    decreases |frames|
  {
    if frames == [] then offset >= |wasm|
    else
      var f := frames[0];
      && offset < |wasm| && f.id == wasm[offset]
      && offset + 2 <= f.start <= offset + 6
      && f.start + f.size <= |wasm|
      && DecodeLeb(wasm, offset + 1) == Ok((f.size, f.start - offset - 1))
      && Tiles(wasm, f.start + f.size, frames[1..])
  }

  /** On any bytes, a successful walk tiles the binary with its sections, and only then. */
  lemma {:induction false} FramesExact(wasm: Bytes, offset: nat, frames: seq<Frame>)
    ensures Frames(wasm, offset) == Ok(frames) <==> Tiles(wasm, offset, frames)
    decreases |wasm| - offset
  {
    hide DecodeLeb;
    if offset < |wasm| {
      if DecodeLeb(wasm, offset + 1).Ok? {
        DecodeBounds(wasm, offset + 1);
        var (size, n) := DecodeLeb(wasm, offset + 1).value;
        if offset + 1 + n + size <= |wasm| {
          if frames == [] {
          } else {
            FramesExact(wasm, offset + 1 + n + size, frames[1..]);
            assert frames == [frames[0]] + frames[1..];
          }
        }
      }
    }
  }

  lemma DecodeBounds(data: Bytes, offset: nat)
    requires DecodeLeb(data, offset).Ok?
    ensures var (v, n) := DecodeLeb(data, offset).value; 1 <= n <= 5 && offset + n <= |data| && v < TWO32
  {
  }

  function Sizes(frames: seq<Frame>): nat {
    if frames == [] then 0 else frames[0].size + Sizes(frames[1..])
  }

  /** Bytes spent on section ids and length prefixes. */
  function Overhead(offset: nat, frames: seq<Frame>): int
    decreases |frames|
  {
    if frames == [] then 0
    else frames[0].start - offset + Overhead(frames[0].start + frames[0].size, frames[1..])
  }

  /** Headers and sizes add up to the length of the file. */
  lemma {:induction false} SizesAddUp(wasm: Bytes, offset: nat, frames: seq<Frame>)
    requires Frames(wasm, offset) == Ok(frames) && offset <= |wasm|
    ensures offset + Overhead(offset, frames) + Sizes(frames) == |wasm|
    ensures 2 * |frames| <= Overhead(offset, frames) <= 6 * |frames|
    decreases |frames|
  {
    hide DecodeLeb;
    FramesExact(wasm, offset, frames);
    if frames != [] {
      var f := frames[0];
      FramesExact(wasm, f.start + f.size, frames[1..]);
      SizesAddUp(wasm, f.start + f.size, frames[1..]);
    }
  }

  // ---- size analysis ----

  const SIZE_WARN: nat := 256 * 1024
  const SIZE_CRITICAL: nat := 512 * 1024
  const SECTION_WARN: nat := 128 * 1024

  datatype Warning = LargeSection(name: string, size: nat) | CriticallyLarge(total: nat) | Large(total: nat)
  datatype SectionInfo = SectionInfo(id: bv8, name: string, size: nat)
  datatype SizeAnalysis = SizeAnalysis(totalSize: nat, sections: seq<SectionInfo>, warnings: seq<Warning>)

  function SectionName(id: bv8): string {
    match id
    case 0 => "custom"
    case 1 => "type"
    case 2 => "import"
    case 3 => "function"
    case 4 => "table"
    case 5 => "memory"
    case 6 => "global"
    case 7 => "export"
    case 8 => "start"
    case 9 => "element"
    case 10 => "code"
    case 11 => "data"
    case 12 => "data_count"
    case _ => "unknown_" + Decimal(id as nat)
  }

  function InfoOf(f: Frame): SectionInfo {
    SectionInfo(f.id, SectionName(f.id), f.size)
  }

  function Infos(frames: seq<Frame>): (r: seq<SectionInfo>)
    ensures |r| == |frames|
  {
    seq(|frames|, i requires 0 <= i < |frames| => InfoOf(frames[i]))
  }

  function SizeWarnings(frames: seq<Frame>): seq<Warning> {
    if frames == [] then []
    else
      var f := frames[|frames| - 1];
      SizeWarnings(frames[..|frames| - 1])
      + (if f.size > SECTION_WARN then [LargeSection(SectionName(f.id), f.size)] else [])
  }

  function TotalWarning(total: nat): seq<Warning> {
    if total >= SIZE_CRITICAL then [CriticallyLarge(total)]
    else if total >= SIZE_WARN then [Large(total)] else []
  }

  /** What is known of the whole walk once some frames are done: an error, or those frames and the rest. */
  predicate WalkFrom(whole: Result<seq<Frame>, WasmError>, done: seq<Frame>, rest: Result<seq<Frame>, WasmError>) {
    match rest
    case Err(e) => whole == Err(e)
    case Ok(more) => whole == Ok(done + more)
  }

  lemma WalkFails(wasm: Bytes, at: nat, whole: Result<seq<Frame>, WasmError>, done: seq<Frame>, e: WasmError)
    requires at < |wasm| && WalkFrom(whole, done, Frames(wasm, at))
    requires var d := DecodeLeb(wasm, at + 1);
      d == Err(e) || (d.Ok? && at + 1 + d.value.1 + d.value.0 > |wasm| && e == SectionPastEnd)
    ensures whole == Err(e)
  {
  }

  lemma WalkAdvances(wasm: Bytes, at: nat, whole: Result<seq<Frame>, WasmError>, done: seq<Frame>, f: Frame)
    requires at < |wasm| && WalkFrom(whole, done, Frames(wasm, at))
    requires f.id == wasm[at] && f.start > at && f.start + f.size <= |wasm|
    requires DecodeLeb(wasm, at + 1) == Ok((f.size, f.start - at - 1))
    ensures WalkFrom(whole, done + [f], Frames(wasm, f.start + f.size))
  {
    hide DecodeLeb;
    var rest := Frames(wasm, f.start + f.size);
    if rest.Ok? {
      assert done + ([f] + rest.value) == done + [f] + rest.value;
    }
  }

  lemma WalkStarts(whole: Result<seq<Frame>, WasmError>)
    ensures WalkFrom(whole, [], whole)
  {
    if whole.Ok? {
      assert [] + whole.value == whole.value;
    }
  }

  lemma WalkEnds(wasm: Bytes, at: nat, whole: Result<seq<Frame>, WasmError>, done: seq<Frame>)
    requires at >= |wasm| && WalkFrom(whole, done, Frames(wasm, at))
    ensures whole == Ok(done)
  {
    assert done + [] == done;
  }

  /** AnalyzeWasmSize: the section loop. */
  method AnalyzeWasmSize(wasm: Bytes) returns (r: Result<SizeAnalysis, WasmError>)
    ensures Header(wasm).Some? ==> r == Err(Header(wasm).value)
    ensures Header(wasm).None? && Frames(wasm, 8).Err? ==> r == Err(Frames(wasm, 8).error)
    ensures Header(wasm).None? && Frames(wasm, 8).Ok? ==>
      var frames := Frames(wasm, 8).value;
      r == Ok(SizeAnalysis(|wasm|, Infos(frames), SizeWarnings(frames) + TotalWarning(|wasm|)))
  {
    hide DecodeLeb, SectionName, Frames, WalkFrom;
    if |wasm| < 8 {
      return Err(TooShort);
    }
    if wasm[..4] != MAGIC {
      return Err(BadMagic);
    }
    var sections: seq<SectionInfo> := [];
    var warnings: seq<Warning> := [];
    ghost var done: seq<Frame> := [];
    ghost var whole := Frames(wasm, 8);
    var offset := 8;
    WalkStarts(whole);
    while offset < |wasm|
      invariant offset <= |wasm|
      invariant WalkFrom(whole, done, Frames(wasm, offset))
      invariant sections == Infos(done) && warnings == SizeWarnings(done)
    {
      var sectionID := wasm[offset];
      ghost var at := offset;
      offset := offset + 1;
      var len := DecodeLEB128(wasm, offset);
      if len.Err? {
        WalkFails(wasm, at, whole, done, len.error);
        return Err(len.error);
      }
      DecodeBounds(wasm, offset);
      var (sectionLen, n) := len.value;
      offset := offset + n;
      if offset + sectionLen > |wasm| {
        WalkFails(wasm, at, whole, done, SectionPastEnd);
        return Err(SectionPastEnd);
      }
      ghost var f := Frame(sectionID, sectionLen, offset);
      sections := sections + [SectionInfo(sectionID, SectionName(sectionID), sectionLen)];
      if sectionLen > SECTION_WARN {
        warnings := warnings + [LargeSection(SectionName(sectionID), sectionLen)];
      }
      offset := offset + sectionLen;
      WalkAdvances(wasm, at, whole, done, f);
      assert (done + [f])[..|done|] == done;
      done := done + [f];
    }
    WalkEnds(wasm, offset, whole, done);
    if |wasm| >= SIZE_CRITICAL {
      warnings := warnings + [CriticallyLarge(|wasm|)];
    } else if |wasm| >= SIZE_WARN {
      warnings := warnings + [Large(|wasm|)];
    }
    assert warnings == SizeWarnings(done) + TotalWarning(|wasm|);
    return Ok(SizeAnalysis(|wasm|, sections, warnings));
  }

  // ---- custom sections ----

  /** The name and the start of the payload of a custom section at start..end. */
  function CustomName(wasm: Bytes, start: nat, end: nat): (r: Result<(Bytes, nat), WasmError>)
    requires start <= end <= |wasm|
    ensures r.Ok? ==> start <= r.value.1 <= end
  {
    match DecodeLeb(wasm, start)
    case Err(e) => Err(e)
    case Ok((len, n)) =>
      if start + n + len > end then Err(NamePastSection)
      else Ok((wasm[start + n..start + n + len], start + n + len))
  }

  /** ExtractCustomSection from an offset on. */
  function Extract(wasm: Bytes, offset: nat, name: Bytes): Result<Option<Bytes>, WasmError>
    decreases |wasm| - offset
  {
    if offset >= |wasm| then Ok(None)
    else
      match DecodeLeb(wasm, offset + 1)
      case Err(e) => Err(e)
      case Ok((size, n)) =>
        var start := offset + 1 + n;
        if start + size > |wasm| then Err(SectionPastEnd)
        else if wasm[offset] != 0 then Extract(wasm, start + size, name)
        else
          match CustomName(wasm, start, start + size)
          case Err(e) => Err(e)
          case Ok((found, from)) =>
            if found == name then Ok(Some(wasm[from..start + size])) else Extract(wasm, start + size, name)
  }

  method ExtractCustomSection(wasm: Bytes, name: Bytes) returns (r: Result<Option<Bytes>, WasmError>)
    ensures r == if Header(wasm).Some? then Err(Header(wasm).value) else Extract(wasm, 8, name)
  {
    hide DecodeLeb;
    if |wasm| < 8 {
      return Err(TooShort);
    }
    if wasm[..4] != MAGIC {
      return Err(BadMagic);
    }
    var offset := 8;
    while offset < |wasm|
      invariant offset <= |wasm|
      invariant Extract(wasm, 8, name) == Extract(wasm, offset, name)
    {
      var sectionID := wasm[offset];
      offset := offset + 1;
      var len := DecodeLEB128(wasm, offset);
      if len.Err? {
        return Err(len.error);
      }
      DecodeBounds(wasm, offset);
      var (sectionLen, n) := len.value;
      offset := offset + n;
      if offset + sectionLen > |wasm| {
        return Err(SectionPastEnd);
      }
      var sectionEnd := offset + sectionLen;
      if sectionID == 0 {
        var nl := DecodeLEB128(wasm, offset);
        if nl.Err? {
          return Err(nl.error);
        }
        DecodeBounds(wasm, offset);
        var (nameLen, nn) := nl.value;
        offset := offset + nn;
        if offset + nameLen > sectionEnd {
          return Err(NamePastSection);
        }
        var sectionName := wasm[offset..offset + nameLen];
        offset := offset + nameLen;
        if sectionName == name {
          return Ok(Some(wasm[offset..sectionEnd]));
        }
      }
      offset := sectionEnd;
    }
    return Ok(None);
  }

  /** The first frame that is a custom section of the given name decides; a malformed one before it fails. */
  function FirstNamed(wasm: Bytes, frames: seq<Frame>, name: Bytes): Result<Option<Bytes>, WasmError>
    requires forall i | 0 <= i < |frames| :: frames[i].start + frames[i].size <= |wasm|
  {
    if frames == [] then Ok(None)
    else
      var f := frames[0];
      if f.id != 0 then FirstNamed(wasm, frames[1..], name)
      else
        match CustomName(wasm, f.start, f.start + f.size)
        case Err(e) => Err(e)
        case Ok((found, from)) =>
          if found == name then Ok(Some(wasm[from..f.start + f.size])) else FirstNamed(wasm, frames[1..], name)
  }

  /** On any binary whose framing is sound, the two readers agree on where the sections are. */
  lemma {:induction false} ReadersAgree(wasm: Bytes, offset: nat, name: Bytes)
    requires Frames(wasm, offset).Ok?
    ensures var frames := Frames(wasm, offset).value;
      (forall i | 0 <= i < |frames| :: frames[i].start + frames[i].size <= |wasm|)
      && Extract(wasm, offset, name) == FirstNamed(wasm, frames, name)
    decreases |wasm| - offset
  {
    hide DecodeLeb, CustomName;
    if offset < |wasm| {
      var (size, n) := DecodeLeb(wasm, offset + 1).value;
      ReadersAgree(wasm, offset + 1 + n + size, name);
      assert Frames(wasm, offset).value[1..] == Frames(wasm, offset + 1 + n + size).value;
    }
  }

  // ---- a binary written as the specification prescribes ----

  datatype Section = Plain(id: bv8, contents: Bytes) | Custom(name: Bytes, payload: Bytes)

  function Id(s: Section): bv8 {
    if s.Custom? then 0 else s.id
  }

  function Contents(s: Section): Bytes {
    if s.Custom? then EncodeLeb(|s.name|) + s.name + s.payload else s.contents
  }

  predicate Writable(s: Section) {
    (s.Plain? ==> s.id != 0) && |Contents(s)| < TWO32
  }

  function EncodeSection(s: Section): Bytes {
    [Id(s)] + EncodeLeb(|Contents(s)|) + Contents(s)
  }

  function EncodeSections(ss: seq<Section>): Bytes {
    if ss == [] then [] else EncodeSection(ss[0]) + EncodeSections(ss[1..])
  }

  function EncodeModule(version: Bytes, ss: seq<Section>): Bytes {
    MAGIC + version + EncodeSections(ss)
  }

  function FrameOf(s: Section, offset: nat): Frame {
    Frame(Id(s), |Contents(s)|, offset + 1 + |EncodeLeb(|Contents(s)|)|)
  }

  function FramesOf(ss: seq<Section>, offset: nat): seq<Frame> {
    if ss == [] then [] else [FrameOf(ss[0], offset)] + FramesOf(ss[1..], offset + |EncodeSection(ss[0])|)
  }

  /** The section is framed at the offset: its id, its size, and its contents. */
  ghost predicate Framed(wasm: Bytes, offset: nat, s: Section, start: nat, size: nat) {
    && offset < start && start + size <= |wasm| && wasm[offset] == Id(s)
    && DecodeLeb(wasm, offset + 1) == Ok((size, start - offset - 1))
    && start + size == offset + |EncodeSection(s)|
    && size == |Contents(s)| && wasm[start..start + size] == Contents(s)
  }

  /** The header of a written section reads back. */
  lemma SectionHeader(before: Bytes, s: Section, after: Bytes)
    requires Writable(s)
    ensures var f := FrameOf(s, |before|); Framed(before + EncodeSection(s) + after, |before|, s, f.start, f.size)
  {
    hide DecodeLeb, EncodeLeb, Contents;
    var c := Contents(s);
    var wasm := before + EncodeSection(s) + after;
    assert wasm == (before + [Id(s)]) + EncodeLeb(|c|) + (c + after);
    LebRoundTrip(|c|, before + [Id(s)], c + after);
  }

  /** For any list of sections, the walk over the written binary finds exactly that list. */
  lemma {:induction false} FramingRoundTrip(before: Bytes, ss: seq<Section>)
    requires forall i | 0 <= i < |ss| :: Writable(ss[i])
    ensures Frames(before + EncodeSections(ss), |before|) == Ok(FramesOf(ss, |before|))
    decreases |ss|
  {
    hide DecodeLeb, EncodeLeb, Contents, Extract, Frames, FrameOf, EncodeSection;
    var wasm := before + EncodeSections(ss);
    if ss == [] {
      assert wasm == before;
      NothingLeft(wasm, []);
    } else {
      hide Writable, Framed;
      var s, after := ss[0], EncodeSections(ss[1..]);
      Reassociate(before, EncodeSection(s), after);
      SectionHeader(before, s, after);
      FramingRoundTrip(before + EncodeSection(s), ss[1..]);
      FrameRead(wasm, |before|, s);
    }
  }

  lemma NothingLeft(wasm: Bytes, name: Bytes)
    ensures Frames(wasm, |wasm|) == Ok([]) && Extract(wasm, |wasm|, name) == Ok(None)
  {
    hide DecodeLeb, CustomName;
  }

  /** What the walk does at one written section. */
  lemma FrameRead(wasm: Bytes, offset: nat, s: Section)
    requires var f := FrameOf(s, offset); Framed(wasm, offset, s, f.start, f.size)
    ensures Frames(wasm, offset) ==
      match Frames(wasm, offset + |EncodeSection(s)|) case Err(e) => Err(e) case Ok(rest) => Ok([FrameOf(s, offset)] + rest)
  {
    hide DecodeLeb, EncodeLeb, Contents, EncodeSection;
  }

  /** The payload of the first custom section with that name. */
  function FirstPayload(ss: seq<Section>, name: Bytes): Option<Bytes> {
    if ss == [] then None
    else if ss[0].Custom? && ss[0].name == name then Some(ss[0].payload)
    else FirstPayload(ss[1..], name)
  }

  lemma CustomReadsBack(wasm: Bytes, s: Section, start: nat)
    requires s.Custom? && Writable(s)
    requires start + |Contents(s)| <= |wasm| && wasm[start..start + |Contents(s)|] == Contents(s)
    ensures |s.payload| <= |Contents(s)|
    ensures CustomName(wasm, start, start + |Contents(s)|) == Ok((s.name, start + |Contents(s)| - |s.payload|))
    ensures wasm[start + |Contents(s)| - |s.payload|..start + |Contents(s)|] == s.payload
  {
    hide DecodeLeb, EncodeLeb;
    var n, end := |EncodeLeb(|s.name|)|, start + |Contents(s)|;
    var rest := s.name + s.payload + wasm[end..];
    assert wasm == wasm[..start] + Contents(s) + wasm[end..];
    assert wasm == wasm[..start] + EncodeLeb(|s.name|) + rest;
    LebRoundTrip(|s.name|, wasm[..start], rest);
    assert wasm[start + n..start + n + |s.name|] == s.name;
    assert wasm[start + n + |s.name|..end] == s.payload;
  }

  /** What extraction does at one written section. */
  lemma ExtractFramed(wasm: Bytes, offset: nat, s: Section, start: nat, size: nat, name: Bytes)
    requires Writable(s) && Framed(wasm, offset, s, start, size)
    ensures Extract(wasm, offset, name) ==
      if s.Custom? && s.name == name then Ok(Some(s.payload)) else Extract(wasm, offset + |EncodeSection(s)|, name)
  {
    hide DecodeLeb, EncodeLeb, Extract, EncodeSection, Contents;
    if s.Custom? {
      ExtractCustom(wasm, offset, s, start, size, name);
    } else {
      ExtractPlain(wasm, offset, start, size, name);
    }
  }

  lemma ExtractPlain(wasm: Bytes, offset: nat, start: nat, size: nat, name: Bytes)
    requires offset < start && start + size <= |wasm| && wasm[offset] != 0
    requires DecodeLeb(wasm, offset + 1) == Ok((size, start - offset - 1))
    ensures Extract(wasm, offset, name) == Extract(wasm, start + size, name)
  {
    hide DecodeLeb, CustomName;
  }

  lemma ExtractCustom(wasm: Bytes, offset: nat, s: Section, start: nat, size: nat, name: Bytes)
    requires s.Custom? && Writable(s) && Framed(wasm, offset, s, start, size)
    ensures Extract(wasm, offset, name) == if s.name == name then Ok(Some(s.payload)) else Extract(wasm, start + size, name)
  {
    hide DecodeLeb, EncodeLeb, CustomName, EncodeSection, Extract, Writable, Contents;
    CustomReadsBack(wasm, s, start);
    ExtractNamed(wasm, offset, s, start, size, name);
  }

  lemma ExtractNamed(wasm: Bytes, offset: nat, s: Section, start: nat, size: nat, name: Bytes)
    requires s.Custom? && offset < start && start + size <= |wasm| && wasm[offset] == 0 && |s.payload| <= size
    requires DecodeLeb(wasm, offset + 1) == Ok((size, start - offset - 1))
    requires CustomName(wasm, start, start + size) == Ok((s.name, start + size - |s.payload|))
    requires wasm[start + size - |s.payload|..start + size] == s.payload
    ensures Extract(wasm, offset, name) == if s.name == name then Ok(Some(s.payload)) else Extract(wasm, start + size, name)
  {
    hide DecodeLeb, CustomName;
  }

  lemma Reassociate(a: Bytes, b: Bytes, c: Bytes)
    ensures a + (b + c) == a + b + c
  {
  }

  lemma EncodeCons(ss: seq<Section>, name: Bytes)
    requires ss != []
    ensures EncodeSections(ss) == EncodeSection(ss[0]) + EncodeSections(ss[1..])
    ensures FirstPayload(ss, name) ==
      if ss[0].Custom? && ss[0].name == name then Some(ss[0].payload) else FirstPayload(ss[1..], name)
  {
  }

  /** Extraction returns the payload of the first custom section with the name, or nothing. */
  lemma {:induction false} ExtractRoundTrip(before: Bytes, ss: seq<Section>, name: Bytes)
    requires forall i | 0 <= i < |ss| :: Writable(ss[i])
    ensures Extract(before + EncodeSections(ss), |before|, name) == Ok(FirstPayload(ss, name))
    decreases |ss|
  {
    hide Writable, EncodeSection, EncodeLeb, FrameOf, Framed, Contents, Extract, Frames;
    var wasm := before + EncodeSections(ss);
    if ss == [] {
      assert wasm == before;
      NothingLeft(wasm, name);
    } else {
      EncodeCons(ss, name);
      hide EncodeSections, FirstPayload;
      var s, after := ss[0], EncodeSections(ss[1..]);
      Reassociate(before, EncodeSection(s), after);
      SectionHeader(before, s, after);
      var f := FrameOf(s, |before|);
      ExtractFramed(wasm, |before|, s, f.start, f.size, name);
      ExtractRoundTrip(before + EncodeSection(s), ss[1..], name);
    }
  }

  /** The same two facts for a whole module with any version bytes. */
  lemma ModuleRoundTrip(version: Bytes, ss: seq<Section>, name: Bytes)
    requires |version| == 4 && forall i | 0 <= i < |ss| :: Writable(ss[i])
    ensures var wasm := EncodeModule(version, ss);
      && Header(wasm) == None
      && Frames(wasm, 8) == Ok(FramesOf(ss, 8))
      && Extract(wasm, 8, name) == Ok(FirstPayload(ss, name))
  {
    hide Extract, Frames, EncodeSections;
    FramingRoundTrip(MAGIC + version, ss);
    ExtractRoundTrip(MAGIC + version, ss, name);
    assert EncodeModule(version, ss)[..4] == MAGIC;
  }
}
