/**
 The entries of a mutation cache: a fixed-size metadata header followed by a mask, overflow
 padding and alignment bytes. An entry is modelled by the bytes it occupies, and every field
 is read back out of those bytes.
 */
module MutationCacheEntry {
  import opened Wrappers

  // Layout of the metadata header; offsets are in bytes and every field is little endian.
  const ID_OFFSET: nat := 0
  const INSTRUCTION_OFFSET: nat := 8
  const VMA_OFFSET: nat := 16
  const FLAGS_OFFSET: nat := 24
  const SPILL_SLOT_OFFSET: nat := 28
  const TARGET_BITS_OFFSET: nat := 40
  const READ_POS_OFFSET: nat := 44
  const MSK_LEN_OFFSET: nat := 48
  const HEADER: nat := 56

  const MAX_MASK_LEN: nat := 1024 * 1024 * 64

  // ----- little-endian integers

  function Pow256(n: nat): (p: nat)
    ensures p >= 1
  {
    if n == 0 then 1 else 256 * Pow256(n - 1)
  }

  function Encode(v: nat, n: nat): (s: seq<byte>)
    ensures |s| == n
  {
    if n == 0 then [] else [v % 256] + Encode(v / 256, n - 1)
  }

  function Decode(s: seq<byte>): nat {
    if s == [] then 0 else s[0] + 256 * Decode(s[1..])
  }

  lemma {:induction false} DecodeEncode(v: nat, n: nat)
    requires v < Pow256(n)
    ensures Decode(Encode(v, n)) == v
  {
    if n > 0 {
      DecodeEncode(v / 256, n - 1);
      assert Encode(v, n)[1..] == Encode(v / 256, n - 1);
    }
  }

  /** Little endian: byte `i` is digit `i` to the base 256. */
  lemma {:induction false} EncodeAt(v: nat, n: nat, i: nat)
    requires i < n
    ensures Encode(v, n)[i] == v / Pow256(i) % 256
  {
    if i > 0 {
      EncodeAt(v / 256, n - 1, i - 1);
      DivTwice(v, Pow256(i - 1));
    }
  }

  lemma DivTwice(v: nat, q: nat)
    requires q > 0
    ensures v / 256 / q == v / (256 * q)
  {
    var a, b := v / (256 * q), v % (256 * q);
    assert v == 256 * (q * a) + b;
    assert v / 256 == q * a + b / 256;
    assert b / 256 < q;
    DivUnique(v / 256, q, a, b / 256);
  }

  lemma DivUnique(v: nat, q: nat, a: nat, r: nat)
    requires v == q * a + r && r < q
    ensures v / q == a
  {
    var d := a - v / q;
    assert q * d == v % q - r by { assert q * d == q * a - q * (v / q); }
    SmallMultiple(q, d);
  }

  lemma SmallMultiple(q: int, d: int)
    requires -q < q * d < q
    ensures d == 0
  {
    if d > 0 { Multiple(q, d); } else if d < 0 { Multiple(q, -d); }
  }

  lemma Multiple(q: int, d: int)
    requires q > 0 && d > 0
    ensures q * d >= q
  {
  }

  lemma {:induction false} ZerosDecode(n: nat)
    ensures Decode(Zeros(n)) == 0
  {
    if n > 0 {
      ZerosDecode(n - 1);
      assert Zeros(n)[1..] == Zeros(n - 1);
    }
  }

  // ----- fields of the entry that starts at `base`

  function FieldAt(mem: seq<byte>, base: nat, off: nat, n: nat): nat
    requires base + off + n <= |mem|
  {
    Decode(mem[base + off..base + off + n])
  }

  predicate HasHeader(mem: seq<byte>, base: nat) {
    base + HEADER <= |mem|
  }

  function IdAt(mem: seq<byte>, base: nat): nat
    requires HasHeader(mem, base)
  {
    FieldAt(mem, base, ID_OFFSET, 8)
  }

  function MskLenAt(mem: seq<byte>, base: nat): nat
    requires HasHeader(mem, base)
  {
    FieldAt(mem, base, MSK_LEN_OFFSET, 4)
  }

  function TargetBitsAt(mem: seq<byte>, base: nat): nat
    requires HasHeader(mem, base)
  {
    FieldAt(mem, base, TARGET_BITS_OFFSET, 4)
  }

  function TargetBytesAt(mem: seq<byte>, base: nat): nat
    requires HasHeader(mem, base)
  {
    (TargetBitsAt(mem, base) + 7) / 8
  }

  /** `n += 8 - (n % 8)`: always adds between one and eight bytes. */
  function Align8(n: nat): (r: nat)
    ensures r % 8 == 0 && n < r <= n + 8
  {
    n + 8 - n % 8
  }

  function SizeAt(mem: seq<byte>, base: nat): (size: nat)
    requires HasHeader(mem, base)
    ensures size % 8 == 0 && size > HEADER + MskLenAt(mem, base)
  {
    var n := HEADER + MskLenAt(mem, base);
    Align8(if MskLenAt(mem, base) > 0 then n + TargetBytesAt(mem, base) else n)
  }

  // ----- an entry on its own

  /** An entry: the bytes it occupies, with its id read out of them. */
  datatype Entry = Entry(id: nat, bytes: seq<byte>)

  /** The memory behind a reference to an entry: at least as long as the entry says it is. */
  predicate Covers(b: seq<byte>) {
    HasHeader(b, 0) && SizeAt(b, 0) <= |b|
  }

  /** Exactly the bytes of one entry. */
  predicate IsEntry(e: Entry) {
    HasHeader(e.bytes, 0) && |e.bytes| == SizeAt(e.bytes, 0) && e.id == IdAt(e.bytes, 0)
  }

  function Zeros(n: nat): (r: seq<byte>)
    ensures |r| == n && forall i :: 0 <= i < n ==> r[i] == 0
  {
    seq(n, _ => 0)
  }

  function MskLen(e: Entry): nat
    requires IsEntry(e)
  {
    MskLenAt(e.bytes, 0)
  }

  function TargetBits(e: Entry): nat
    requires IsEntry(e)
  {
    TargetBitsAt(e.bytes, 0)
  }

  function TargetBytes(e: Entry): nat
    requires IsEntry(e)
  {
    TargetBytesAt(e.bytes, 0)
  }

  function Msk(e: Entry): seq<byte>
    requires IsEntry(e)
  {
    e.bytes[HEADER..HEADER + MskLen(e)]
  }

  /** The bytes a mutation stub reads once its read position has run past the mask. */
  function Padding(e: Entry): Option<seq<byte>>
    requires IsEntry(e)
  {
    if MskLen(e) > 0 then Some(e.bytes[HEADER + MskLen(e)..HEADER + MskLen(e) + TargetBytes(e)]) else None
  }

  /** No mask, or a mask of zeros only. */
  predicate IsNop(e: Entry)
    requires IsEntry(e)
  {
    MskLen(e) == 0 || forall i :: 0 <= i < |Msk(e)| ==> Msk(e)[i] == 0
  }

  /** All metadata except the length of the mask. */
  predicate SameMetadata(a: seq<byte>, b: seq<byte>)
    requires HasHeader(a, 0) && HasHeader(b, 0)
  {
    && a[..MSK_LEN_OFFSET] == b[..MSK_LEN_OFFSET]
    && a[MSK_LEN_OFFSET + 4..HEADER] == b[MSK_LEN_OFFSET + 4..HEADER]
  }

  /** Fields are read from the header alone, wherever the entry is stored. */
  lemma FieldsOfSlice(mem: seq<byte>, base: nat, b: seq<byte>)
    requires HasHeader(mem, base) && HasHeader(b, 0)
    requires mem[base..base + HEADER] == b[..HEADER]
    ensures IdAt(mem, base) == IdAt(b, 0)
    ensures MskLenAt(mem, base) == MskLenAt(b, 0)
    ensures TargetBitsAt(mem, base) == TargetBitsAt(b, 0)
    ensures SizeAt(mem, base) == SizeAt(b, 0)
  {
    SliceOfSlice(mem, base, base + HEADER, 0, 8);
    SliceOfSlice(mem, base, base + HEADER, 40, 44);
    SliceOfSlice(mem, base, base + HEADER, 48, 52);
    SliceOfSlice(b, 0, HEADER, 0, 8);
    SliceOfSlice(b, 0, HEADER, 40, 44);
    SliceOfSlice(b, 0, HEADER, 48, 52);
  }

  /** The target value's bytes: as few as hold its bits. */
  lemma TargetBytesHoldBits(e: Entry)
    requires IsEntry(e)
    ensures TargetBits(e) <= 8 * TargetBytes(e) < TargetBits(e) + 8
  {
  }

  /** The size is the next multiple of eight above the header, and above mask and padding if there is a mask. */
  lemma SizeIsTight(e: Entry)
    requires IsEntry(e)
    ensures var n := if MskLen(e) == 0 then HEADER else HEADER + MskLen(e) + TargetBytes(e);
            |e.bytes| % 8 == 0 && n < |e.bytes| <= n + 8
  {
  }

  /** Header, mask and padding lie one behind the other. */
  lemma MaskThenPadding(e: Entry)
    requires IsEntry(e) && MskLen(e) > 0
    ensures |Msk(e)| == MskLen(e) && Padding(e).Some? && |Padding(e).value| == TargetBytes(e)
    ensures e.bytes[..HEADER] + Msk(e) + Padding(e).value <= e.bytes
  {
    var n := HEADER + MskLen(e);
    assert e.bytes[..HEADER] + Msk(e) == e.bytes[..n];
    assert e.bytes[..n] + Padding(e).value == e.bytes[..n + TargetBytes(e)];
  }

  // ----- chunk sizes

  datatype Instruction =
    | Br | Call | Load | Store | InjectedCall | CustomPatchPoint | Switch | Select | ICmp | OtherInstruction

  function InstructionOf(code: nat): Instruction {
    match code
    case 0 => Br
    case 1 => Call
    case 2 => Load
    case 3 => Store
    case 4 => InjectedCall
    case 5 => CustomPatchPoint
    case 6 => Switch
    case 7 => Select
    case 8 => ICmp
    case _ => OtherInstruction
  }

  /** `None` where the source panics: an unsupported instruction, a branch or call whose
      condition is not one bit wide, or a width that does not fit sixteen bits. */
  function ChunkSizeBits(e: Entry): Option<nat>
    requires IsEntry(e)
  {
    var bits := TargetBits(e);
    if bits >= 0x1_0000 then None
    else match InstructionOf(e.bytes[INSTRUCTION_OFFSET])
      case OtherInstruction => None
      case Br | Call => if bits == 1 then Some(bits) else None
      case _ => Some(bits)
  }

  function ChunkSizeBytes(e: Entry): Option<nat>
    requires IsEntry(e)
  {
    match ChunkSizeBits(e)
    case None => None
    case Some(bits) => Some(if bits % 8 > 0 then bits / 8 + 1 else bits / 8)
  }

  lemma ChunkIsTargetBytes(e: Entry)
    requires IsEntry(e)
    ensures ChunkSizeBytes(e).Some? ==> ChunkSizeBytes(e).value == TargetBytes(e) <= 0x2000
  {
  }

  /** Which sites have a chunk size: those of the nine supported instructions with a width that fits sixteen
      bits, where the first two, branches and calls, must be one bit wide. The source panics on all others. */
  lemma ChunkSizeDefined(e: Entry)
    requires IsEntry(e)
    ensures var code, bits := e.bytes[INSTRUCTION_OFFSET], TargetBits(e);
            ChunkSizeBytes(e).Some? <==> (2 <= code <= 8 && bits < 65536) || (code <= 1 && bits == 1)
  {
  }

  // ----- new

  function NewAllocSize(targetBits: nat, mskLen: nat): nat {
    Align8(if mskLen > 0 then HEADER + mskLen + (targetBits + 7) / 8 else HEADER + mskLen)
  }

  /** `new` always reserves exactly `size()` bytes, but zero-fills eight bytes past the mask
      whatever the target size is: the fill stays inside the allocation exactly when the mask is
      empty, ends on an eight-byte boundary, or the target bytes reach the next boundary. */
  lemma NewFillStaysInside(targetBits: nat, mskLen: nat)
    ensures HEADER + (if mskLen > 0 then mskLen + 8 else 0) <= NewAllocSize(targetBits, mskLen)
       <==> (mskLen % 8 == 0 || mskLen % 8 + (targetBits + 7) / 8 >= 8)
  {
  }

  function Header(id: nat, instruction: byte, vma: nat, flags: byte, spillSlot: seq<byte>,
                  targetBits: nat, mskLen: nat): (h: seq<byte>)
    requires |spillSlot| == 12
    ensures |h| == HEADER
  {
    Encode(id, 8) + ([instruction] + Zeros(7)) + Encode(vma, 8) + ([flags] + Zeros(3)) + spillSlot
    + Encode(targetBits, 4) + Zeros(4) + Encode(mskLen, 4) + Zeros(4)
  }

  /** The entry `new` builds for a site of the target: no mask yet. */
  function NewEntry(id: nat, instruction: byte, vma: nat, flags: byte, spillSlot: seq<byte>,
                    targetBits: nat): (e: Entry)
    requires |spillSlot| == 12
  {
    Entry(id, Header(id, instruction, vma, flags, spillSlot, targetBits, 0)
              + Zeros(NewAllocSize(targetBits, 0) - HEADER))
  }

  lemma HeaderFront(id: nat, instruction: byte, vma: nat, flags: byte, spillSlot: seq<byte>, targetBits: nat, mskLen: nat)
    requires |spillSlot| == 12
    ensures var h := Header(id, instruction, vma, flags, spillSlot, targetBits, mskLen);
            && h[0..8] == Encode(id, 8) && h[INSTRUCTION_OFFSET] == instruction && h[16..24] == Encode(vma, 8)
            && h[FLAGS_OFFSET] == flags
  {
  }

  lemma HeaderBack(id: nat, instruction: byte, vma: nat, flags: byte, spillSlot: seq<byte>, targetBits: nat, mskLen: nat)
    requires |spillSlot| == 12
    ensures var h := Header(id, instruction, vma, flags, spillSlot, targetBits, mskLen);
            && h[28..40] == spillSlot && h[40..44] == Encode(targetBits, 4) && h[44..48] == Zeros(4)
            && h[48..52] == Encode(mskLen, 4)
  {
  }

  lemma NewEntryFields(id: nat, instruction: byte, vma: nat, flags: byte, spillSlot: seq<byte>, targetBits: nat)
    requires |spillSlot| == 12
    requires id < Pow256(8) && targetBits < Pow256(4)
    ensures var e := NewEntry(id, instruction, vma, flags, spillSlot, targetBits);
            IsEntry(e) && TargetBits(e) == targetBits && MskLen(e) == 0
            && e.bytes[SPILL_SLOT_OFFSET..SPILL_SLOT_OFFSET + 12] == spillSlot
            && e.bytes[VMA_OFFSET..VMA_OFFSET + 8] == Encode(vma, 8) && e.bytes[FLAGS_OFFSET] == flags
            && e.bytes[INSTRUCTION_OFFSET] == instruction && e.bytes[READ_POS_OFFSET..READ_POS_OFFSET + 4] == Zeros(4)
  {
    var b := NewEntry(id, instruction, vma, flags, spillSlot, targetBits).bytes;
    var h := Header(id, instruction, vma, flags, spillSlot, targetBits, 0);
    HeaderFront(id, instruction, vma, flags, spillSlot, targetBits, 0);
    HeaderBack(id, instruction, vma, flags, spillSlot, targetBits, 0);
    assert b[0..8] == h[0..8] && b[16..24] == h[16..24] && b[28..40] == h[28..40];
    assert b[40..44] == h[40..44] && b[44..48] == h[44..48] && b[48..52] == h[48..52];
    DecodeEncode(id, 8);
    DecodeEncode(targetBits, 4);
    DecodeEncode(0, 4);
  }

  // ----- clone_with_new_msk

  function Min(a: nat, b: nat): nat { if a < b then a else b }

  function CloneAllocSize(newLen: nat): nat {
    Align8(HEADER + newLen + 8)
  }

  /** The bytes of the entry returned by `clone_with_new_msk`. */
  function ClonedWithNewMsk(src: Entry, newLen: nat): (r: seq<byte>)
    requires IsEntry(src)
    ensures |r| == CloneAllocSize(newLen)
  {
    src.bytes[..MSK_LEN_OFFSET] + Encode(newLen, 4) + src.bytes[MSK_LEN_OFFSET + 4..HEADER + Min(MskLen(src), newLen)]
    + Zeros(CloneAllocSize(newLen) - HEADER - Min(MskLen(src), newLen))
  }

  /** Allocate zeroed memory, copy header and mask (cut short when shrinking), patch the length.
      `None` is the panic on a length outside `1..=MAX_MASK_LEN`. */
  method CloneWithNewMsk(src: Entry, newLen: nat) returns (r: Option<seq<byte>>)
    requires IsEntry(src)
    ensures r.None? <==> newLen == 0 || newLen > MAX_MASK_LEN
    ensures r.Some? ==> r.value == ClonedWithNewMsk(src, newLen)
  {
    if newLen == 0 || newLen > MAX_MASK_LEN {
      return None;
    }
    var newSize := HEADER + newLen;
    newSize := newSize + 8;
    newSize := newSize + 8 - newSize % 8;
    var entry := new byte[newSize](_ => 0);

    var bytesToCopy := HEADER + MskLen(src);
    if MskLen(src) > newLen {
      bytesToCopy := bytesToCopy - (MskLen(src) - newLen);
    }
    forall i | 0 <= i < bytesToCopy {
      entry[i] := src.bytes[i];
    }
    var len := Encode(newLen, 4);
    forall i | 0 <= i < 4 {
      entry[MSK_LEN_OFFSET + i] := len[i];
    }
    forall i | 0 <= i < newSize ensures entry[i] == ClonedWithNewMsk(src, newLen)[i] {
      CloneAt(src, newLen, i);
    }
    r := Some(entry[..]);
  }

  /** The clone byte by byte: length field, copied header and mask, zeros. */
  lemma CloneAt(src: Entry, newLen: nat, i: nat)
    requires IsEntry(src) && i < CloneAllocSize(newLen)
    ensures ClonedWithNewMsk(src, newLen)[i]
         == if MSK_LEN_OFFSET <= i < MSK_LEN_OFFSET + 4 then Encode(newLen, 4)[i - MSK_LEN_OFFSET]
            else if i < HEADER + Min(MskLen(src), newLen) then src.bytes[i] else 0
  {
  }

  /** Eight bytes of padding cover the target's bytes unless those reach one word further. */
  lemma AllocVersusSize(n: nat, target: nat)
    ensures Align8(HEADER + n + target) <= CloneAllocSize(n) <==> n % 8 + target < 16
  {
  }

  /** A clone's allocation holds `size()` bytes exactly when header, mask and target bytes do
      not run two words past the last full word of the mask; a target of up to eight bytes
      always fits. */
  lemma CloneCovers(src: Entry, newLen: nat)
    requires IsEntry(src) && 0 < newLen <= MAX_MASK_LEN
    ensures Covers(ClonedWithNewMsk(src, newLen)) <==> newLen % 8 + TargetBytes(src) < 16
    ensures TargetBytes(src) <= 8 ==> Covers(ClonedWithNewMsk(src, newLen))
  {
    CloneHeader(src, newLen);
    assert SizeAt(ClonedWithNewMsk(src, newLen), 0) == Align8(HEADER + newLen + TargetBytes(src));
    AllocVersusSize(newLen, TargetBytes(src));
  }

  lemma CloneHeader(src: Entry, newLen: nat)
    requires IsEntry(src) && 0 < newLen <= MAX_MASK_LEN
    ensures var r := ClonedWithNewMsk(src, newLen);
            && SameMetadata(src.bytes, r)
            && IdAt(r, 0) == src.id && TargetBitsAt(r, 0) == TargetBits(src)
            && MskLenAt(r, 0) == newLen
  {
    var r := ClonedWithNewMsk(src, newLen);
    assert r[48..52] == Encode(newLen, 4);
    assert Pow256(4) == 0x1_0000_0000;
    DecodeEncode(newLen, 4);
    assert r[..48] == src.bytes[..48];
    assert r[0..8] == r[..48][0..8] == src.bytes[..48][0..8] == src.bytes[0..8];
    assert r[40..44] == r[..48][40..44] == src.bytes[..48][40..44] == src.bytes[40..44];
    assert r[52..56] == src.bytes[52..56] by {
      assert forall i :: 52 <= i < 56 ==> r[i] == src.bytes[i];
    }
  }

  /** The entry that reaches the cache when a clone is pushed. */
  function Resized(src: Entry, newLen: nat): (r: Entry)
    requires IsEntry(src) && 0 < newLen <= MAX_MASK_LEN && newLen % 8 + TargetBytes(src) < 16
    ensures IsEntry(r)
  {
    var c := ClonedWithNewMsk(src, newLen);
    CloneCovers(src, newLen);
    FieldsOfSlice(c, 0, c[..SizeAt(c, 0)]);
    CloneHeader(src, newLen);
    Entry(src.id, c[..SizeAt(c, 0)])
  }

  /** Resizing keeps the metadata and as much of the mask as fits, and zeroes the rest of the
      mask and the overflow padding. */
  lemma ResizedKeepsMask(src: Entry, newLen: nat)
    requires IsEntry(src) && 0 < newLen <= MAX_MASK_LEN && newLen % 8 + TargetBytes(src) < 16
    ensures var r := Resized(src, newLen); var keep := Min(MskLen(src), newLen);
            && SameMetadata(src.bytes, r.bytes) && r.id == src.id && TargetBits(r) == TargetBits(src)
            && MskLen(r) == newLen
            && Msk(r) == Msk(src)[..keep] + Zeros(newLen - keep)
            && Padding(r) == Some(Zeros(TargetBytes(src)))
  {
    var c := ClonedWithNewMsk(src, newLen);
    var r := Resized(src, newLen);
    CloneHeader(src, newLen);
    CloneCovers(src, newLen);
    FieldsOfSlice(c, 0, r.bytes);
    var keep := Min(MskLen(src), newLen);
    assert r.bytes[..48] == c[..48] && r.bytes[52..56] == c[52..56];
    forall i | HEADER <= i < |r.bytes|
      ensures r.bytes[i] == if i < HEADER + keep then src.bytes[i] else 0
    {
      CloneAt(src, newLen, i);
    }
    assert Msk(r) == Msk(src)[..keep] + Zeros(newLen - keep);
    assert Padding(r).value == Zeros(TargetBytes(src));
  }
}
