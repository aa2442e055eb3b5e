/**
 The bytes of a mutation cache: counters, flag and descriptor table, followed by the payload buffer.
 Saving a cache copies a prefix of these bytes out, loading copies bytes in.
 */
module CacheImage {
  import opened Wrappers
  import opened MutationCacheEntry
  import opened CacheSpec
  import opened CacheLayout
  import opened MutationCacheContentModel

  type usize = x: int | 0 <= x < 0x1_0000_0000_0000_0000

  /** The fields those bytes stand for. */
  datatype Image = Image(total: nat, used: nat, next: nat, pending: nat, invalidate: bool, table: Table, payload: seq<byte>)

  ghost predicate ImageOk(img: Image) {
    Sound(img.table, img.payload, img.used, img.next, img.pending)
  }

  ghost function ImageState(img: Image): CacheState
    requires ImageOk(img)
  {
    View(img.table, img.payload, img.used, img.next, img.pending)
  }

  lemma UsizeIsEightBytes(v: usize)
    ensures v < Pow256(8)
  {
    assert Pow256(4) == 0x1_0000_0000;
    assert Pow256(8) == 256 * (256 * (256 * (256 * Pow256(4))));
  }

  // ----- the descriptor table: a tag and an offset of eight bytes each

  function SlotBytes(d: Option<nat>): (b: seq<byte>)
    ensures |b| == 16
  {
    if d.None? then Encode(0, 8) + Encode(0, 8) else Encode(1, 8) + Encode(d.value, 8)
  }

  function SlotOf(b: seq<byte>): Option<nat>
    requires |b| == 16
  {
    if Decode(b[..8]) == 0 then None else Some(Decode(b[8..]))
  }

  lemma SlotRoundTrip(d: Option<nat>)
    requires d.Some? ==> d.value < Pow256(8)
    ensures SlotOf(SlotBytes(d)) == d
  {
    UsizeIsEightBytes(1);
    DecodeEncode(0, 8);
    DecodeEncode(1, 8);
    if d.Some? { DecodeEncode(d.value, 8); }
    var tag := if d.None? then Encode(0, 8) else Encode(1, 8);
    assert SlotBytes(d)[..8] == tag;
    assert d.Some? ==> SlotBytes(d)[8..] == Encode(d.value, 8);
  }

  function TableBytes(t: Table): (b: seq<byte>)
    ensures |b| == 16 * |t|
  {
    if t == [] then [] else TableBytes(t[..|t| - 1]) + SlotBytes(t[|t| - 1])
  }

  function TableOf(b: seq<byte>, n: nat): (t: Table)
    requires |b| == 16 * n
    ensures |t| == n
  {
    if n == 0 then [] else TableOf(b[..16 * n - 16], n - 1) + [SlotOf(b[16 * n - 16..])]
  }

  lemma {:induction false} TableRoundTrip(t: Table)
    requires forall i :: 0 <= i < |t| && t[i].Some? ==> t[i].value < Pow256(8)
    ensures TableOf(TableBytes(t), |t|) == t
  {
    if t != [] {
      var init, d := t[..|t| - 1], t[|t| - 1];
      TableRoundTrip(init);
      LastSlot(TableBytes(init), d, |t|);
    }
  }

  lemma LastSlot(b: seq<byte>, d: Option<nat>, n: nat)
    requires n > 0 && |b| == 16 * n - 16 && (d.Some? ==> d.value < Pow256(8))
    ensures TableOf(b + SlotBytes(d), n) == TableOf(b, n - 1) + [d]
  {
    SlotRoundTrip(d);
    SplitAt(b, SlotBytes(d));
  }

  // ----- the whole image

  function CountersBytes(total: nat, used: nat, next: nat, pending: nat, invalidate: bool): (b: seq<byte>)
    ensures |b| == 40
  {
    Encode(total, 8) + Encode(used, 8) + Encode(next, 8) + Encode(pending, 8) + [if invalidate then 1 else 0] + Zeros(7)
  }

  function Bytes(img: Image): (b: seq<byte>)
    ensures |b| == 40 + 16 * |img.table| + |img.payload|
  {
    CountersBytes(img.total, img.used, img.next, img.pending, img.invalidate) + (TableBytes(img.table) + img.payload)
  }

  function ImageFrom(counters: seq<byte>, table: Table, payload: seq<byte>): Image
    requires |counters| == 40
  {
    Image(Decode(counters[0..8]), Decode(counters[8..16]), Decode(counters[16..24]), Decode(counters[24..32]),
          counters[32] != 0, table, payload)
  }

  function ImageOf(b: seq<byte>): (img: Image)
    requires |b| >= CONTENT_SIZE
    ensures |img.table| == MAX_ENTRIES && |img.payload| == |b| - CONTENT_SIZE
  {
    var rest := b[40..];
    ImageFrom(b[..40], TableOf(rest[..16 * MAX_ENTRIES], MAX_ENTRIES), rest[16 * MAX_ENTRIES..])
  }

  lemma CountersRoundTrip(total: nat, used: nat, next: nat, pending: nat, invalidate: bool, table: Table, payload: seq<byte>)
    requires total < Pow256(8) && used < Pow256(8) && next < Pow256(8) && pending < Pow256(8)
    ensures ImageFrom(CountersBytes(total, used, next, pending, invalidate), table, payload)
         == Image(total, used, next, pending, invalidate, table, payload)
  {
    var b := CountersBytes(total, used, next, pending, invalidate);
    assert b[0..8] == Encode(total, 8) && b[8..16] == Encode(used, 8);
    assert b[16..24] == Encode(next, 8) && b[24..32] == Encode(pending, 8);
    DecodeEncode(total, 8);
    DecodeEncode(used, 8);
    DecodeEncode(next, 8);
    DecodeEncode(pending, 8);
  }

  /** Where everything is: four counters of eight bytes, the flag, and the payload behind the slots. */
  lemma ImageLayout(img: Image)
    ensures var b := Bytes(img);
            && b[0..8] == Encode(img.total, 8) && b[8..16] == Encode(img.used, 8)
            && b[16..24] == Encode(img.next, 8) && b[24..32] == Encode(img.pending, 8)
            && (b[32] != 0 <==> img.invalidate)
            && b[40 + 16 * |img.table|..] == img.payload
  {
    var c := CountersBytes(img.total, img.used, img.next, img.pending, img.invalidate);
    SplitAt(c, TableBytes(img.table) + img.payload);
    CountersLayout(Bytes(img), img);
    Associative(c, TableBytes(img.table), img.payload);
    SplitAt(c + TableBytes(img.table), img.payload);
  }

  /** From byte 40 on there are sixteen bytes for each slot. */
  lemma SlotLayout(img: Image, i: nat)
    requires i < |img.table|
    ensures Bytes(img)[40 + 16 * i..40 + (16 * i + 16)] == SlotBytes(img.table[i])
  {
    var c := CountersBytes(img.total, img.used, img.next, img.pending, img.invalidate);
    var t, lo := TableBytes(img.table), 16 * i;
    SlotAt(img.table, i);
    MiddleSlice(c, t, img.payload, lo, lo + 16);
  }

  lemma MiddleSlice(a: seq<byte>, b: seq<byte>, c: seq<byte>, lo: nat, hi: nat)
    requires lo <= hi <= |b|
    ensures (a + (b + c))[|a| + lo..|a| + hi] == b[lo..hi]
  {
    SliceOfFirst(b, c, lo, hi);
    SliceOfSecond(a, b + c, lo, hi);
  }

  lemma CountersLayout(b: seq<byte>, img: Image)
    requires |b| >= 40 && b[..40] == CountersBytes(img.total, img.used, img.next, img.pending, img.invalidate)
    ensures b[0..8] == Encode(img.total, 8) && b[8..16] == Encode(img.used, 8)
    ensures b[16..24] == Encode(img.next, 8) && b[24..32] == Encode(img.pending, 8)
    ensures b[32] != 0 <==> img.invalidate
  {
    var c := b[..40];
    assert c[0..8] == Encode(img.total, 8) && c[8..16] == Encode(img.used, 8);
    assert c[16..24] == Encode(img.next, 8) && c[24..32] == Encode(img.pending, 8);
    SliceOfSlice(b, 0, 40, 0, 8);
    SliceOfSlice(b, 0, 40, 8, 16);
    SliceOfSlice(b, 0, 40, 16, 24);
    SliceOfSlice(b, 0, 40, 24, 32);
    assert c[32] == b[32];
  }

  lemma {:induction false} SlotAt(t: Table, i: nat)
    requires i < |t|
    ensures TableBytes(t)[16 * i..16 * i + 16] == SlotBytes(t[i])
    decreases |t|
  {
    var init, d := t[..|t| - 1], t[|t| - 1];
    SplitAt(TableBytes(init), SlotBytes(d));
    if i < |t| - 1 {
      SlotAt(init, i);
      SliceOfFirst(TableBytes(init), SlotBytes(d), 16 * i, 16 * i + 16);
    }
  }

  /** Every field and every descriptor fits the eight bytes it is stored in. */
  ghost predicate FitsUsize(img: Image) {
    && img.total < Pow256(8) && img.used < Pow256(8) && img.next < Pow256(8) && img.pending < Pow256(8)
    && |img.table| == MAX_ENTRIES
    && forall i :: 0 <= i < |img.table| && img.table[i].Some? ==> img.table[i].value < Pow256(8)
  }

  /** What is written can be read back. */
  lemma ImageRoundTrip(img: Image)
    requires FitsUsize(img)
    ensures |Bytes(img)| == CONTENT_SIZE + |img.payload| && ImageOf(Bytes(img)) == img
  {
    var c := CountersBytes(img.total, img.used, img.next, img.pending, img.invalidate);
    SplitAt(c, TableBytes(img.table) + img.payload);
    SplitAt(TableBytes(img.table), img.payload);
    TableRoundTrip(img.table);
    CountersRoundTrip(img.total, img.used, img.next, img.pending, img.invalidate, img.table, img.payload);
  }

  /** Bytes behind the table are payload, however many there are. */
  lemma ImageOfLonger(b: seq<byte>, tail: seq<byte>)
    requires |b| >= CONTENT_SIZE
    ensures ImageOf(b + tail) == ImageOf(b).(payload := ImageOf(b).payload + tail)
  {
    var rest := b[40..];
    assert (b + tail)[..40] == b[..40] && (b + tail)[40..] == rest + tail;
    assert (rest + tail)[..16 * MAX_ENTRIES] == rest[..16 * MAX_ENTRIES];
    assert (rest + tail)[16 * MAX_ENTRIES..] == rest[16 * MAX_ENTRIES..] + tail;
  }

  /** A cache in memory that can be addressed has small enough fields. */
  lemma SoundFitsUsize(img: Image, size: usize)
    requires ImageOk(img) && img.total <= size && |img.payload| <= size
    ensures FitsUsize(img)
  {
    UsizeIsEightBytes(size);
    UsizeIsEightBytes(MAX_ENTRIES);
    UsizeIsEightBytes(PENDING_LIMIT);
    forall i | 0 <= i < |img.table| && img.table[i].Some? ensures img.table[i].value < Pow256(8) {
      assert InBounds(img.payload, img.used, img.table[i].value);
    }
  }

  /** The bytes in use are an image of the same entries. */
  lemma PrefixImage(img: Image)
    requires ImageOk(img) && FitsUsize(img)
    ensures CONTENT_SIZE + img.used <= |Bytes(img)|
    ensures var b := Bytes(img)[..CONTENT_SIZE + img.used];
            ImageOk(ImageOf(b)) && ImageState(ImageOf(b)) == ImageState(img).(cap := img.used)
  {
    ImageRoundTrip(img);
    var n := CONTENT_SIZE + img.used;
    var b, tail := Bytes(img)[..n], Bytes(img)[n..];
    assert Bytes(img) == b + tail;
    ImageOfLonger(b, tail);
    LongerImage(ImageOf(b).payload, tail, img);
  }

  lemma LongerImage(payload: seq<byte>, tail: seq<byte>, img: Image)
    requires ImageOk(img) && img.payload == payload + tail && |payload| == img.used
    ensures ImageOk(img.(payload := payload))
    ensures ImageState(img.(payload := payload)) == ImageState(img).(cap := |payload|)
  {
    assert img.payload[..img.used] == payload[..img.used];
    LoadView(img.table, img.payload, img.used, img.next, img.pending, payload);
  }

  /** Bytes left behind an image do not matter. */
  lemma LoadedImage(bytes: seq<byte>, tail: seq<byte>)
    requires |bytes| >= CONTENT_SIZE && ImageOk(ImageOf(bytes))
    ensures ImageOk(ImageOf(bytes + tail))
    ensures ImageState(ImageOf(bytes + tail)) == ImageState(ImageOf(bytes)).(cap := |bytes| + |tail| - CONTENT_SIZE)
  {
    var img := ImageOf(bytes);
    ImageOfLonger(bytes, tail);
    assert (img.payload + tail)[..img.used] == img.payload[..img.used];
    LoadView(img.table, img.payload, img.used, img.next, img.pending, img.payload + tail);
  }
}
