/** The AFL coverage bitmap: loops over eight-byte words, proved against the byte-wise maps of `BitmapSpec`. */
module SinkBitmap {
  import opened Wrappers
  import opened BitmapSpec

  predicate IsPowerOfTwo(n: nat) {
    n == 1 || (n > 0 && n % 2 == 0 && IsPowerOfTwo(n / 2))
  }

  lemma PowerOfTwoWords(n: nat)
    requires IsPowerOfTwo(n) && n >= 8
    ensures n % 8 == 0 && IsPowerOfTwo(n / 8)
  {
    assert IsPowerOfTwo(n / 2) && IsPowerOfTwo(n / 2 / 2) && IsPowerOfTwo(n / 2 / 2 / 2);
    assert n / 2 / 2 / 2 == n / 8;
  }

  lemma NextWord(o: nat, n: nat)
    requires o % 8 == 0 && n % 8 == 0 && o < n
    ensures o + 8 <= n && (o + 8) % 8 == 0
  {
  }

  /** The table of bucketed byte pairs, filled once. */
  method BuildLookup() returns (t: array<bv16>)
    ensures IsLookup(t[..])
  {
    t := new bv16[0x1_0000](_ => 0);
    for b1 := 0 to 256
      invariant forall x :: 0 <= x < b1 * 256 ==> t[x] == LookupOf(x)
    {
      FillLookupRow(t, b1, b1 * 256);
    }
  }

  /** The pairs whose high byte is `b1`. */
  method FillLookupRow(t: array<bv16>, b1: nat, row: nat)
    requires t.Length == 0x1_0000 && b1 < 256 && row == b1 * 256
    requires forall x :: 0 <= x < row ==> t[x] == LookupOf(x)
    modifies t
    ensures forall x :: 0 <= x < row + 256 ==> t[x] == LookupOf(x)
  {
    for b2 := 0 to 256
      invariant forall x :: 0 <= x < row + b2 ==> t[x] == LookupOf(x)
    {
      DivMod256(b1, b2);
      t[row + b2] := Pack16(Bucket(b2 as bv8), Bucket(b1 as bv8));
    }
  }

  // ----- word-wise operations and what they do byte-wise

  method MeetTest(selfBytes: bv64, virginBytes: bv64) returns (r: bool)
    ensures r <==> selfBytes & virginBytes != 0
  {
    r := selfBytes != 0 && selfBytes & virginBytes != 0;
  }

  method CommonBits(s: Bytes, v: Bytes, o: nat) returns (r: bool)
    requires o + 8 <= |s| && o + 8 <= |v|
    ensures r <==> MeetsAt(s, v, o)
  {
    WordsMeet(s, v, o);
    r := MeetTest(Word(s, o), Word(v, o));
  }

  method ClearedWord(v: Bytes, s: Bytes, o: nat) returns (u: Bytes)
    requires o + 8 <= |s| && o + 8 <= |v|
    ensures u == ClearedChunk(v, s, o)
  {
    WordMinus(v, s, o);
    u := Unpack(Word(v, o) & !Word(s, o));
  }

  method UnionWord(a: Bytes, b: Bytes, o: nat) returns (u: Bytes)
    requires o + 8 <= |a| && o + 8 <= |b|
    ensures u == UnionChunk(a, b, o)
  {
    WordOr(a, b, o);
    u := Unpack(Word(a, o) | Word(b, o));
  }

  lemma ClearedChunkAt(v: Bytes, s: Bytes, o: nat, k: nat)
    requires o + 8 <= |s| && o + 8 <= |v| && k < 8
    ensures ClearedChunk(v, s, o)[k] == ClearBits(v[o + k], s[o + k])
  {
  }

  lemma UnionChunkAt(a: Bytes, b: Bytes, o: nat, k: nat)
    requires o + 8 <= |a| && o + 8 <= |b| && k < 8
    ensures UnionChunk(a, b, o)[k] == OrBits(a[o + k], b[o + k])
  {
  }

  class Bitmap {
    const data: array<bv8>

    ghost predicate Valid() { IsPowerOfTwo(data.Length) && data.Length >= 8 }

    constructor (size: nat, fillPattern: bv8)
      requires size >= 8 && IsPowerOfTwo(size)
      ensures Valid() && fresh(data) && data.Length == size
      ensures forall i :: 0 <= i < size ==> data[i] == fillPattern
    {
      data := new bv8[size](_ => fillPattern);
    }

    /** Is there an untouched edge among the eight bytes from `o`? */
    method NewEdgeInChunk(virgin: Bitmap, o: nat) returns (found: bool)
      requires o + 8 <= data.Length && o + 8 <= virgin.data.Length
      ensures found <==> EdgeAt(data[..], virgin.data[..], o)
    {
      for i := 0 to 8
        invariant forall k :: o <= k < o + i ==> !(data[..][k] != 0 && virgin.data[..][k] == 0xff)
      {
        if data[o + i] != 0 && virgin.data[o + i] == 0xff {
          assert data[..][o + i] != 0 && virgin.data[..][o + i] == 0xff;
          return true;
        }
      }
      found := false;
    }

    /** Replace the eight bytes from `o`. */
    method Store(o: nat, bytes: Bytes)
      requires o + 8 <= data.Length && |bytes| == 8
      modifies data
      ensures forall i :: 0 <= i < data.Length ==> data[i] == if o <= i < o + 8 then bytes[i - o] else old(data[i])
    {
      forall i | 0 <= i < 8 {
        data[o + i] := bytes[i];
      }
    }

    /** Remove this map's bits from the virgin map's word at `o`. */
    method ClearWord(virgin: Bitmap, o: nat)
      requires o + 8 <= data.Length && o + 8 <= virgin.data.Length && data != virgin.data
      modifies virgin.data
      ensures forall i :: 0 <= i < virgin.data.Length ==>
                virgin.data[i] == if o <= i < o + 8 then ClearBits(old(virgin.data[i]), data[i]) else old(virgin.data[i])
    {
      ghost var s, v := data[..], virgin.data[..];
      var u := ClearedWord(virgin.data[..], data[..], o);
      virgin.Store(o, u);
      forall i | o <= i < o + 8 ensures u[i - o] == ClearBits(v[i], s[i]) { ClearedChunkAt(v, s, o, i - o); }
    }

    /** Verdict on this map against a virgin map, from which its bits are removed. */
    method HasNewBit(virgin: Bitmap) returns (ret: Status)
      requires Valid() && virgin.Valid() && data != virgin.data
      modifies virgin.data
      ensures ret == StatusOf(data[..], old(virgin.data[..]))
      ensures virgin.data[..] == Minus(old(virgin.data[..]), data[..])
    {
      PowerOfTwoWords(data.Length);
      PowerOfTwoWords(virgin.data.Length);
      var n := if data.Length < virgin.data.Length then data.Length else virgin.data.Length;
      ghost var s, v := data[..], virgin.data[..];
      ret := Scan(virgin, n, s, v);
      WholeMaps(s, v, n);
    }

    /** The loop over the common chunks. */
    method Scan(virgin: Bitmap, n: nat, ghost s: Bytes, ghost v: Bytes) returns (ret: Status)
      requires n <= data.Length && n <= virgin.data.Length && n % 8 == 0 && data != virgin.data
      requires s == data[..] && v == virgin.data[..]
      modifies virgin.data
      ensures ret == StatusBelow(s, v, n) && virgin.data[..] == Minus(v, s[..n])
    {
      ret := NoChange;
      var o := 0;
      assert s[..0] == [] && v[..0] == [] && Minus(v, []) == v;
      while o < n
        invariant o <= n && o % 8 == 0
        invariant ret == StatusBelow(s, v, o)
        invariant virgin.data[..] == Minus(v, s[..o])
      {
        NextWord(o, n);
        ret := ChunkStep(virgin, o, ret, s, v);
        o := o + 8;
      }
    }

    /** One iteration: eight bytes. */
    method ChunkStep(virgin: Bitmap, o: nat, ret: Status, ghost s: Bytes, ghost v: Bytes) returns (status: Status)
      requires o + 8 <= data.Length && o + 8 <= virgin.data.Length && data != virgin.data
      requires s == data[..] && |v| == virgin.data.Length && virgin.data[..] == Minus(v, s[..o])
      requires ret == StatusBelow(s, v, o)
      modifies virgin.data
      ensures status == StatusBelow(s, v, o + 8)
      ensures virgin.data[..] == Minus(v, s[..o + 8])
    {
      SameChunk(s, v, virgin.data[..], o);
      StatusStep(s, v, o);
      var meets;
      meets, status := ChunkVerdict(virgin, o, ret);
      if meets {
        ghost var w := virgin.data[..];
        ClearWord(virgin, o);
        ChunkCleared(s, v, o, w, virgin.data[..]);
      } else {
        ChunkUntouched(s, v, o);
      }
    }

    /** What the eight bytes from `o` make of the verdict on those before. */
    method ChunkVerdict(virgin: Bitmap, o: nat, ret: Status) returns (meets: bool, status: Status)
      requires o + 8 <= data.Length && o + 8 <= virgin.data.Length
      ensures meets <==> MeetsAt(data[..], virgin.data[..], o)
      ensures status == if !meets then ret
                        else if ret == NewEdge || EdgeAt(data[..], virgin.data[..], o) then NewEdge
                        else NewHit
    {
      status := ret;
      meets := CommonBits(data[..], virgin.data[..], o);
      if meets && ret != NewEdge {
        status := NewHit;
        var edge := NewEdgeInChunk(virgin, o);
        if edge {
          status := NewEdge;
        }
      }
    }

    /** Bucket the two bytes at `o` with one table lookup. */
    method ClassifyPair(lookup: array<bv16>, o: nat)
      requires o + 2 <= data.Length && IsLookup(lookup[..]) && lookup as object != data
      modifies data
      ensures data[o] == Bucket(old(data[o])) && data[o + 1] == Bucket(old(data[o + 1]))
      ensures forall i :: 0 <= i < data.Length && i != o && i != o + 1 ==> data[i] == old(data[i])
    {
      var lo, hi := data[o], data[o + 1];
      var x := Pack16(lo, hi) as int;
      LookupBuckets(lookup[..], lo, hi, x);
      Halves(Bucket(lo), Bucket(hi));
      var entry := lookup[x];
      data[o] := (entry & 0xff) as bv8;
      data[o + 1] := (entry >> 8) as bv8;
    }

    method WordIsZero(o: nat) returns (r: bool)
      requires o + 8 <= data.Length
      ensures r <==> forall i :: o <= i < o + 8 ==> data[i] == 0
    {
      WordZero(data[..], o);
      assert ZeroAt(data[..], o) <==> forall i :: o <= i < o + 8 ==> data[..][i] == 0;
      r := Word(data[..], o) == 0;
    }

    /** Replace every hit count by its bucket, skipping empty words. */
    method ClassifyCounts(lookup: array<bv16>)
      requires Valid() && IsLookup(lookup[..]) && lookup as object != data
      modifies data
      ensures data[..] == Classified(old(data[..]))
      ensures forall i, m :: 0 <= i < data.Length && OneBit(m) ==> (Bit(data[i], m) <==> InBucket(old(data[i]), m))
    {
      PowerOfTwoWords(data.Length);
      ghost var s := data[..];
      var o := 0;
      while o < data.Length
        invariant o <= data.Length && o % 8 == 0
        invariant forall i :: 0 <= i < o ==> data[i] == Bucket(s[i])
        invariant forall i :: o <= i < data.Length ==> data[i] == s[i]
      {
        NextWord(o, data.Length);
        var empty := WordIsZero(o);
        if !empty {
          for h := 0 to 4
            invariant forall i :: 0 <= i < o + 2 * h ==> data[i] == Bucket(s[i])
            invariant forall i :: o + 2 * h <= i < data.Length ==> data[i] == s[i]
          {
            ClassifyPair(lookup, o + 2 * h);
          }
        } else {
          assert Bucket(0) == 0;
        }
        o := o + 8;
      }
    }

    method CountBytesSet() returns (bytesSet: nat)
      requires Valid()
      ensures bytesSet == NonZeros(data[..])
    {
      PowerOfTwoWords(data.Length);
      ghost var s := data[..];
      assert s[0..] == s;
      bytesSet := 0;
      var o := 0;
      while o < data.Length
        invariant o <= data.Length && o % 8 == 0
        invariant bytesSet + NonZeros(s[o..]) == NonZeros(s)
      {
        NextWord(o, data.Length);
        var n := WordBytesSet(o);
        bytesSet := bytesSet + n;
        o := o + 8;
      }
      assert s[o..] == [];
    }

    /** Test a word's bytes by masks, unless it is zero. */
    method WordBytesSet(o: nat) returns (n: nat)
      requires o + 8 <= data.Length
      ensures NonZeros(data[..][o..]) == n + NonZeros(data[..][o + 8..])
    {
      NonZerosOfChunk(data[..], o);
      BytesSetInWord(data[..], o);
      WordZero(data[..], o);
      n := 0;
      var val := Word(data[..], o);
      if val > 0 {
        n := BytesSetIn(val);
      }
    }

    method CountBitsSet() returns (bits: nat)
      requires Valid()
      ensures bits == Ones(data[..])
    {
      PowerOfTwoWords(data.Length);
      ghost var s := data[..];
      assert s[0..] == s;
      bits := 0;
      var o := 0;
      while o < data.Length
        invariant o <= data.Length && o % 8 == 0
        invariant bits + Ones(s[o..]) == Ones(s)
      {
        NextWord(o, data.Length);
        var ones := WordOnes(o);
        bits := bits + ones;
        o := o + 8;
      }
      assert s[o..] == [];
    }

    method WordOnes(o: nat) returns (n: nat)
      requires o + 8 <= data.Length
      ensures Ones(data[..][o..]) == n + Ones(data[..][o + 8..])
    {
      OnesOfChunk(data[..], o);
      n := CountOnes(Word(data[..], o));
    }

    /** Indices of the edges that were hit, ascending. */
    method Edges() returns (ret: seq<nat>)
      ensures ret == EdgesFrom(data[..], 0)
      ensures |ret| == NonZeros(data[..]) && AscendingEdges(ret, data[..], 0)
    {
      ret := [];
      for i := 0 to data.Length
        invariant ret + EdgesFrom(data[..][i..], i) == EdgesFrom(data[..], 0)
      {
        EdgesStep(data[..], i);
        if data[i] != 0 {
          ret := ret + [i];
        }
      }
      assert data[..][data.Length..] == [];
      EdgesAscend(data[..], 0);
    }

    /** One bit per edge in a map an eighth as large; `None` is the panic on a map under 64 bytes. */
    method Minimize() returns (r: Option<Bitmap>)
      requires Valid()
      ensures r.None? <==> data.Length < 64
      ensures r.Some? ==> r.value.Valid() && fresh(r.value.data) && data.Length % 8 == 0
                          && r.value.data[..] == Minimized(data[..])
    {
      PowerOfTwoWords(data.Length);
      if data.Length / 8 < 8 {
        return None;
      }
      var map_ := new Bitmap(data.Length / 8, 0);
      for idx := 0 to data.Length
        invariant forall j :: 0 <= j < map_.data.Length ==> map_.data[j] == MinBits(data[..], 8 * j, Filled(idx, j))
      {
        if data[idx] != 0 {
          map_.data[idx / 8] := map_.data[idx / 8] | Mask(idx % 8);
        }
        forall j | 0 <= j < map_.data.Length && j != idx / 8 ensures Filled(idx + 1, j) == Filled(idx, j) {
        }
      }
      r := Some(map_);
    }

    method StoreUnion(a: Bitmap, b: Bitmap, o: nat)
      requires o + 8 <= data.Length && o + 8 <= a.data.Length && o + 8 <= b.data.Length && data != a.data && data != b.data
      modifies data
      ensures forall i :: 0 <= i < data.Length && !(o <= i < o + 8) ==> data[i] == old(data[i])
      ensures forall i :: o <= i < o + 8 ==> data[i] == OrBits(a.data[i], b.data[i])
    {
      ghost var s, t := a.data[..], b.data[..];
      var u := UnionWord(a.data[..], b.data[..], o);
      Store(o, u);
      forall i | o <= i < o + 8 ensures u[i - o] == OrBits(s[i], t[i]) { UnionChunkAt(s, t, o, i - o); }
    }

    /** Word-wise union over the common words. */
    method BitOr(rhs: Bitmap) returns (r: Bitmap)
      requires Valid() && rhs.Valid()
      ensures r.Valid() && fresh(r.data) && r.data[..] == Or(data[..], rhs.data[..])
    {
      PowerOfTwoWords(data.Length);
      PowerOfTwoWords(rhs.data.Length);
      r := new Bitmap(data.Length, 0);
      var n := if data.Length < rhs.data.Length then data.Length else rhs.data.Length;
      r.UnionOf(this, rhs, n);
    }

    method UnionOf(a: Bitmap, b: Bitmap, n: nat)
      requires n % 8 == 0 && n <= data.Length && n <= a.data.Length && n <= b.data.Length
      requires data != a.data && data != b.data && forall i :: 0 <= i < data.Length ==> data[i] == 0
      modifies data
      ensures forall i :: 0 <= i < data.Length ==> data[i] == if i < n then OrBits(a.data[i], b.data[i]) else 0
    {
      var o := 0;
      while o < n
        invariant o <= n && o % 8 == 0
        invariant forall i :: 0 <= i < o ==> data[i] == OrBits(a.data[i], b.data[i])
        invariant forall i :: o <= i < data.Length ==> data[i] == 0
      {
        NextWord(o, n);
        StoreUnion(a, b, o);
        o := o + 8;
      }
    }
  }

  /** A campaign: every input is judged against the one virgin map, which loses its bits. */
  method FeedAll(virgin: Bitmap, inputs: seq<Bitmap>, ghost contents: seq<Bytes>) returns (r: seq<Status>)
    requires virgin.Valid() && |inputs| == |contents|
    requires forall i :: 0 <= i < |inputs| ==>
               inputs[i].Valid() && inputs[i].data != virgin.data && inputs[i].data[..] == contents[i]
    modifies virgin.data
    ensures virgin.data[..] == Feed(old(virgin.data[..]), contents)
    ensures r == Statuses(old(virgin.data[..]), contents)
  {
    ghost var v := virgin.data[..];
    r := [];
    for i := 0 to |inputs|
      invariant virgin.data[..] == Feed(v, contents[..i]) && r == Statuses(v, contents[..i])
      invariant forall j :: 0 <= j < |inputs| ==> inputs[j].data[..] == contents[j]
    {
      assert contents[..i + 1][..i] == contents[..i];
      var status := inputs[i].HasNewBit(virgin);
      r := r + [status];
    }
    assert contents[..|contents|] == contents;
  }

  /** How many of byte `j`'s eight edges lie before edge `idx`. */
  function Filled(idx: nat, j: nat): (k: nat)
    ensures k <= 8 && 8 * j + k <= (if idx < 8 * j + 8 && idx > 8 * j then idx else 8 * j + 8)
  {
    if idx <= 8 * j then 0 else if idx >= 8 * j + 8 then 8 else idx - 8 * j
  }

  lemma EdgesStep(s: Bytes, i: nat)
    requires i < |s|
    ensures EdgesFrom(s[i..], i) == (if s[i] != 0 then [i] else []) + EdgesFrom(s[i + 1..], i + 1)
  {
  }

  // ----- the chunk a step works on

  lemma SameChunk(s: Bytes, v: Bytes, w: Bytes, o: nat)
    requires o + 8 <= |s| && o + 8 <= |v| && w == Minus(v, s[..o])
    ensures MeetsAt(s, w, o) == MeetsAt(s, v, o) && EdgeAt(s, w, o) == EdgeAt(s, v, o)
  {
  }

  lemma ChunkCleared(s: Bytes, v: Bytes, o: nat, w: Bytes, u: Bytes)
    requires o + 8 <= |s| && o + 8 <= |v| == |u| && w == Minus(v, s[..o])
    requires forall i :: 0 <= i < |u| ==> u[i] == if o <= i < o + 8 then ClearBits(w[i], s[i]) else w[i]
    ensures u == Minus(v, s[..o + 8])
  {
  }

  lemma ChunkUntouched(s: Bytes, v: Bytes, o: nat)
    requires o + 8 <= |s| && o + 8 <= |v| && !MeetsAt(s, v, o)
    ensures Minus(v, s[..o]) == Minus(v, s[..o + 8])
  {
    MeetsSomewhere(s, v, o);
    forall i | 0 <= i < |v| ensures Minus(v, s[..o])[i] == Minus(v, s[..o + 8])[i] {
      if o <= i < o + 8 { NothingToClear(v[i], s[i]); }
    }
  }

  lemma WholeMaps(s: Bytes, v: Bytes, n: nat)
    requires n == if |s| < |v| then |s| else |v|
    ensures StatusBelow(s, v, n) == StatusOf(s, v) && Minus(v, s[..n]) == Minus(v, s)
  {
  }
}
