/** Coverage maps as plain byte sequences, and the machine words the implementation reads them in. */
module BitmapSpec {

  type Bytes = seq<bv8>

  datatype Status = NoChange | NewHit | NewEdge

  // ----- bits of a byte, each named by its value

  predicate OneBit(m: bv8) {
    m == 1 || m == 2 || m == 4 || m == 8 || m == 16 || m == 32 || m == 64 || m == 128
  }

  predicate Bit(b: bv8, m: bv8) { b & m != 0 }

  lemma BitOps(a: bv8, b: bv8, m: bv8)
    requires OneBit(m)
    ensures Bit(a & !b, m) <==> Bit(a, m) && !Bit(b, m)
    ensures Bit(a & b, m) <==> Bit(a, m) && Bit(b, m)
    ensures Bit(a | b, m) <==> Bit(a, m) || Bit(b, m)
    ensures !Bit(0, m) && Bit(0xff, m)
  {
  }

  lemma SameBits(a: bv8, b: bv8)
    requires forall m :: OneBit(m) ==> Bit(a, m) == Bit(b, m)
    ensures a == b
  {
    assert Bit(a, 1) == Bit(b, 1) && Bit(a, 2) == Bit(b, 2) && Bit(a, 4) == Bit(b, 4) && Bit(a, 8) == Bit(b, 8);
    assert Bit(a, 16) == Bit(b, 16) && Bit(a, 32) == Bit(b, 32) && Bit(a, 64) == Bit(b, 64) && Bit(a, 128) == Bit(b, 128);
  }

  lemma SomeBit(b: bv8)
    ensures b != 0 <==> exists m :: OneBit(m) && Bit(b, m)
    ensures b == 0xff <==> forall m :: OneBit(m) ==> Bit(b, m)
  {
    forall m | OneBit(m) ensures !Bit(0, m) && Bit(0xff, m) { BitOps(0, 0, m); }
    if b != 0 {
      assert Bit(b, 1) || Bit(b, 2) || Bit(b, 4) || Bit(b, 8) || Bit(b, 16) || Bit(b, 32) || Bit(b, 64) || Bit(b, 128);
    }
    if b != 0xff {
      assert !Bit(b, 1) || !Bit(b, 2) || !Bit(b, 4) || !Bit(b, 8) || !Bit(b, 16) || !Bit(b, 32) || !Bit(b, 64) || !Bit(b, 128);
    }
  }

  function One(c: bool): nat { if c then 1 else 0 }

  /** `1 << k` */
  function Mask(k: nat): (m: bv8)
    requires k < 8
  {
    if k == 0 then 1 else Mask(k - 1) << 1
  }

  lemma MaskValues()
    ensures Mask(0) == 1 && Mask(1) == 2 && Mask(2) == 4 && Mask(3) == 8
    ensures Mask(4) == 16 && Mask(5) == 32 && Mask(6) == 64 && Mask(7) == 128
  {
  }

  predicate BitAt(b: bv8, k: nat)
    requires k < 8
  {
    Bit(b, Mask(k))
  }

  function PopcountUpTo(b: bv8, k: nat): (n: nat)
    requires k <= 8
    ensures n <= k
  {
    if k == 0 then 0 else PopcountUpTo(b, k - 1) + One(BitAt(b, k - 1))
  }

  function Popcount(b: bv8): (n: nat)
    ensures n <= 8
  {
    PopcountUpTo(b, 8)
  }

  lemma BitSplit(v: bv8, s: bv8, m: bv8)
    requires OneBit(m)
    ensures One(Bit(v & !s, m)) + One(Bit(v & s, m)) == One(Bit(v, m))
  {
  }

  lemma MaskIsOneBit(k: nat)
    requires k < 8
    ensures OneBit(Mask(k))
  {
    MaskValues();
  }

  lemma {:induction false} PopcountSplit(v: bv8, s: bv8, k: nat)
    requires k <= 8
    ensures PopcountUpTo(v & !s, k) + PopcountUpTo(v & s, k) == PopcountUpTo(v, k)
  {
    if k > 0 {
      PopcountSplit(v, s, k - 1);
      MaskIsOneBit(k - 1);
      BitSplit(v, s, Mask(k - 1));
    }
  }

  lemma {:induction false} PopcountZero(b: bv8, k: nat)
    requires k <= 8
    ensures PopcountUpTo(b, k) == 0 <==> forall i :: 0 <= i < k ==> !BitAt(b, i)
  {
    if k > 0 { PopcountZero(b, k - 1); }
  }

  lemma SomeMask(b: bv8)
    ensures b == 0 <==> forall i :: 0 <= i < 8 ==> !BitAt(b, i)
  {
    MaskValues();
    SomeBit(b);
    forall i | 0 <= i < 8 ensures OneBit(Mask(i)) { MaskIsOneBit(i); }
    if forall i :: 0 <= i < 8 ==> !BitAt(b, i) {
      assert !BitAt(b, 0) && !BitAt(b, 1) && !BitAt(b, 2) && !BitAt(b, 3);
      assert !BitAt(b, 4) && !BitAt(b, 5) && !BitAt(b, 6) && !BitAt(b, 7);
    }
  }

  lemma PopcountMinus(v: bv8, s: bv8)
    ensures Popcount(v & !s) <= Popcount(v) <= 8
    ensures Meet(s, v) <==> Popcount(v & !s) < Popcount(v)
  {
    PopcountSplit(v, s, 8);
    PopcountZero(v & s, 8);
    SomeMask(v & s);
    assert s & v == v & s;
  }

  // ----- 64-bit words, little endian

  function Pack(b0: bv8, b1: bv8, b2: bv8, b3: bv8, b4: bv8, b5: bv8, b6: bv8, b7: bv8): bv64 {
    (b0 as bv64) | ((b1 as bv64) << 8) | ((b2 as bv64) << 16) | ((b3 as bv64) << 24)
    | ((b4 as bv64) << 32) | ((b5 as bv64) << 40) | ((b6 as bv64) << 48) | ((b7 as bv64) << 56)
  }

  /** The word made of the eight bytes from offset `o`. */
  function Word(s: Bytes, o: nat): bv64
    requires o + 8 <= |s|
  {
    Pack(s[o], s[o + 1], s[o + 2], s[o + 3], s[o + 4], s[o + 5], s[o + 6], s[o + 7])
  }

  function Unpack(w: bv64): (s: Bytes)
    ensures |s| == 8
  {
    [(w & 0xff) as bv8, ((w >> 8) & 0xff) as bv8, ((w >> 16) & 0xff) as bv8, ((w >> 24) & 0xff) as bv8,
     ((w >> 32) & 0xff) as bv8, ((w >> 40) & 0xff) as bv8, ((w >> 48) & 0xff) as bv8, ((w >> 56) & 0xff) as bv8]
  }

  predicate ZeroAt(s: Bytes, o: nat)
    requires o + 8 <= |s|
  {
    s[o] == 0 && s[o + 1] == 0 && s[o + 2] == 0 && s[o + 3] == 0 && s[o + 4] == 0 && s[o + 5] == 0 && s[o + 6] == 0 && s[o + 7] == 0
  }

  predicate MeetsAt(s: Bytes, v: Bytes, o: nat)
    requires o + 8 <= |s| && o + 8 <= |v|
  {
    s[o] & v[o] != 0 || s[o + 1] & v[o + 1] != 0 || s[o + 2] & v[o + 2] != 0 || s[o + 3] & v[o + 3] != 0
    || s[o + 4] & v[o + 4] != 0 || s[o + 5] & v[o + 5] != 0 || s[o + 6] & v[o + 6] != 0 || s[o + 7] & v[o + 7] != 0
  }

  /** A word is zero exactly if its eight bytes are. */
  lemma WordZero(s: Bytes, o: nat)
    requires o + 8 <= |s|
    ensures Word(s, o) == 0 <==> ZeroAt(s, o)
  {
  }

  /** Two words have a common bit exactly if two corresponding bytes have. */
  lemma WordsMeet(s: Bytes, v: Bytes, o: nat)
    requires o + 8 <= |s| && o + 8 <= |v|
    ensures Word(s, o) & Word(v, o) != 0 <==> MeetsAt(s, v, o)
  {
  }

  function ClearBits(v: bv8, s: bv8): bv8 { v & !s }

  function OrBits(a: bv8, b: bv8): bv8 { a | b }

  function ClearedChunk(v: Bytes, s: Bytes, o: nat): (u: Bytes)
    requires o + 8 <= |s| && o + 8 <= |v|
    ensures |u| == 8
  {
    [ClearBits(v[o], s[o]), ClearBits(v[o + 1], s[o + 1]), ClearBits(v[o + 2], s[o + 2]), ClearBits(v[o + 3], s[o + 3]),
     ClearBits(v[o + 4], s[o + 4]), ClearBits(v[o + 5], s[o + 5]), ClearBits(v[o + 6], s[o + 6]), ClearBits(v[o + 7], s[o + 7])]
  }

  /** Clearing bits word-wise clears them byte-wise. */
  lemma WordMinus(v: Bytes, s: Bytes, o: nat)
    requires o + 8 <= |s| && o + 8 <= |v|
    ensures Unpack(Word(v, o) & !Word(s, o)) == ClearedChunk(v, s, o)
  {
  }

  function UnionChunk(a: Bytes, b: Bytes, o: nat): (u: Bytes)
    requires o + 8 <= |a| && o + 8 <= |b|
    ensures |u| == 8
  {
    [OrBits(a[o], b[o]), OrBits(a[o + 1], b[o + 1]), OrBits(a[o + 2], b[o + 2]), OrBits(a[o + 3], b[o + 3]),
     OrBits(a[o + 4], b[o + 4]), OrBits(a[o + 5], b[o + 5]), OrBits(a[o + 6], b[o + 6]), OrBits(a[o + 7], b[o + 7])]
  }

  lemma WordOr(a: Bytes, b: Bytes, o: nat)
    requires o + 8 <= |a| && o + 8 <= |b|
    ensures Unpack(Word(a, o) | Word(b, o)) == UnionChunk(a, b, o)
  {
  }

  // ----- maps

  function Minus(v: Bytes, s: Bytes): (r: Bytes)
    ensures |r| == |v|
    ensures forall i :: 0 <= i < |v| ==> r[i] == if i < |s| then ClearBits(v[i], s[i]) else v[i]
  {
    seq(|v|, i requires 0 <= i < |v| => if i < |s| then ClearBits(v[i], s[i]) else v[i])
  }

  /** Some edge was never touched before. */
  predicate HasNewEdge(s: Bytes, v: Bytes) {
    exists i :: 0 <= i < |s| && i < |v| && s[i] != 0 && v[i] == 0xff
  }

  predicate Meet(x: bv8, y: bv8) { x & y != 0 }

  predicate HasNewHit(s: Bytes, v: Bytes) {
    exists i :: 0 <= i < |s| && i < |v| && Meet(s[i], v[i])
  }

  function StatusOf(s: Bytes, v: Bytes): Status {
    if HasNewEdge(s, v) then NewEdge else if HasNewHit(s, v) then NewHit else NoChange
  }

  // ----- campaigns: one virgin map, many inputs

  function Fresh(n: nat): (v: Bytes)
    ensures |v| == n && forall i :: 0 <= i < n ==> v[i] == 0xff
  {
    seq(n, _ => 0xff)
  }

  function Feed(v: Bytes, inputs: seq<Bytes>): (r: Bytes)
    ensures |r| == |v|
  {
    if inputs == [] then v else Minus(Feed(v, inputs[..|inputs| - 1]), inputs[|inputs| - 1])
  }

  function Statuses(v: Bytes, inputs: seq<Bytes>): (r: seq<Status>)
    ensures |r| == |inputs|
  {
    if inputs == [] then []
    else
      var init := inputs[..|inputs| - 1];
      Statuses(v, init) + [StatusOf(inputs[|inputs| - 1], Feed(v, init))]
  }

  /** The pair (edge, bucket bit) was hit by some input. */
  predicate Seen(inputs: seq<Bytes>, i: nat, m: bv8)
    requires OneBit(m)
  {
    exists j :: 0 <= j < |inputs| && i < |inputs[j]| && Bit(inputs[j][i], m)
  }

  lemma SeenSnoc(init: seq<Bytes>, s: Bytes, i: nat, m: bv8)
    requires OneBit(m)
    ensures Seen(init + [s], i, m) <==> Seen(init, i, m) || (i < |s| && Bit(s[i], m))
  {
    var all := init + [s];
    if Seen(init, i, m) {
      var j :| 0 <= j < |init| && i < |init[j]| && Bit(init[j][i], m);
      assert all[j] == init[j];
    }
    if i < |s| && Bit(s[i], m) {
      assert all[|init|] == s;
    }
  }

  /** A pair is left in the virgin map exactly if it was there initially and no input hit it. */
  lemma {:induction false} FeedRemovesSeen(v: Bytes, inputs: seq<Bytes>, i: nat, m: bv8)
    requires i < |v| && OneBit(m)
    ensures Bit(Feed(v, inputs)[i], m) <==> Bit(v[i], m) && !Seen(inputs, i, m)
    decreases |inputs|
  {
    if inputs != [] {
      var init, s := inputs[..|inputs| - 1], inputs[|inputs| - 1];
      assert inputs == init + [s];
      FeedRemovesSeen(v, init, i, m);
      SeenSnoc(init, s, i, m);
      if i < |s| { BitOps(Feed(v, init)[i], s[i], m); }
    }
  }

  /** From a fresh map, the virgin map is exactly the complement of the set of seen pairs. */
  lemma {:induction false} VirginIsComplement(n: nat, inputs: seq<Bytes>, i: nat, m: bv8)
    requires i < n && OneBit(m)
    ensures Bit(Feed(Fresh(n), inputs)[i], m) <==> !Seen(inputs, i, m)
  {
    FeedRemovesSeen(Fresh(n), inputs, i, m);
    BitOps(0, 0, m);
  }

  /** No earlier input touched the edge. */
  predicate Untouched(inputs: seq<Bytes>, i: nat) {
    forall j :: 0 <= j < |inputs| && i < |inputs[j]| ==> inputs[j][i] == 0
  }

  lemma {:induction false} UntouchedIsFull(n: nat, inputs: seq<Bytes>, i: nat)
    requires i < n
    ensures Feed(Fresh(n), inputs)[i] == 0xff <==> Untouched(inputs, i)
  {
    var b := Feed(Fresh(n), inputs)[i];
    SomeBit(b);
    forall m | OneBit(m) ensures Bit(b, m) <==> !Seen(inputs, i, m) { VirginIsComplement(n, inputs, i, m); }
    if Untouched(inputs, i) {
      forall m | OneBit(m) ensures !Seen(inputs, i, m) { BitOps(0, 0, m); }
    } else {
      var j :| 0 <= j < |inputs| && i < |inputs[j]| && inputs[j][i] != 0;
      SomeBit(inputs[j][i]);
      var m :| OneBit(m) && Bit(inputs[j][i], m);
      assert Seen(inputs, i, m);
    }
  }

  ghost predicate NewPair(inputs: seq<Bytes>, s: Bytes, i: nat, m: bv8)
    requires OneBit(m)
  {
    i < |s| && Bit(s[i], m) && !Seen(inputs, i, m)
  }

  lemma MeetInBit(x: bv8, y: bv8)
    ensures Meet(x, y) <==> exists m :: OneBit(m) && Bit(x, m) && Bit(y, m)
  {
    SomeBit(x & y);
    forall m | OneBit(m) ensures Bit(x & y, m) <==> Bit(x, m) && Bit(y, m) { BitOps(x, y, m); }
  }

  lemma NewPairIsNewHit(n: nat, inputs: seq<Bytes>, s: Bytes, i: nat)
    requires |s| == n && i < n
    ensures Meet(s[i], Feed(Fresh(n), inputs)[i]) <==> exists m :: OneBit(m) && NewPair(inputs, s, i, m)
  {
    MeetInBit(s[i], Feed(Fresh(n), inputs)[i]);
    forall m | OneBit(m) ensures Bit(Feed(Fresh(n), inputs)[i], m) <==> !Seen(inputs, i, m) {
      VirginIsComplement(n, inputs, i, m);
    }
  }

  ghost predicate TouchesNewEdge(inputs: seq<Bytes>, s: Bytes) {
    exists i :: 0 <= i < |s| && s[i] != 0 && Untouched(inputs, i)
  }

  ghost predicate HasNewPair(inputs: seq<Bytes>, s: Bytes) {
    exists i, m :: 0 <= i < |s| && OneBit(m) && NewPair(inputs, s, i, m)
  }

  lemma NewEdgeMeaning(n: nat, inputs: seq<Bytes>, s: Bytes)
    requires |s| == n
    ensures HasNewEdge(s, Feed(Fresh(n), inputs)) <==> TouchesNewEdge(inputs, s)
  {
    forall i | 0 <= i < n ensures Feed(Fresh(n), inputs)[i] == 0xff <==> Untouched(inputs, i) {
      UntouchedIsFull(n, inputs, i);
    }
  }

  lemma NewHitMeaning(n: nat, inputs: seq<Bytes>, s: Bytes)
    requires |s| == n
    ensures HasNewHit(s, Feed(Fresh(n), inputs)) <==> HasNewPair(inputs, s)
  {
    forall i | 0 <= i < n
      ensures Meet(s[i], Feed(Fresh(n), inputs)[i]) <==> exists m :: OneBit(m) && NewPair(inputs, s, i, m)
    {
      NewPairIsNewHit(n, inputs, s, i);
    }
  }

  /** What the verdict on an input means in terms of all inputs before it: `NewEdge` iff it
      touches an edge none of them touched, `NewHit` iff it has a new pair but no new edge. */
  lemma {:induction false} VerdictMeaning(n: nat, inputs: seq<Bytes>, s: Bytes)
    requires |s| == n
    ensures var verdict := StatusOf(s, Feed(Fresh(n), inputs));
            && (verdict == NewEdge <==> TouchesNewEdge(inputs, s))
            && (verdict == NewHit <==> HasNewPair(inputs, s) && !TouchesNewEdge(inputs, s))
            && (verdict == NoChange <==> !HasNewPair(inputs, s))
  {
    NewEdgeMeaning(n, inputs, s);
    NewHitMeaning(n, inputs, s);
    NewEdgeIsNewHit(s, Feed(Fresh(n), inputs));
  }

  lemma NewEdgeIsNewHit(s: Bytes, v: Bytes)
    ensures HasNewEdge(s, v) ==> HasNewHit(s, v)
  {
  }

  // ----- bounds and order independence

  function Sum(xs: seq<nat>): nat { if xs == [] then 0 else xs[0] + Sum(xs[1..]) }

  lemma {:induction false} SumMonotone(a: seq<nat>, b: seq<nat>)
    requires |a| == |b| && forall i :: 0 <= i < |a| ==> a[i] <= b[i]
    ensures Sum(a) <= Sum(b)
    ensures (exists i :: 0 <= i < |a| && a[i] < b[i]) ==> Sum(a) < Sum(b)
  {
    if a != [] {
      SumMonotone(a[1..], b[1..]);
      if (exists i :: 0 <= i < |a| && a[i] < b[i]) && a[0] == b[0] {
        var i :| 0 <= i < |a| && a[i] < b[i];
        assert a[1..][i - 1] < b[1..][i - 1];
      }
    }
  }

  lemma {:induction false} SumBounded(xs: seq<nat>, max: nat)
    requires forall i :: 0 <= i < |xs| ==> xs[i] <= max
    ensures Sum(xs) <= max * |xs|
  {
    if xs != [] { SumBounded(xs[1..], max); }
  }

  function Popcounts(v: Bytes): (r: seq<nat>)
    ensures |r| == |v| && forall i :: 0 <= i < |v| ==> r[i] == Popcount(v[i])
  {
    seq(|v|, i requires 0 <= i < |v| => Popcount(v[i]))
  }

  /** Number of bits set. */
  function Ones(v: Bytes): nat { Sum(Popcounts(v)) }

  function FullMarks(v: Bytes): (r: seq<nat>)
    ensures |r| == |v| && forall i :: 0 <= i < |v| ==> r[i] == One(v[i] == 0xff)
  {
    seq(|v|, i requires 0 <= i < |v| => One(v[i] == 0xff))
  }

  /** Number of untouched bytes. */
  function Fulls(v: Bytes): nat { Sum(FullMarks(v)) }

  lemma OnesShrink(v: Bytes, s: Bytes)
    ensures Ones(Minus(v, s)) <= Ones(v) <= 8 * |v|
    ensures HasNewHit(s, v) ==> Ones(Minus(v, s)) < Ones(v)
  {
    var w := Minus(v, s);
    forall i | 0 <= i < |v|
      ensures Popcounts(w)[i] <= Popcounts(v)[i] <= 8
      ensures i < |s| && Meet(s[i], v[i]) ==> Popcounts(w)[i] < Popcounts(v)[i]
    {
      PopcountMinus(v[i], if i < |s| then s[i] else 0);
    }
    SumMonotone(Popcounts(w), Popcounts(v));
    SumBounded(Popcounts(v), 8);
  }

  lemma FullMinus(v: bv8, s: bv8)
    ensures v & !s == 0xff ==> v == 0xff && s == 0
  {
  }

  lemma FullsShrink(v: Bytes, s: Bytes)
    ensures Fulls(Minus(v, s)) <= Fulls(v) <= |v|
    ensures HasNewEdge(s, v) ==> Fulls(Minus(v, s)) < Fulls(v)
  {
    var w := Minus(v, s);
    forall i | 0 <= i < |v|
      ensures FullMarks(w)[i] <= FullMarks(v)[i] <= 1
      ensures i < |s| && s[i] != 0 && v[i] == 0xff ==> FullMarks(w)[i] < FullMarks(v)[i]
    {
      if i < |s| { FullMinus(v[i], s[i]); }
    }
    SumMonotone(FullMarks(w), FullMarks(v));
    SumBounded(FullMarks(v), 1);
  }

  function Changes(r: seq<Status>): nat { if r == [] then 0 else Changes(r[..|r| - 1]) + One(r[|r| - 1] != NoChange) }

  function NewEdges(r: seq<Status>): nat { if r == [] then 0 else NewEdges(r[..|r| - 1]) + One(r[|r| - 1] == NewEdge) }

  /** However many inputs are fed: every reported change uses up a bit of the virgin map, and every
      new edge an untouched byte. */
  lemma {:induction false} ChangesAreBounded(v: Bytes, inputs: seq<Bytes>)
    ensures Changes(Statuses(v, inputs)) + Ones(Feed(v, inputs)) <= Ones(v) <= 8 * |v|
    ensures NewEdges(Statuses(v, inputs)) + Fulls(Feed(v, inputs)) <= Fulls(v) <= |v|
    decreases |inputs|
  {
    OnesShrink(v, []);
    FullsShrink(v, []);
    if inputs != [] {
      var init, s := inputs[..|inputs| - 1], inputs[|inputs| - 1];
      ChangesAreBounded(v, init);
      OnesShrink(Feed(v, init), s);
      FullsShrink(Feed(v, init), s);
      NewEdgeIsNewHit(s, Feed(v, init));
      var r := Statuses(v, inputs);
      assert r[..|r| - 1] == Statuses(v, init);
    }
  }

  /** The final map depends on which inputs were fed, not on their order or number. */
  lemma {:induction false} OrderIsIrrelevant(v: Bytes, a: seq<Bytes>, b: seq<Bytes>)
    requires forall s :: s in a <==> s in b
    ensures Feed(v, a) == Feed(v, b)
  {
    forall i | 0 <= i < |v| ensures Feed(v, a)[i] == Feed(v, b)[i] {
      forall m | OneBit(m) ensures Bit(Feed(v, a)[i], m) == Bit(Feed(v, b)[i], m) {
        FeedRemovesSeen(v, a, i, m);
        FeedRemovesSeen(v, b, i, m);
        SeenTransfers(a, b, i, m);
        SeenTransfers(b, a, i, m);
      }
      SameBits(Feed(v, a)[i], Feed(v, b)[i]);
    }
  }

  lemma SeenTransfers(a: seq<Bytes>, b: seq<Bytes>, i: nat, m: bv8)
    requires OneBit(m) && forall s :: s in a ==> s in b
    ensures Seen(a, i, m) ==> Seen(b, i, m)
  {
    if Seen(a, i, m) {
      var j :| 0 <= j < |a| && i < |a[j]| && Bit(a[j][i], m);
      assert a[j] in b;
    }
  }

  /** An input that was fed before never changes anything again. */
  lemma {:induction false} RepeatIsNoChange(v: Bytes, inputs: seq<Bytes>, s: Bytes)
    requires s in inputs
    ensures StatusOf(s, Feed(v, inputs)) == NoChange
  {
    var w := Feed(v, inputs);
    var j :| 0 <= j < |inputs| && inputs[j] == s;
    forall i | 0 <= i < |s| && i < |w| ensures !Meet(s[i], w[i]) {
      SomeBit(s[i] & w[i]);
      forall m | OneBit(m) ensures !Bit(s[i] & w[i], m) {
        BitOps(s[i], w[i], m);
        FeedRemovesSeen(v, inputs, i, m);
        assert Bit(s[i], m) ==> i < |inputs[j]| && Bit(inputs[j][i], m);
      }
    }
    NewEdgeIsNewHit(s, w);
  }

  // ----- hit count buckets

  function Bucket(b: bv8): bv8 {
    if b < 1 then 0 else if b < 2 then 1 else if b < 3 then 2 else if b < 4 then 4 else if b < 8 then 8
    else if b < 16 then 16 else if b < 32 then 32 else if b < 128 then 64 else 128
  }

  function Classified(s: Bytes): (r: Bytes)
    ensures |r| == |s| && forall i :: 0 <= i < |s| ==> r[i] == Bucket(s[i])
  {
    seq(|s|, i requires 0 <= i < |s| => Bucket(s[i]))
  }

  /** A classified byte names exactly one bucket, and none only for an edge that was not hit. */
  lemma BucketIsOneBit(b: bv8)
    ensures b != 0 ==> OneBit(Bucket(b))
    ensures Bucket(b) != 0 <==> b != 0
  {
  }

  /** The hit counts that the bucket with bit `m` stands for. */
  predicate InBucket(count: bv8, m: bv8) {
    || (m == 1 && count == 1) || (m == 2 && count == 2) || (m == 4 && count == 3) || (m == 8 && 4 <= count <= 7)
    || (m == 16 && 8 <= count <= 15) || (m == 32 && 16 <= count <= 31) || (m == 64 && 32 <= count <= 127)
    || (m == 128 && 128 <= count)
  }

  /** A classified map has a bucket's bit exactly where the hit count is in that bucket. */
  lemma ClassifiedBits(s: Bytes, i: nat, m: bv8)
    requires i < |s| && OneBit(m)
    ensures Bit(Classified(s)[i], m) <==> InBucket(s[i], m)
  {
    BucketBits(s[i], m);
  }

  lemma BucketBits(count: bv8, m: bv8)
    requires OneBit(m)
    ensures Bit(Bucket(count), m) <==> InBucket(count, m)
  {
  }

  function AllClassified(maps: seq<Bytes>): (r: seq<Bytes>)
    ensures |r| == |maps| && forall j :: 0 <= j < |maps| ==> r[j] == Classified(maps[j])
  {
    seq(|maps|, j requires 0 <= j < |maps| => Classified(maps[j]))
  }

  /** Some map has a hit count in the bucket for the edge. */
  predicate Counted(maps: seq<Bytes>, i: nat, m: bv8) {
    exists j :: 0 <= j < |maps| && i < |maps[j]| && InBucket(maps[j][i], m)
  }

  /** A pair was seen by a campaign exactly if a raw hit count of that edge was in that bucket. */
  lemma SeenCounts(maps: seq<Bytes>, i: nat, m: bv8)
    requires OneBit(m)
    ensures Seen(AllClassified(maps), i, m) <==> Counted(maps, i, m)
  {
    forall j | 0 <= j < |maps| && i < |maps[j]| ensures Bit(AllClassified(maps)[j][i], m) <==> InBucket(maps[j][i], m) {
      ClassifiedBits(maps[j], i, m);
    }
    if Seen(AllClassified(maps), i, m) {
      var j :| 0 <= j < |maps| && i < |AllClassified(maps)[j]| && Bit(AllClassified(maps)[j][i], m);
      assert InBucket(maps[j][i], m);
    }
    if Counted(maps, i, m) {
      var j :| 0 <= j < |maps| && i < |maps[j]| && InBucket(maps[j][i], m);
      assert Bit(AllClassified(maps)[j][i], m);
    }
  }

  /** Some edge's hit count is in a bucket that no earlier count of that edge was in. */
  ghost predicate HasNewCount(maps: seq<Bytes>, s: Bytes) {
    exists i, m :: 0 <= i < |s| && OneBit(m) && NewCount(maps, s, i, m)
  }

  predicate NewCount(maps: seq<Bytes>, s: Bytes, i: nat, m: bv8) {
    i < |s| && InBucket(s[i], m) && !Counted(maps, i, m)
  }

  lemma NewPairIsNewCount(maps: seq<Bytes>, s: Bytes)
    ensures HasNewPair(AllClassified(maps), Classified(s)) <==> HasNewCount(maps, s)
  {
    forall i, m | 0 <= i < |s| && OneBit(m)
      ensures NewPair(AllClassified(maps), Classified(s), i, m) <==> NewCount(maps, s, i, m)
    {
      ClassifiedBits(s, i, m);
      SeenCounts(maps, i, m);
    }
  }

  lemma UntouchedCounts(maps: seq<Bytes>, i: nat)
    ensures Untouched(AllClassified(maps), i) <==> Untouched(maps, i)
  {
    forall j | 0 <= j < |maps| && i < |maps[j]| ensures AllClassified(maps)[j][i] == 0 <==> maps[j][i] == 0 {
      BucketIsOneBit(maps[j][i]);
    }
  }

  lemma NewEdgeIsNewCount(maps: seq<Bytes>, s: Bytes)
    ensures TouchesNewEdge(AllClassified(maps), Classified(s)) <==> TouchesNewEdge(maps, s)
  {
    forall i | 0 <= i < |s|
      ensures Classified(s)[i] != 0 && Untouched(AllClassified(maps), i) <==> s[i] != 0 && Untouched(maps, i)
    {
      BucketIsOneBit(s[i]);
      UntouchedCounts(maps, i);
    }
  }

  /** A campaign in terms of raw hit counts: every map is classified and then judged. `NewEdge` iff an edge
      is hit for the first time, `NewHit` iff only a hit count falls into a new bucket of its edge. */
  lemma {:induction false} CampaignOnCounts(n: nat, maps: seq<Bytes>, s: Bytes)
    requires |s| == n
    ensures var verdict := StatusOf(Classified(s), Feed(Fresh(n), AllClassified(maps)));
            && (verdict == NewEdge <==> TouchesNewEdge(maps, s))
            && (verdict == NewHit <==> HasNewCount(maps, s) && !TouchesNewEdge(maps, s))
            && (verdict == NoChange <==> !HasNewCount(maps, s))
  {
    VerdictMeaning(n, AllClassified(maps), Classified(s));
    NewPairIsNewCount(maps, s);
    NewEdgeIsNewCount(maps, s);
  }

  /** Classifying is not idempotent: it is exactly on maps without counts between 3 and 31. */
  lemma ClassifiedTwice(s: Bytes)
    ensures Classified(Classified(s)) == Classified(s)
       <==> forall i :: 0 <= i < |s| ==> s[i] < 3 || s[i] >= 32
  {
  }

  // ----- counting edges

  function NonZeros(s: Bytes): nat { if s == [] then 0 else One(s[0] != 0) + NonZeros(s[1..]) }

  /** Indices of non-zero bytes, counted from `base`. */
  function EdgesFrom(s: Bytes, base: nat): (r: seq<nat>)
    ensures |r| == NonZeros(s)
  {
    if s == [] then [] else (if s[0] != 0 then [base] else []) + EdgesFrom(s[1..], base + 1)
  }

  /** Strictly ascending indices of exactly the non-zero bytes. */
  ghost predicate AscendingEdges(r: seq<nat>, s: Bytes, base: nat) {
    && (forall j :: 0 <= j < |r| ==> base <= r[j] < base + |s| && s[r[j] - base] != 0)
    && (forall k :: 0 <= k < |s| && s[k] != 0 ==> base + k in r)
    && (forall i, j :: 0 <= i < j < |r| ==> r[i] < r[j])
  }

  lemma {:induction false} EdgesAscend(s: Bytes, base: nat)
    ensures AscendingEdges(EdgesFrom(s, base), s, base)
    decreases |s|
  {
    if s != [] {
      EdgesAscend(s[1..], base + 1);
      PrependEdge(EdgesFrom(s[1..], base + 1), s, base);
    }
  }

  lemma PrependEdge(tl: seq<nat>, s: Bytes, base: nat)
    requires s != [] && AscendingEdges(tl, s[1..], base + 1)
    ensures AscendingEdges((if s[0] != 0 then [base] else []) + tl, s, base)
  {
    forall k | 0 < k < |s| && s[k] != 0 ensures base + k in tl {
      assert s[1..][k - 1] != 0;
    }
  }

  lemma MasksDiffer(j: nat, k: nat)
    requires j < 8 && k < 8
    ensures Mask(j) == Mask(k) <==> j == k
  {
    MaskValues();
  }

  /** One bit for each of the first `k` edges from `o`. */
  function MinBits(s: Bytes, o: nat, k: nat): bv8
    requires k <= 8 && o + k <= |s|
  {
    if k == 0 then 0
    else if s[o + k - 1] != 0 then MinBits(s, o, k - 1) | Mask(k - 1)
    else MinBits(s, o, k - 1)
  }

  /** One bit per edge. */
  function Minimized(s: Bytes): (r: Bytes)
    requires |s| % 8 == 0
    ensures |r| == |s| / 8 && forall j :: 0 <= j < |r| ==> r[j] == MinBits(s, 8 * j, 8)
  {
    seq(|s| / 8, j requires 0 <= j < |s| / 8 => MinBits(s, 8 * j, 8))
  }

  lemma OrOneBit(x: bv8, a: bv8, b: bv8)
    requires OneBit(a) && OneBit(b)
    ensures Bit(x | a, b) <==> a == b || Bit(x, b)
  {
  }

  lemma BitAtOr(x: bv8, i: nat, j: nat)
    requires i < 8 && j < 8
    ensures BitAt(x | Mask(i), j) <==> i == j || BitAt(x, j)
  {
    MaskIsOneBit(i);
    MaskIsOneBit(j);
    MasksDiffer(i, j);
    OrOneBit(x, Mask(i), Mask(j));
  }

  lemma {:induction false} PopcountOrMask(x: bv8, i: nat, k: nat)
    requires i < 8 && k <= 8 && !BitAt(x, i)
    ensures PopcountUpTo(x | Mask(i), k) == PopcountUpTo(x, k) + One(i < k)
    decreases k
  {
    if k > 0 {
      PopcountOrMask(x, i, k - 1);
      BitAtOr(x, i, k - 1);
    }
  }

  /** Which bits are set so far. */
  lemma {:induction false} MinBitsAt(s: Bytes, o: nat, k: nat, i: nat)
    requires k <= 8 && i < 8 && o + k <= |s|
    ensures BitAt(MinBits(s, o, k), i) <==> i < k && s[o + i] != 0
    decreases k
  {
    if k == 0 {
      SomeMask(0);
    } else {
      MinBitsAt(s, o, k - 1, i);
      BitAtOr(MinBits(s, o, k - 1), k - 1, i);
    }
  }

  lemma {:induction false} MinBitsCount(s: Bytes, o: nat, k: nat)
    requires k <= 8 && o + k <= |s|
    ensures NonZeros(s[o..]) == Popcount(MinBits(s, o, k)) + NonZeros(s[o + k..])
    decreases k
  {
    if k == 0 {
      SomeMask(0);
      PopcountZero(0, 8);
    } else {
      MinBitsCount(s, o, k - 1);
      NonZerosDrop(s, o + k - 1);
      MinBitsAt(s, o, k - 1, k - 1);
      PopcountOrMask(MinBits(s, o, k - 1), k - 1, 8);
    }
  }

  lemma NonZerosDrop(s: Bytes, i: nat)
    requires i < |s|
    ensures NonZeros(s[i..]) == One(s[i] != 0) + NonZeros(s[i + 1..])
  {
  }

  lemma OnesCons(v: Bytes)
    requires v != []
    ensures Ones(v) == Popcount(v[0]) + Ones(v[1..])
  {
    assert Popcounts(v)[1..] == Popcounts(v[1..]);
  }

  /** Minimizing keeps the number of edges: bits set in the small map, bytes set in the large. */
  lemma {:induction false} MinimizedCountsEdges(s: Bytes)
    requires |s| % 8 == 0
    ensures Ones(Minimized(s)) == NonZeros(s)
    decreases |s|
  {
    if s != [] {
      MinBitsCount(s, 0, 8);
      assert s[0..] == s;
      MinimizedCountsEdges(s[8..]);
      MinimizedTail(s);
      OnesCons(Minimized(s));
    }
  }

  /** Edge `i` has bit `i % 8` of byte `i / 8`. */
  lemma MinimizedAt(s: Bytes, i: nat)
    requires |s| % 8 == 0 && i < |s|
    ensures BitAt(Minimized(s)[i / 8], i % 8) <==> s[i] != 0
  {
    MinBitsAt(s, 8 * (i / 8), 8, i % 8);
  }

  lemma {:induction false} MinBitsShift(s: Bytes, o: nat, d: nat, k: nat)
    requires k <= 8 && d + o + k <= |s|
    ensures MinBits(s[d..], o, k) == MinBits(s, d + o, k)
    decreases k
  {
    if k > 0 { MinBitsShift(s, o, d, k - 1); }
  }

  lemma MinimizedTail(s: Bytes)
    requires |s| % 8 == 0 && s != []
    ensures Minimized(s)[1..] == Minimized(s[8..])
  {
    forall j | 0 <= j < |s| / 8 - 1 ensures MinBits(s, 8 * (j + 1), 8) == MinBits(s[8..], 8 * j, 8) {
      MinBitsShift(s, 8 * j, 8, 8);
    }
  }

  lemma {:induction false} ClassifyingKeepsEdges(s: Bytes)
    ensures NonZeros(Classified(s)) == NonZeros(s)
  {
    if s != [] {
      BucketIsOneBit(s[0]);
      assert Classified(s)[1..] == Classified(s[1..]);
      ClassifyingKeepsEdges(s[1..]);
    }
  }

  lemma ClassifiedSupport(s: Bytes)
    ensures forall i :: 0 <= i < |s| ==> (Classified(s)[i] != 0 <==> s[i] != 0)
  {
  }

  lemma {:induction false} SameMinBits(a: Bytes, b: Bytes, o: nat, k: nat)
    requires |a| == |b| && k <= 8 && o + k <= |a| && forall i :: 0 <= i < |a| ==> (a[i] != 0 <==> b[i] != 0)
    ensures MinBits(a, o, k) == MinBits(b, o, k)
    decreases k
  {
    if k > 0 { SameMinBits(a, b, o, k - 1); }
  }

  lemma SameMinimized(a: Bytes, b: Bytes)
    requires |a| == |b| && |a| % 8 == 0 && forall i :: 0 <= i < |a| ==> (a[i] != 0 <==> b[i] != 0)
    ensures Minimized(a) == Minimized(b)
  {
    forall j | 0 <= j < |a| / 8 ensures MinBits(a, 8 * j, 8) == MinBits(b, 8 * j, 8) {
      SameMinBits(a, b, 8 * j, 8);
    }
  }

  /** Minimized map and edge list do not depend on whether the map was classified. */
  lemma ClassifyingKeepsMinimized(s: Bytes)
    requires |s| % 8 == 0
    ensures Minimized(Classified(s)) == Minimized(s)
    ensures EdgesFrom(Classified(s), 0) == EdgesFrom(s, 0)
  {
    ClassifiedSupport(s);
    SameEdges(Classified(s), s, 0);
    SameMinimized(Classified(s), s);
  }

  lemma {:induction false} SameEdges(a: Bytes, b: Bytes, base: nat)
    requires |a| == |b| && forall i :: 0 <= i < |a| ==> (a[i] != 0 <==> b[i] != 0)
    ensures EdgesFrom(a, base) == EdgesFrom(b, base)
    decreases |a|
  {
    if a != [] { SameEdges(a[1..], b[1..], base + 1); }
  }

  /** As long as the first map; what the second one lacks counts as zero in the result. */
  function Or(a: Bytes, b: Bytes): (r: Bytes)
    ensures |r| == |a| && forall i :: 0 <= i < |a| ==> r[i] == if i < |b| then OrBits(a[i], b[i]) else 0
  {
    seq(|a|, i requires 0 <= i < |a| => if i < |b| then OrBits(a[i], b[i]) else 0)
  }

  lemma OrZero(a: bv8, b: bv8)
    ensures OrBits(a, b) != 0 <==> a != 0 || b != 0
  {
  }

  lemma SameBitsAt(a: bv8, b: bv8)
    requires forall i :: 0 <= i < 8 ==> BitAt(a, i) == BitAt(b, i)
    ensures a == b
  {
    MaskValues();
    assert BitAt(a, 0) == BitAt(b, 0) && BitAt(a, 1) == BitAt(b, 1) && BitAt(a, 2) == BitAt(b, 2) && BitAt(a, 3) == BitAt(b, 3);
    assert BitAt(a, 4) == BitAt(b, 4) && BitAt(a, 5) == BitAt(b, 5) && BitAt(a, 6) == BitAt(b, 6) && BitAt(a, 7) == BitAt(b, 7);
    forall m | OneBit(m) ensures Bit(a, m) == Bit(b, m) {
    }
    SameBits(a, b);
  }

  lemma MinBitsUnion(a: Bytes, b: Bytes, c: Bytes, o: nat)
    requires o + 8 <= |a| && o + 8 <= |b| && o + 8 <= |c|
    requires forall i :: o <= i < o + 8 ==> (c[i] != 0 <==> a[i] != 0 || b[i] != 0)
    ensures MinBits(c, o, 8) == OrBits(MinBits(a, o, 8), MinBits(b, o, 8))
  {
    forall i | 0 <= i < 8 ensures BitAt(MinBits(c, o, 8), i) == BitAt(MinBits(a, o, 8) | MinBits(b, o, 8), i) {
      MinBitsAt(a, o, 8, i);
      MinBitsAt(b, o, 8, i);
      MinBitsAt(c, o, 8, i);
      MaskIsOneBit(i);
      BitOps(MinBits(a, o, 8), MinBits(b, o, 8), Mask(i));
    }
    SameBitsAt(MinBits(c, o, 8), MinBits(a, o, 8) | MinBits(b, o, 8));
  }

  lemma {:induction false} MinBitsOfZeros(s: Bytes, o: nat, k: nat)
    requires k <= 8 && o + k <= |s| && forall i :: o <= i < o + k ==> s[i] == 0
    ensures MinBits(s, o, k) == 0
    decreases k
  {
    if k > 0 { MinBitsOfZeros(s, o, k - 1); }
  }

  /** Minimizing a union of maps is the union of the minimized maps, for maps of any two sizes. */
  lemma {:induction false} MinimizeDistributesOverOr(a: Bytes, b: Bytes)
    requires |a| % 8 == 0 && |b| % 8 == 0
    ensures Minimized(Or(a, b)) == Or(Minimized(a), Minimized(b))
  {
    var c := Or(a, b);
    forall j | 0 <= j < |a| / 8 ensures Minimized(c)[j] == Or(Minimized(a), Minimized(b))[j] {
      if j < |b| / 8 {
        forall i | 8 * j <= i < 8 * j + 8 ensures c[i] != 0 <==> a[i] != 0 || b[i] != 0 { OrZero(a[i], b[i]); }
        MinBitsUnion(a, b, c, 8 * j);
      } else {
        MinBitsOfZeros(c, 8 * j, 8);
      }
    }
  }

  // ----- chunk steps of the loops over words

  function StatusBelow(s: Bytes, v: Bytes, o: nat): Status
    requires o <= |s| && o <= |v|
  {
    StatusOf(s[..o], v[..o])
  }

  predicate EdgeAt(s: Bytes, v: Bytes, o: nat)
    requires o + 8 <= |s| && o + 8 <= |v|
  {
    exists k :: o <= k < o + 8 && s[k] != 0 && v[k] == 0xff
  }

  lemma MeetsSomewhere(s: Bytes, v: Bytes, o: nat)
    requires o + 8 <= |s| && o + 8 <= |v|
    ensures MeetsAt(s, v, o) <==> exists k :: o <= k < o + 8 && Meet(s[k], v[k])
  {
  }

  lemma NewEdgeBelow(s: Bytes, v: Bytes, o: nat)
    requires o + 8 <= |s| && o + 8 <= |v|
    ensures HasNewEdge(s[..o + 8], v[..o + 8]) <==> HasNewEdge(s[..o], v[..o]) || EdgeAt(s, v, o)
  {
  }

  lemma NewHitBelow(s: Bytes, v: Bytes, o: nat)
    requires o + 8 <= |s| && o + 8 <= |v|
    ensures HasNewHit(s[..o + 8], v[..o + 8])
       <==> HasNewHit(s[..o], v[..o]) || exists k :: o <= k < o + 8 && Meet(s[k], v[k])
  {
  }

  /** How one more chunk changes the verdict. */
  lemma StatusStep(s: Bytes, v: Bytes, o: nat)
    requires o + 8 <= |s| && o + 8 <= |v|
    ensures EdgeAt(s, v, o) ==> MeetsAt(s, v, o)
    ensures StatusBelow(s, v, o + 8)
         == if !MeetsAt(s, v, o) then StatusBelow(s, v, o)
            else if StatusBelow(s, v, o) == NewEdge || EdgeAt(s, v, o) then NewEdge
            else NewHit
  {
    NewEdgeBelow(s, v, o);
    NewHitBelow(s, v, o);
    MeetsSomewhere(s, v, o);
    if EdgeAt(s, v, o) {
      var k :| o <= k < o + 8 && s[k] != 0 && v[k] == 0xff;
      assert Meet(s[k], v[k]);
    }
  }

  lemma NothingToClear(v: bv8, s: bv8)
    requires !Meet(s, v)
    ensures ClearBits(v, s) == v
  {
  }

  function Count8(s: Bytes, o: nat): nat
    requires o + 8 <= |s|
  {
    One(s[o] != 0) + One(s[o + 1] != 0) + One(s[o + 2] != 0) + One(s[o + 3] != 0)
    + One(s[o + 4] != 0) + One(s[o + 5] != 0) + One(s[o + 6] != 0) + One(s[o + 7] != 0)
  }

  lemma NonZerosOfChunk(s: Bytes, o: nat)
    requires o + 8 <= |s|
    ensures NonZeros(s[o..]) == Count8(s, o) + NonZeros(s[o + 8..])
  {
    NonZerosDrop(s, o);
    NonZerosDrop(s, o + 1);
    NonZerosDrop(s, o + 2);
    NonZerosDrop(s, o + 3);
    NonZerosDrop(s, o + 4);
    NonZerosDrop(s, o + 5);
    NonZerosDrop(s, o + 6);
    NonZerosDrop(s, o + 7);
  }

  /** Number of non-zero bytes of a word, one mask after the other. */
  function BytesSetIn(w: bv64): nat {
    One(w & 0xff != 0) + One(w & 0xff00 != 0) + One(w & 0xff_0000 != 0) + One(w & 0xff00_0000 != 0)
    + One(w & 0xff_0000_0000 != 0) + One(w & 0xff00_0000_0000 != 0)
    + One(w & 0xff_0000_0000_0000 != 0) + One(w & 0xff00_0000_0000_0000 != 0)
  }

  lemma BytesSetInWord(s: Bytes, o: nat)
    requires o + 8 <= |s|
    ensures BytesSetIn(Word(s, o)) == Count8(s, o)
  {
  }

  /** `count_ones` of a word: the bits of its eight bytes. */
  function CountOnes(w: bv64): nat { Ones(Unpack(w)) }

  lemma {:induction false} OnesAppend(a: Bytes, b: Bytes)
    ensures Ones(a + b) == Ones(a) + Ones(b)
  {
    if a == [] {
      assert a + b == b && Popcounts(a) == [];
    } else {
      assert (a + b)[1..] == a[1..] + b;
      OnesCons(a);
      OnesCons(a + b);
      OnesAppend(a[1..], b);
    }
  }

  lemma OnesOfChunk(s: Bytes, o: nat)
    requires o + 8 <= |s|
    ensures Ones(s[o..]) == CountOnes(Word(s, o)) + Ones(s[o + 8..])
  {
    assert s[o..] == s[o..o + 8] + s[o + 8..];
    OnesAppend(s[o..o + 8], s[o + 8..]);
    UnpackWord(s, o);
  }

  lemma UnpackWord(s: Bytes, o: nat)
    requires o + 8 <= |s|
    ensures Unpack(Word(s, o)) == s[o..o + 8]
  {
  }

  // ----- the two-byte lookup table

  function Pack16(lo: bv8, hi: bv8): bv16 { (lo as bv16) | ((hi as bv16) << 8) }

  function LookupOf(x: nat): bv16
    requires x < 0x1_0000
  {
    Pack16(Bucket((x % 256) as bv8), Bucket((x / 256) as bv8))
  }

  ghost predicate IsLookup(t: seq<bv16>) {
    |t| == 0x1_0000 && forall x :: 0 <= x < 0x1_0000 ==> t[x] == LookupOf(x)
  }

  lemma Concat16(lo: bv8, hi: bv8, w: bv16)
    requires w == (lo as bv16) | ((hi as bv16) << 8)
    ensures w as int == (hi as int) * 256 + (lo as int)
  {
  }

  lemma Pack16Value(lo: bv8, hi: bv8)
    ensures Pack16(lo, hi) as int == (hi as int) * 256 + (lo as int)
  {
    Concat16(lo, hi, Pack16(lo, hi));
  }

  lemma DivMod256(h: nat, l: nat)
    requires l < 256
    ensures (h * 256 + l) / 256 == h && (h * 256 + l) % 256 == l
  {
  }

  lemma Halves(lo: bv8, hi: bv8)
    ensures (Pack16(lo, hi) & 0xff) as bv8 == lo && (Pack16(lo, hi) >> 8) as bv8 == hi
  {
  }

  lemma LookupAt(lo: bv8, hi: bv8, x: nat)
    requires x < 0x1_0000 && x / 256 == hi as int && x % 256 == lo as int
    ensures LookupOf(x) == Pack16(Bucket(lo), Bucket(hi))
  {
  }

  lemma LookupIndex(lo: bv8, hi: bv8, x: int)
    requires x == Pack16(lo, hi) as int
    ensures 0 <= x < 0x1_0000 && x / 256 == hi as int && x % 256 == lo as int
  {
    Pack16Value(lo, hi);
    DivMod256(hi as int, lo as int);
  }

  /** What the table says about a pair of hit counts. */
  lemma LookupTells(t: seq<bv16>, lo: bv8, hi: bv8, x: int, m: bv8)
    requires IsLookup(t) && x == Pack16(lo, hi) as int && OneBit(m)
    ensures 0 <= x < |t|
    ensures Bit((t[x] & 0xff) as bv8, m) <==> InBucket(lo, m)
    ensures Bit((t[x] >> 8) as bv8, m) <==> InBucket(hi, m)
  {
    LookupBuckets(t, lo, hi, x);
    Halves(Bucket(lo), Bucket(hi));
    BucketBits(lo, m);
    BucketBits(hi, m);
  }

  /** Looking up two bytes at once buckets both. */
  lemma LookupBuckets(t: seq<bv16>, lo: bv8, hi: bv8, x: int)
    requires IsLookup(t) && x == Pack16(lo, hi) as int
    ensures 0 <= x < |t| && t[x] == Pack16(Bucket(lo), Bucket(hi))
  {
    LookupIndex(lo, hi, x);
    LookupAt(lo, hi, x);
  }
}
