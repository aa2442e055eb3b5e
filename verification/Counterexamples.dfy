/**
 Inputs on which the code does not do what one would expect of it. The exact conditions are proved where
 the operations are; these lemmas show that they fail on data the system produces.
 */
module Counterexamples {
  import opened Wrappers
  import opened MutationCacheEntry
  import opened CacheSpec
  import opened MutationCacheOps
  import opened BitmapSpec

  /** The maskless entry of a load of `targetBits` bits. */
  function LoadEntry(id: nat, targetBits: nat): (e: Entry)
    requires id < 256 && targetBits < 256
    ensures IsEntry(e) && e.id == id && TargetBits(e) == targetBits && MskLen(e) == 0 && |e.bytes| == 64
    ensures e.bytes[INSTRUCTION_OFFSET] == 2
  {
    SmallFields();
    NewEntryFields(id, 2, 0, 0, Zeros(12), targetBits);
    NewEntry(id, 2, 0, 0, Zeros(12), targetBits)
  }

  lemma SmallFields()
    ensures 256 <= Pow256(4) && 256 <= Pow256(8)
  {
    assert Pow256(8) == 256 * (256 * (256 * (256 * Pow256(4))));
  }

  /** Any two entries pushed under one id: `retain` with the answers yes and no does not keep one of them. */
  lemma RetainKeepsTwin(a: Entry, b: Entry, cap: nat)
    requires a.id == b.id && |a.bytes| + |b.bytes| <= cap
    ensures Run(Empty(cap), [Push(a), Push(b)]).entries == [a, b] && Chosen([a, b], [true, false]) == [a]
    ensures FilterIds([a, b], ChosenIds([a, b], [true, false])) != [a]
  {
    var es, keep := [a, b], [true, false];
    TwoPushes(Empty(cap), a, b);
    assert es[1..] == [b] && keep[1..] == [false] && es[1..][1..] == [] && keep[1..][1..] == [];
    assert Chosen(es[1..], keep[1..]) == [];
    RetainIsFilter(es, keep);
    assert es[0].id == es[1].id && keep[0] != keep[1];
  }

  lemma TwoPushes(s: CacheState, a: Entry, b: Entry)
    ensures Run(s, [Push(a), Push(b)]) == PushState(PushState(s, a), b)
  {
    OnePush(PushState(s, a), b);
    assert [Push(a), Push(b)][1..] == [Push(b)];
  }

  lemma OnePush(s: CacheState, a: Entry)
    ensures Run(s, [Push(a)]) == PushState(s, a)
  {
    assert [Push(a)][1..] == [];
    assert Run(PushState(s, a), []) == PushState(s, a);
  }

  /** A 128-bit target: no clone that a trace asks for has as many bytes as it says. */
  lemma WideCloneFallsShort(e: Entry, h: nat)
    requires e == LoadEntry(7, 128) && 1 <= h <= 16384
    ensures !Covers(ClonedWithNewMsk(e, 16 * h))
  {
    CloneCovers(e, 16 * h);
  }

  /** `new` with a mask of one byte for a target of one byte zeroes a byte behind its allocation. */
  lemma NewFillOverruns()
    ensures HEADER + 1 + 8 > NewAllocSize(8, 1)
  {
    NewFillStaysInside(8, 1);
  }

  /** A cache that one entry fills. */
  lemma FilledByOne(a: Entry)
    ensures var s := Packed([a], 0, |a.bytes|);
            Run(Empty(|a.bytes|), [Push(a)]) == s && Inv(s) && s.used == s.cap
  {
    OnePush(Empty(|a.bytes|), a);
    assert TotalSize([a]) == |a.bytes| by { assert [a][1..] == []; }
  }

  /** It keeps its entry in a union, and the entry of the other cache is lost. */
  lemma UnionLosesEntry(a: Entry, b: Entry)
    requires a.id != b.id && b.bytes != []
    ensures UnionState(Run(Empty(|a.bytes|), [Push(a)]), [b]).entries == [a]
  {
    var s, keepIds := Packed([a], 0, |a.bytes|), Ids([a]) - Ids([b]);
    FilledByOne(a);
    assert a == [a][0] && a.id in keepIds && [a][1..] == [] && [b][1..] == [];
    assert Rejected(s.entries, keepIds) == [];
    assert WhitelistState(s, keepIds) == s by { RemoveNothing(s); }
    assert PushAll(s, [b]) == PushState(s, b);
  }

  lemma RemoveNothing(s: CacheState)
    ensures RemoveAll(s, []) == s
  {
  }

  /** Its own entry is lost when it is resized, even to the size it had. */
  lemma ResizeLosesEntry(a: Entry, hits: map<nat, nat>)
    requires IsEntry(a) && a.id in hits && Resizable(a, hits) && CloneFits(a, hits)
    ensures Clonable([a], hits) && AllResizable([a], hits)
    ensures ResizeState(Packed([a], 0, |a.bytes|), hits).entries == []
  {
    var s, r := Packed([a], 0, |a.bytes|), ResizedTo(a, hits);
    FilledByOne(a);
    assert [a][..0] == [] && [r][1..] == [] && [] + [r] == [r];
    assert ResizedAll([a], hits) == [r];
    assert Ids([a]) - hits.Keys == {};
    RemovedButFull(s, a);
    assert PushAll(WhitelistState(s, {}), [r]) == WhitelistState(s, {});
  }

  lemma RemovedButFull(s: CacheState, a: Entry)
    requires s == Packed([a], 0, |a.bytes|)
    ensures WhitelistState(s, {}) == CacheState([], s.cap, 1, 1, s.cap)
  {
    assert [a][1..] == [] && TotalSize([a]) == |a.bytes|;
    assert Rejected([a], {}) == [a.id] && [a.id][1..] == [];
    assert RemoveFirst([a], a.id) == [] && [a][0].id == a.id && HasId([a], a.id);
    var t := RemoveState(s, a.id);
    assert RemoveAll(s, [a.id]) == RemoveAll(t, []) == t;
  }

  /** Such an entry: `LoadEntry(1, 8)`, or any load of eight bits, hit once. */
  lemma LoadIsResizable(a: Entry)
    requires IsEntry(a) && a.id == 1 && TargetBits(a) == 8 && a.bytes[INSTRUCTION_OFFSET] == 2
    ensures Resizable(a, map[1 := 1]) && CloneFits(a, map[1 := 1])
  {
    assert ChunkSizeBytes(a) == Some(1);
  }

  /** A hit count of three is bucketed to four, which is bucketed to eight. */
  lemma ThreeIsBucketedAgain()
    ensures Classified(Classified([3])) != Classified([3])
  {
    var s: Bytes := [3];
    ClassifiedTwice(s);
    assert !(s[0] < 3 || s[0] >= 32);
  }
}
