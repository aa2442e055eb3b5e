/**
 A mutation cache: filtering, merging and serialising the entries of a `MutationCacheContent`.
 The operations are loops of pushes and removals, any of which may compact the content.
 */
module MutationCacheModel {
  import opened Wrappers
  import opened MutationCacheEntry
  import opened CacheSpec
  import opened CacheLayout
  import opened MutationCacheContentModel
  import opened CacheImage

  const MUTATION_CACHE_DEFAULT_SIZE: usize := 256 * 1024 * 1024

  function TotalMskLenOf(es: seq<Entry>): nat
    requires forall e :: e in es ==> IsEntry(e)
  {
    if es == [] then 0 else TotalMskLenOf(es[..|es| - 1]) + MskLen(es[|es| - 1])
  }

  /** The ids that are not whitelisted, one for each entry. */
  method CollectRejected(es: seq<Entry>, whitelist: set<nat>) returns (remove: seq<nat>)
    ensures remove == Rejected(es, whitelist)
  {
    remove := [];
    for i := 0 to |es|
      invariant remove == Rejected(es[..i], whitelist)
    {
      assert es[..i + 1] == es[..i] + [es[i]];
      RejectedSnoc(es[..i], es[i], whitelist);
      if es[i].id !in whitelist {
        remove := remove + [es[i].id];
      }
    }
    assert es[..|es|] == es;
  }

  /** An entry that can affect an execution: it has a mask with a set bit. */
  predicate Effective(e: Entry) {
    IsEntry(e) && !IsNop(e)
  }

  predicate LocatedElsewhere(e: Entry, locType: byte) {
    IsEntry(e) && e.bytes[SPILL_SLOT_OFFSET] != locType
  }

  /** What survives `purge_nop_entries`: some mask byte is not zero. */
  lemma EffectiveMeaning(e: Entry)
    requires IsEntry(e)
    ensures Effective(e) <==> exists i :: HEADER <= i < HEADER + MskLen(e) && e.bytes[i] != 0
  {
    if Effective(e) {
      var i :| 0 <= i < |Msk(e)| && Msk(e)[i] != 0;
      assert e.bytes[HEADER + i] != 0;
    }
    if i :| HEADER <= i < HEADER + MskLen(e) && e.bytes[i] != 0 { assert Msk(e)[i - HEADER] != 0; }
  }

  /** What survives `remove_by_location_type`: the spill slot, twelve bytes from 28 on, starts with another type. */
  lemma ElsewhereMeaning(e: Entry, spillSlot: seq<byte>, locType: byte)
    requires IsEntry(e) && |spillSlot| == 12 && e.bytes[28..40] == spillSlot
    ensures LocatedElsewhere(e, locType) <==> spillSlot[0] != locType
  {
    assert e.bytes[28..40][0] == e.bytes[28];
  }

  function Elsewhere(locType: byte): Entry -> bool { e => LocatedElsewhere(e, locType) }

  /** The predicate's answers, one for each entry. */
  method Choose(es: seq<Entry>, p: Entry -> bool) returns (keep: seq<bool>)
    ensures |keep| == |es| && forall j :: 0 <= j < |es| ==> keep[j] == p(es[j])
  {
    keep := [];
    for i := 0 to |es|
      invariant |keep| == i && forall j :: 0 <= j < i ==> keep[j] == p(es[j])
    {
      keep := keep + [p(es[i])];
    }
  }

  /** Entries that share an id get the same answer. */
  ghost predicate DependsOnId(es: seq<Entry>, p: Entry -> bool) {
    forall i, j :: 0 <= i < |es| && 0 <= j < |es| && es[i].id == es[j].id ==> p(es[i]) == p(es[j])
  }

  /** `limit`'s stateful predicate: yes as long as its countdown lasts. */
  method ChooseFirst(n: nat, max: nat) returns (keep: seq<bool>)
    ensures keep == FirstN(n, max)
  {
    var limit := max;
    keep := [];
    for i := 0 to n
      invariant |keep| == i && limit == (if i < max then max - i else 0)
      invariant forall j :: 0 <= j < i ==> keep[j] == (j < max)
    {
      if limit > 0 {
        limit := limit - 1;
        keep := keep + [true];
      } else {
        keep := keep + [false];
      }
    }
  }

  class MutationCache {
    const contentSize: usize
    const content: MutationCacheContent

    ghost predicate Valid()
      reads this, content, content.table, content.data
    {
      content.Valid() && contentSize == CONTENT_SIZE + content.data.Length
    }

    ghost function State(): CacheState
      requires Valid()
      reads this, content, content.table, content.data
    {
      content.Abs()
    }

    constructor (size: usize)
      requires size >= CONTENT_SIZE
      ensures Valid() && fresh(content) && fresh(content.table) && fresh(content.data)
      ensures contentSize == size && State() == Empty(size - CONTENT_SIZE)
    {
      contentSize := size;
      content := new MutationCacheContent(size);
    }

    // ----- filtering

    method RetainWhitelisted(whitelist: set<nat>)
      requires Valid()
      modifies content, content.table, content.data
      ensures Valid() && State() == WhitelistState(old(State()), whitelist)
      ensures State().entries == FilterIds(old(State()).entries, whitelist)
    {
      ghost var s := State();
      var es := content.Entries();
      var remove := CollectRejected(es, whitelist);
      DropRejected(es, whitelist);
      RemoveIds(remove);
      WhitelistFilters(s, whitelist);
    }

    /** Remove one id after the other; none of these removals panics. */
    method RemoveIds(ids: seq<nat>)
      requires Valid() && Removable(State().entries, ids)
      modifies content, content.table, content.data
      ensures Valid() && State() == RemoveAll(old(State()), ids)
    {
      ghost var s := State();
      for i := 0 to |ids|
        invariant Valid() && State() == RemoveAll(s, ids[..i])
      {
        RemoveAllSnoc(s, ids, i);
        RemovableAt(s.entries, ids, i);
        RemoveAllEntries(s, ids[..i]);
        var ok := content.Remove(ids[i]);
        assert ok;
      }
      assert ids[..|ids|] == ids;
    }

    /** `retain` with a stateful predicate whose answers, entry by entry, are `keep`. */
    method Retain(keep: seq<bool>)
      requires Valid() && |keep| == |State().entries|
      modifies content, content.table, content.data
      ensures Valid() && State() == WhitelistState(old(State()), ChosenIds(old(State()).entries, keep))
      ensures State().entries == Chosen(old(State()).entries, keep) <==> ChoiceDependsOnId(old(State()).entries, keep)
    {
      var es := content.Entries();
      var whitelist: set<nat> := {};
      for i := 0 to |es|
        invariant whitelist == set j | 0 <= j < i && keep[j] :: es[j].id
      {
        if keep[i] {
          whitelist := whitelist + {es[i].id};
        }
      }
      RetainIsFilter(es, keep);
      RetainWhitelisted(whitelist);
    }

    /** `retain` with a predicate on the entry. */
    method RetainMatching(p: Entry -> bool)
      requires Valid()
      modifies content, content.table, content.data
      ensures Valid()
      ensures State().entries == Filter(old(State()).entries, p) <==> DependsOnId(old(State()).entries, p)
      ensures UniqueIds(old(State()).entries) ==> State().entries == Filter(old(State()).entries, p)
    {
      var es := content.Entries();
      var keep := Choose(es, p);
      ChosenByPredicate(es, keep, p);
      Retain(keep);
    }

    /** Drop the entries that cannot affect an execution. */
    method PurgeNopEntries()
      requires Valid()
      modifies content, content.table, content.data
      ensures Valid()
      ensures State().entries == Filter(old(State()).entries, Effective) <==> DependsOnId(old(State()).entries, Effective)
      ensures UniqueIds(old(State()).entries) ==> State().entries == Filter(old(State()).entries, Effective)
    {
      RetainMatching(Effective);
    }

    method RemoveByLocationType(locType: byte)
      requires Valid()
      modifies content, content.table, content.data
      ensures Valid()
      ensures State().entries == Filter(old(State()).entries, Elsewhere(locType))
         <==> DependsOnId(old(State()).entries, Elsewhere(locType))
      ensures UniqueIds(old(State()).entries) ==> State().entries == Filter(old(State()).entries, Elsewhere(locType))
    {
      RetainMatching(Elsewhere(locType));
    }

    /** Keep the first `max` entries: exactly when no kept id occurs again among the others. */
    method Limit(max: nat)
      requires Valid()
      modifies content, content.table, content.data
      ensures Valid()
      ensures var es := old(State()).entries;
              State().entries == es[..Min(max, |es|)] <==> ChoiceDependsOnId(es, FirstN(|es|, max))
      ensures var es := old(State()).entries;
              UniqueIds(es) ==> State().entries == es[..Min(max, |es|)]
    {
      var es := content.Entries();
      var keep := ChooseFirst(|es|, max);
      ChosenFirstN(es, max);
      Retain(keep);
    }

    /** Drop what `other` redefines, then push all of `other`, ignoring refusals. */
    method UnionAndReplace(other: MutationCache)
      requires Valid() && other.Valid()
      requires content != other.content && content.table != other.content.table && content.data != other.content.data
      modifies content, content.table, content.data
      ensures Valid() && State() == UnionState(old(State()), other.State().entries)
      ensures var es, others := old(State()).entries, other.State().entries; var keepIds := Ids(es) - Ids(others);
              && (State().entries == FilterIds(es, keepIds) + others <==> Fits(Survivors(old(State()), keepIds), others))
              && (Fits(old(State()), others) ==> State().entries == FilterIds(es, keepIds) + others)
      ensures other.Valid() && other.State() == old(other.State())
    {
      ghost var s := State();
      var es := content.Entries();
      var others := other.content.Entries();
      var otherIds := set i | 0 <= i < |others| :: others[i].id;
      var keep := seq(|es|, i requires 0 <= i < |es| => es[i].id !in otherIds);
      assert ChosenIds(es, keep) == Ids(es) - Ids(others);
      Retain(keep);
      content.PushEntries(others);
      UnionEntries(s, others);
    }

    // ----- bytes

    function Fields(): Image
      reads content, content.table, content.data
    {
      Image(content.totalSize, content.currentDataSize, content.nextFreeSlot, content.pendingDeletions,
            content.invalidate, content.table[..], content.data[..])
    }

    /** The whole backing memory, dead bytes included. */
    function ContentSlice(): (b: seq<byte>)
      reads content, content.table, content.data
    {
      Bytes(Fields())
    }

    /** The backing memory says what the fields are. */
    lemma ContentSliceIsImage()
      requires Valid()
      ensures |ContentSlice()| == contentSize && ImageOf(ContentSlice()) == Fields()
      ensures ImageOk(Fields()) && FitsUsize(Fields()) && ImageState(Fields()) == State()
    {
      SoundFitsUsize(Fields(), contentSize);
      ImageRoundTrip(Fields());
    }

    /** Compact, then copy out the bytes in use: the image of the live entries and nothing else. */
    method SaveBytes() returns (bytes: seq<byte>)
      requires Valid()
      modifies content, content.table, content.data
      ensures Valid() && State() == ConsolidateState(old(State()))
      ensures |bytes| == CONTENT_SIZE + TotalSize(old(State()).entries) && ImageOk(ImageOf(bytes))
      ensures ImageState(ImageOf(bytes)) == Packed(old(State()).entries, old(State()).pending, |bytes| - CONTENT_SIZE)
    {
      content.Consolidate();
      var n := content.TotalUsedBytes();
      ContentSliceIsImage();
      PrefixImage(Fields());
      bytes := ContentSlice()[..n];
    }

    /** Overwrite the content with some bytes; `false` is the panic on more bytes than there is memory. */
    method LoadBytes(bytes: seq<byte>) returns (ok: bool)
      requires Valid()
      modifies content, content.table, content.data
      ensures ok <==> |bytes| <= contentSize
      ensures !ok ==> Valid() && State() == old(State())
      // whatever the bytes are: memory they do not reach keeps its content, and the size is set anew
      ensures ok ==> |old(ContentSlice())| == contentSize
                     && Fields() == ImageOf(bytes + old(ContentSlice())[|bytes|..]).(total := contentSize)
      ensures ok && |bytes| >= CONTENT_SIZE && ImageOk(ImageOf(bytes)) ==>
                Valid() && State() == ImageState(ImageOf(bytes)).(cap := contentSize - CONTENT_SIZE)
    {
      ContentSliceIsImage();
      if |bytes| > contentSize {
        return false;
      }
      ghost var tail := ContentSlice()[|bytes|..];
      var img := ImageOf(bytes + ContentSlice()[|bytes|..]);
      SetFields(img);
      ok := true;
      if |bytes| >= CONTENT_SIZE && ImageOk(ImageOf(bytes)) {
        LoadedImage(bytes, tail);
      }
    }

    method SetFields(img: Image)
      requires |img.table| == content.table.Length && |img.payload| == content.data.Length
      modifies content, content.table, content.data
      ensures Fields() == img.(total := contentSize)
    {
      forall i | 0 <= i < content.table.Length {
        content.table[i] := img.table[i];
      }
      forall i | 0 <= i < content.data.Length {
        content.data[i] := img.payload[i];
      }
      content.totalSize := contentSize;
      content.currentDataSize := img.used;
      content.nextFreeSlot := img.next;
      content.pendingDeletions := img.pending;
      content.invalidate := img.invalidate;
      assert content.table[..] == img.table && content.data[..] == img.payload;
    }

    /** `false` is the error on content from a larger cache. */
    method ReplaceContent(other: MutationCache) returns (ok: bool)
      requires Valid() && other.Valid()
      requires content != other.content && content.table != other.content.table && content.data != other.content.data
      modifies content, content.table, content.data
      ensures Valid() && (ok <==> other.contentSize <= contentSize)
      ensures State() == if ok then other.State().(cap := contentSize - CONTENT_SIZE) else old(State())
    {
      if contentSize < other.contentSize {
        return false;
      }
      other.ContentSliceIsImage();
      ok := LoadBytes(other.ContentSlice());
    }

    /** What one cache saves, another one of sufficient size loads: same entries, packed. */
    method Transfer(dst: MutationCache) returns (ok: bool)
      requires Valid() && dst.Valid()
      requires content != dst.content && content.table != dst.content.table && content.data != dst.content.data
      modifies content, content.table, content.data, dst.content, dst.content.table, dst.content.data
      ensures Valid() && dst.Valid() && State().entries == old(State()).entries
      ensures ok <==> CONTENT_SIZE + TotalSize(old(State()).entries) <= dst.contentSize
      ensures ok ==> dst.State() == Packed(old(State()).entries, old(State()).pending, dst.contentSize - CONTENT_SIZE)
      ensures !ok ==> dst.State() == old(dst.State())
    {
      var bytes := SaveBytes();
      ok := dst.LoadBytes(bytes);
    }

    method TotalMskLen() returns (sum: nat)
      requires Valid()
      ensures forall e :: e in State().entries ==> IsEntry(e)
      ensures sum == TotalMskLenOf(State().entries)
    {
      var es := content.Entries();
      sum := 0;
      for i := 0 to |es|
        invariant sum == TotalMskLenOf(es[..i])
      {
        assert es[i] in es && es[..i + 1][..i] == es[..i];
        sum := sum + MskLen(es[i]);
      }
      assert es[..|es|] == es;
    }
  }
}
