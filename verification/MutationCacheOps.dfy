/** Fitting a mutation cache to a trace: dropping uncovered sites, resizing the masks of the rest. */
module MutationCacheOps {
  import opened Wrappers
  import opened MutationCacheEntry
  import opened CacheSpec
  import opened MutationCacheContentModel
  import opened MutationCacheModel
  import opened Tracing
  import opened TraceModel

  /** So the product of hits and chunk size fits 32 bits. */
  predicate HitsInRange(hits: map<nat, nat>) {
    forall id :: id in hits ==> hits[id] <= TRACE_EXEC_CNT_LIMIT
  }

  /** Every trace there is has hit counts in range, whatever statistics it was made of. */
  lemma {:induction false} TracesAreInRange(msgs: seq<TracePointStat>)
    ensures HitsInRange(TraceOf(msgs).execCnt)
  {
    if msgs != [] { TracesAreInRange(msgs[..|msgs| - 1]); }
  }

  /** Length of the mask the trace asks for. */
  function HitBytesOf(e: Entry, hits: map<nat, nat>): nat
    requires IsEntry(e) && e.id in hits
  {
    hits[e.id] * TargetBytes(e)
  }

  /** The source knows a chunk size for the site, and the mask is neither empty nor too long. */
  predicate Resizable(e: Entry, hits: map<nat, nat>) {
    IsEntry(e) && e.id in hits && ChunkSizeBytes(e).Some? && 0 < HitBytesOf(e, hits) <= MAX_MASK_LEN
  }

  predicate AllResizable(es: seq<Entry>, hits: map<nat, nat>) {
    forall e :: e in es && e.id in hits ==> Resizable(e, hits)
  }

  /** The clone made for the entry has as many bytes as it says it has. */
  predicate CloneFits(e: Entry, hits: map<nat, nat>)
    requires IsEntry(e) && e.id in hits
  {
    HitBytesOf(e, hits) % 8 + TargetBytes(e) < 16
  }

  /** Entries, as in every cache, and pushing the clone of a covered one reads no memory behind it. */
  predicate Clonable(es: seq<Entry>, hits: map<nat, nat>) {
    forall e :: e in es ==> IsEntry(e) && (Resizable(e, hits) ==> CloneFits(e, hits))
  }

  function ResizedTo(e: Entry, hits: map<nat, nat>): (r: Entry)
    requires Resizable(e, hits) && CloneFits(e, hits)
    ensures IsEntry(r) && r.id == e.id
  {
    Resized(e, HitBytesOf(e, hits))
  }

  /** The covered entries, resized, in order. */
  function ResizedAll(es: seq<Entry>, hits: map<nat, nat>): (r: seq<Entry>)
    requires Clonable(es, hits) && AllResizable(es, hits)
    ensures forall e :: e in r ==> IsEntry(e)
  {
    if es == [] then []
    else
      var init, e := es[..|es| - 1], es[|es| - 1];
      assert e in es;
      ResizedAll(init, hits) + if e.id in hits then [ResizedTo(e, hits)] else []
  }

  function ResizeState(s: CacheState, hits: map<nat, nat>): CacheState
    requires Clonable(s.entries, hits) && AllResizable(s.entries, hits)
  {
    PushAll(WhitelistState(s, Ids(s.entries) - hits.Keys), ResizedAll(s.entries, hits))
  }

  /** The clone made for one covered entry; `None` where making it panics. */
  method ResizeOne(e: Entry, hits: map<nat, nat>) returns (r: Option<Entry>)
    requires HitsInRange(hits) && Clonable([e], hits) && e.id in hits
    ensures r.Some? <==> Resizable(e, hits)
    ensures IsEntry(e) && (r.Some? <==> ChunkSizeBytes(e).Some? && 0 < hits[e.id] * TargetBytes(e) <= MAX_MASK_LEN)
    ensures r.Some? ==> r.value == ResizedTo(e, hits) && FitsTrace(r.value, e, hits)
  {
    assert e in [e];
    var chunk := ChunkSizeBytes(e);
    if chunk.None? {
      return None;
    }
    var len := hits[e.id] * chunk.value;
    ChunkIsTargetBytes(e);
    assert len < 0x1_0000_0000 by { ProductFits(hits[e.id], chunk.value); }
    var clone := CloneWithNewMsk(e, len);
    if clone.None? {
      return None;
    }
    StoredClone(e, len);
    ResizedFitsTrace(e, hits);
    r := Some(Stored(clone.value));
  }

  lemma ProductFits(h: nat, chunk: nat)
    requires h <= TRACE_EXEC_CNT_LIMIT && chunk <= 0x2000
    ensures h * chunk < 0x1_0000_0000
  {
    assert h * chunk <= h * 0x2000;
  }

  lemma StoredClone(e: Entry, len: nat)
    requires IsEntry(e) && 0 < len <= MAX_MASK_LEN && len % 8 + TargetBytes(e) < 16
    ensures Covers(ClonedWithNewMsk(e, len)) && Stored(ClonedWithNewMsk(e, len)) == Resized(e, len)
  {
    CloneCovers(e, len);
    CloneHeader(e, len);
  }

  lemma ResizedSnoc(es: seq<Entry>, hits: map<nat, nat>, i: nat)
    requires i < |es| && Clonable(es, hits) && Clonable(es[..i], hits) && AllResizable(es[..i], hits)
    requires IsEntry(es[i]) && (es[i].id in hits ==> Resizable(es[i], hits) && CloneFits(es[i], hits))
    ensures Clonable(es[..i + 1], hits) && AllResizable(es[..i + 1], hits)
    ensures ResizedAll(es[..i + 1], hits)
         == ResizedAll(es[..i], hits) + if es[i].id in hits then [ResizedTo(es[i], hits)] else []
  {
    assert es[..i + 1] == es[..i] + [es[i]] && es[..i + 1][..i] == es[..i];
  }

  /** First loop of `resize_covered_entries`; `None` where it panics. */
  method CollectResized(es: seq<Entry>, hits: map<nat, nat>) returns (r: Option<seq<Entry>>)
    requires HitsInRange(hits) && Clonable(es, hits)
    ensures r.Some? <==> AllResizable(es, hits)
    ensures r.Some? ==> r.value == ResizedAll(es, hits)
  {
    var resized: seq<Entry> := [];
    for i := 0 to |es|
      invariant Clonable(es[..i], hits) && AllResizable(es[..i], hits)
      invariant resized == ResizedAll(es[..i], hits)
    {
      assert es[i] in es;
      if es[i].id in hits {
        assert Clonable([es[i]], hits);
        var clone := ResizeOne(es[i], hits);
        if clone.None? {
          return None;
        }
        resized := resized + [clone.value];
      }
      ResizedSnoc(es, hits, i);
    }
    assert es[..|es|] == es;
    r := Some(resized);
  }

  /** The ids of the resized entries are those of the covered ones, in order. */
  lemma {:induction false} ResizedIds(es: seq<Entry>, hits: map<nat, nat>, keepIds: set<nat>)
    requires Clonable(es, hits) && AllResizable(es, hits)
    requires forall e :: e in es ==> (e.id in keepIds <==> e.id !in hits)
    ensures Map(ResizedAll(es, hits), (e: Entry) => e.id) == Rejected(es, keepIds)
  {
    if es != [] {
      var init, e := es[..|es| - 1], es[|es| - 1];
      assert e in es && es == init + [e];
      ResizedIds(init, hits, keepIds);
      RejectedSnoc(init, e, keepIds);
    }
  }

  /** `false` is a panic of the first loop, before the cache is touched. */
  method ResizeCoveredEntries(cache: MutationCache, trace: Trace) returns (ok: bool)
    requires cache.Valid() && HitsInRange(trace.execCnt) && Clonable(cache.State().entries, trace.execCnt)
    modifies cache.content, cache.content.table, cache.content.data
    ensures cache.Valid()
    ensures ok <==> AllResizable(old(cache.State()).entries, trace.execCnt)
    ensures cache.State() == if ok then ResizeState(old(cache.State()), trace.execCnt) else old(cache.State())
  {
    var es := cache.content.Entries();
    var resized := CollectResized(es, trace.execCnt);
    if resized.None? {
      return false;
    }
    ghost var keepIds := Ids(es) - trace.execCnt.Keys;
    var ids := Map(resized.value, (e: Entry) => e.id);
    ResizedIds(es, trace.execCnt, keepIds);
    DropRejected(es, keepIds);
    cache.RemoveIds(ids);
    cache.content.PushEntries(resized.value);
    ok := true;
  }

  /** Keep the entries the trace covers. */
  method RemoveUncovered(cache: MutationCache, trace: Trace)
    requires cache.Valid()
    modifies cache.content, cache.content.table, cache.content.data
    ensures cache.Valid()
    ensures cache.State() == WhitelistState(old(cache.State()), Ids(old(cache.State()).entries) * Covered(trace))
    ensures cache.State().entries == FilterIds(old(cache.State()).entries, Ids(old(cache.State()).entries) * Covered(trace))
  {
    ghost var s := cache.State();
    var es := cache.content.Entries();
    var covered := Covered(trace);
    var keep := seq(|es|, i requires 0 <= i < |es| => es[i].id in covered);
    assert ChosenIds(es, keep) == Ids(es) * covered;
    cache.Retain(keep);
    WhitelistFilters(s, Ids(s.entries) * covered);
  }

  // ----- what the two operations leave behind

  /** All resized entries arrive, behind the uncovered ones, exactly when they fit. */
  lemma {:induction false} ResizeEntries(s: CacheState, hits: map<nat, nat>)
    requires Inv(s) && Clonable(s.entries, hits) && AllResizable(s.entries, hits)
    ensures var kept := Survivors(s, Ids(s.entries) - hits.Keys);
            ResizeState(s, hits).entries == FilterIds(s.entries, Ids(s.entries) - hits.Keys) + ResizedAll(s.entries, hits)
            <==> Fits(kept, ResizedAll(s.entries, hits))
    ensures Fitted(ResizedAll(s.entries, hits), FilterIds(s.entries, hits.Keys), hits)
  {
    ResizedOfCovered(s.entries, hits);
    AllCovered(FilterIds(s.entries, hits.Keys), hits);
    WhitelistFilters(s, Ids(s.entries) - hits.Keys);
    WhitelistSurvivors(s, Ids(s.entries) - hits.Keys);
    PushAllFits(WhitelistState(s, Ids(s.entries) - hits.Keys), ResizedAll(s.entries, hits));
  }

  /** A resized entry: for every hit as many mask bytes as the target value has, the old mask in front as
      far as it fits, zeros behind, and zeros in the overflow padding. */
  ghost predicate FitsTrace(r: Entry, e: Entry, hits: map<nat, nat>) {
    && IsEntry(r) && IsEntry(e) && e.id in hits
    && r.id == e.id && SameMetadata(e.bytes, r.bytes)
    && MskLen(r) == hits[e.id] * TargetBytes(e)
    && Msk(r) == Msk(e)[..Min(MskLen(e), MskLen(r))] + Zeros(MskLen(r) - Min(MskLen(e), MskLen(r)))
    && Padding(r) == Some(Zeros(TargetBytes(e)))
  }

  lemma ResizedFitsTrace(e: Entry, hits: map<nat, nat>)
    requires Resizable(e, hits) && CloneFits(e, hits)
    ensures FitsTrace(ResizedTo(e, hits), e, hits)
  {
    ResizedKeepsMask(e, HitBytesOf(e, hits));
  }

  /** Sum over the entries of hits times the bytes of the target value. */
  function MaskBytes(es: seq<Entry>, hits: map<nat, nat>): nat
    requires forall e :: e in es ==> IsEntry(e) && e.id in hits
  {
    if es == [] then 0
    else
      var e := es[|es| - 1];
      assert e in es;
      MaskBytes(es[..|es| - 1], hits) + hits[e.id] * TargetBytes(e)
  }

  /** Entry by entry fitted to the trace, with masks that add up. */
  ghost predicate Fitted(r: seq<Entry>, es: seq<Entry>, hits: map<nat, nat>) {
    && |r| == |es|
    && (forall i :: 0 <= i < |es| ==> FitsTrace(r[i], es[i], hits))
    && (forall e :: e in r ==> IsEntry(e)) && (forall e :: e in es ==> IsEntry(e) && e.id in hits)
    && TotalMskLenOf(r) == MaskBytes(es, hits)
  }

  lemma {:induction false} ResizedAllLength(es: seq<Entry>, hits: map<nat, nat>)
    requires Clonable(es, hits) && AllResizable(es, hits)
    requires forall e :: e in es ==> e.id in hits
    ensures |ResizedAll(es, hits)| == |es|
  {
    if es != [] { ResizedAllLength(es[..|es| - 1], hits); }
  }

  lemma {:induction false} ResizedAllAt(es: seq<Entry>, hits: map<nat, nat>, i: nat)
    requires Clonable(es, hits) && AllResizable(es, hits) && i < |es|
    requires forall e :: e in es ==> e.id in hits
    ensures |ResizedAll(es, hits)| == |es| && es[i] in es
    ensures ResizedAll(es, hits)[i] == ResizedTo(es[i], hits)
    decreases |es|
  {
    ResizedAllLength(es, hits);
    ResizedAllLength(es[..|es| - 1], hits);
    if i < |es| - 1 { ResizedAllAt(es[..|es| - 1], hits, i); }
  }

  /** When all entries are covered, all of them are fitted to the trace. */
  lemma {:induction false} AllCovered(es: seq<Entry>, hits: map<nat, nat>)
    requires Clonable(es, hits) && AllResizable(es, hits)
    requires forall e :: e in es ==> e.id in hits
    ensures Fitted(ResizedAll(es, hits), es, hits)
  {
    ResizedAllLength(es, hits);
    forall i | 0 <= i < |es| ensures FitsTrace(ResizedAll(es, hits)[i], es[i], hits) {
      ResizedAllAt(es, hits, i);
      ResizedFitsTrace(es[i], hits);
    }
    MasksAddUp(es, hits);
  }

  lemma {:induction false} MasksAddUp(es: seq<Entry>, hits: map<nat, nat>)
    requires Clonable(es, hits) && AllResizable(es, hits)
    requires forall e :: e in es ==> IsEntry(e) && e.id in hits
    ensures TotalMskLenOf(ResizedAll(es, hits)) == MaskBytes(es, hits)
  {
    if es != [] {
      var init, e := es[..|es| - 1], es[|es| - 1];
      assert e in es;
      MasksAddUp(init, hits);
      ResizedFitsTrace(e, hits);
      TotalMskLenSnoc(ResizedAll(init, hits), ResizedTo(e, hits));
    }
  }

  /** Resizing looks at the covered entries only. */
  lemma {:induction false} ResizedOfCovered(es: seq<Entry>, hits: map<nat, nat>)
    requires Clonable(es, hits) && AllResizable(es, hits)
    ensures Clonable(FilterIds(es, hits.Keys), hits) && AllResizable(FilterIds(es, hits.Keys), hits)
    ensures ResizedAll(es, hits) == ResizedAll(FilterIds(es, hits.Keys), hits)
  {
    if es != [] {
      var init, e := es[..|es| - 1], es[|es| - 1];
      assert es == init + [e] && e in es;
      ResizedOfCovered(init, hits);
      FilterIdsSnoc(init, e, hits.Keys);
      var kept := FilterIds(init, hits.Keys);
      if e.id in hits { assert (kept + [e])[..|kept + [e]| - 1] == kept; } else { assert kept + [] == kept; }
    }
  }

  lemma TotalMskLenSnoc(es: seq<Entry>, e: Entry)
    requires IsEntry(e) && forall x :: x in es ==> IsEntry(x)
    ensures TotalMskLenOf(es + [e]) == TotalMskLenOf(es) + MskLen(e)
  {
  }

  /** The entries the trace covers. */
  function CoveredEntries(s: CacheState, hits: map<nat, nat>): seq<Entry> {
    FilterIds(s.entries, Ids(s.entries) * hits.Keys)
  }

  /** The state after dropping the uncovered entries, and after dropping the rest as well. */
  function CoveredState(s: CacheState, hits: map<nat, nat>): CacheState {
    Survivors(s, Ids(s.entries) * hits.Keys)
  }

  function DrainedState(s: CacheState, hits: map<nat, nat>): CacheState {
    Survivors(CoveredState(s, hits), {})
  }

  lemma CoveredAreClonable(s: CacheState, hits: map<nat, nat>)
    requires Inv(s) && Clonable(s.entries, hits)
    ensures WhitelistState(s, Ids(s.entries) * hits.Keys) == CoveredState(s, hits)
    ensures CoveredState(s, hits).entries == CoveredEntries(s, hits) && Inv(CoveredState(s, hits))
    ensures Clonable(CoveredEntries(s, hits), hits)
    ensures forall e :: e in CoveredEntries(s, hits) <==> e in s.entries && e.id in hits
  {
    WhitelistFilters(s, Ids(s.entries) * hits.Keys);
    WhitelistSurvivors(s, Ids(s.entries) * hits.Keys);
    forall e | e in s.entries ensures e.id in Ids(s.entries) {
      var i :| 0 <= i < |s.entries| && s.entries[i] == e;
    }
  }

  /** Dropping what is uncovered and resizing the rest leaves exactly the covered sites, each fitted to
      the trace, if and only if the resized entries fit into what the removals left. */
  lemma {:induction false} FitEntries(s: CacheState, hits: map<nat, nat>)
    requires Inv(s) && Clonable(s.entries, hits)
    requires Clonable(CoveredEntries(s, hits), hits) && AllResizable(CoveredEntries(s, hits), hits)
    ensures var covered := CoveredEntries(s, hits); var r := ResizedAll(covered, hits);
            && CoveredState(s, hits).entries == covered
            && (ResizeState(CoveredState(s, hits), hits).entries == r <==> Fits(DrainedState(s, hits), r))
            && (Fits(s, r) ==> Fits(DrainedState(s, hits), r))
            && Fitted(r, covered, hits)
  {
    var covered := CoveredEntries(s, hits);
    CoveredAreClonable(s, hits);
    NothingUncovered(covered, hits);
    ResizeEntries(CoveredState(s, hits), hits);
    NoneKept(covered);
    DrainedHasRoom(s, hits, ResizedAll(covered, hits));
    assert [] + ResizedAll(covered, hits) == ResizedAll(covered, hits);
    AllCovered(covered, hits);
  }

  /** It is enough that they fit before anything was removed. */
  lemma DrainedHasRoom(s: CacheState, hits: map<nat, nat>, r: seq<Entry>)
    requires Inv(s)
    ensures Fits(s, r) ==> Fits(DrainedState(s, hits), r)
  {
    WhitelistFilters(s, Ids(s.entries) * hits.Keys);
    WhitelistSurvivors(s, Ids(s.entries) * hits.Keys);
    WhitelistFilters(CoveredState(s, hits), {});
    WhitelistSurvivors(CoveredState(s, hits), {});
  }

  lemma NothingUncovered(es: seq<Entry>, hits: map<nat, nat>)
    requires forall e :: e in es ==> e.id in hits
    ensures Ids(es) - hits.Keys == {}
  {
  }

  /** `remove_uncovered` and then `resize_covered_entries`, the latter possibly panicking. */
  method FitToTrace(cache: MutationCache, trace: Trace) returns (ok: bool)
    requires cache.Valid() && HitsInRange(trace.execCnt) && Clonable(cache.State().entries, trace.execCnt)
    modifies cache.content, cache.content.table, cache.content.data
    ensures cache.Valid() && Clonable(CoveredEntries(old(cache.State()), trace.execCnt), trace.execCnt)
    ensures CoveredState(old(cache.State()), trace.execCnt).entries == CoveredEntries(old(cache.State()), trace.execCnt)
    ensures ok <==> AllResizable(CoveredEntries(old(cache.State()), trace.execCnt), trace.execCnt)
    ensures ok ==> cache.State() == ResizeState(CoveredState(old(cache.State()), trace.execCnt), trace.execCnt)
    ensures ok ==> var r := ResizedAll(CoveredEntries(old(cache.State()), trace.execCnt), trace.execCnt);
              && (cache.State().entries == r <==> Fits(DrainedState(old(cache.State()), trace.execCnt), r))
              && Fitted(r, CoveredEntries(old(cache.State()), trace.execCnt), trace.execCnt)
  {
    ghost var s := cache.State();
    CoveredAreClonable(s, trace.execCnt);
    RemoveUncovered(cache, trace);
    ok := ResizeCoveredEntries(cache, trace);
    if ok { FitEntries(s, trace.execCnt); }
  }

  lemma {:induction false} NoneKept(es: seq<Entry>)
    ensures FilterIds(es, {}) == []
  {
    if es != [] { NoneKept(es[1..]); }
  }

  // ----- from_patchpoints

  /** The static data of a mutation site of the target. */
  datatype Site = Site(id: nat, instruction: byte, vma: nat, spillSlot: seq<byte>, targetBits: nat)

  predicate ValidSite(p: Site) {
    p.id < Pow256(8) && p.vma < Pow256(8) && |p.spillSlot| == 12 && p.targetBits < Pow256(4)
  }

  /** The entry carries the site's data and nothing else: no mask, no flags, nothing read yet. */
  predicate DescribesSite(e: Entry, p: Site) {
    && IsEntry(e) && e.id == p.id && TargetBits(e) == p.targetBits && MskLen(e) == 0
    && e.bytes[INSTRUCTION_OFFSET] == p.instruction && e.bytes[FLAGS_OFFSET] == 0
    && FieldAt(e.bytes, 0, VMA_OFFSET, 8) == p.vma && FieldAt(e.bytes, 0, READ_POS_OFFSET, 4) == 0
    && e.bytes[SPILL_SLOT_OFFSET..SPILL_SLOT_OFFSET + 12] == p.spillSlot
  }

  function EntryOf(p: Site): (e: Entry)
    requires ValidSite(p)
    ensures DescribesSite(e, p)
  {
    NewEntryFields(p.id, p.instruction, p.vma, 0, p.spillSlot, p.targetBits);
    DecodeEncode(p.vma, 8);
    ZerosDecode(4);
    NewEntry(p.id, p.instruction, p.vma, 0, p.spillSlot, p.targetBits)
  }

  function EntriesOf(sites: seq<Site>): (es: seq<Entry>)
    requires forall p :: p in sites ==> ValidSite(p)
    ensures |es| == |sites| && forall i :: 0 <= i < |sites| ==> sites[i] in sites && es[i] == EntryOf(sites[i])
  {
    seq(|sites|, i requires 0 <= i < |sites| => EntryOf(sites[i]))
  }

  /** A fresh cache with one maskless entry per site, in order; `None` is the panic on a refused push, which
      happens exactly when the entries do not all fit. */
  method FromPatchpoints(sites: seq<Site>) returns (r: Option<MutationCache>)
    requires forall p :: p in sites ==> ValidSite(p)
    ensures r.Some? <==> Fits(Empty(MUTATION_CACHE_DEFAULT_SIZE - CONTENT_SIZE), EntriesOf(sites))
    ensures r.Some? ==> r.value.Valid() && fresh(r.value) && r.value.State().entries == EntriesOf(sites)
    ensures r.Some? ==> |r.value.State().entries| == |sites|
                        && forall i :: 0 <= i < |sites| ==> DescribesSite(r.value.State().entries[i], sites[i])
  {
    var cache := new MutationCache(MUTATION_CACHE_DEFAULT_SIZE);
    var es := EntriesOf(sites);
    var ok := PushUnwrapped(cache, es);
    FillEmpty(MUTATION_CACHE_DEFAULT_SIZE - CONTENT_SIZE, es);
    r := if ok then Some(cache) else None;
  }

  /** Push one entry after the other; `false` is the panic on the first refusal. */
  method PushUnwrapped(cache: MutationCache, es: seq<Entry>) returns (ok: bool)
    requires cache.Valid() && forall e :: e in es ==> IsEntry(e)
    modifies cache.content, cache.content.table, cache.content.data
    ensures cache.Valid() && (ok <==> Fits(old(cache.State()), es))
    ensures ok ==> cache.State() == PushAll(old(cache.State()), es)
  {
    ghost var s := cache.State();
    for i := 0 to |es|
      invariant cache.Valid() && cache.State() == PushAll(s, es[..i]) && Fits(s, es[..i])
    {
      StoredEntry(es[i]);
      PushAllSnoc(s, es, i);
      assert es[..i + 1] == es[..i] + [es[i]];
      OneMoreFits(s, es[..i], es[i]);
      var pushed := cache.content.Push(es[i].bytes);
      if pushed.None? {
        NoLongerFits(s, es, i + 1);
        return false;
      }
    }
    assert es[..|es|] == es;
    ok := true;
  }

  lemma OneMoreFits(s: CacheState, es: seq<Entry>, e: Entry)
    requires Inv(s) && Fits(s, es)
    ensures Fits(s, es + [e]) <==> Accepts(PushAll(s, es), e)
  {
    PushAllFits(s, es);
    TotalSizeAppend(es, [e]);
  }

  lemma NoLongerFits(s: CacheState, es: seq<Entry>, n: nat)
    requires n <= |es| && !Fits(s, es[..n])
    ensures !Fits(s, es)
  {
    assert es == es[..n] + es[n..];
    TotalSizeAppend(es[..n], es[n..]);
  }
}
