/**
 What a mutation cache holds, without saying how: the entry sequence together with the
 accounting (bytes and descriptor slots consumed, deletions not yet compacted) that decides
 which pushes are accepted and when a removal compacts.
 */
module CacheSpec {
  import opened Wrappers
  import opened MutationCacheEntry

  const MAX_ENTRIES: nat := 200000
  const PENDING_LIMIT: nat := 500

  datatype CacheState = CacheState(
    entries: seq<Entry>,  // live entries in slot order
    used: nat,            // bytes of the payload buffer handed out, dead entries included
    slots: nat,           // descriptor slots handed out, emptied ones included
    pending: nat,         // deletions since the last compaction forced by `remove`
    cap: nat)             // payload capacity in bytes

  function TotalSize(es: seq<Entry>): nat {
    if es == [] then 0 else |es[0].bytes| + TotalSize(es[1..])
  }

  lemma {:induction false} TotalSizeAppend(a: seq<Entry>, b: seq<Entry>)
    ensures TotalSize(a + b) == TotalSize(a) + TotalSize(b)
  {
    if a == [] {
      assert a + b == b;
    } else {
      assert (a + b)[1..] == a[1..] + b;
      TotalSizeAppend(a[1..], b);
    }
  }

  ghost predicate WithinBudget(s: CacheState) {
    && TotalSize(s.entries) <= s.used <= s.cap
    && |s.entries| <= s.slots <= MAX_ENTRIES
    && s.pending <= PENDING_LIMIT
  }

  /** The slots emptied by removals are, in addition, all accounted for as pending deletions. */
  ghost predicate Inv(s: CacheState) {
    WithinBudget(s) && s.slots <= |s.entries| + s.pending
  }

  // ----- the operations

  function Empty(cap: nat): CacheState { CacheState([], 0, 0, 0, cap) }

  predicate Accepts(s: CacheState, e: Entry)
  {
    s.used + |e.bytes| <= s.cap && s.slots < MAX_ENTRIES
  }

  function PushState(s: CacheState, e: Entry): CacheState {
    if Accepts(s, e) then s.(entries := s.entries + [e], used := s.used + |e.bytes|, slots := s.slots + 1)
    else s
  }

  function Packed(es: seq<Entry>, pending: nat, cap: nat): CacheState {
    CacheState(es, TotalSize(es), |es|, pending, cap)
  }

  function ConsolidateState(s: CacheState): CacheState { Packed(s.entries, s.pending, s.cap) }

  function ClearState(s: CacheState): CacheState { Packed([], s.pending, s.cap) }

  predicate HasId(es: seq<Entry>, id: nat) { exists i :: 0 <= i < |es| && es[i].id == id }

  /** Position of the first entry with the given id, or the length if there is none. */
  function IndexOf(es: seq<Entry>, id: nat): (i: nat)
    ensures i <= |es|
    ensures i < |es| ==> es[i].id == id
    ensures forall j :: 0 <= j < i ==> es[j].id != id
    ensures HasId(es, id) <==> i < |es|
  {
    if es == [] then 0 else if es[0].id == id then 0 else IndexOf(es[1..], id) + 1
  }

  function RemoveFirst(es: seq<Entry>, id: nat): seq<Entry> {
    if es == [] then [] else if es[0].id == id then es[1..] else [es[0]] + RemoveFirst(es[1..], id)
  }

  lemma {:induction false} RemoveFirstAt(es: seq<Entry>, id: nat)
    ensures var i := IndexOf(es, id); RemoveFirst(es, id) == if i < |es| then es[..i] + es[i + 1..] else es
  {
    if es != [] && es[0].id != id {
      RemoveFirstAt(es[1..], id);
      var i := IndexOf(es[1..], id);
      assert es == [es[0]] + es[1..];
      if i < |es| - 1 { CutBehind(es[0], es[1..], i); }
    }
  }

  /** Emptying a slot frees no bytes and no slot, except that the very last slot of a full table
      becomes available again. */
  function Emptied(s: CacheState, id: nat, pending: nat): CacheState
    requires HasId(s.entries, id)
  {
    var i := IndexOf(s.entries, id);
    CacheState(RemoveFirst(s.entries, id), s.used,
               if s.slots == MAX_ENTRIES && i == |s.entries| - 1 then MAX_ENTRIES - 1 else s.slots,
               pending, s.cap)
  }

  /** The removal that exceeds the limit also packs the survivors. */
  function RemoveState(s: CacheState, id: nat): CacheState {
    if !HasId(s.entries, id) then s
    else if s.pending + 1 > PENDING_LIMIT then ConsolidateState(Emptied(s, id, 0))
    else Emptied(s, id, s.pending + 1)
  }

  // ----- every run

  datatype Op = Push(e: Entry) | Remove(id: nat) | Consolidate | Clear

  function Step(s: CacheState, op: Op): CacheState {
    match op
    case Push(e) => PushState(s, e)
    case Remove(id) => RemoveState(s, id)
    case Consolidate => ConsolidateState(s)
    case Clear => ClearState(s)
  }

  function Run(s: CacheState, ops: seq<Op>): CacheState
    decreases |ops|
  {
    if ops == [] then s else Run(Step(s, ops[0]), ops[1..])
  }

  lemma RemoveTotalSize(es: seq<Entry>, i: nat)
    requires i < |es|
    ensures TotalSize(es) == TotalSize(es[..i] + es[i + 1..]) + |es[i].bytes|
  {
    assert es == es[..i] + ([es[i]] + es[i + 1..]);
    TotalSizeAppend(es[..i], [es[i]] + es[i + 1..]);
    TotalSizeAppend([es[i]], es[i + 1..]);
    TotalSizeAppend(es[..i], es[i + 1..]);
  }

  lemma ReplaceTotalSize(es: seq<Entry>, i: nat, e: Entry)
    requires i < |es| && |e.bytes| == |es[i].bytes|
    ensures TotalSize(es[i := e]) == TotalSize(es)
  {
    RemoveTotalSize(es, i);
    RemoveTotalSize(es[i := e], i);
    assert es[i := e][..i] + es[i := e][i + 1..] == es[..i] + es[i + 1..];
  }

  lemma StepKeepsInv(s: CacheState, op: Op)
    requires Inv(s)
    ensures Inv(Step(s, op)) && Step(s, op).cap == s.cap
  {
    match op
    case Push(e) => TotalSizeAppend(s.entries, [e]);
    case Remove(id) =>
      var i := IndexOf(s.entries, id);
      RemoveFirstAt(s.entries, id);
      if i < |s.entries| { RemoveTotalSize(s.entries, i); }
    case Consolidate =>
    case Clear =>
  }

  /** Every run from the empty cache stays within its byte and slot budget and keeps the number of
      emptied slots below the deletion limit. */
  lemma {:induction false} RunKeepsInv(s: CacheState, ops: seq<Op>)
    requires Inv(s)
    ensures Inv(Run(s, ops)) && Run(s, ops).cap == s.cap
    decreases |ops|
  {
    if ops != [] {
      StepKeepsInv(s, ops[0]);
      RunKeepsInv(Step(s, ops[0]), ops[1..]);
    }
  }

  lemma {:induction false} RunSnoc(s: CacheState, ops: seq<Op>, i: nat)
    requires i < |ops|
    ensures Run(s, ops[..i + 1]) == Step(Run(s, ops[..i]), ops[i])
    decreases |ops|
  {
    if i > 0 {
      assert ops[..i + 1][1..] == ops[1..][..i] && ops[..i][1..] == ops[1..][..i - 1];
      RunSnoc(Step(s, ops[0]), ops[1..], i - 1);
    }
  }

  /** In every reachable state, a push that fits in bytes is refused only if the table is
      nearly full of live entries. */
  lemma {:induction false} RefusedOnlyWhenNearlyFull(cap: nat, ops: seq<Op>, e: Entry)
    ensures var s := Run(Empty(cap), ops);
            !Accepts(s, e) && s.used + |e.bytes| <= s.cap ==> |s.entries| >= MAX_ENTRIES - PENDING_LIMIT
  {
    RunKeepsInv(Empty(cap), ops);
  }

  // ----- the plain sequence a run is meant to implement

  /** Sequence semantics: a push appends (if it was accepted), a removal drops the first match. */
  function PlainStep(es: seq<Entry>, op: Op, accepted: bool): seq<Entry> {
    match op
    case Push(e) => if accepted then es + [e] else es
    case Remove(id) => RemoveFirst(es, id)
    case Consolidate => es
    case Clear => []
  }

  function PlainRun(s: CacheState, ops: seq<Op>, es: seq<Entry>): seq<Entry>
    decreases |ops|
  {
    if ops == [] then es
    else PlainRun(Step(s, ops[0]), ops[1..],
                  PlainStep(es, ops[0], ops[0].Push? && Accepts(s, ops[0].e)))
  }

  /** Compaction is invisible: whatever the run, and however often it compacts, the live entries are those of
      the plain sequence. */
  lemma {:induction false} RunIsPlain(s: CacheState, ops: seq<Op>)
    ensures Run(s, ops).entries == PlainRun(s, ops, s.entries)
    decreases |ops|
  {
    if ops != [] {
      if ops[0].Remove? { RemoveFirstAt(s.entries, ops[0].id); }
      RunIsPlain(Step(s, ops[0]), ops[1..]);
    }
  }

  // ----- removing several ids

  function RemoveAll(s: CacheState, ids: seq<nat>): CacheState
    decreases |ids|
  {
    if ids == [] then s else RemoveAll(RemoveState(s, ids[0]), ids[1..])
  }

  function DropFirsts(es: seq<Entry>, ids: seq<nat>): seq<Entry>
    decreases |ids|
  {
    if ids == [] then es else DropFirsts(RemoveFirst(es, ids[0]), ids[1..])
  }

  /** Each id is found at the moment it is removed, so no removal panics. */
  ghost predicate Removable(es: seq<Entry>, ids: seq<nat>)
    decreases |ids|
  {
    ids == [] || (HasId(es, ids[0]) && Removable(RemoveFirst(es, ids[0]), ids[1..]))
  }

  lemma {:induction false} RemoveAllEntries(s: CacheState, ids: seq<nat>)
    ensures RemoveAll(s, ids).entries == DropFirsts(s.entries, ids)
    ensures RemoveAll(s, ids).cap == s.cap
    decreases |ids|
  {
    if ids != [] {
      RemoveFirstAt(s.entries, ids[0]);
      RemoveAllEntries(RemoveState(s, ids[0]), ids[1..]);
    }
  }

  lemma {:induction false} RemoveAllShrinks(s: CacheState, ids: seq<nat>)
    requires Inv(s)
    ensures var r := RemoveAll(s, ids); Inv(r) && r.used <= s.used && r.slots <= s.slots
    decreases |ids|
  {
    if ids != [] {
      StepKeepsInv(s, Remove(ids[0]));
      RemoveShrinks(s, ids[0]);
      RemoveAllShrinks(RemoveState(s, ids[0]), ids[1..]);
    }
  }

  lemma RemoveShrinks(s: CacheState, id: nat)
    requires Inv(s)
    ensures RemoveState(s, id).used <= s.used && RemoveState(s, id).slots <= s.slots
  {
    var i := IndexOf(s.entries, id);
    RemoveFirstAt(s.entries, id);
    if i < |s.entries| { RemoveTotalSize(s.entries, i); }
  }

  lemma {:induction false} RemoveAllSnoc(s: CacheState, ids: seq<nat>, i: nat)
    requires i < |ids|
    ensures RemoveAll(s, ids[..i + 1]) == RemoveState(RemoveAll(s, ids[..i]), ids[i])
    decreases |ids|
  {
    if i == 0 {
      assert ids[..1] == [ids[0]] && ids[..1][1..] == [];
      assert RemoveAll(RemoveState(s, ids[0]), []) == RemoveState(s, ids[0]);
    } else {
      assert ids[..i + 1][1..] == ids[1..][..i] && ids[..i][1..] == ids[1..][..i - 1];
      RemoveAllSnoc(RemoveState(s, ids[0]), ids[1..], i - 1);
    }
  }

  lemma {:induction false} RemovableAt(es: seq<Entry>, ids: seq<nat>, i: nat)
    requires Removable(es, ids) && i < |ids|
    ensures HasId(DropFirsts(es, ids[..i]), ids[i])
    decreases |ids|
  {
    if i > 0 {
      assert ids[..i][1..] == ids[1..][..i - 1];
      RemovableAt(RemoveFirst(es, ids[0]), ids[1..], i - 1);
    }
  }

  // ----- retain

  function Ids(es: seq<Entry>): set<nat> {
    set i | 0 <= i < |es| :: es[i].id
  }

  /** Ids of the entries whose id is not whitelisted, one occurrence per entry. */
  function Rejected(es: seq<Entry>, keepIds: set<nat>): seq<nat> {
    if es == [] then []
    else (if es[0].id in keepIds then [] else [es[0].id]) + Rejected(es[1..], keepIds)
  }

  lemma {:induction false} RejectedSnoc(es: seq<Entry>, e: Entry, keepIds: set<nat>)
    ensures Rejected(es + [e], keepIds) == Rejected(es, keepIds) + if e.id in keepIds then [] else [e.id]
  {
    if es == [] {
      assert [] + [e] == [e];
    } else {
      assert (es + [e])[1..] == es[1..] + [e];
      RejectedSnoc(es[1..], e, keepIds);
    }
  }

  function FilterIds(es: seq<Entry>, keepIds: set<nat>): (r: seq<Entry>)
    ensures |r| <= |es|
    ensures forall e :: e in r <==> e in es && e.id in keepIds
  {
    if es == [] then [] else (if es[0].id in keepIds then [es[0]] else []) + FilterIds(es[1..], keepIds)
  }

  lemma IndexBehind(e: Entry, es: seq<Entry>, id: nat)
    requires e.id != id
    ensures IndexOf([e] + es, id) == IndexOf(es, id) + 1
  {
  }

  lemma RemoveBehind(e: Entry, es: seq<Entry>, id: nat)
    requires e.id != id && HasId(es, id)
    ensures HasId([e] + es, id) && RemoveFirst([e] + es, id) == [e] + RemoveFirst(es, id)
  {
    assert ([e] + es)[1..] == es && HasId([e] + es, id) by { IndexBehind(e, es, id); }
  }

  lemma RemoveHead(es: seq<Entry>)
    requires es != []
    ensures HasId(es, es[0].id) && RemoveFirst(es, es[0].id) == es[1..]
  {
  }

  lemma {:induction false} DropBehind(e: Entry, es: seq<Entry>, ids: seq<nat>)
    requires e.id !in ids && Removable(es, ids)
    ensures Removable([e] + es, ids) && DropFirsts([e] + es, ids) == [e] + DropFirsts(es, ids)
    decreases |ids|
  {
    if ids != [] {
      RemoveBehind(e, es, ids[0]);
      DropBehind(e, RemoveFirst(es, ids[0]), ids[1..]);
    }
  }

  lemma {:induction false} RejectedAreRejected(es: seq<Entry>, keepIds: set<nat>)
    ensures forall id :: id in Rejected(es, keepIds) ==> id !in keepIds
  {
    if es != [] { RejectedAreRejected(es[1..], keepIds); }
  }

  /** Removing the first match of every rejected id, one after the other, leaves the
      order-preserving filter, whether or not ids repeat. */
  lemma {:induction false} DropRejected(es: seq<Entry>, keepIds: set<nat>)
    ensures Removable(es, Rejected(es, keepIds))
    ensures DropFirsts(es, Rejected(es, keepIds)) == FilterIds(es, keepIds)
  {
    if es != [] {
      var rest := Rejected(es[1..], keepIds);
      DropRejected(es[1..], keepIds);
      if es[0].id in keepIds {
        RejectedAreRejected(es[1..], keepIds);
        assert [es[0]] + es[1..] == es && Rejected(es, keepIds) == rest;
        DropBehind(es[0], es[1..], rest);
      } else {
        assert Rejected(es, keepIds)[1..] == rest;
        RemoveHead(es);
      }
    }
  }

  function WhitelistState(s: CacheState, keepIds: set<nat>): CacheState {
    RemoveAll(s, Rejected(s.entries, keepIds))
  }

  /** The removal loop may compact any number of times; what survives is the filter. */
  lemma {:induction false} WhitelistFilters(s: CacheState, keepIds: set<nat>)
    requires Inv(s)
    ensures var r := WhitelistState(s, keepIds);
            && r.entries == FilterIds(s.entries, keepIds)
            && Inv(r) && r.cap == s.cap && r.used <= s.used && r.slots <= s.slots
  {
    RemoveAllEntries(s, Rejected(s.entries, keepIds));
    RemoveAllShrinks(s, Rejected(s.entries, keepIds));
    DropRejected(s.entries, keepIds);
  }

  // ----- what a removal loop leaves, in closed form

  /** Some removal takes the entry that is last at the time. */
  predicate TakesLast(es: seq<Entry>, ids: seq<nat>)
    decreases |ids|
  {
    ids != [] && (IndexOf(es, ids[0]) == |es| - 1 || TakesLast(RemoveFirst(es, ids[0]), ids[1..]))
  }

  /** Every 501st deletion compacts. Without one, removals free no bytes, and a slot only at the end of a
      full table; otherwise bytes and slots are those of the entries left at the last compaction. */
  function SettledAs(s: CacheState, removals: nat, es: seq<Entry>, packed: seq<Entry>, last: bool): CacheState {
    if s.pending + removals <= PENDING_LIMIT then
      CacheState(es, s.used, if s.slots == MAX_ENTRIES && last then MAX_ENTRIES - 1 else s.slots, s.pending + removals, s.cap)
    else
      CacheState(es, TotalSize(packed), |packed|, SinceCompaction(s.pending, removals), s.cap)
  }

  function SinceCompaction(pending: nat, removals: nat): nat { (pending + removals) % 501 }

  /** The number of removals up to the last compaction. */
  function LastCompaction(pending: nat, removals: nat): nat {
    if SinceCompaction(pending, removals) <= removals then removals - SinceCompaction(pending, removals) else 0
  }

  function Settled(s: CacheState, ids: seq<nat>): CacheState {
    SettledAs(s, |ids|, DropFirsts(s.entries, ids), DropFirsts(s.entries, ids[..LastCompaction(s.pending, |ids|)]),
              TakesLast(s.entries, ids))
  }

  lemma {:induction false} RemoveAllSettled(s: CacheState, ids: seq<nat>)
    requires Inv(s) && Removable(s.entries, ids)
    ensures RemoveAll(s, ids) == Settled(s, ids)
    decreases |ids|
  {
    if ids != [] {
      StepKeepsInv(s, Remove(ids[0]));
      RemoveAllSettled(RemoveState(s, ids[0]), ids[1..]);
      SettledStep(s, ids);
    }
  }

  lemma CompactionStep(pending: nat, removals: nat)
    requires removals > 0 && pending <= PENDING_LIMIT < pending + removals
    ensures var next := NextPending(pending);
            && SinceCompaction(next, removals - 1) == SinceCompaction(pending, removals)
            && LastCompaction(pending, removals) == LastCompaction(next, removals - 1) + 1 <= removals
            && (next + removals - 1 <= PENDING_LIMIT ==> LastCompaction(next, removals - 1) == 0)
  {
  }

  function NextPending(pending: nat): nat { if pending == PENDING_LIMIT then 0 else pending + 1 }

  lemma RemoveFields(s: CacheState, id: nat)
    requires Inv(s) && HasId(s.entries, id)
    ensures RemoveState(s, id).entries == RemoveFirst(s.entries, id)
    ensures RemoveState(s, id).pending == NextPending(s.pending)
  {
  }

  /** What is there at the last compaction does not depend on where one starts to count removals. */
  lemma PackedStep(es: seq<Entry>, pending: nat, ids: seq<nat>)
    requires ids != [] && pending <= PENDING_LIMIT < pending + |ids|
    ensures var k := LastCompaction(NextPending(pending), |ids| - 1);
            && DropFirsts(es, ids[..LastCompaction(pending, |ids|)]) == DropFirsts(RemoveFirst(es, ids[0]), ids[1..][..k])
            && (pending == PENDING_LIMIT && |ids| - 1 <= PENDING_LIMIT ==> k == 0)
  {
    CompactionStep(pending, |ids|);
    DropOne(es, ids, LastCompaction(pending, |ids|));
  }

  lemma DropOne(es: seq<Entry>, ids: seq<nat>, k: nat)
    requires 0 < k <= |ids|
    ensures DropFirsts(es, ids[..k]) == DropFirsts(RemoveFirst(es, ids[0]), ids[1..][..k - 1])
  {
    assert ids[..k][0] == ids[0] && ids[..k][1..] == ids[1..][..k - 1];
  }

  lemma SettledStep(s: CacheState, ids: seq<nat>)
    requires Inv(s) && ids != [] && HasId(s.entries, ids[0])
    ensures Settled(RemoveState(s, ids[0]), ids[1..]) == Settled(s, ids)
  {
    var n, k := |ids|, LastCompaction(s.pending, |ids|);
    var rest, k' := RemoveFirst(s.entries, ids[0]), LastCompaction(NextPending(s.pending), |ids| - 1);
    RemoveFields(s, ids[0]);
    if s.pending + n > PENDING_LIMIT { PackedStep(s.entries, s.pending, ids); }
    RemoveSettles(s, ids[0], n, DropFirsts(rest, ids[1..]), DropFirsts(s.entries, ids[..k]), TakesLast(s.entries, ids),
                  DropFirsts(rest, ids[1..][..k']), TakesLast(rest, ids[1..]));
  }

  lemma RemoveSettles(s: CacheState, id: nat, n: nat, es: seq<Entry>, packed: seq<Entry>, last: bool,
                      packed': seq<Entry>, last': bool)
    requires Inv(s) && HasId(s.entries, id) && n > 0
    requires last <==> IndexOf(s.entries, id) == |s.entries| - 1 || last'
    requires s.pending + n > PENDING_LIMIT ==> packed == packed'
    requires s.pending == PENDING_LIMIT && n - 1 <= PENDING_LIMIT ==> packed == RemoveFirst(s.entries, id)
    ensures SettledAs(RemoveState(s, id), n - 1, es, packed', last') == SettledAs(s, n, es, packed, last)
  {
    if s.pending + n > PENDING_LIMIT { CompactionStep(s.pending, n); }
    assert |RemoveFirst(s.entries, id)| < MAX_ENTRIES by { RemoveFirstAt(s.entries, id); }
  }

  /** The entries without the first `k` rejected ones. */
  function SkipRejected(es: seq<Entry>, keepIds: set<nat>, k: nat): seq<Entry> {
    if es == [] || k == 0 then es
    else if es[0].id in keepIds then [es[0]] + SkipRejected(es[1..], keepIds, k)
    else SkipRejected(es[1..], keepIds, k - 1)
  }

  lemma {:induction false} RemovablePrefix(es: seq<Entry>, ids: seq<nat>, k: nat)
    requires Removable(es, ids) && k <= |ids|
    ensures Removable(es, ids[..k])
    decreases |ids|
  {
    if k > 0 {
      assert ids[..k][1..] == ids[1..][..k - 1];
      RemovablePrefix(RemoveFirst(es, ids[0]), ids[1..], k - 1);
    }
  }

  lemma RejectedCons(es: seq<Entry>, keepIds: set<nat>)
    requires es != []
    ensures Rejected(es, keepIds)
         == if es[0].id in keepIds then Rejected(es[1..], keepIds) else [es[0].id] + Rejected(es[1..], keepIds)
    ensures es == [es[0]] + es[1..]
  {
    assert [] + Rejected(es[1..], keepIds) == Rejected(es[1..], keepIds);
  }

  lemma DropHead(es: seq<Entry>, ids: seq<nat>)
    requires es != []
    ensures DropFirsts(es, [es[0].id] + ids) == DropFirsts(es[1..], ids)
    ensures TakesLast(es, [es[0].id] + ids) <==> |es| == 1 || TakesLast(es[1..], ids)
  {
    assert ([es[0].id] + ids)[1..] == ids;
    RemoveHead(es);
  }

  /** The removal loop takes the rejected entries from front to back, whether or not ids repeat. */
  lemma {:induction false} DropRejectedPrefix(es: seq<Entry>, keepIds: set<nat>, k: nat)
    requires k <= |Rejected(es, keepIds)|
    ensures DropFirsts(es, Rejected(es, keepIds)[..k]) == SkipRejected(es, keepIds, k)
  {
    if k > 0 {
      var rest := Rejected(es[1..], keepIds);
      RejectedCons(es, keepIds);
      if es[0].id in keepIds {
        assert SkipRejected(es, keepIds, k) == [es[0]] + SkipRejected(es[1..], keepIds, k);
        DropRejectedPrefix(es[1..], keepIds, k);
        KeptInFront(es[0], es[1..], keepIds, k);
      } else {
        assert SkipRejected(es, keepIds, k) == SkipRejected(es[1..], keepIds, k - 1);
        DropRejectedPrefix(es[1..], keepIds, k - 1);
        assert ([es[0].id] + rest)[..k] == [es[0].id] + rest[..k - 1];
        DropHead(es, rest[..k - 1]);
      }
    }
  }

  lemma KeptInFront(e: Entry, es: seq<Entry>, keepIds: set<nat>, k: nat)
    requires e.id in keepIds && k <= |Rejected(es, keepIds)|
    ensures var ids := Rejected(es, keepIds)[..k];
            && DropFirsts([e] + es, ids) == [e] + DropFirsts(es, ids)
            && (TakesLast([e] + es, ids) <==> TakesLast(es, ids))
  {
    var ids := Rejected(es, keepIds);
    DropRejected(es, keepIds);
    RemovablePrefix(es, ids, k);
    RejectedAreRejected(es, keepIds);
    DropBehind(e, es, ids[..k]);
    TakesLastBehind(e, es, ids[..k]);
  }

  lemma {:induction false} TakesLastBehind(e: Entry, es: seq<Entry>, ids: seq<nat>)
    requires e.id !in ids && Removable(es, ids)
    ensures TakesLast([e] + es, ids) <==> TakesLast(es, ids)
    decreases |ids|
  {
    if ids != [] {
      IndexBehind(e, es, ids[0]);
      RemoveBehind(e, es, ids[0]);
      TakesLastBehind(e, RemoveFirst(es, ids[0]), ids[1..]);
    }
  }

  predicate LastRejected(es: seq<Entry>, keepIds: set<nat>) { es != [] && es[|es| - 1].id !in keepIds }

  lemma {:induction false} TakesLastRejected(es: seq<Entry>, keepIds: set<nat>)
    ensures TakesLast(es, Rejected(es, keepIds)) <==> LastRejected(es, keepIds)
  {
    if es != [] {
      var rest := Rejected(es[1..], keepIds);
      TakesLastRejected(es[1..], keepIds);
      RejectedCons(es, keepIds);
      if es[0].id in keepIds {
        KeptInFront(es[0], es[1..], keepIds, |rest|);
        assert rest[..|rest|] == rest;
      } else {
        DropHead(es, rest);
      }
    }
  }

  lemma {:induction false} RejectedCount(es: seq<Entry>, keepIds: set<nat>)
    ensures |Rejected(es, keepIds)| + |FilterIds(es, keepIds)| == |es|
  {
    if es != [] { RejectedCount(es[1..], keepIds); }
  }

  /** The cache after whitelisting, computed from the cache before. */
  function Survivors(s: CacheState, keepIds: set<nat>): CacheState {
    var es := FilterIds(s.entries, keepIds);
    var removals := |s.entries| - |es|;
    SettledAs(s, removals, es, SkipRejected(s.entries, keepIds, LastCompaction(s.pending, removals)),
              LastRejected(s.entries, keepIds))
  }

  lemma {:induction false} SettledSurvivors(s: CacheState, keepIds: set<nat>)
    ensures Settled(s, Rejected(s.entries, keepIds)) == Survivors(s, keepIds)
  {
    var ids := Rejected(s.entries, keepIds);
    RejectedCount(s.entries, keepIds);
    TakesLastRejected(s.entries, keepIds);
    DropRejectedPrefix(s.entries, keepIds, LastCompaction(s.pending, |ids|));
    assert DropFirsts(s.entries, ids) == FilterIds(s.entries, keepIds) by { DropRejected(s.entries, keepIds); }
  }

  /** A loop of removals, each of which may compact, leaves what `Survivors` computes without any loop. */
  lemma {:induction false} WhitelistSurvivors(s: CacheState, keepIds: set<nat>)
    requires Inv(s)
    ensures WhitelistState(s, keepIds) == Survivors(s, keepIds)
  {
    DropRejected(s.entries, keepIds);
    RemoveAllSettled(s, Rejected(s.entries, keepIds));
    SettledSurvivors(s, keepIds);
  }

  /** Entries chosen one by one: what a caller of `retain` asked for. */
  function Chosen(es: seq<Entry>, keep: seq<bool>): (r: seq<Entry>)
    requires |es| == |keep|
    ensures |r| <= |es|
  {
    if es == [] then [] else (if keep[0] then [es[0]] else []) + Chosen(es[1..], keep[1..])
  }

  /** `retain` keeps every entry whose id belongs to some chosen entry. */
  function ChosenIds(es: seq<Entry>, keep: seq<bool>): set<nat>
    requires |es| == |keep|
  {
    set i | 0 <= i < |es| && keep[i] :: es[i].id
  }

  ghost predicate ChoiceDependsOnId(es: seq<Entry>, keep: seq<bool>)
    requires |es| == |keep|
  {
    forall i, j :: 0 <= i < |es| && 0 <= j < |es| && es[i].id == es[j].id ==> keep[i] == keep[j]
  }

  ghost predicate UniqueIds(es: seq<Entry>) {
    forall i, j :: 0 <= i < j < |es| ==> es[i].id != es[j].id
  }

  lemma {:induction false} FilterVersusChosen(es: seq<Entry>, keep: seq<bool>, keepIds: set<nat>)
    requires |es| == |keep|
    requires forall i :: 0 <= i < |es| && keep[i] ==> es[i].id in keepIds
    ensures |Chosen(es, keep)| <= |FilterIds(es, keepIds)|
    ensures FilterIds(es, keepIds) == Chosen(es, keep) <==> (forall i :: 0 <= i < |es| ==> keep[i] == (es[i].id in keepIds))
    ensures |Chosen(es, keep)| == |FilterIds(es, keepIds)| ==> Chosen(es, keep) == FilterIds(es, keepIds)
  {
    if es != [] {
      FilterVersusChosen(es[1..], keep[1..], keepIds);
      assert forall i :: 0 <= i < |es| ==> (keep[i] == (es[i].id in keepIds) <==>
        if i == 0 then keep[0] == (es[0].id in keepIds) else keep[1..][i - 1] == (es[1..][i - 1].id in keepIds));
    }
  }

  /** `retain` is the filter its caller asked for exactly when entries sharing an id share
      their fate; with unique ids that is every choice. */
  lemma {:induction false} RetainIsFilter(es: seq<Entry>, keep: seq<bool>)
    requires |es| == |keep|
    ensures FilterIds(es, ChosenIds(es, keep)) == Chosen(es, keep) <==> ChoiceDependsOnId(es, keep)
    ensures UniqueIds(es) ==> FilterIds(es, ChosenIds(es, keep)) == Chosen(es, keep)
  {
    FilterVersusChosen(es, keep, ChosenIds(es, keep));
    if forall i :: 0 <= i < |es| ==> keep[i] == (es[i].id in ChosenIds(es, keep)) {
      forall i, j | 0 <= i < |es| && 0 <= j < |es| && es[i].id == es[j].id ensures keep[i] == keep[j] {
      }
    }
  }

  lemma {:induction false} ChosenByPredicate(es: seq<Entry>, keep: seq<bool>, p: Entry -> bool)
    requires |es| == |keep| && forall i :: 0 <= i < |es| ==> keep[i] == p(es[i])
    ensures Chosen(es, keep) == Filter(es, p)
  {
    if es != [] { ChosenByPredicate(es[1..], keep[1..], p); }
  }

  function FirstN(n: nat, max: nat): (keep: seq<bool>)
    ensures |keep| == n
  {
    seq(n, i => i < max)
  }

  lemma {:induction false} ChosenFirstN(es: seq<Entry>, max: nat)
    ensures Chosen(es, FirstN(|es|, max)) == es[..Min(max, |es|)]
  {
    if es != [] && max > 0 {
      ChosenFirstN(es[1..], max - 1);
      assert FirstN(|es|, max)[1..] == FirstN(|es| - 1, max - 1);
      assert es[..Min(max, |es|)] == [es[0]] + es[1..][..Min(max - 1, |es| - 1)];
    } else if es != [] {
      ChosenFirstN(es[1..], 0);
      assert FirstN(|es|, 0)[1..] == FirstN(|es| - 1, 0);
    }
  }

  // ----- pushing several entries

  function PushAll(s: CacheState, es: seq<Entry>): CacheState
    decreases |es|
  {
    if es == [] then s else PushAll(PushState(s, es[0]), es[1..])
  }

  predicate Fits(s: CacheState, es: seq<Entry>) {
    s.used + TotalSize(es) <= s.cap && s.slots + |es| <= MAX_ENTRIES
  }

  lemma {:induction false} PushAllLength(s: CacheState, es: seq<Entry>)
    ensures |PushAll(s, es).entries| <= |s.entries| + |es|
    decreases |es|
  {
    if es != [] { PushAllLength(PushState(s, es[0]), es[1..]); }
  }

  /** Refused pushes are silently dropped, so all of `es` arrives exactly when it fits. */
  lemma {:induction false} PushAllFits(s: CacheState, es: seq<Entry>)
    requires Inv(s)
    ensures PushAll(s, es).entries == s.entries + es <==> Fits(s, es)
    ensures Fits(s, es) ==> PushAll(s, es).used == s.used + TotalSize(es) && PushAll(s, es).slots == s.slots + |es|
    ensures PushAll(s, es).cap == s.cap && PushAll(s, es).pending == s.pending && Inv(PushAll(s, es))
    decreases |es|
  {
    if es == [] {
      assert s.entries + es == s.entries;
    } else {
      StepKeepsInv(s, Push(es[0]));
      PushAllFits(PushState(s, es[0]), es[1..]);
      PushAllLength(PushState(s, es[0]), es[1..]);
      if Accepts(s, es[0]) {
        assert s.entries + es == s.entries + [es[0]] + es[1..];
      }
    }
  }

  lemma FillEmpty(cap: nat, es: seq<Entry>)
    ensures PushAll(Empty(cap), es).entries == es <==> Fits(Empty(cap), es)
  {
    PushAllFits(Empty(cap), es);
    assert [] + es == es;
  }

  lemma {:induction false} PushAllSnoc(s: CacheState, es: seq<Entry>, i: nat)
    requires i < |es|
    ensures PushAll(s, es[..i + 1]) == PushState(PushAll(s, es[..i]), es[i])
    decreases |es|
  {
    if i == 0 {
      assert es[..1] == [es[0]] && es[..1][1..] == [];
      assert PushAll(PushState(s, es[0]), []) == PushState(s, es[0]);
    } else {
      assert es[..i + 1][1..] == es[1..][..i] && es[..i][1..] == es[1..][..i - 1];
      PushAllSnoc(PushState(s, es[0]), es[1..], i - 1);
    }
  }

  /** Compaction never loses an entry: everything read out of a cache can be pushed back. */
  lemma {:induction false} RepackFits(s: CacheState)
    requires WithinBudget(s)
    ensures PushAll(ClearState(s), s.entries) == ConsolidateState(s)
  {
    PushAllFits(ClearState(s), s.entries);
    assert [] + s.entries == s.entries;
  }

  // ----- the id-to-entry map

  /** The entry an id stands for: the last one pushed under it. */
  function Lookup(es: seq<Entry>, id: nat): (r: Option<Entry>)
    ensures r.Some? <==> HasId(es, id)
    ensures r.Some? ==> r.value in es && r.value.id == id
  {
    if es == [] then None
    else if es[|es| - 1].id == id then Some(es[|es| - 1])
    else Lookup(es[..|es| - 1], id)
  }

  lemma {:induction false} LookupAppend(a: seq<Entry>, b: seq<Entry>, id: nat)
    ensures Lookup(a + b, id) == if HasId(b, id) then Lookup(b, id) else Lookup(a, id)
  {
    if b == [] {
      assert a + b == a;
    } else {
      assert (a + b)[..|a + b| - 1] == a + b[..|b| - 1];
      LookupAppend(a, b[..|b| - 1], id);
    }
  }

  lemma {:induction false} FilterIdsSnoc(es: seq<Entry>, e: Entry, keepIds: set<nat>)
    ensures FilterIds(es + [e], keepIds) == FilterIds(es, keepIds) + if e.id in keepIds then [e] else []
  {
    if es == [] {
      assert [] + [e] == [e];
    } else {
      assert (es + [e])[1..] == es[1..] + [e];
      FilterIdsSnoc(es[1..], e, keepIds);
      Associative(if es[0].id in keepIds then [es[0]] else [], FilterIds(es[1..], keepIds),
                  if e.id in keepIds then [e] else []);
    }
  }

  lemma LookupSnoc(es: seq<Entry>, e: Entry, id: nat)
    ensures Lookup(es + [e], id) == if e.id == id then Some(e) else Lookup(es, id)
  {
  }

  lemma {:induction false} LookupFiltered(es: seq<Entry>, keepIds: set<nat>, id: nat)
    ensures Lookup(FilterIds(es, keepIds), id) == if id in keepIds then Lookup(es, id) else None
  {
    if es != [] {
      var init, e := es[..|es| - 1], es[|es| - 1];
      assert es == init + [e];
      LookupFiltered(init, keepIds, id);
      LookupSnoc(init, e, id);
      FilterIdsSnoc(init, e, keepIds);
      LookupSnoc(FilterIds(init, keepIds), e, id);
      assert FilterIds(init, keepIds) + [] == FilterIds(init, keepIds);
    }
  }

  // ----- union_and_replace

  function UnionState(s: CacheState, other: seq<Entry>): CacheState {
    PushAll(WhitelistState(s, Ids(s.entries) - Ids(other)), other)
  }

  /** Surviving entries first, the other cache's entries after them, exactly when those fit into what the
      removals left; it is enough that they fit before. */
  lemma {:induction false} UnionEntries(s: CacheState, other: seq<Entry>)
    requires Inv(s)
    ensures var kept := Survivors(s, Ids(s.entries) - Ids(other));
            && Inv(UnionState(s, other))
            && (UnionState(s, other).entries == FilterIds(s.entries, Ids(s.entries) - Ids(other)) + other <==> Fits(kept, other))
            && (Fits(s, other) ==> Fits(kept, other))
  {
    WhitelistFilters(s, Ids(s.entries) - Ids(other));
    WhitelistSurvivors(s, Ids(s.entries) - Ids(other));
    PushAllFits(WhitelistState(s, Ids(s.entries) - Ids(other)), other);
  }

  /** The resulting id-to-entry map is the old one overridden by the other cache's. */
  lemma {:induction false} UnionOverrides(es: seq<Entry>, other: seq<Entry>, id: nat)
    ensures Lookup(FilterIds(es, Ids(es) - Ids(other)) + other, id)
         == if HasId(other, id) then Lookup(other, id) else Lookup(es, id)
  {
    LookupFiltered(es, Ids(es) - Ids(other), id);
    LookupAppend(FilterIds(es, Ids(es) - Ids(other)), other, id);
  }
}
