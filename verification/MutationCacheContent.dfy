/**
 The bump allocator behind a mutation cache. Removing an entry only empties its descriptor;
 the bytes come back when the cache is compacted.
 */
module MutationCacheContentModel {
  import opened Wrappers
  import opened MutationCacheEntry
  import opened CacheSpec
  import opened CacheLayout

  /** Bytes taken by the counters, the flag and the descriptor table. */
  const CONTENT_SIZE: nat := 40 + 16 * MAX_ENTRIES

  /** The entry that a reference to sufficiently much memory denotes. */
  function Stored(buf: seq<byte>): (e: Entry)
    requires Covers(buf)
    ensures IsEntry(e) && |e.bytes| == SizeAt(buf, 0)
  {
    SliceOfSlice(buf, 0, SizeAt(buf, 0), 0, HEADER);
    FieldsOfSlice(buf, 0, buf[..SizeAt(buf, 0)]);
    Entry(IdAt(buf, 0), buf[..SizeAt(buf, 0)])
  }

  lemma StoredEntry(e: Entry)
    requires IsEntry(e)
    ensures Covers(e.bytes) && Stored(e.bytes) == e
  {
  }

  class MutationCacheContent {
    var totalSize: nat
    var currentDataSize: nat
    var nextFreeSlot: nat
    var pendingDeletions: nat
    var invalidate: bool
    const table: array<Option<nat>>
    const data: array<byte>

    ghost predicate Valid()
      reads this, table, data
    {
      totalSize == CONTENT_SIZE + data.Length
      && Sound(table[..], data[..], currentDataSize, nextFreeSlot, pendingDeletions)
    }

    /** Valid but for the bound on emptied slots, which `remove` gives up before it compacts. */
    ghost predicate InOrder()
      reads this, table, data
    {
      && totalSize == CONTENT_SIZE + data.Length
      && CacheLayout.InOrder(table[..], data[..], currentDataSize, nextFreeSlot, pendingDeletions)
    }

    ghost function Abs(): CacheState
      requires InOrder()
      reads this, table, data
    {
      View(table[..], data[..], currentDataSize, nextFreeSlot, pendingDeletions)
    }

    /** `init` on zeroed memory of `size` bytes. */
    constructor (size: nat)
      requires size >= CONTENT_SIZE
      ensures Valid() && fresh(table) && fresh(data)
      ensures Abs() == Empty(size - CONTENT_SIZE)
    {
      totalSize := size;
      currentDataSize := 0;
      nextFreeSlot := 0;
      pendingDeletions := 0;
      invalidate := false;
      table := new Option<nat>[MAX_ENTRIES](_ => None);
      data := new byte[size - CONTENT_SIZE](_ => 0);
      new;
      assert forall i :: 0 <= i < |table[..]| ==> table[..][i].None?;
      ClearedView(table[..], data[..], pendingDeletions);
    }

    method SpaceLeft() returns (n: nat)
      requires Valid()
      ensures n == Abs().cap - Abs().used
    {
      n := totalSize - CONTENT_SIZE - currentDataSize;
    }

    method TotalUsedBytes() returns (n: nat)
      requires Valid()
      ensures n == CONTENT_SIZE + Abs().used <= totalSize
    {
      n := CONTENT_SIZE + currentDataSize;
    }

    method Clear()
      requires InOrder()
      modifies this, table
      ensures Valid() && Abs() == ClearState(old(Abs())) && invalidate
      ensures pendingDeletions == old(pendingDeletions)
    {
      invalidate := true;
      currentDataSize := 0;
      nextFreeSlot := 0;
      forall i | 0 <= i < table.Length {
        table[i] := None;
      }
      assert forall i :: 0 <= i < |table[..]| ==> table[..][i].None?;
      ClearedView(table[..], data[..], pendingDeletions);
    }

    method Entries() returns (es: seq<Entry>)
      requires InOrder()
      ensures es == Abs().entries && forall e :: e in es ==> IsEntry(e)
    {
      es := [];
      for i := 0 to table.Length
        invariant es == Somes(Row(table[..], data[..], currentDataSize)[..i])
      {
        ghost var row := Row(table[..], data[..], currentDataSize);
        assert row[..i + 1][..i] == row[..i];
        assert table[..][i] == table[i];
        if table[i].Some? {
          assert InBounds(data[..], currentDataSize, table[i].value);
          es := es + [EntryAt(data[..], table[i].value)];
        }
      }
      ghost var row := Row(table[..], data[..], currentDataSize);
      assert row[..|row|] == row;
      LiveAreEntries(table[..], data[..], currentDataSize);
    }

    /** Where the new entry was stored, or `None` when bytes or descriptors ran out. The entry is
        copied from behind a reference, as many bytes as it says it has. */
    method Push(entry: seq<byte>) returns (r: Option<nat>)
      requires Valid() && Covers(entry)
      modifies this, table, data
      ensures Valid() && Abs() == PushState(old(Abs()), Stored(entry))
      ensures r.Some? <==> Accepts(old(Abs()), Stored(entry))
      ensures r.Some? ==> r.value == old(Abs()).used
      ensures invalidate <==> r.Some? || old(invalidate)
    {
      assert nextFreeSlot < table.Length;
      var left := SpaceLeft();
      if SizeAt(entry, 0) > left {
        return None;
      }
      assert table[nextFreeSlot] == table[..][nextFreeSlot];
      if table[nextFreeSlot].Some? {
        return None;
      }
      var start := currentDataSize;
      Append(Stored(entry));
      r := Some(start);
    }

    /** Take the next descriptor and the next free bytes. */
    method Append(e: Entry)
      requires Valid() && IsEntry(e) && currentDataSize + |e.bytes| <= data.Length && table[nextFreeSlot].None?
      modifies this, table, data
      ensures Valid() && Abs() == PushState(old(Abs()), e) && invalidate
    {
      ghost var tbl, mem, start, next, pending := table[..], data[..], currentDataSize, nextFreeSlot, pendingDeletions;
      assert tbl[next].None? && |tbl| == MAX_ENTRIES;
      Advance(e);
      ghost var next' := if next + 1 < MAX_ENTRIES then next + 1 else next;
      PushView(tbl, mem, start, next, pending, e, data[..]);
      assert nextFreeSlot == next' && Sound(table[..], data[..], start + |e.bytes|, next', pending);
    }

    /** Store the entry behind the others and advance the counters; the slot index stops at the last slot. */
    method Advance(e: Entry)
      requires nextFreeSlot < table.Length == MAX_ENTRIES && currentDataSize + |e.bytes| <= data.Length
      modifies this, table, data
      ensures table[..] == old(table[..])[old(nextFreeSlot) := Some(old(currentDataSize))]
      ensures data[..] == old(data[..])[..old(currentDataSize)] + e.bytes + old(data[..])[old(currentDataSize) + |e.bytes|..]
      ensures nextFreeSlot == if old(nextFreeSlot) + 1 < MAX_ENTRIES then old(nextFreeSlot) + 1 else old(nextFreeSlot)
      ensures currentDataSize == old(currentDataSize) + |e.bytes| && invalidate
      ensures totalSize == old(totalSize) && pendingDeletions == old(pendingDeletions)
    {
      Store(nextFreeSlot, currentDataSize, e);
      nextFreeSlot := if nextFreeSlot + 1 < table.Length - 1 then nextFreeSlot + 1 else table.Length - 1;
      currentDataSize := currentDataSize + |e.bytes|;
      invalidate := true;
    }

    /** Fill in a descriptor and copy the entry's bytes to where it points. */
    method Store(slot: nat, start: nat, e: Entry)
      requires slot < table.Length && start + |e.bytes| <= data.Length
      modifies table, data
      ensures table[..] == old(table[..])[slot := Some(start)]
      ensures data[..] == old(data[..])[..start] + e.bytes + old(data[..])[start + |e.bytes|..]
    {
      table[slot] := Some(start);
      forall i | 0 <= i < |e.bytes| {
        data[start + i] := e.bytes[i];
      }
    }

    /** Push one entry after the other, ignoring refusals. */
    method PushEntries(es: seq<Entry>)
      requires Valid() && forall e :: e in es ==> IsEntry(e)
      modifies this, table, data
      ensures Valid() && Abs() == PushAll(old(Abs()), es)
      ensures old(invalidate) ==> invalidate
    {
      ghost var s := Abs();
      for i := 0 to |es|
        invariant Valid() && Abs() == PushAll(s, es[..i]) && (old(invalidate) ==> invalidate)
      {
        PushAllSnoc(s, es, i);
        StoredEntry(es[i]);
        var _ := Push(es[i].bytes);
      }
      assert es[..|es|] == es;
    }

    /** Copy all entries out, clear, push them back. */
    method Consolidate()
      requires InOrder()
      modifies this, table, data
      ensures Valid() && Abs() == ConsolidateState(old(Abs())) && invalidate
      ensures pendingDeletions == old(pendingDeletions)
    {
      invalidate := true;
      var es := Entries();
      Clear();
      PushEntries(es);
      RepackFits(old(Abs()));
    }

    /** The first live slot whose entry has the id. */
    method FindSlot(id: nat) returns (k: Option<nat>)
      requires Valid()
      ensures k.None? ==> !HasId(Abs().entries, id)
      ensures k.Some? ==> k.value < table.Length && table[..][k.value].Some? && IdAt(data[..], table[..][k.value].value) == id
      ensures k.Some? ==> NoneBefore(table[..], data[..], currentDataSize, k.value, id)
    {
      ghost var tbl, mem, used := table[..], data[..], currentDataSize;
      for i := 0 to table.Length
        invariant NoneBefore(tbl, mem, used, i, id)
      {
        assert tbl[i] == table[i];
        if table[i].Some? {
          assert InBounds(mem, used, table[i].value);
          if IdAt(data[..], table[i].value) == id {
            return Some(i);
          }
        }
        NoneYet(tbl, mem, used, i, id);
      }
      k := None;
      NotLive(table[..], data[..], currentDataSize, id);
    }

    /** `false` is the panic on an id that is not in the cache. */
    method Remove(id: nat) returns (ok: bool)
      requires Valid()
      modifies this, table, data
      ensures Valid() && Abs() == RemoveState(old(Abs()), id)
      ensures ok <==> HasId(old(Abs()).entries, id)
      ensures invalidate <==> ok || old(invalidate)
    {
      var found := FindSlot(id);
      if found.None? {
        return false;
      }
      ghost var s, tbl := Abs(), table[..];
      invalidate := true;
      table[found.value] := None;
      assert table[..] == tbl[found.value := None];
      pendingDeletions := pendingDeletions + 1;
      if pendingDeletions > PENDING_LIMIT {
        pendingDeletions := 0;
        RemoveView(tbl, data[..], currentDataSize, nextFreeSlot, s.pending, found.value, id, 0);
        Consolidate();
      } else {
        RemoveView(tbl, data[..], currentDataSize, nextFreeSlot, s.pending, found.value, id, pendingDeletions);
      }
      ok := true;
    }

    /** A write through a reference to the entry in slot `k`, to its flags or behind its header. */
    method Write(k: nat, p: nat, v: byte)
      requires Valid() && k < table.Length && table[..][k].Some?
      requires Writable(EntryAt(data[..], table[..][k].value), p)
      modifies data
      ensures Valid()
      ensures var i := |Somes(Row(table[..], old(data[..]), currentDataSize)[..k])|;
              && i < |old(Abs()).entries|
              && old(Abs()).entries[i] == EntryAt(old(data[..]), table[..][k].value)
              && Abs() == old(Abs()).(entries := old(Abs()).entries[i := Written(old(Abs()).entries[i], p, v)])
    {
      ghost var tbl, mem := table[..], data[..];
      assert table[k] == tbl[k];
      data[table[k].value + p] := v;
      assert data[..] == mem[tbl[k].value + p := v];
      WriteView(tbl, mem, currentDataSize, nextFreeSlot, pendingDeletions, k, p, v);
    }
  }

  /** Whole runs: whatever the operations, the cache stays well formed and holds what the abstract run
      says, removals of ids that are not there leaving it alone. */
  method Replay(cache: MutationCacheContent, ops: seq<Op>)
    requires cache.Valid() && forall op :: op in ops && op.Push? ==> IsEntry(op.e)
    modifies cache, cache.table, cache.data
    ensures cache.Valid() && cache.Abs() == Run(old(cache.Abs()), ops)
  {
    ghost var s := cache.Abs();
    for i := 0 to |ops|
      invariant cache.Valid() && cache.Abs() == Run(s, ops[..i])
    {
      RunSnoc(s, ops, i);
      match ops[i] {
        case Push(e) =>
          StoredEntry(e);
          var _ := cache.Push(e.bytes);
        case Remove(id) =>
          var _ := cache.Remove(id);
        case Consolidate =>
          cache.Consolidate();
        case Clear =>
          cache.Clear();
      }
    }
    assert ops[..|ops|] == ops;
  }
}
