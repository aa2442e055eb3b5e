/**
 How a cache's entries lie in memory: a table of offsets into one byte buffer. Everything here
 is about plain values, a table and the contents of a buffer.
 */
module CacheLayout {
  import opened Wrappers
  import opened MutationCacheEntry
  import opened CacheSpec

  type Table = seq<Option<nat>>

  // ----- the taken slots of a row of optional entries, in order

  function Somes(row: seq<Option<Entry>>): (r: seq<Entry>)
    ensures |r| <= |row|
  {
    if row == [] then []
    else Somes(row[..|row| - 1]) + if row[|row| - 1].Some? then [row[|row| - 1].value] else []
  }

  lemma {:induction false} SomesAppend(a: seq<Option<Entry>>, b: seq<Option<Entry>>)
    ensures Somes(a + b) == Somes(a) + Somes(b)
  {
    if b == [] {
      assert a + b == a;
    } else {
      assert (a + b)[..|a + b| - 1] == a + b[..|b| - 1];
      SomesAppend(a, b[..|b| - 1]);
    }
  }

  lemma SomesSingle(x: Option<Entry>)
    ensures Somes([x]) == if x.Some? then [x.value] else []
  {
  }

  /** A taken slot contributes one entry, right behind the entries of the slots before it. */
  lemma SomesAt(row: seq<Option<Entry>>, k: nat)
    requires k < |row|
    ensures Somes(row) == Somes(row[..k]) + (if row[k].Some? then [row[k].value] else []) + Somes(row[k + 1..])
  {
    SliceAround(row, k);
    SomesSplit(row[..k], row[k], row[k + 1..]);
  }

  lemma SliceAround(row: seq<Option<Entry>>, k: nat)
    requires k < |row|
    ensures row == row[..k] + [row[k]] + row[k + 1..]
  {
  }

  lemma SomesSplit(a: seq<Option<Entry>>, x: Option<Entry>, b: seq<Option<Entry>>)
    ensures Somes(a + [x] + b) == Somes(a) + (if x.Some? then [x.value] else []) + Somes(b)
  {
    SomesAppend(a + [x], b);
    SomesAppend(a, [x]);
    SomesSingle(x);
  }

  lemma {:induction false} SomesOfEmpty(row: seq<Option<Entry>>)
    requires forall i :: 0 <= i < |row| ==> row[i].None?
    ensures Somes(row) == []
  {
    if row != [] { SomesOfEmpty(row[..|row| - 1]); }
  }

  lemma SomesUpdate(row: seq<Option<Entry>>, k: nat, x: Option<Entry>)
    requires k < |row|
    ensures Somes(row[k := x]) == Somes(row[..k]) + (if x.Some? then [x.value] else []) + Somes(row[k + 1..])
  {
    var row' := row[k := x];
    assert row'[..k] == row[..k] && row'[k + 1..] == row[k + 1..];
    SomesAt(row', k);
  }

  lemma {:induction false} SomesMembers(row: seq<Option<Entry>>, e: Entry)
    requires e in Somes(row)
    ensures exists i :: 0 <= i < |row| && row[i] == Some(e)
  {
    var init := row[..|row| - 1];
    if e in Somes(init) {
      SomesMembers(init, e);
      var i :| 0 <= i < |init| && init[i] == Some(e);
      assert row[i] == Some(e);
    } else {
      assert row[|row| - 1] == Some(e);
    }
  }

  // ----- placement

  /** A whole entry, aligned to eight bytes, ends no later than `used`. */
  predicate InBounds(mem: seq<byte>, used: nat, o: nat) {
    o % 8 == 0 && HasHeader(mem, o) && o + SizeAt(mem, o) <= used <= |mem|
  }

  function EntryAt(mem: seq<byte>, o: nat): (e: Entry)
    requires InBounds(mem, |mem|, o)
    ensures IsEntry(e) && |e.bytes| == SizeAt(mem, o) && e.id == IdAt(mem, o)
  {
    var b := mem[o..o + SizeAt(mem, o)];
    SliceOfSlice(mem, o, o + SizeAt(mem, o), 0, HEADER);
    FieldsOfSlice(mem, o, b);
    Entry(IdAt(mem, o), b)
  }

  /** Descriptors point at whole entries below `used`, in slot order and without overlap. */
  ghost predicate WellPlaced(tbl: Table, mem: seq<byte>, used: nat) {
    && used <= |mem| && used % 8 == 0
    && (forall i :: 0 <= i < |tbl| && tbl[i].Some? ==> InBounds(mem, used, tbl[i].value))
    && (forall i, j :: 0 <= i < j < |tbl| && tbl[i].Some? && tbl[j].Some? ==>
          tbl[i].value + SizeAt(mem, tbl[i].value) <= tbl[j].value)
  }

  /** Slots behind the next free one are empty, and the next free one is taken only when the
      table is full and the index could not advance. */
  predicate SlotsOk(tbl: Table, next: nat) {
    && |tbl| == MAX_ENTRIES && next < MAX_ENTRIES
    && (forall i :: next < i < |tbl| ==> tbl[i].None?)
    && (tbl[next].Some? ==> next == MAX_ENTRIES - 1)
  }

  function SlotsUsed(tbl: Table, next: nat): nat
    requires SlotsOk(tbl, next)
  {
    if tbl[next].Some? then MAX_ENTRIES else next
  }

  ghost function Row(tbl: Table, mem: seq<byte>, used: nat): (row: seq<Option<Entry>>)
    requires WellPlaced(tbl, mem, used)
    ensures |row| == |tbl|
    ensures forall i :: 0 <= i < |tbl| ==> row[i] == if tbl[i].Some? then Some(EntryAt(mem, tbl[i].value)) else None
  {
    seq(|tbl|, i requires 0 <= i < |tbl| => if tbl[i].Some? then Some(EntryAt(mem, tbl[i].value)) else None)
  }

  ghost function Live(tbl: Table, mem: seq<byte>, used: nat): (r: seq<Entry>)
    requires WellPlaced(tbl, mem, used)
  {
    Somes(Row(tbl, mem, used))
  }

  lemma LiveAreEntries(tbl: Table, mem: seq<byte>, used: nat)
    requires WellPlaced(tbl, mem, used)
    ensures forall e :: e in Live(tbl, mem, used) ==> IsEntry(e)
  {
    forall e | e in Live(tbl, mem, used) ensures IsEntry(e) {
      SomesMembers(Row(tbl, mem, used), e);
    }
  }

  /** Any two live entries occupy disjoint byte ranges. */
  lemma {:induction false} LiveRegionsDisjoint(tbl: Table, mem: seq<byte>, used: nat, i: nat, j: nat, p: nat, q: nat)
    requires WellPlaced(tbl, mem, used) && i < |tbl| && j < |tbl| && i != j
    requires tbl[i].Some? && tbl[j].Some?
    requires p < SizeAt(mem, tbl[i].value) && q < SizeAt(mem, tbl[j].value)
    ensures tbl[i].value + p != tbl[j].value + q
    ensures tbl[i].value + p < used && tbl[i].value % 8 == 0
    ensures i < j ==> tbl[i].value < tbl[j].value
  {
    if i < j {
      assert tbl[i].value + SizeAt(mem, tbl[i].value) <= tbl[j].value;
    } else {
      assert tbl[j].value + SizeAt(mem, tbl[j].value) <= tbl[i].value;
    }
  }

  /** An entry is read the same from any memory that holds the same bytes there. */
  lemma EntryAtFrame(mem: seq<byte>, mem': seq<byte>, o: nat)
    requires InBounds(mem, |mem|, o) && o + SizeAt(mem, o) <= |mem'|
    requires mem[o..o + SizeAt(mem, o)] == mem'[o..o + SizeAt(mem, o)]
    ensures SizeAt(mem', o) == SizeAt(mem, o) && InBounds(mem', |mem'|, o) && EntryAt(mem', o) == EntryAt(mem, o)
  {
    var b := mem[o..o + SizeAt(mem, o)];
    SliceOfSlice(mem, o, o + SizeAt(mem, o), 0, HEADER);
    SliceOfSlice(mem', o, o + SizeAt(mem, o), 0, HEADER);
    FieldsOfSlice(mem, o, b);
    FieldsOfSlice(mem', o, b);
  }

  // ----- push

  /** An entry written at `used` can be read back there, and an entry below stays as it was. */
  lemma PushFrame(mem: seq<byte>, used: nat, e: Entry, mem': seq<byte>, o: nat)
    requires IsEntry(e)
    requires used % 8 == 0 && used + |e.bytes| <= |mem| && mem' == mem[..used] + e.bytes + mem[used + |e.bytes|..]
    ensures InBounds(mem', used + |e.bytes|, used) && EntryAt(mem', used) == e
    ensures InBounds(mem, used, o) ==>
              InBounds(mem', used, o) && SizeAt(mem', o) == SizeAt(mem, o) && EntryAt(mem', o) == EntryAt(mem, o)
  {
    assert mem'[used..used + |e.bytes|] == e.bytes;
    SliceOfSlice(mem', used, used + |e.bytes|, 0, HEADER);
    FieldsOfSlice(mem', used, e.bytes);
    if InBounds(mem, used, o) {
      assert mem[o..o + SizeAt(mem, o)] == mem'[o..o + SizeAt(mem, o)];
      EntryAtFrame(mem, mem', o);
    }
  }

  /** Placement depends on the table and on the sizes found at its offsets. */
  lemma SameSizesSamePlaces(tbl: Table, mem: seq<byte>, used: nat, mem': seq<byte>)
    requires WellPlaced(tbl, mem, used) && used <= |mem'|
    requires forall i :: 0 <= i < |tbl| && tbl[i].Some? ==> InBounds(mem', used, tbl[i].value)
    requires forall i :: 0 <= i < |tbl| && tbl[i].Some? ==> SizeAt(mem', tbl[i].value) == SizeAt(mem, tbl[i].value)
    ensures WellPlaced(tbl, mem', used)
  {
  }

  lemma SameRow(tbl: Table, mem: seq<byte>, used: nat, mem': seq<byte>)
    requires WellPlaced(tbl, mem, used) && WellPlaced(tbl, mem', used)
    requires forall i :: 0 <= i < |tbl| && tbl[i].Some? ==> EntryAt(mem', tbl[i].value) == EntryAt(mem, tbl[i].value)
    ensures Row(tbl, mem', used) == Row(tbl, mem, used)
  {
  }

  /** A new descriptor behind all others, for an entry behind all others. */
  lemma ExtendPlaced(tbl: Table, mem: seq<byte>, used: nat, next: nat, size: nat)
    requires WellPlaced(tbl, mem, used) && SlotsOk(tbl, next) && tbl[next].None?
    requires InBounds(mem, used + size, used) && SizeAt(mem, used) == size
    ensures WellPlaced(tbl[next := Some(used)], mem, used + size)
  {
    var tbl' := tbl[next := Some(used)];
    SumAligned(used, size);
    forall i | 0 <= i < |tbl| && tbl'[i].Some?
      ensures i <= next && InBounds(mem, used + size, tbl'[i].value)
      ensures i < next ==> tbl'[i].value + SizeAt(mem, tbl'[i].value) <= used
    {
      if i != next { assert InBounds(mem, used, tbl[i].value); }
    }
  }

  lemma SumAligned(a: nat, b: nat)
    requires a % 8 == 0 && b % 8 == 0
    ensures (a + b) % 8 == 0
  {
  }

  lemma ExtendRow(tbl: Table, mem: seq<byte>, used: nat, next: nat, size: nat)
    requires WellPlaced(tbl, mem, used) && next < |tbl| && InBounds(mem, |mem|, used)
    requires WellPlaced(tbl[next := Some(used)], mem, used + size)
    ensures Row(tbl[next := Some(used)], mem, used + size) == Row(tbl, mem, used)[next := Some(EntryAt(mem, used))]
  {
  }

  lemma PushPlaced(tbl: Table, mem: seq<byte>, used: nat, next: nat, e: Entry, mem': seq<byte>)
    requires WellPlaced(tbl, mem, used) && SlotsOk(tbl, next) && tbl[next].None?
    requires IsEntry(e) && used + |e.bytes| <= |mem| && mem' == mem[..used] + e.bytes + mem[used + |e.bytes|..]
    ensures WellPlaced(tbl[next := Some(used)], mem', used + |e.bytes|)
    ensures Live(tbl[next := Some(used)], mem', used + |e.bytes|) == Live(tbl, mem, used) + [e]
  {
    PushFrame(mem, used, e, mem', used);
    PushKeeps(tbl, mem, used, e, mem');
    ExtendPlaced(tbl, mem', used, next, |e.bytes|);
    ExtendRow(tbl, mem', used, next, |e.bytes|);
    FillRow(Row(tbl, mem, used), next, e);
  }

  lemma PushKeeps(tbl: Table, mem: seq<byte>, used: nat, e: Entry, mem': seq<byte>)
    requires WellPlaced(tbl, mem, used)
    requires IsEntry(e) && used + |e.bytes| <= |mem| && mem' == mem[..used] + e.bytes + mem[used + |e.bytes|..]
    ensures WellPlaced(tbl, mem', used) && Row(tbl, mem', used) == Row(tbl, mem, used)
  {
    forall i | 0 <= i < |tbl| && tbl[i].Some?
      ensures InBounds(mem', used, tbl[i].value) && SizeAt(mem', tbl[i].value) == SizeAt(mem, tbl[i].value)
      ensures EntryAt(mem', tbl[i].value) == EntryAt(mem, tbl[i].value)
    {
      PushFrame(mem, used, e, mem', tbl[i].value);
    }
    SameSizesSamePlaces(tbl, mem, used, mem');
    SameRow(tbl, mem, used, mem');
  }

  lemma FillRow(row: seq<Option<Entry>>, next: nat, e: Entry)
    requires next < |row| && forall i :: next <= i < |row| ==> row[i].None?
    ensures Somes(row[next := Some(e)]) == Somes(row) + [e]
  {
    SomesAt(row, next);
    SomesUpdate(row, next, Some(e));
    SomesOfEmpty(row[next + 1..]);
  }

  // ----- remove

  /** No entry in the first `k` slots has the id. */
  ghost predicate NoneBefore(tbl: Table, mem: seq<byte>, used: nat, k: nat, id: nat)
    requires WellPlaced(tbl, mem, used) && k <= |tbl|
  {
    forall i :: 0 <= i < k && tbl[i].Some? ==> IdAt(mem, tbl[i].value) != id
  }

  lemma NoneYet(tbl: Table, mem: seq<byte>, used: nat, k: nat, id: nat)
    requires WellPlaced(tbl, mem, used) && k < |tbl| && NoneBefore(tbl, mem, used, k, id)
    requires tbl[k].Some? ==> IdAt(mem, tbl[k].value) != id
    ensures NoneBefore(tbl, mem, used, k + 1, id)
  {
  }

  lemma {:induction false} NotAmong(row: seq<Option<Entry>>, id: nat)
    requires forall i :: 0 <= i < |row| && row[i].Some? ==> row[i].value.id != id
    ensures forall j :: 0 <= j < |Somes(row)| ==> Somes(row)[j].id != id
  {
    if row != [] { NotAmong(row[..|row| - 1], id); }
  }

  lemma NotLive(tbl: Table, mem: seq<byte>, used: nat, id: nat)
    requires WellPlaced(tbl, mem, used) && NoneBefore(tbl, mem, used, |tbl|, id)
    ensures !HasId(Live(tbl, mem, used), id)
  {
    NotAmong(Row(tbl, mem, used), id);
  }

  lemma FirstMatch(a: seq<Entry>, e: Entry, b: seq<Entry>)
    requires forall j :: 0 <= j < |a| ==> a[j].id != e.id
    ensures HasId(a + [e] + b, e.id) && IndexOf(a + [e] + b, e.id) == |a|
  {
    var s := a + [e] + b;
    assert s[|a|] == e && forall j :: 0 <= j < |a| ==> s[j] == a[j];
  }

  /** Emptying the slot of the first match drops the first match; it is the last entry if its
      slot is the last, and only then if that slot is taken. */
  lemma RemoveFromRow(row: seq<Option<Entry>>, k: nat, id: nat)
    requires k < |row| && row[k].Some? && row[k].value.id == id
    requires forall i :: 0 <= i < k && row[i].Some? ==> row[i].value.id != id
    ensures var live, i := Somes(row), IndexOf(Somes(row), id);
            && i < |live| && Somes(row[k := None]) == live[..i] + live[i + 1..]
            && (k == |row| - 1 ==> i == |live| - 1)
            && (row[|row| - 1].Some? && i == |live| - 1 ==> k == |row| - 1)
  {
    var a, e, b := Somes(row[..k]), row[k].value, Somes(row[k + 1..]);
    SomesAt(row, k);
    SomesUpdate(row, k, None);
    NotAmong(row[..k], id);
    FirstMatch(a, e, b);
    DropMiddle(a, e, b);
    if row[|row| - 1].Some? && k < |row| - 1 {
      var rest := row[k + 1..];
      assert rest[|rest| - 1] == row[|row| - 1];
    }
  }

  lemma DropMiddle(a: seq<Entry>, e: Entry, b: seq<Entry>)
    ensures var s := a + [e] + b; s[..|a|] + s[|a| + 1..] == a + [] + b
  {
  }

  lemma RemovePlaced(tbl: Table, mem: seq<byte>, used: nat, k: nat)
    requires WellPlaced(tbl, mem, used) && k < |tbl|
    ensures WellPlaced(tbl[k := None], mem, used)
    ensures Row(tbl[k := None], mem, used) == Row(tbl, mem, used)[k := None]
  {
  }

  // ----- writing into an entry

  /** What is written into a stored entry: its flags and bytes behind the header. */
  predicate Writable(e: Entry, p: nat) {
    p < |e.bytes| && (p == FLAGS_OFFSET || p >= HEADER)
  }

  function Written(e: Entry, p: nat, v: byte): Entry
    requires p < |e.bytes|
  {
    e.(bytes := e.bytes[p := v])
  }

  /** Writing into the mask changes that mask byte and leaves the overflow padding alone. */
  lemma MaskWriteKeepsPadding(e: Entry, q: nat, v: byte)
    requires IsEntry(e) && q < MskLen(e)
    ensures var e' := Written(e, HEADER + q, v);
            && IsEntry(e') && MskLen(e') == MskLen(e) && Msk(e') == Msk(e)[q := v] && Padding(e') == Padding(e)
            && TargetBits(e') == TargetBits(e) && SameMetadata(e.bytes, e'.bytes)
  {
  }

  /** One write after the other, each at an offset into the mask. */
  function MaskWrites(e: Entry, ws: seq<(nat, byte)>): (r: Entry)
    requires IsEntry(e) && forall i :: 0 <= i < |ws| ==> ws[i].0 < MskLen(e)
    ensures |r.bytes| == |e.bytes|
  {
    if ws == [] then e
    else
      assert |e.bytes| == SizeAt(e.bytes, 0) > HEADER + MskLen(e);
      Written(MaskWrites(e, ws[..|ws| - 1]), HEADER + ws[|ws| - 1].0, ws[|ws| - 1].1)
  }

  /** Whatever is written into the mask: the padding stays what it was, and so does the metadata. */
  lemma {:induction false} MaskWritesKeepPadding(e: Entry, ws: seq<(nat, byte)>)
    requires IsEntry(e) && forall i :: 0 <= i < |ws| ==> ws[i].0 < MskLen(e)
    ensures var e' := MaskWrites(e, ws);
            && IsEntry(e') && MskLen(e') == MskLen(e) && Padding(e') == Padding(e)
            && e'.id == e.id && SameMetadata(e.bytes, e'.bytes)
  {
    if ws != [] {
      var init, w := ws[..|ws| - 1], ws[|ws| - 1];
      MaskWritesKeepPadding(e, init);
      var e1 := MaskWrites(e, init);
      MaskWriteKeepsPadding(e1, w.0, w.1);
      assert MaskWrites(e, ws) == Written(e1, HEADER + w.0, w.1);
    }
  }

  lemma WriteKeepsSize(mem: seq<byte>, o: nat, p: nat, v: byte)
    requires InBounds(mem, |mem|, o) && Writable(EntryAt(mem, o), p)
    ensures var mem' := mem[o + p := v];
            SizeAt(mem', o) == SizeAt(mem, o) && InBounds(mem', |mem'|, o) && EntryAt(mem', o) == Written(EntryAt(mem, o), p, v)
  {
    var mem' := mem[o + p := v];
    assert mem'[o..o + 8] == mem[o..o + 8];
    assert mem'[o + 40..o + 44] == mem[o + 40..o + 44];
    assert mem'[o + 48..o + 52] == mem[o + 48..o + 52];
  }

  /** Entries other than the one written to are outside the write. */
  lemma WriteFrame(tbl: Table, mem: seq<byte>, used: nat, k: nat, p: nat, v: byte, i: nat)
    requires WellPlaced(tbl, mem, used) && k < |tbl| && tbl[k].Some? && i < |tbl| && tbl[i].Some? && i != k
    requires p < SizeAt(mem, tbl[k].value)
    ensures var mem' := mem[tbl[k].value + p := v];
            InBounds(mem', used, tbl[i].value) && SizeAt(mem', tbl[i].value) == SizeAt(mem, tbl[i].value)
            && EntryAt(mem', tbl[i].value) == EntryAt(mem, tbl[i].value)
  {
    var o, s := tbl[k].value, tbl[i].value;
    var mem' := mem[o + p := v];
    if i < k { assert s + SizeAt(mem, s) <= o; } else { assert o + SizeAt(mem, o) <= s; }
    WriteOutside(mem, o + p, v, s, SizeAt(mem, s));
    EntryAtFrame(mem, mem', s);
  }

  lemma WriteOutside(mem: seq<byte>, q: nat, v: byte, s: nat, n: nat)
    requires q < |mem| && s + n <= |mem| && (q < s || s + n <= q)
    ensures mem[q := v][s..s + n] == mem[s..s + n]
  {
  }

  /** Sizes at all descriptors survive a write. */
  lemma WriteKeepsPlaces(tbl: Table, mem: seq<byte>, used: nat, k: nat, p: nat, v: byte, i: nat)
    requires WellPlaced(tbl, mem, used) && k < |tbl| && tbl[k].Some? && i < |tbl| && tbl[i].Some?
    requires Writable(EntryAt(mem, tbl[k].value), p)
    ensures var mem' := mem[tbl[k].value + p := v];
            InBounds(mem', used, tbl[i].value) && SizeAt(mem', tbl[i].value) == SizeAt(mem, tbl[i].value)
  {
    if i == k { WriteKeepsSize(mem, tbl[k].value, p, v); } else { WriteFrame(tbl, mem, used, k, p, v, i); }
  }

  lemma WriteWellPlaced(tbl: Table, mem: seq<byte>, used: nat, k: nat, p: nat, v: byte)
    requires WellPlaced(tbl, mem, used) && k < |tbl| && tbl[k].Some?
    requires Writable(EntryAt(mem, tbl[k].value), p)
    ensures WellPlaced(tbl, mem[tbl[k].value + p := v], used)
  {
    var mem' := mem[tbl[k].value + p := v];
    forall i | 0 <= i < |tbl| && tbl[i].Some?
      ensures InBounds(mem', used, tbl[i].value) && SizeAt(mem', tbl[i].value) == SizeAt(mem, tbl[i].value)
    {
      WriteKeepsPlaces(tbl, mem, used, k, p, v, i);
    }
    SameSizesSamePlaces(tbl, mem, used, mem');
  }

  /** A write into one entry changes that entry and no other. */
  lemma {:induction false} WritePlaced(tbl: Table, mem: seq<byte>, used: nat, k: nat, p: nat, v: byte)
    requires WellPlaced(tbl, mem, used) && k < |tbl| && tbl[k].Some?
    requires Writable(EntryAt(mem, tbl[k].value), p)
    ensures var mem', row := mem[tbl[k].value + p := v], Row(tbl, mem, used);
            && WellPlaced(tbl, mem', used)
            && Row(tbl, mem', used) == row[k := Some(Written(row[k].value, p, v))]
  {
    var mem', row := mem[tbl[k].value + p := v], Row(tbl, mem, used);
    WriteWellPlaced(tbl, mem, used, k, p, v);
    WriteKeepsSize(mem, tbl[k].value, p, v);
    forall i | 0 <= i < |tbl|
      ensures Row(tbl, mem', used)[i] == if i == k then Some(Written(row[k].value, p, v)) else row[i]
    {
      if i != k && tbl[i].Some? { WriteFrame(tbl, mem, used, k, p, v, i); }
    }
  }

  /** Replacing a taken slot's entry replaces one element of the entry sequence. */
  lemma SomesReplace(row: seq<Option<Entry>>, k: nat, e: Entry)
    requires k < |row| && row[k].Some?
    ensures var i := |Somes(row[..k])|;
            && i < |Somes(row)| && Somes(row)[i] == row[k].value
            && Somes(row[k := Some(e)]) == Somes(row)[i := e]
  {
    SomesAt(row, k);
    SomesUpdate(row, k, Some(e));
  }

  // ----- loading

  lemma LoadFrame(mem: seq<byte>, mem': seq<byte>, used: nat, o: nat)
    requires InBounds(mem, used, o) && used <= |mem'| && mem'[..used] == mem[..used]
    ensures InBounds(mem', used, o) && SizeAt(mem', o) == SizeAt(mem, o) && EntryAt(mem', o) == EntryAt(mem, o)
  {
    SliceOfSlice(mem, 0, used, o, o + SizeAt(mem, o));
    SliceOfSlice(mem', 0, used, o, o + SizeAt(mem, o));
    EntryAtFrame(mem, mem', o);
  }

  /** Only the table and the first `used` bytes matter. */
  lemma LoadPlaced(tbl: Table, mem: seq<byte>, mem': seq<byte>, used: nat)
    requires WellPlaced(tbl, mem, used) && used <= |mem'| && mem'[..used] == mem[..used]
    ensures WellPlaced(tbl, mem', used) && Live(tbl, mem', used) == Live(tbl, mem, used)
  {
    forall i | 0 <= i < |tbl| && tbl[i].Some?
      ensures InBounds(mem', used, tbl[i].value) && SizeAt(mem', tbl[i].value) == SizeAt(mem, tbl[i].value)
      ensures EntryAt(mem', tbl[i].value) == EntryAt(mem, tbl[i].value)
    {
      LoadFrame(mem, mem', used, tbl[i].value);
    }
    SameSizesSamePlaces(tbl, mem, used, mem');
    SameRow(tbl, mem, used, mem');
  }

  // ----- the cache state that a table, a buffer and three counters stand for

  ghost predicate InOrder(tbl: Table, mem: seq<byte>, used: nat, next: nat, pending: nat) {
    WellPlaced(tbl, mem, used) && SlotsOk(tbl, next) && WithinBudget(View(tbl, mem, used, next, pending))
  }

  ghost function View(tbl: Table, mem: seq<byte>, used: nat, next: nat, pending: nat): CacheState
    requires WellPlaced(tbl, mem, used) && SlotsOk(tbl, next)
  {
    CacheState(Live(tbl, mem, used), used, SlotsUsed(tbl, next), pending, |mem|)
  }

  /** In order, and emptied slots are accounted for. */
  ghost predicate Sound(tbl: Table, mem: seq<byte>, used: nat, next: nat, pending: nat) {
    InOrder(tbl, mem, used, next, pending) && Inv(View(tbl, mem, used, next, pending))
  }

  lemma ClearedView(tbl: Table, mem: seq<byte>, pending: nat)
    requires |tbl| == MAX_ENTRIES && pending <= PENDING_LIMIT
    requires forall i :: 0 <= i < |tbl| ==> tbl[i].None?
    ensures InOrder(tbl, mem, 0, 0, pending)
    ensures View(tbl, mem, 0, 0, pending) == Packed([], pending, |mem|)
  {
    SomesOfEmpty(Row(tbl, mem, 0));
  }

  lemma {:induction false} PushView(tbl: Table, mem: seq<byte>, used: nat, next: nat, pending: nat, e: Entry, mem': seq<byte>)
    requires Sound(tbl, mem, used, next, pending) && tbl[next].None?
    requires IsEntry(e) && used + |e.bytes| <= |mem| && mem' == mem[..used] + e.bytes + mem[used + |e.bytes|..]
    ensures var tbl', next' := tbl[next := Some(used)], if next + 1 < MAX_ENTRIES then next + 1 else next;
            && Sound(tbl', mem', used + |e.bytes|, next', pending)
            && View(tbl', mem', used + |e.bytes|, next', pending) == PushState(View(tbl, mem, used, next, pending), e)
  {
    PushPlaced(tbl, mem, used, next, e, mem');
    StepKeepsInv(View(tbl, mem, used, next, pending), Push(e));
  }

  lemma RemoveLive(tbl: Table, mem: seq<byte>, used: nat, k: nat, id: nat)
    requires WellPlaced(tbl, mem, used) && k < |tbl| && tbl[k].Some? && IdAt(mem, tbl[k].value) == id
    requires NoneBefore(tbl, mem, used, k, id)
    ensures WellPlaced(tbl[k := None], mem, used)
    ensures var live, i := Live(tbl, mem, used), IndexOf(Live(tbl, mem, used), id);
            && i < |live| && Live(tbl[k := None], mem, used) == RemoveFirst(live, id)
            && (tbl[|tbl| - 1].Some? ==> (i == |live| - 1 <==> k == |tbl| - 1))
  {
    var row := Row(tbl, mem, used);
    RemovePlaced(tbl, mem, used, k);
    assert row[k].Some? && row[k].value.id == id;
    assert row[|row| - 1].Some? <==> tbl[|tbl| - 1].Some?;
    RemoveFromRow(row, k, id);
    RemoveFirstAt(Somes(row), id);
  }

  lemma RemoveSizes(live: seq<Entry>, id: nat)
    requires HasId(live, id)
    ensures TotalSize(RemoveFirst(live, id)) <= TotalSize(live) && |RemoveFirst(live, id)| == |live| - 1
  {
    RemoveFirstAt(live, id);
    RemoveTotalSize(live, IndexOf(live, id));
  }

  /** What emptying a slot leaves, before any compaction. */
  lemma RemoveView(tbl: Table, mem: seq<byte>, used: nat, next: nat, pending: nat, k: nat, id: nat, pending': nat)
    requires Sound(tbl, mem, used, next, pending) && k < |tbl| && tbl[k].Some?
    requires IdAt(mem, tbl[k].value) == id && pending' <= PENDING_LIMIT
    requires NoneBefore(tbl, mem, used, k, id)
    ensures var tbl', s := tbl[k := None], View(tbl, mem, used, next, pending);
            && HasId(s.entries, id) && Inv(RemoveState(s, id))
            && InOrder(tbl', mem, used, next, pending')
            && View(tbl', mem, used, next, pending') == Emptied(s, id, pending')
  {
    StepKeepsInv(View(tbl, mem, used, next, pending), Remove(id));
    RemoveLive(tbl, mem, used, k, id);
    RemoveSizes(Live(tbl, mem, used), id);
    RemoveSlot(tbl, next, k);
  }

  /** What a write into an entry leaves. */
  lemma {:induction false} WriteView(tbl: Table, mem: seq<byte>, used: nat, next: nat, pending: nat, k: nat, p: nat, v: byte)
    requires Sound(tbl, mem, used, next, pending) && k < |tbl| && tbl[k].Some?
    requires Writable(EntryAt(mem, tbl[k].value), p)
    ensures var mem', s := mem[tbl[k].value + p := v], View(tbl, mem, used, next, pending);
            var i := |Somes(Row(tbl, mem, used)[..k])|;
            && Sound(tbl, mem', used, next, pending)
            && i < |s.entries| && s.entries[i] == EntryAt(mem, tbl[k].value)
            && View(tbl, mem', used, next, pending) == s.(entries := s.entries[i := Written(s.entries[i], p, v)])
  {
    var row := Row(tbl, mem, used);
    WritePlaced(tbl, mem, used, k, p, v);
    SomesReplace(row, k, Written(row[k].value, p, v));
    ReplaceTotalSize(Live(tbl, mem, used), |Somes(row[..k])|, Written(row[k].value, p, v));
  }

  /** Only the table and the bytes below `used` determine the state, and the capacity comes anew. */
  lemma {:induction false} LoadView(tbl: Table, mem: seq<byte>, used: nat, next: nat, pending: nat, mem': seq<byte>)
    requires Sound(tbl, mem, used, next, pending) && used <= |mem'| && mem'[..used] == mem[..used]
    ensures Sound(tbl, mem', used, next, pending)
    ensures View(tbl, mem', used, next, pending) == View(tbl, mem, used, next, pending).(cap := |mem'|)
  {
    LoadPlaced(tbl, mem, mem', used);
  }

  lemma RemoveSlot(tbl: Table, next: nat, k: nat)
    requires SlotsOk(tbl, next) && k < |tbl| && tbl[k].Some?
    ensures SlotsOk(tbl[k := None], next)
    ensures SlotsUsed(tbl[k := None], next)
         == if SlotsUsed(tbl, next) == MAX_ENTRIES && k == |tbl| - 1 then MAX_ENTRIES - 1 else SlotsUsed(tbl, next)
    ensures SlotsUsed(tbl, next) == MAX_ENTRIES ==> tbl[|tbl| - 1].Some?
  {
  }
}
