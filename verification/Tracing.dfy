/**
 Tracing of the source: slots registered by the agent, counters that a forked child bumps in
 shared memory, the statistics the agent sends afterwards, and the scheduler's view of them.
 */
module Tracing {
  import opened Wrappers
  import opened Sorting

  const TRACE_EXEC_CNT_LIMIT: nat := 16384

  datatype TraceEntry = TraceEntry(value: nat, hits: nat, order: Option<nat>)

  datatype TracePointStat = TracePointStat(id: nat, cnt: nat, executionIndex: Option<nat>)

  // ----- what a run of hits should leave behind

  function Count(run: seq<nat>, id: nat): nat { multiset(run)[id] }

  /** One plus the index of the first occurrence. */
  function FirstHit(run: seq<nat>, id: nat): (r: Option<nat>)
    ensures r.Some? <==> id in run
    ensures r.Some? ==> 1 <= r.value <= |run| && run[r.value - 1] == id && id !in run[..r.value - 1]
  {
    if run == [] then None
    else
      var init := run[..|run| - 1];
      if id in init then
        var r := FirstHit(init, id);
        assert run[..r.value - 1] == init[..r.value - 1];
        r
      else if run[|run| - 1] == id then Some(|run|)
      else None
  }

  /** The same as a number, zero for an id that was not hit. */
  function Position(run: seq<nat>, id: nat): nat {
    if id in run then FirstHit(run, id).value else 0
  }

  function Recorded(ids: seq<nat>, run: seq<nat>): (r: seq<TraceEntry>)
    ensures |r| == |ids|
    ensures forall i :: 0 <= i < |ids| ==> r[i] == TraceEntry(ids[i], Count(run, ids[i]), FirstHit(run, ids[i]))
  {
    seq(|ids|, i requires 0 <= i < |ids| => TraceEntry(ids[i], Count(run, ids[i]), FirstHit(run, ids[i])))
  }

  /** Reporting one more hit touches the counter and, the first time, the order of one entry. */
  lemma {:induction false} RecordedSnoc(ids: seq<nat>, run: seq<nat>, k: nat)
    requires Ascending(ids) && k < |ids|
    ensures var e := Recorded(ids, run)[k];
            Recorded(ids, run + [ids[k]])
            == Recorded(ids, run)[k := TraceEntry(e.value, e.hits + 1, if e.order.None? then Some(|run| + 1) else e.order)]
  {
    var run' := run + [ids[k]];
    assert run'[..|run'| - 1] == run;
  }

  lemma {:induction false} SumIsLength(ids: seq<nat>, run: seq<nat>)
    requires Ascending(ids) && forall id :: id in run ==> id in ids
    ensures HitSum(Recorded(ids, run)) == |run|
    decreases |run|
  {
    if run == [] {
      ZeroSum(Recorded(ids, []));
    } else {
      var init, id := run[..|run| - 1], run[|run| - 1];
      assert run == init + [id];
      SumIsLength(ids, init);
      assert id in run;
      var k :| 0 <= k < |ids| && ids[k] == id;
      RecordedSnoc(ids, init, k);
      SumUpdate(Recorded(ids, init), k, Recorded(ids, run)[k]);
    }
  }

  function HitSum(es: seq<TraceEntry>): nat {
    if es == [] then 0 else es[0].hits + HitSum(es[1..])
  }

  lemma {:induction false} ZeroSum(es: seq<TraceEntry>)
    requires forall i :: 0 <= i < |es| ==> es[i].hits == 0
    ensures HitSum(es) == 0
  {
    if es != [] { ZeroSum(es[1..]); }
  }

  lemma {:induction false} SumUpdate(es: seq<TraceEntry>, k: nat, e: TraceEntry)
    requires k < |es|
    ensures HitSum(es[k := e]) == HitSum(es) - es[k].hits + e.hits
  {
    if k == 0 {
      assert es[0 := e][1..] == es[1..];
    } else {
      assert es[k := e][1..] == es[1..][k - 1 := e];
      SumUpdate(es[1..], k - 1, e);
    }
  }

  /** No two ids are ever given the same order. */
  lemma {:induction false} OrdersDistinct(run: seq<nat>, a: nat, b: nat)
    requires a in run && b in run && a != b
    ensures FirstHit(run, a) != FirstHit(run, b)
  {
  }

  // ----- the trace map

  function Values(es: seq<TraceEntry>): (ids: seq<nat>)
    ensures |ids| == |es| && forall i :: 0 <= i < |es| ==> ids[i] == es[i].value
  {
    seq(|es|, i requires 0 <= i < |es| => es[i].value)
  }

  class TraceMap {
    /** Memory shared with the traced process once the map is finalized. */
    var data: array?<TraceEntry>
    var allocatedSlots: set<nat>
    var totalHits: nat

    ghost function Contents(): seq<TraceEntry>
      reads this, data
    {
      if data == null then [] else data[..]
    }

    ghost function Slots(): seq<nat>
      reads this, data
    {
      Values(Contents())
    }

    ghost predicate Valid()
      reads this, data
    {
      Ascending(Slots())
    }

    /** The counters hold exactly the hits of `run`. */
    ghost predicate Holds(run: seq<nat>)
      reads this, data
    {
      Valid() && Contents() == Recorded(Slots(), run) && (data == null ==> run == [])
    }

    constructor ()
      ensures Valid() && data == null && allocatedSlots == {} && totalHits == 0
    {
      data := null;
      allocatedSlots := {};
      totalHits := 0;
    }

    /** The copy a forked child works on: own hit total, shared counters. */
    constructor Fork(parent: TraceMap)
      ensures data == parent.data && allocatedSlots == parent.allocatedSlots && totalHits == parent.totalHits
    {
      data := parent.data;
      allocatedSlots := parent.allocatedSlots;
      totalHits := parent.totalHits;
    }

    method AllocSlot(id: nat)
      requires Valid()
      modifies this`allocatedSlots
      ensures allocatedSlots == old(allocatedSlots) + {id} && Valid()
    {
      allocatedSlots := allocatedSlots + {id};
    }

    /** `false` is the panic on finalizing again without a reset in between; by then the new slots
        have already taken the place of the old ones. */
    method Finalize() returns (ok: bool)
      requires Valid()
      modifies this`data, this`allocatedSlots
      ensures Valid() && (ok <==> old(allocatedSlots) == {} || old(data) == null)
      ensures old(allocatedSlots) == {} ==> data == old(data) && allocatedSlots == {}
      ensures old(allocatedSlots) != {} ==>
                allocatedSlots == {} && data != null && fresh(data) && Holds([])
                && (forall x :: x in Slots() <==> x in old(allocatedSlots))
    {
      if allocatedSlots == {} {
        return true;
      }
      var ids := SortedIds(allocatedSlots);
      var mem := new TraceEntry[|ids|](i requires 0 <= i < |ids| => TraceEntry(ids[i], 0, None));
      allocatedSlots := {};
      ok := data == null;
      data := mem;
      assert Slots() == ids;
      assert Contents() == Recorded(ids, []);
    }

    /** Index of the slot for `id`, by binary search; `None` if it was never registered. */
    method Search(id: nat) returns (r: Option<nat>)
      requires Valid() && data != null
      ensures r.Some? <==> id in Slots()
      ensures r.Some? ==> r.value < data.Length && Slots()[r.value] == id
    {
      var lo, hi := 0, data.Length;
      while lo < hi
        invariant 0 <= lo <= hi <= data.Length
        invariant forall i :: 0 <= i < lo ==> Slots()[i] < id
        invariant forall i :: hi <= i < data.Length ==> id < Slots()[i]
      {
        var mid := lo + (hi - lo) / 2;
        assert data[mid].value == Slots()[mid];
        if data[mid].value == id {
          return Some(mid);
        } else if data[mid].value < id {
          lo := mid + 1;
        } else {
          hi := mid;
        }
      }
      r := None;
    }

    /** Only a child reports. `false` is the panic on an unfinalized map or unregistered id. */
    method ReportHit(id: nat, isChild: bool, ghost run: seq<nat>) returns (ok: bool)
      requires Holds(run) && (isChild ==> totalHits == |run|)
      modifies this`totalHits, data
      ensures ok <==> !isChild || id in Slots()
      ensures data == old(data) && Slots() == old(Slots())
      ensures isChild && ok ==> Holds(run + [id]) && totalHits == |run| + 1
      ensures !(isChild && ok) ==> Holds(run) && totalHits == old(totalHits)
    {
      if !isChild {
        return true;
      }
      if data == null {
        return false;
      }
      var idx := Search(id);
      if idx.None? {
        return false;
      }
      CountHit(idx.value, run);
      ok := true;
    }

    method CountHit(k: nat, ghost run: seq<nat>)
      requires Holds(run) && totalHits == |run| && data != null && k < data.Length
      modifies this`totalHits, data
      ensures data == old(data) && Slots() == old(Slots())
      ensures Holds(run + [Slots()[k]]) && totalHits == |run| + 1
    {
      ghost var es := Contents();
      RecordedSnoc(Slots(), run, k);
      totalHits := totalHits + 1;
      Bump(k, totalHits);
      assert Slots() == Values(es);
    }

    /** Give the slot its order if it has none yet, and count the hit. */
    method Bump(k: nat, order: nat)
      requires data != null && k < data.Length
      modifies data
      ensures var e := old(data[k]);
              data[..] == old(data[..])[k := TraceEntry(e.value, e.hits + 1, if e.order.None? then Some(order) else e.order)]
    {
      var entry := data[k];
      if entry.order.None? {
        data[k] := entry.(order := Some(order));
      }
      data[k] := data[k].(hits := data[k].hits + 1);
    }

    method Reset()
      modifies this
      ensures Valid() && data == null && allocatedSlots == {} && totalHits == 0
    {
      totalHits := 0;
      data := null;
      allocatedSlots := {};
    }

    method ResetHits()
      requires Valid()
      modifies data
      ensures Slots() == old(Slots()) && Holds([])
    {
      if data != null {
        ghost var ids := Slots();
        forall i | 0 <= i < data.Length {
          data[i] := data[i].(hits := 0, order := None);
        }
        assert Slots() == ids;
        assert data[..] == Recorded(ids, []);
      }
    }
  }

  // ----- one execution as the agent performs it

  function StatOf(e: TraceEntry): TracePointStat { TracePointStat(e.value, e.hits, e.order) }

  /** One message for every entry that was hit, in slot order. */
  function Stats(es: seq<TraceEntry>): (r: seq<TracePointStat>) {
    if es == [] then []
    else Stats(es[..|es| - 1]) + if es[|es| - 1].hits > 0 then [StatOf(es[|es| - 1])] else []
  }

  /** How many hits a child reports before it dies of an unregistered id. */
  function ReportedLen(ids: seq<nat>, run: seq<nat>): (n: nat)
    ensures n <= |run|
  {
    if run == [] || run[0] !in ids then 0 else ReportedLen(ids, run[1..]) + 1
  }

  lemma {:induction false} ReportedNext(ids: seq<nat>, run: seq<nat>, n: nat)
    requires n <= ReportedLen(ids, run) && n < |run|
    ensures n < ReportedLen(ids, run) <==> run[n] in ids
  {
    if n > 0 { ReportedNext(ids, run[1..], n - 1); }
  }

  /** The part of `run` that reaches the counters. */
  function Reported(ids: seq<nat>, run: seq<nat>): seq<nat> { run[..ReportedLen(ids, run)] }

  /** It has registered ids only, and ends before the first other one. */
  lemma {:induction false} ReportedIds(ids: seq<nat>, run: seq<nat>)
    ensures forall id :: id in Reported(ids, run) ==> id in ids
    ensures Reported(ids, run) == run <==> forall id :: id in run ==> id in ids
    ensures Reported(ids, run) < run ==> run[|Reported(ids, run)|] !in ids
  {
    var n := ReportedLen(ids, run);
    forall i | 0 <= i < n ensures run[i] in ids { ReportedNext(ids, run, i); }
    if n < |run| {
      ReportedNext(ids, run, n);
      assert run[n] in run;
    }
  }

  /** Finalize, let a forked child report the hits of `run`, send the statistics, reset the counters.
      The agent's own hit total stays zero, so every run starts from the same state. */
  method Run(map_: TraceMap, run: seq<nat>) returns (msgs: seq<TracePointStat>)
    requires map_.Holds([]) && map_.totalHits == 0
    requires map_.allocatedSlots == {} || map_.data == null
    modifies map_, map_.data
    ensures map_.Holds([]) && map_.totalHits == 0 && map_.allocatedSlots == {}
    ensures forall x :: x in map_.Slots() <==> x in old(map_.Slots()) || x in old(map_.allocatedSlots)
    ensures msgs == Stats(Recorded(map_.Slots(), Reported(map_.Slots(), run)))
  {
    var _ := map_.Finalize();
    var child := new TraceMap.Fork(map_);
    var _ := RunChild(child, run);
    assert map_.Contents() == child.Contents();
    msgs := Postprocess(map_, Reported(map_.Slots(), run));
  }

  /** The child reports its hits until it is through, or dies of a report that panics. */
  method RunChild(child: TraceMap, run: seq<nat>) returns (survived: bool)
    requires child.Holds([]) && child.totalHits == 0
    modifies child`totalHits, child.data
    ensures child.data == old(child.data) && child.Slots() == old(child.Slots())
    ensures child.Holds(Reported(child.Slots(), run))
    ensures survived <==> Reported(child.Slots(), run) == run
  {
    ghost var ids := child.Slots();
    for i := 0 to |run|
      invariant child.Holds(run[..i]) && child.totalHits == i
      invariant child.data == old(child.data) && child.Slots() == ids
      invariant i <= ReportedLen(ids, run)
    {
      ReportedNext(ids, run, i);
      survived := ReportNext(child, run, i);
      if !survived {
        return;
      }
    }
    survived := true;
  }

  method ReportNext(child: TraceMap, run: seq<nat>, i: nat) returns (ok: bool)
    requires i < |run| && child.Holds(run[..i]) && child.totalHits == i
    modifies child`totalHits, child.data
    ensures child.data == old(child.data) && child.Slots() == old(child.Slots())
    ensures ok <==> run[i] in child.Slots()
    ensures child.Holds(run[..if ok then i + 1 else i]) && child.totalHits == if ok then i + 1 else i
  {
    assert run[..i + 1] == run[..i] + [run[i]];
    ok := child.ReportHit(run[i], true, run[..i]);
  }

  method Postprocess(map_: TraceMap, ghost run: seq<nat>) returns (msgs: seq<TracePointStat>)
    requires map_.Holds(run)
    modifies map_.data
    ensures map_.Slots() == old(map_.Slots()) && map_.Holds([])
    ensures msgs == Stats(Recorded(map_.Slots(), run))
  {
    msgs := [];
    if map_.data != null {
      ghost var es := map_.data[..];
      for i := 0 to map_.data.Length
        invariant msgs == Stats(es[..i])
      {
        assert es[..i + 1][..i] == es[..i];
        if map_.data[i].hits > 0 {
          msgs := msgs + [StatOf(map_.data[i])];
        }
      }
      assert es[..|es|] == es;
    }
    map_.ResetHits();
  }
}
