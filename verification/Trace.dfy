/** The scheduler's record of which mutation sites a run executed, how often and in what order. */
module TraceModel {
  import opened Wrappers
  import opened Sorting
  import opened Tracing

  datatype Trace = Trace(execCnt: map<nat, nat>, execOrder: map<nat, nat>)

  predicate Usable(m: TracePointStat) {
    m.cnt <= TRACE_EXEC_CNT_LIMIT && m.executionIndex.Some?
  }

  function AddStat(t: Trace, m: TracePointStat): Trace {
    if Usable(m) then Trace(t.execCnt[m.id := m.cnt], t.execOrder[m.id := m.executionIndex.value]) else t
  }

  function TraceOf(msgs: seq<TracePointStat>): Trace {
    if msgs == [] then Trace(map[], map[]) else AddStat(TraceOf(msgs[..|msgs| - 1]), msgs[|msgs| - 1])
  }

  method FromTracePointStats(msgs: seq<TracePointStat>) returns (t: Trace)
    ensures t == TraceOf(msgs)
  {
    var execCnt: map<nat, nat>, execOrder: map<nat, nat> := map[], map[];
    for i := 0 to |msgs|
      invariant Trace(execCnt, execOrder) == TraceOf(msgs[..i])
    {
      assert msgs[..i + 1][..i] == msgs[..i];
      var e := msgs[i];
      if e.cnt > TRACE_EXEC_CNT_LIMIT {
        continue;
      }
      if e.executionIndex.None? {
        continue;
      }
      execCnt := execCnt[e.id := e.cnt];
      execOrder := execOrder[e.id := e.executionIndex.value];
    }
    t := Trace(execCnt, execOrder);
    assert msgs[..|msgs|] == msgs;
  }

  /** Message `k` is the last usable one for its id. */
  ghost predicate LastUsable(msgs: seq<TracePointStat>, k: nat) {
    k < |msgs| && Usable(msgs[k]) && forall j :: k < j < |msgs| && Usable(msgs[j]) ==> msgs[j].id != msgs[k].id
  }

  /** For any messages: an id is covered exactly if it has a usable message. */
  lemma {:induction false} CoveredIffUsable(msgs: seq<TracePointStat>, id: nat)
    ensures id in TraceOf(msgs).execCnt <==> exists k :: 0 <= k < |msgs| && Usable(msgs[k]) && msgs[k].id == id
    ensures TraceOf(msgs).execOrder.Keys == TraceOf(msgs).execCnt.Keys
  {
    if msgs != [] {
      var init := msgs[..|msgs| - 1];
      CoveredIffUsable(init, id);
      assert forall k :: 0 <= k < |init| ==> init[k] == msgs[k];
    }
  }

  /** Its last usable message counts. */
  lemma {:induction false} LastMessageCounts(msgs: seq<TracePointStat>, k: nat)
    requires LastUsable(msgs, k)
    ensures var t, id := TraceOf(msgs), msgs[k].id;
            && id in t.execCnt && t.execCnt[id] == msgs[k].cnt
            && id in t.execOrder && t.execOrder[id] == msgs[k].executionIndex.value
  {
    if k < |msgs| - 1 {
      var init := msgs[..|msgs| - 1];
      assert forall j :: k <= j < |init| ==> init[j] == msgs[j];
      LastMessageCounts(init, k);
    }
  }

  function Covered(t: Trace): set<nat> { t.execCnt.Keys }

  /** Sort key of a covered site; a site without an order comes first. */
  function OrderKey(t: Trace): nat -> nat {
    (id: nat) => if id in t.execOrder then t.execOrder[id] else 0
  }

  method CoveredExecOrdered(t: Trace) returns (r: seq<nat>)
    ensures SortedByKey(r, OrderKey(t))
    ensures forall id :: id in r <==> id in Covered(t)
  {
    r := SortByKey(Covered(t), OrderKey(t));
  }

  // ----- what a run of the agent turns into

  /** Hit often enough to count and rarely enough not to be skipped. */
  predicate Kept(run: seq<nat>, id: nat) {
    id in run && Count(run, id) <= TRACE_EXEC_CNT_LIMIT
  }

  /** The trace lists exactly the kept ones among `ids`, with their counts and positions. */
  ghost predicate Lists(t: Trace, ids: seq<nat>, kept: nat -> bool, cnt: nat -> nat, pos: nat -> nat) {
    && (forall id :: id in t.execCnt <==> id in ids && kept(id))
    && (forall id :: id in t.execOrder <==> id in t.execCnt)
    && (forall id :: id in t.execCnt ==> t.execCnt[id] == cnt(id) && t.execOrder[id] == pos(id))
  }

  lemma AddLists(t: Trace, ids: seq<nat>, id: nat, kept: nat -> bool, cnt: nat -> nat, pos: nat -> nat)
    requires Lists(t, ids, kept, cnt, pos) && id !in ids
    ensures Lists(if kept(id) then Trace(t.execCnt[id := cnt(id)], t.execOrder[id := pos(id)]) else t,
                  ids + [id], kept, cnt, pos)
  {
  }

  ghost predicate Matches(t: Trace, ids: seq<nat>, run: seq<nat>) {
    Lists(t, ids, (x: nat) => Kept(run, x), (x: nat) => Count(run, x), (x: nat) => Position(run, x))
  }

  lemma EmptyMatches(run: seq<nat>)
    ensures Matches(TraceOf(Stats([])), [], run)
  {
  }

  lemma AddMatches(t: Trace, ids: seq<nat>, id: nat, run: seq<nat>)
    requires Matches(t, ids, run) && id !in ids
    ensures Matches(if id in run then AddStat(t, TracePointStat(id, Count(run, id), FirstHit(run, id))) else t,
                    ids + [id], run)
  {
    AddLists(t, ids, id, (x: nat) => Kept(run, x), (x: nat) => Count(run, x), (x: nat) => Position(run, x));
  }

  lemma StatsSnoc(ids: seq<nat>, run: seq<nat>, n: nat)
    requires 0 < n <= |ids|
    ensures var id := ids[n - 1];
            Stats(Recorded(ids, run)[..n])
            == Stats(Recorded(ids, run)[..n - 1])
               + if id in run then [TracePointStat(id, Count(run, id), FirstHit(run, id))] else []
  {
    assert Recorded(ids, run)[..n][..n - 1] == Recorded(ids, run)[..n - 1];
  }

  lemma TraceOfSnoc(msgs: seq<TracePointStat>, m: TracePointStat)
    ensures TraceOf(msgs + [m]) == AddStat(TraceOf(msgs), m)
  {
  }

  lemma TraceOfEntry(ids: seq<nat>, run: seq<nat>, n: nat)
    requires 0 < n <= |ids|
    ensures var t, id := TraceOf(Stats(Recorded(ids, run)[..n - 1])), ids[n - 1];
            TraceOf(Stats(Recorded(ids, run)[..n]))
            == if id in run then AddStat(t, TracePointStat(id, Count(run, id), FirstHit(run, id))) else t
  {
    var id, msgs := ids[n - 1], Stats(Recorded(ids, run)[..n - 1]);
    StatsSnoc(ids, run, n);
    TraceOfSnoc(msgs, TracePointStat(id, Count(run, id), FirstHit(run, id)));
    assert msgs + [] == msgs;
  }

  lemma {:induction false} TraceOfEntries(ids: seq<nat>, run: seq<nat>, n: nat)
    requires Ascending(ids) && n <= |ids|
    ensures Matches(TraceOf(Stats(Recorded(ids, run)[..n])), ids[..n], run)
    decreases n
  {
    if n == 0 {
      assert Recorded(ids, run)[..0] == [] && ids[..0] == [];
      EmptyMatches(run);
    } else {
      TraceOfEntries(ids, run, n - 1);
      TraceOfEntry(ids, run, n);
      assert ids[n - 1] !in ids[..n - 1];
      AddMatches(TraceOf(Stats(Recorded(ids, run)[..n - 1])), ids[..n - 1], ids[n - 1], run);
      assert ids[..n] == ids[..n - 1] + [ids[n - 1]];
    }
  }

  /** The trace of a run: exactly the sites hit one to 16384 times, each with its hit count and
      the position of its first hit. */
  lemma TraceOfRun(ids: seq<nat>, run: seq<nat>)
    requires Ascending(ids) && forall id :: id in run ==> id in ids
    ensures var t := TraceOf(Stats(Recorded(ids, run)));
            && (forall id :: id in Covered(t) <==> Kept(run, id))
            && t.execOrder.Keys == t.execCnt.Keys
            && (forall id :: id in t.execCnt ==> t.execCnt[id] == Count(run, id) >= 1)
            && (forall id :: id in t.execCnt ==> t.execOrder[id] == Position(run, id))
  {
    TraceOfEntries(ids, run, |ids|);
    assert Recorded(ids, run)[..|ids|] == Recorded(ids, run) && ids[..|ids|] == ids;
  }

  /** Distinct ids in the order in which they were first hit. */
  function FirstHits(run: seq<nat>): (r: seq<nat>)
    ensures forall id :: id in r <==> id in run
  {
    if run == [] then []
    else
      var init := run[..|run| - 1];
      assert run == init + [run[|run| - 1]];
      FirstHits(init) + if run[|run| - 1] in init then [] else [run[|run| - 1]]
  }

  ghost predicate InFirstHitOrder(run: seq<nat>, r: seq<nat>) {
    forall i, j :: 0 <= i < j < |r| ==> Position(run, r[i]) < Position(run, r[j])
  }

  lemma PositionPrefix(init: seq<nat>, last: nat, id: nat)
    ensures id in init ==> Position(init + [last], id) == Position(init, id) <= |init|
    ensures last !in init ==> Position(init + [last], last) == |init| + 1
  {
  }

  lemma {:induction false} FirstHitsOrdered(run: seq<nat>)
    ensures InFirstHitOrder(run, FirstHits(run))
    decreases |run|
  {
    if run != [] {
      var init, last := run[..|run| - 1], run[|run| - 1];
      FirstHitsOrdered(init);
      assert run == init + [last];
      var r := FirstHits(init);
      forall i | 0 <= i < |r| ensures r[i] in init && Position(run, r[i]) == Position(init, r[i]) <= |init| {
        assert r[i] in r;
        PositionPrefix(init, last, r[i]);
      }
      PositionPrefix(init, last, last);
    }
  }

  function KeptOf(run: seq<nat>, r: seq<nat>): (k: seq<nat>)
    ensures forall id :: id in k <==> id in r && Kept(run, id)
  {
    if r == [] then [] else
      assert r == [r[0]] + r[1..];
      (if Kept(run, r[0]) then [r[0]] else []) + KeptOf(run, r[1..])
  }

  lemma {:induction false} KeptOrdered(run: seq<nat>, r: seq<nat>)
    requires InFirstHitOrder(run, r)
    ensures InFirstHitOrder(run, KeptOf(run, r))
  {
    if r != [] {
      KeptOrdered(run, r[1..]);
      var k := KeptOf(run, r[1..]);
      forall j | 0 <= j < |k| ensures Position(run, r[0]) < Position(run, k[j]) {
        assert k[j] in k && k[j] in r[1..];
        var i :| 0 <= i < |r[1..]| && r[1..][i] == k[j];
        assert r[i + 1] == k[j];
      }
    }
  }

  /** Whatever order the hash set yields, sorting by execution order gives the kept ids in order of
      first hit. */
  lemma ExecOrderIsFirstHitOrder(ids: seq<nat>, run: seq<nat>, r: seq<nat>)
    requires Ascending(ids) && forall id :: id in run ==> id in ids
    requires var t := TraceOf(Stats(Recorded(ids, run)));
             SortedByKey(r, OrderKey(t)) && forall id :: id in r <==> id in Covered(t)
    ensures r == KeptOf(run, FirstHits(run))
  {
    var t := TraceOf(Stats(Recorded(ids, run)));
    TraceOfRun(ids, run);
    FirstHitsOrdered(run);
    KeptOrdered(run, FirstHits(run));
    ListedUniquely(t, run, r, KeptOf(run, FirstHits(run)));
  }

  lemma ListedUniquely(t: Trace, run: seq<nat>, r: seq<nat>, k: seq<nat>)
    requires forall id :: id in Covered(t) <==> Kept(run, id)
    requires forall id :: id in Covered(t) ==> id in t.execOrder && t.execOrder[id] == Position(run, id)
    requires SortedByKey(r, OrderKey(t)) && forall id :: id in r <==> id in Covered(t)
    requires InFirstHitOrder(run, k) && forall id :: id in k <==> id in Covered(t)
    ensures r == k
  {
    var key := OrderKey(t);
    forall i, j | 0 <= i < j < |r| ensures key(r[i]) < key(r[j]) {
      assert r[i] in r && r[j] in r;
      OrdersDistinct(run, r[i], r[j]);
    }
    forall i, j | 0 <= i < j < |k| ensures key(k[i]) < key(k[j]) {
      assert k[i] in k && k[j] in k;
    }
    SortIsUnique(r, k, key);
  }

  /** Agent and scheduler together: the sites the run reported, in order of first execution, whatever was
      executed before. */
  method TraceRun(map_: TraceMap, run: seq<nat>) returns (t: Trace, ordered: seq<nat>)
    requires map_.Holds([]) && map_.totalHits == 0
    requires map_.allocatedSlots == {} || map_.data == null
    modifies map_, map_.data
    ensures map_.Holds([]) && map_.totalHits == 0 && map_.allocatedSlots == {}
    ensures forall x :: x in map_.Slots() <==> x in old(map_.Slots()) || x in old(map_.allocatedSlots)
    ensures var hits := Reported(map_.Slots(), run);
            && (forall id :: id in t.execCnt <==> Kept(hits, id))
            && (forall id :: id in t.execCnt ==> t.execCnt[id] == Count(hits, id))
            && ordered == KeptOf(hits, FirstHits(hits))
  {
    var msgs := Run(map_, run);
    t := FromTracePointStats(msgs);
    ghost var hits := Reported(map_.Slots(), run);
    ReportedIds(map_.Slots(), run);
    TraceOfRun(map_.Slots(), hits);
    ordered := CoveredExecOrdered(t);
    ExecOrderIsFirstHitOrder(map_.Slots(), hits, ordered);
  }
}
