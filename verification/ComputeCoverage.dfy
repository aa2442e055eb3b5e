/** Coverage over time of a fuzzing run, computed from the traces of its queue entries. */
module ComputeCoverage {
  import opened Wrappers
  import opened Sorting

  datatype BasicBlock = BasicBlock(moduleName: string, offset: nat)

  datatype Trace = Trace(timestampMs: nat, bbs: seq<BasicBlock>)

  // ----- what the reports are about

  /** Some trace taken at `ts` contains the block. */
  predicate CoveredAt(traces: seq<Trace>, b: BasicBlock, ts: nat) {
    exists i :: 0 <= i < |traces| && traces[i].timestampMs == ts && b in traces[i].bbs
  }

  /** The block's first appearance. */
  ghost predicate FirstCoveredAt(traces: seq<Trace>, b: BasicBlock, ts: nat) {
    CoveredAt(traces, b, ts) && forall t: nat :: CoveredAt(traces, b, t) ==> ts <= t
  }

  predicate CoveredInSecond(traces: seq<Trace>, b: BasicBlock, sec: nat) {
    exists i :: 0 <= i < |traces| && traces[i].timestampMs / 1000 == sec && b in traces[i].bbs
  }

  ghost predicate FirstCoveredInSecond(traces: seq<Trace>, b: BasicBlock, sec: nat) {
    CoveredInSecond(traces, b, sec) && forall t: nat :: CoveredInSecond(traces, b, t) ==> sec <= t
  }

  /** A block is new in the second of its first appearance. */
  lemma {:induction false} FirstSecond(traces: seq<Trace>, b: BasicBlock, ts: nat, sec: nat)
    requires FirstCoveredAt(traces, b, ts)
    ensures FirstCoveredInSecond(traces, b, sec) <==> sec == ts / 1000
  {
    assert CoveredInSecond(traces, b, ts / 1000);
    forall t: nat | CoveredInSecond(traces, b, t) ensures ts / 1000 <= t {
      var i :| 0 <= i < |traces| && traces[i].timestampMs / 1000 == t && b in traces[i].bbs;
      assert CoveredAt(traces, b, traces[i].timestampMs);
    }
  }

  // ----- sorting and removing duplicates

  ghost predicate SortedByTime(s: seq<Trace>) {
    forall i, j :: 0 <= i < j < |s| ==> s[i].timestampMs <= s[j].timestampMs
  }

  method InsertByTime(s: seq<Trace>, t: Trace) returns (r: seq<Trace>)
    requires SortedByTime(s)
    ensures SortedByTime(r) && multiset(r) == multiset(s) + multiset{t}
  {
    var i := |s|;
    while i > 0 && s[i - 1].timestampMs > t.timestampMs
      invariant 0 <= i <= |s|
      invariant forall j :: i <= j < |s| ==> t.timestampMs < s[j].timestampMs
    {
      i := i - 1;
    }
    assert forall j :: 0 <= j < i ==> s[j].timestampMs <= s[i - 1].timestampMs;
    r := s[..i] + [t] + s[i..];
    InsertSorted(s, i, t);
    InsertKeeps(s, i, t);
  }

  lemma InsertKeeps(s: seq<Trace>, i: nat, t: Trace)
    requires i <= |s|
    ensures multiset(s[..i] + [t] + s[i..]) == multiset(s) + multiset{t}
  {
    assert s == s[..i] + s[i..];
  }

  lemma InsertSorted(s: seq<Trace>, i: nat, t: Trace)
    requires SortedByTime(s) && i <= |s|
    requires forall j :: 0 <= j < i ==> s[j].timestampMs <= t.timestampMs
    requires forall j :: i <= j < |s| ==> t.timestampMs < s[j].timestampMs
    ensures SortedByTime(s[..i] + [t] + s[i..])
  {
  }

  method SortByTime(s: seq<Trace>) returns (r: seq<Trace>)
    ensures SortedByTime(r) && multiset(r) == multiset(s)
  {
    r := [];
    for i := 0 to |s|
      invariant SortedByTime(r) && multiset(r) == multiset(s[..i])
    {
      assert s[..i + 1] == s[..i] + [s[i]];
      r := InsertByTime(r, s[i]);
    }
    assert s[..|s|] == s;
  }

  function Reverse(s: seq<Trace>): (r: seq<Trace>)
    ensures |r| == |s| && forall i :: 0 <= i < |s| ==> r[i] == s[|s| - 1 - i]
  {
    seq(|s|, i requires 0 <= i < |s| => s[|s| - 1 - i])
  }

  function Without(s: seq<Trace>, bbs: seq<BasicBlock>): seq<Trace> { Filter(s, (t: Trace) => t.bbs != bbs) }

  /** The first trace of every distinct block list. */
  function Deduplicated(s: seq<Trace>): seq<Trace>
    decreases |s|
  {
    if s == [] then [] else [s[0]] + Deduplicated(Without(s[1..], s[0].bbs))
  }

  lemma ReverseSnoc(s: seq<Trace>, t: Trace)
    ensures Reverse(s + [t]) == [t] + Reverse(s)
  {
  }

  lemma ReverseCons(t: Trace, s: seq<Trace>)
    ensures Reverse([t] + s) == Reverse(s) + [t]
  {
  }

  lemma WithoutSnoc(s: seq<Trace>, t: Trace, bbs: seq<BasicBlock>)
    ensures Without(s + [t], bbs) == Without(s, bbs) + if t.bbs != bbs then [t] else []
  {
    FilterAppend(s, [t], (t: Trace) => t.bbs != bbs);
    assert [t][1..] == [];
  }

  lemma {:induction false} ReverseWithout(s: seq<Trace>, bbs: seq<BasicBlock>)
    ensures Reverse(Without(s, bbs)) == Without(Reverse(s), bbs)
  {
    if s == [] {
      assert Reverse(s) == [];
    } else {
      var t, rest := s[0], s[1..];
      assert s == [t] + rest;
      ReverseWithout(rest, bbs);
      ReverseCons(t, rest);
      WithoutSnoc(Reverse(rest), t, bbs);
      ReverseCons(t, Without(rest, bbs));
      assert Without(s, bbs) == if t.bbs != bbs then [t] + Without(rest, bbs) else Without(rest, bbs) by {
        assert [] + Without(rest, bbs) == Without(rest, bbs);
      }
    }
  }

  lemma TakeOldest(init: seq<Trace>, trace: Trace)
    ensures Deduplicated(Reverse(init + [trace])) == [trace] + Deduplicated(Reverse(Without(init, trace.bbs)))
  {
    ReverseSnoc(init, trace);
    ReverseWithout(init, trace.bbs);
    assert ([trace] + Reverse(init))[1..] == Reverse(init);
  }

  /** Reverse, then pop the earliest trace and drop its duplicates until nothing is left. */
  method DropDuplicates(sorted: seq<Trace>) returns (filtered: seq<Trace>)
    ensures filtered == Deduplicated(sorted)
  {
    var rest := Reverse(sorted);
    filtered := [];
    ghost var left := sorted;
    assert Reverse(rest) == sorted;
    while rest != []
      invariant left == Reverse(rest) && filtered + Deduplicated(left) == Deduplicated(sorted)
      decreases |rest|
    {
      var trace, init := rest[|rest| - 1], rest[..|rest| - 1];
      assert rest == init + [trace];
      TakeOldest(init, trace);
      rest := Without(init, trace.bbs);
      left := Reverse(rest);
      Associative(filtered, [trace], Deduplicated(left));
      filtered := filtered + [trace];
    }
  }

  // ----- what survives

  ghost predicate DistinctLists(s: seq<Trace>) {
    forall i, j :: 0 <= i < j < |s| ==> s[i].bbs != s[j].bbs
  }

  /** Every trace of `s` has a copy in `d` with the same blocks that is no later. */
  ghost predicate HasEarliestCopies(s: seq<Trace>, d: seq<Trace>) {
    forall t {:trigger HasCopy(t, d)} :: t in s ==> HasCopy(t, d)
  }

  ghost predicate HasCopy(t: Trace, d: seq<Trace>) {
    exists u :: u in d && u.bbs == t.bbs && u.timestampMs <= t.timestampMs
  }

  lemma {:induction false} FilterSorted(s: seq<Trace>, bbs: seq<BasicBlock>)
    requires SortedByTime(s)
    ensures SortedByTime(Without(s, bbs))
  {
    if s != [] {
      FilterSorted(s[1..], bbs);
      var r := Without(s[1..], bbs);
      forall j | 0 <= j < |r| ensures s[0].timestampMs <= r[j].timestampMs {
        assert r[j] in r && r[j] in s[1..];
      }
    }
  }

  lemma {:induction false} DeduplicatedIsSubset(s: seq<Trace>)
    ensures forall t :: t in Deduplicated(s) ==> t in s
    decreases |s|
  {
    if s != [] { DeduplicatedIsSubset(Without(s[1..], s[0].bbs)); }
  }

  /** Ascending in time, one trace per distinct block list. */
  lemma {:induction false} DeduplicatedShape(s: seq<Trace>)
    requires SortedByTime(s)
    ensures SortedByTime(Deduplicated(s)) && DistinctLists(Deduplicated(s))
    decreases |s|
  {
    if s != [] {
      var rest := Without(s[1..], s[0].bbs);
      FilterSorted(s[1..], s[0].bbs);
      DeduplicatedShape(rest);
      DeduplicatedIsSubset(rest);
      var d := Deduplicated(rest);
      forall j | 0 <= j < |d| ensures s[0].timestampMs <= d[j].timestampMs && s[0].bbs != d[j].bbs {
        assert d[j] in d && d[j] in rest && d[j] in s[1..];
      }
    }
  }

  /** Nothing is lost: the copy that is kept is an earliest one. */
  lemma {:induction false} DeduplicatedKeepsEarliest(s: seq<Trace>)
    requires SortedByTime(s)
    ensures HasEarliestCopies(s, Deduplicated(s))
    decreases |s|
  {
    if s != [] {
      var rest := Without(s[1..], s[0].bbs);
      FilterSorted(s[1..], s[0].bbs);
      DeduplicatedKeepsEarliest(rest);
      var d := Deduplicated(s);
      forall t | t in s ensures HasCopy(t, d) {
        if t.bbs == s[0].bbs {
          var i :| 0 <= i < |s| && s[i] == t;
          assert s[0] in d && s[0].timestampMs <= s[i].timestampMs;
        } else {
          assert t in s[1..] && t in rest && HasCopy(t, Deduplicated(rest));
          var u :| u in Deduplicated(rest) && u.bbs == t.bbs && u.timestampMs <= t.timestampMs;
          assert u in d;
        }
      }
    }
  }

  lemma CopyIsCovered(s: seq<Trace>, d: seq<Trace>, b: BasicBlock, t: nat)
    requires (forall u :: u in d ==> u in s) && CoveredAt(d, b, t)
    ensures CoveredAt(s, b, t)
  {
    var i :| 0 <= i < |d| && d[i].timestampMs == t && b in d[i].bbs;
    assert d[i] in s;
  }

  lemma CoveredNoLater(s: seq<Trace>, d: seq<Trace>, b: BasicBlock, t: nat) returns (t': nat)
    requires HasEarliestCopies(s, d) && CoveredAt(s, b, t)
    ensures t' <= t && CoveredAt(d, b, t')
  {
    var i :| 0 <= i < |s| && s[i].timestampMs == t && b in s[i].bbs;
    assert s[i] in s && HasCopy(s[i], d);
    var u :| u in d && u.bbs == s[i].bbs && u.timestampMs <= s[i].timestampMs;
    t' := u.timestampMs;
  }

  /** First appearances are the same before and after removing duplicates. */
  lemma {:induction false} FirstAppearanceKept(s: seq<Trace>, d: seq<Trace>, b: BasicBlock, ts: nat)
    requires HasEarliestCopies(s, d) && forall t :: t in d ==> t in s
    ensures FirstCoveredAt(s, b, ts) <==> FirstCoveredAt(d, b, ts)
  {
    if FirstCoveredAt(s, b, ts) {
      forall t: nat | CoveredAt(d, b, t) ensures ts <= t { CopyIsCovered(s, d, b, t); }
      var t' := CoveredNoLater(s, d, b, ts);
      assert ts <= t';
    }
    if FirstCoveredAt(d, b, ts) {
      CopyIsCovered(s, d, b, ts);
      forall t: nat | CoveredAt(s, b, t) ensures ts <= t {
        var t' := CoveredNoLater(s, d, b, t);
      }
    }
  }

  lemma SameTraces(a: seq<Trace>, b: seq<Trace>)
    requires multiset(a) == multiset(b)
    ensures forall t :: t in a <==> t in b
  {
    forall t ensures t in a <==> t in b {
      assert t in a <==> t in multiset(a);
      assert t in b <==> t in multiset(b);
    }
  }

  /** Duplicates are gone, the earliest copies stay in ascending order, and no block's first
      appearance has moved. */
  ghost predicate IsDeduplication(d: seq<Trace>, traces: seq<Trace>) {
    && SortedByTime(d) && DistinctLists(d) && HasEarliestCopies(traces, d)
    && (forall t :: t in d ==> t in traces)
    && (forall b, ts: nat :: FirstCoveredAt(traces, b, ts) <==> FirstCoveredAt(d, b, ts))
  }

  /** However the sort arranges traces of the same time. */
  lemma {:induction false} DeduplicationIsSound(traces: seq<Trace>, sorted: seq<Trace>)
    requires SortedByTime(sorted) && multiset(sorted) == multiset(traces)
    ensures IsDeduplication(Deduplicated(sorted), traces)
  {
    var d := Deduplicated(sorted);
    SameTraces(sorted, traces);
    DeduplicatedShape(sorted);
    DeduplicatedIsSubset(sorted);
    DeduplicatedKeepsEarliest(sorted);
    forall b, ts: nat ensures FirstCoveredAt(traces, b, ts) <==> FirstCoveredAt(d, b, ts) {
      FirstAppearanceKept(traces, d, b, ts);
    }
  }

  method Deduplicate(traces: seq<Trace>) returns (filtered: seq<Trace>)
    ensures IsDeduplication(filtered, traces)
  {
    var sorted := SortByTime(traces);
    filtered := DropDuplicates(sorted);
    DeduplicationIsSound(traces, sorted);
  }

  // ----- covered_bbs

  /** `m` maps exactly the blocks of `traces` to their first appearance. */
  ghost predicate FirstAppearances(m: map<BasicBlock, nat>, traces: seq<Trace>) {
    && (forall b, ts: nat :: CoveredAt(traces, b, ts) ==> b in m)
    && (forall b :: b in m ==> FirstCoveredAt(traces, b, m[b]))
  }

  method CoveredBbs(traces: seq<Trace>) returns (m: map<BasicBlock, nat>)
    ensures FirstAppearances(m, traces)
  {
    m := map[];
    for i := 0 to |traces|
      invariant FirstAppearances(m, traces[..i])
    {
      m := AddTrace(m, traces[..i], traces[i]);
      assert traces[..i + 1] == traces[..i] + [traces[i]];
    }
    assert traces[..|traces|] == traces;
  }

  /** Take the minimum with the trace's time for each of its blocks. */
  function Lowered(m: map<BasicBlock, nat>, bbs: seq<BasicBlock>, ts: nat): (r: map<BasicBlock, nat>)
    ensures forall b :: b in r <==> b in m || b in bbs
    ensures forall b :: b in r ==> r[b] == if b !in bbs then m[b] else if b in m && m[b] <= ts then m[b] else ts
  {
    map b | b in m.Keys + (set x | x in bbs) :: if b !in bbs then m[b] else if b in m && m[b] <= ts then m[b] else ts
  }

  lemma LoweredSnoc(m: map<BasicBlock, nat>, bbs: seq<BasicBlock>, b: BasicBlock, ts: nat)
    ensures var r := Lowered(m, bbs, ts);
            Lowered(m, bbs + [b], ts) == if b !in r || r[b] > ts then r[b := ts] else r
  {
  }

  method AddTrace(m: map<BasicBlock, nat>, ghost before: seq<Trace>, trace: Trace) returns (r: map<BasicBlock, nat>)
    requires FirstAppearances(m, before)
    ensures FirstAppearances(r, before + [trace])
  {
    r := m;
    for i := 0 to |trace.bbs|
      invariant r == Lowered(m, trace.bbs[..i], trace.timestampMs)
    {
      var b := trace.bbs[i];
      LoweredSnoc(m, trace.bbs[..i], b, trace.timestampMs);
      assert trace.bbs[..i + 1] == trace.bbs[..i] + [b];
      if b !in r {
        r := r[b := trace.timestampMs];
      }
      if r[b] > trace.timestampMs {
        r := r[b := trace.timestampMs];
      }
    }
    assert trace.bbs[..|trace.bbs|] == trace.bbs;
    LoweredAppearances(m, before, trace);
  }

  lemma CoveredSnoc(before: seq<Trace>, trace: Trace, b: BasicBlock, ts: nat)
    ensures CoveredAt(before + [trace], b, ts) <==> CoveredAt(before, b, ts) || (trace.timestampMs == ts && b in trace.bbs)
  {
    var all := before + [trace];
    if CoveredAt(before, b, ts) {
      var i :| 0 <= i < |before| && before[i].timestampMs == ts && b in before[i].bbs;
      assert all[i] == before[i];
    }
    if trace.timestampMs == ts && b in trace.bbs {
      assert all[|before|] == trace;
    }
  }

  lemma LoweredAppearances(m: map<BasicBlock, nat>, before: seq<Trace>, trace: Trace)
    requires FirstAppearances(m, before)
    ensures FirstAppearances(Lowered(m, trace.bbs, trace.timestampMs), before + [trace])
  {
    var r, all := Lowered(m, trace.bbs, trace.timestampMs), before + [trace];
    forall b, ts: nat ensures CoveredAt(all, b, ts) <==> CoveredAt(before, b, ts) || (trace.timestampMs == ts && b in trace.bbs) {
      CoveredSnoc(before, trace, b, ts);
    }
    forall b | b in r ensures FirstCoveredAt(all, b, r[b]) {
    }
  }

  // ----- blocks per second

  function Blocks(bbs: seq<BasicBlock>): set<BasicBlock> { set b | b in bbs }

  /** Some trace was taken in that second. */
  predicate HasSecond(traces: seq<Trace>, sec: nat) {
    exists i :: 0 <= i < |traces| && traces[i].timestampMs / 1000 == sec
  }

  /** `m` maps the seconds of `traces` to the blocks covered in them. */
  ghost predicate PerSecond(m: map<nat, set<BasicBlock>>, traces: seq<Trace>) {
    && (forall sec :: sec in m <==> HasSecond(traces, sec))
    && (forall sec, b :: sec in m ==> (b in m[sec] <==> CoveredInSecond(traces, b, sec)))
  }

  lemma SecondSnoc(before: seq<Trace>, trace: Trace, s: nat, b: BasicBlock)
    ensures var sec, all := trace.timestampMs / 1000, before + [trace];
            && (CoveredInSecond(all, b, s) <==> CoveredInSecond(before, b, s) || (s == sec && b in trace.bbs))
            && (HasSecond(all, s) <==> HasSecond(before, s) || s == sec)
  {
    var sec, all := trace.timestampMs / 1000, before + [trace];
    assert all[|before|] == trace;
    if CoveredInSecond(before, b, s) {
      var i :| 0 <= i < |before| && before[i].timestampMs / 1000 == s && b in before[i].bbs;
      assert all[i] == before[i];
    }
    if HasSecond(before, s) {
      var i :| 0 <= i < |before| && before[i].timestampMs / 1000 == s;
      assert all[i] == before[i];
    }
  }

  lemma PerSecondSnoc(m: map<nat, set<BasicBlock>>, before: seq<Trace>, trace: Trace)
    requires PerSecond(m, before)
    ensures var sec := trace.timestampMs / 1000;
            PerSecond(m[sec := Blocks(trace.bbs) + if sec in m then m[sec] else {}], before + [trace])
  {
    var sec := trace.timestampMs / 1000;
    var m' := m[sec := Blocks(trace.bbs) + if sec in m then m[sec] else {}];
    forall s: nat, b ensures s in m' <==> HasSecond(before + [trace], s)
                     ensures s in m' ==> (b in m'[s] <==> CoveredInSecond(before + [trace], b, s)) {
      SecondSnoc(before, trace, s, b);
      if s !in m && CoveredInSecond(before, b, s) { assert HasSecond(before, s); }
    }
    forall s: nat ensures s in m' <==> HasSecond(before + [trace], s) {
      SecondSnoc(before, trace, s, BasicBlock("", 0));
    }
  }

  method TsToBbsCovered(traces: seq<Trace>) returns (m: map<nat, set<BasicBlock>>)
    ensures PerSecond(m, traces)
  {
    m := map[];
    for i := 0 to |traces|
      invariant PerSecond(m, traces[..i])
    {
      PerSecondSnoc(m, traces[..i], traces[i]);
      assert traces[..i + 1] == traces[..i] + [traces[i]];
      var ts := traces[i].timestampMs / 1000;
      var bbs := Blocks(traces[i].bbs);
      if ts in m {
        m := m[ts := bbs + m[ts]];
      } else {
        m := m[ts := bbs + {}];
      }
    }
    assert traces[..|traces|] == traces;
  }

  // ----- new blocks per second

  /** `m` maps the seconds of `traces` to the blocks first covered in them. */
  ghost predicate NewPerSecond(m: map<nat, set<BasicBlock>>, traces: seq<Trace>) {
    && (forall sec :: sec in m <==> HasSecond(traces, sec))
    && (forall sec, b :: sec in m ==> (b in m[sec] <==> FirstCoveredInSecond(traces, b, sec)))
  }

  /** Blocks covered in one of the first `n` seconds. */
  ghost predicate SeenBefore(m: map<nat, set<BasicBlock>>, secs: seq<nat>, n: nat, b: BasicBlock)
    requires n <= |secs|
  {
    exists j :: 0 <= j < n && secs[j] in m && b in m[secs[j]]
  }

  method TsToNewCoveredBbs(traces: seq<Trace>) returns (ret: map<nat, set<BasicBlock>>, secs: seq<nat>)
    ensures NewPerSecond(ret, traces)
    ensures Ascending(secs) && forall sec :: sec in secs <==> sec in ret
  {
    var tsToBbs := TsToBbsCovered(traces);
    secs := SortedIds(tsToBbs.Keys);
    ret := map[];
    var seen: set<BasicBlock> := {};
    for i := 0 to |secs|
      invariant forall sec :: sec in ret <==> sec in secs[..i]
      invariant forall b :: b in seen <==> SeenBefore(tsToBbs, secs, i, b)
      invariant forall j, b :: 0 <= j < i ==>
                  (b in ret[secs[j]] <==> b in tsToBbs[secs[j]] && !SeenBefore(tsToBbs, secs, j, b))
    {
      assert secs[i] in secs && secs[..i + 1] == secs[..i] + [secs[i]];
      var newBbs := tsToBbs[secs[i]] - seen;
      ret := ret[secs[i] := newBbs];
      SeenOneMore(tsToBbs, secs, i, newBbs, seen);
      seen := seen + newBbs;
    }
    assert secs[..|secs|] == secs;
    NewIsFirst(tsToBbs, ret, secs, traces);
  }

  lemma SeenOneMore(m: map<nat, set<BasicBlock>>, secs: seq<nat>, i: nat, newBbs: set<BasicBlock>, seen: set<BasicBlock>)
    requires i < |secs| && secs[i] in m && newBbs == m[secs[i]] - seen
    requires forall b :: b in seen <==> SeenBefore(m, secs, i, b)
    ensures forall b :: b in seen + newBbs <==> SeenBefore(m, secs, i + 1, b)
  {
  }

  /** Not seen in any earlier second means first covered in this one. */
  lemma {:induction false} NewIsFirst(m: map<nat, set<BasicBlock>>, ret: map<nat, set<BasicBlock>>, secs: seq<nat>, traces: seq<Trace>)
    requires PerSecond(m, traces) && Ascending(secs) && (forall sec :: sec in secs <==> sec in m)
    requires forall sec :: sec in ret <==> sec in secs
    requires forall j, b :: 0 <= j < |secs| ==> (b in ret[secs[j]] <==> b in m[secs[j]] && !SeenBefore(m, secs, j, b))
    ensures NewPerSecond(ret, traces)
  {
    forall sec, b | sec in ret ensures b in ret[sec] <==> FirstCoveredInSecond(traces, b, sec) {
      var j :| 0 <= j < |secs| && secs[j] == sec;
      NewAt(m, secs, traces, j, b);
    }
  }

  lemma NewAt(m: map<nat, set<BasicBlock>>, secs: seq<nat>, traces: seq<Trace>, j: nat, b: BasicBlock)
    requires PerSecond(m, traces) && Ascending(secs) && (forall sec :: sec in secs <==> sec in m) && j < |secs|
    ensures secs[j] in m
    ensures b in m[secs[j]] && !SeenBefore(m, secs, j, b) <==> FirstCoveredInSecond(traces, b, secs[j])
  {
  }

  // ----- the report

  function SumOfCounts(rows: seq<(nat, nat)>): nat {
    if rows == [] then 0 else SumOfCounts(rows[..|rows| - 1]) + rows[|rows| - 1].1
  }

  ghost function NewIn(covered: map<BasicBlock, nat>, sec: nat): set<BasicBlock> {
    set b | b in covered && covered[b] / 1000 == sec
  }

  /** Rows in ascending order, each with the number of blocks first covered in its second. */
  ghost predicate IsReport(rows: seq<(nat, nat)>, covered: map<BasicBlock, nat>) {
    && (forall i, j :: 0 <= i < j < |rows| ==> rows[i].0 < rows[j].0)
    && (forall i :: 0 <= i < |rows| ==> rows[i].1 > 0 && rows[i].1 == |NewIn(covered, rows[i].0)|)
  }

  /** Both reports: one row per second with new blocks, and the blocks with their first appearance. The
      counts add up to the number of covered blocks. */
  method CoverageOverTime(traces: seq<Trace>) returns (rows: seq<(nat, nat)>, covered: map<BasicBlock, nat>)
    ensures FirstAppearances(covered, traces)
    ensures IsReport(rows, covered) && SumOfCounts(rows) == |covered|
  {
    covered := CoveredBbs(traces);
    var m, secs := TsToNewCoveredBbs(traces);
    forall i | 0 <= i < |secs| ensures secs[i] in m && m[secs[i]] == NewIn(covered, secs[i]) {
      assert secs[i] in secs;
      NewSet(m, traces, covered, secs[i]);
    }
    rows := WriteRows(m, secs, covered);
    AllSecondsListed(m, traces, covered, secs);
    assert CountedIn(covered, secs) == covered.Keys;
  }

  /** Blocks first covered in one of the seconds. */
  ghost function CountedIn(covered: map<BasicBlock, nat>, secs: seq<nat>): set<BasicBlock> {
    set b | b in covered && covered[b] / 1000 in secs
  }

  lemma CountedSnoc(covered: map<BasicBlock, nat>, secs: seq<nat>, sec: nat)
    requires sec !in secs
    ensures |CountedIn(covered, secs + [sec])| == |CountedIn(covered, secs)| + |NewIn(covered, sec)|
  {
    assert CountedIn(covered, secs + [sec]) == CountedIn(covered, secs) + NewIn(covered, sec);
    assert CountedIn(covered, secs) !! NewIn(covered, sec);
  }

  lemma SumSnoc(rows: seq<(nat, nat)>, row: (nat, nat))
    ensures SumOfCounts(rows + [row]) == SumOfCounts(rows) + row.1
  {
    assert (rows + [row])[..|rows + [row]| - 1] == rows;
  }

  lemma AddRow(rows: seq<(nat, nat)>, covered: map<BasicBlock, nat>, sec: nat)
    requires IsReport(rows, covered) && NewIn(covered, sec) != {}
    requires forall k :: 0 <= k < |rows| ==> rows[k].0 < sec
    ensures IsReport(rows + [(sec, |NewIn(covered, sec)|)], covered)
  {
  }

  method WriteRows(m: map<nat, set<BasicBlock>>, secs: seq<nat>, ghost covered: map<BasicBlock, nat>) returns (rows: seq<(nat, nat)>)
    requires Ascending(secs) && forall i :: 0 <= i < |secs| ==> secs[i] in m && m[secs[i]] == NewIn(covered, secs[i])
    ensures IsReport(rows, covered) && SumOfCounts(rows) == |CountedIn(covered, secs)|
  {
    rows := [];
    for i := 0 to |secs|
      invariant IsReport(rows, covered) && SumOfCounts(rows) == |CountedIn(covered, secs[..i])|
      invariant forall k :: 0 <= k < |rows| && i < |secs| ==> rows[k].0 < secs[i]
    {
      var sec := secs[i];
      assert secs[..i + 1] == secs[..i] + [sec];
      CountedSnoc(covered, secs[..i], sec);
      if m[sec] != {} {
        AddRow(rows, covered, sec);
        SumSnoc(rows, (sec, |m[sec]|));
        rows := rows + [(sec, |m[sec]|)];
      }
    }
    assert secs[..|secs|] == secs;
  }

  lemma NewSet(m: map<nat, set<BasicBlock>>, traces: seq<Trace>, covered: map<BasicBlock, nat>, sec: nat)
    requires NewPerSecond(m, traces) && FirstAppearances(covered, traces) && sec in m
    ensures m[sec] == NewIn(covered, sec)
  {
    forall b ensures b in m[sec] <==> b in NewIn(covered, sec) {
      if b in covered {
        FirstSecond(traces, b, covered[b], sec);
      } else {
        NeverCovered(traces, covered, b, sec);
      }
    }
  }

  lemma NeverCovered(traces: seq<Trace>, covered: map<BasicBlock, nat>, b: BasicBlock, sec: nat)
    requires FirstAppearances(covered, traces) && b !in covered
    ensures !CoveredInSecond(traces, b, sec)
  {
    forall i | 0 <= i < |traces| ensures b !in traces[i].bbs {
      assert b in traces[i].bbs ==> CoveredAt(traces, b, traces[i].timestampMs);
    }
  }

  lemma AllSecondsListed(m: map<nat, set<BasicBlock>>, traces: seq<Trace>, covered: map<BasicBlock, nat>, secs: seq<nat>)
    requires NewPerSecond(m, traces) && FirstAppearances(covered, traces) && forall sec :: sec in secs <==> sec in m
    ensures forall b :: b in covered ==> covered[b] / 1000 in secs
  {
  }

  /** From the raw traces of a run to its report: whatever duplicates were dropped on the way, blocks are
      counted in the second of their first appearance in the raw traces. */
  method Analyze(traces: seq<Trace>) returns (rows: seq<(nat, nat)>, covered: map<BasicBlock, nat>)
    ensures FirstAppearances(covered, traces)
    ensures IsReport(rows, covered) && SumOfCounts(rows) == |covered|
  {
    var filtered := Deduplicate(traces);
    rows, covered := CoverageOverTime(filtered);
    SameAppearances(covered, traces, filtered);
  }

  lemma SameAppearances(covered: map<BasicBlock, nat>, s: seq<Trace>, d: seq<Trace>)
    requires FirstAppearances(covered, d) && IsDeduplication(d, s)
    ensures FirstAppearances(covered, s)
  {
    forall b, ts: nat | CoveredAt(s, b, ts) ensures b in covered {
      var t' := CoveredNoLater(s, d, b, ts);
    }
  }
}
