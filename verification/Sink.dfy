/**
 The pipe protocol between a sink and its AFL forkserver. The sink's code is cut at its pipe
 operations into steps; forkserver and child take their own steps in between, in any order.
 */
module Sink {
  import opened Wrappers

  // ----- what travels through the pipes

  /** What a word is about. The sink only ever sees the number that comes with it. */
  datatype Tag = Pid(child: nat) | Status(child: nat)

  datatype Word = Word(tag: Tag, value: int)

  /** A listen (1), bind (2) or other message of a child on the ready pipe. */
  datatype Event = Event(child: nat, msg: int)

  datatype ReadyKind = Listen(n: nat) | Bind(n: nat)

  datatype RunResult = Terminated(code: int) | Signalled(signal: int) | TimedOut | Ready

  // ----- wait statuses

  const SIGTERM: int := 15
  const SIGUSR2: int := 12

  /** Exited or killed by a signal; the only other kind of status panics. */
  predicate IsExitStatus(v: int) { v >= 0 && v % 128 != 127 }

  function ExitResult(v: int): RunResult
    requires IsExitStatus(v)
  {
    if v % 128 == 0 then Terminated(v / 256 % 256)
    else
      var signal := if v % 128 <= 31 then v % 128 else SIGUSR2;
      if signal == SIGTERM then Terminated(0) else Signalled(signal)
  }

  /** How the kernel encodes an exit, and a death by a signal with or without a core dump. */
  predicate ExitedWith(status: int, code: int) { 0 <= code < 256 && status == 256 * code }

  predicate KilledBy(status: int, signal: int) { 1 <= signal < 127 && (status == signal || status == signal + 128) }

  /** An exit is reported with its code, a signal by its number; termination on request counts as an
      exit, and signals without a name are reported as number twelve. */
  ghost predicate Reports(r: RunResult, status: int) {
    && (forall code :: ExitedWith(status, code) ==> r == Terminated(code))
    && (forall signal :: KilledBy(status, signal) ==>
          r == if signal == 15 then Terminated(0) else if signal <= 31 then Signalled(signal) else Signalled(12))
  }

  lemma ExitMeaning(status: int)
    requires IsExitStatus(status)
    ensures Reports(ExitResult(status), status)
  {
  }

  /** The two encodings exclude each other, so a result is determined by the status; a stop is neither. */
  lemma StatusIsUnambiguous(code: int, signal: int, status: int)
    ensures ExitedWith(status, code) ==> IsExitStatus(status) && !KilledBy(status, signal)
    ensures KilledBy(status, signal) ==> IsExitStatus(status)
    ensures IsExitStatus(256 * signal + 127) ==> signal < 0
  {
  }

  // ----- state

  /** Where the sink is: outside any call, or at a pipe operation of one. */
  datatype Pc =
    | Outside
    | SpawnFlush | SpawnAwaitPid
    | ServerWait | ServerKilled
    | TermWait(sigtermFirst: bool) | TermKilled

  /** The forkserver serves one request at a time: fork, report the pid, report the status. */
  datatype Server = Idle | Serving(pidSent: bool, exit: Option<int>)

  datatype State = State(
    // the sink
    pc: Pc,
    childPid: Option<int>,
    listenCtr: nat,
    bindCtr: nat,
    result: Option<RunResult>,  // of the last call, if it has returned one
    failed: bool,               // some call returned an error
    // forkserver and pipes
    server: Server,
    requests: nat,              // fork requests not yet taken
    pipe: seq<Word>,
    events: seq<Event>,
    // history
    sent: nat,                  // fork requests written by the sink
    forked: nat,                // children forked so far; they are numbered from one
    read: nat,                  // words the sink took out of the pipe
    collected: seq<nat>,        // children whose status the sink consumed as such
    emitted: seq<int>,          // messages of the latest child
    seen: seq<int>,             // messages the sink consumed since the last spawn
    pids: seq<int>,             // pids the forkserver reported, by child
    exits: seq<int>,            // statuses the children exited with, by child
    granted: nat,               // waits the current call grants its child
    timeouts: nat,              // those of them that timed out
    foreign: bool)              // a spawn took a word that is not its own child's pid

  /** The sink just started its forkserver. */
  predicate IsInit(s: State) {
    && s.pc == Outside && s.childPid.None? && s.listenCtr == s.bindCtr == 0 && !s.failed
    && s.server == Idle && s.requests == 0 && s.pipe == [] && s.events == []
    && s.sent == s.forked == s.read == 0 && s.collected == [] && s.seen == [] && !s.foreign
    && s.pids == [] && s.exits == []
  }

  // ----- steps

  datatype Action =
    // calls and their steps
    | CallSpawn | FlushOne | RequestFork | ReadPid | PidTimeout
    | CallWaitServer | PollServer | ServerTimeout | ServerAck | ServerAckTimeout
    | CallWaitTerm(sigtermFirst: bool) | PollTerm | TermTimeout | TermAck | TermAckTimeout
    // forkserver and child
    | TakeRequest | WritePid(pid: int) | WriteStatus
    | EmitEvent(msg: int) | ChildExit(status: int)

  predicate Enabled(s: State, a: Action) {
    match a
    case CallSpawn => s.pc == Outside
    case FlushOne => s.pc == SpawnFlush && s.events != []
    case RequestFork => s.pc == SpawnFlush && s.events == []
    case ReadPid => s.pc == SpawnAwaitPid && s.pipe != []
    case PidTimeout => s.pc == SpawnAwaitPid && s.pipe == []
    case CallWaitServer => s.pc == Outside && s.childPid.Some?
    case PollServer => s.pc == ServerWait && (s.pipe != [] || s.events != [])
    case ServerTimeout => s.pc == ServerWait && s.pipe == [] && s.events == []
    case ServerAck => s.pc == ServerKilled && s.pipe != []
    case ServerAckTimeout => s.pc == ServerKilled && s.pipe == []
    case CallWaitTerm(_) => s.pc == Outside && s.childPid.Some?
    case PollTerm => s.pc.TermWait? && s.pipe != []
    case TermTimeout => s.pc.TermWait? && s.pipe == []
    case TermAck => s.pc == TermKilled && s.pipe != []
    case TermAckTimeout => s.pc == TermKilled && s.pipe == []
    case TakeRequest => s.server == Idle && s.requests > 0
    case WritePid(pid) => s.server.Serving? && !s.server.pidSent && pid > 0
    case WriteStatus => s.server.Serving? && s.server.pidSent && s.server.exit.Some?
    case EmitEvent(_) => s.server.Serving? && s.server.exit.None?
    case ChildExit(status) => s.server.Serving? && s.server.exit.None? && IsExitStatus(status)
  }

  function Return(s: State, r: RunResult): State { s.(pc := Outside, result := Some(r)) }

  function Fail(s: State): State { s.(pc := Outside, failed := true) }

  /** Take a word out of the pipe. */
  function Take(s: State): State
    requires s.pipe != []
  {
    s.(pipe := s.pipe[1..], read := s.read + 1)
  }

  /** Take the status of the current child; it is gone afterwards. */
  function TakeStatus(s: State): State
    requires s.pipe != []
  {
    Take(s).(childPid := None, collected := s.collected + [s.pipe[0].tag.child])
  }

  /** `handle_child_exit_msg`: the panic on a stop status is treated as a failure. */
  function HandleExit(s: State): State
    requires s.pipe != []
  {
    if IsExitStatus(s.pipe[0].value) then Return(TakeStatus(s), ExitResult(s.pipe[0].value)) else Fail(Take(s))
  }

  /** The word that spawn number `s.sent` is waiting for. */
  predicate IsOwnPid(s: State, w: Word) { w.tag == Pid(s.sent) }

  function Next(s: State, a: Action, kind: ReadyKind): State
    requires Enabled(s, a)
  {
    match a
    case CallSpawn => s.(pc := SpawnFlush, bindCtr := 0, listenCtr := 0, seen := [], result := None)
    case FlushOne => s.(events := s.events[1..])
    case RequestFork => s.(pc := SpawnAwaitPid, requests := s.requests + 1, sent := s.sent + 1)
    case ReadPid =>
      var w := s.pipe[0];
      var t := Take(s).(foreign := s.foreign || !IsOwnPid(s, w));
      if w.value <= 0 then Fail(t) else t.(pc := Outside, childPid := Some(w.value))
    case PidTimeout => Fail(s)
    case CallWaitServer => s.(pc := ServerWait, result := None, granted := 1, timeouts := 0)
    case PollServer =>
      if s.pipe != [] then HandleExit(s)
      else
        var msg := s.events[0].msg;
        var t := s.(events := s.events[1..], seen := s.seen + [msg],
                    listenCtr := if msg == 1 then s.listenCtr + 1 else s.listenCtr,
                    bindCtr := if msg == 2 then s.bindCtr + 1 else s.bindCtr);
        if (msg == 1 && kind == Listen(t.listenCtr - 1)) || (msg == 2 && kind == Bind(t.bindCtr - 1))
        then Return(t, Ready) else t
    case ServerTimeout => s.(pc := ServerKilled, timeouts := s.timeouts + 1)
    case ServerAck => Return(TakeStatus(s), TimedOut)
    case ServerAckTimeout => Fail(s)
    case CallWaitTerm(sigtermFirst) =>
      s.(pc := TermWait(sigtermFirst), result := None, granted := if sigtermFirst then 2 else 1, timeouts := 0)
    case PollTerm => HandleExit(s)
    case TermTimeout => s.(pc := if s.pc.sigtermFirst then TermWait(false) else TermKilled, timeouts := s.timeouts + 1)
    case TermAck => Return(TakeStatus(s), TimedOut)
    case TermAckTimeout => Fail(s.(childPid := None))
    case TakeRequest => s.(server := Serving(false, None), requests := s.requests - 1, forked := s.forked + 1, emitted := [])
    case WritePid(pid) =>
      s.(server := s.server.(pidSent := true), pipe := s.pipe + [Word(Pid(s.forked), pid)], pids := s.pids + [pid])
    case WriteStatus => s.(server := Idle, pipe := s.pipe + [Word(Status(s.forked), s.server.exit.value)])
    case EmitEvent(msg) => s.(events := s.events + [Event(s.forked, msg)], emitted := s.emitted + [msg])
    case ChildExit(status) => s.(server := s.server.(exit := Some(status)), exits := s.exits + [status])
  }

  /** The states an interleaving goes through; `None` if a step was not possible. */
  function Run(s: State, actions: seq<Action>, kind: ReadyKind): Option<State> {
    if actions == [] then Some(s)
    else
      match Run(s, actions[..|actions| - 1], kind)
      case None => None
      case Some(t) => if Enabled(t, actions[|actions| - 1]) then Some(Next(t, actions[|actions| - 1], kind)) else None
  }

  // ----- facts about every run, errors or not

  /** The forkserver's words, in order: pid and status of child one, pid and status of child two, … */
  function StreamTag(i: nat): Tag { if i % 2 == 0 then Pid(i / 2 + 1) else Status(i / 2 + 1) }

  ghost predicate InStream(s: State) {
    && s.sent == s.forked + s.requests
    && (forall i :: 0 <= i < |s.pipe| ==> s.pipe[i].tag == StreamTag(s.read + i))
    && (s.server == Idle ==> s.read + |s.pipe| == 2 * s.forked)
    && (s.server.Serving? ==> s.forked > 0)
    && (s.server.Serving? ==> s.read + |s.pipe| == 2 * s.forked - if s.server.pidSent then 1 else 2)
    && (s.server.Serving? && s.server.exit.Some? ==> IsExitStatus(s.server.exit.value))
    && (forall i :: 0 <= i < |s.pipe| ==> ProperWord(s.pipe[i]))
  }

  predicate ProperWord(w: Word) {
    match w.tag
    case Pid(_) => w.value > 0
    case Status(_) => IsExitStatus(w.value)
  }

  lemma NextInStream(s: State, a: Action, kind: ReadyKind)
    requires InStream(s) && Enabled(s, a)
    ensures InStream(Next(s, a, kind))
  {
    match a
    case RequestFork | TakeRequest | ChildExit(_) =>
    case WritePid(_) | WriteStatus => AppendInStream(s, Next(s, a, kind));
    case _ => SinkInStream(s, a, kind);
  }

  /** The sink's own steps take at most one word. */
  lemma SinkInStream(s: State, a: Action, kind: ReadyKind)
    requires InStream(s) && Enabled(s, a)
    requires !a.RequestFork? && !a.TakeRequest? && !a.ChildExit? && !a.WritePid? && !a.WriteStatus?
    ensures InStream(Next(s, a, kind))
  {
    var t := Next(s, a, kind);
    if t.read == s.read { SameStream(s, t); } else { TakeInStream(s, t); }
  }

  lemma SameStream(s: State, t: State)
    requires InStream(s)
    requires s.server == t.server && s.requests == t.requests && s.pipe == t.pipe
    requires s.sent == t.sent && s.forked == t.forked && s.read == t.read
    ensures InStream(t)
  {
  }

  lemma TakeInStream(s: State, t: State)
    requires InStream(s) && s.pipe != []
    requires s.server == t.server && s.requests == t.requests && t.pipe == s.pipe[1..]
    requires s.sent == t.sent && s.forked == t.forked && t.read == s.read + 1
    ensures InStream(t)
  {
  }

  lemma AppendInStream(s: State, t: State)
    requires InStream(s) && s.server.Serving? && |t.pipe| == |s.pipe| + 1 && t.pipe[..|s.pipe|] == s.pipe
    requires s.requests == t.requests && s.sent == t.sent && t.read == s.read && t.forked == s.forked
    requires t.server == if s.server.pidSent then Idle else s.server.(pidSent := true)
    requires t.pipe[|s.pipe|].tag == if s.server.pidSent then Status(s.forked) else Pid(s.forked)
    requires ProperWord(t.pipe[|s.pipe|])
    ensures InStream(t)
  {
    forall i | 0 <= i < |t.pipe| ensures t.pipe[i].tag == StreamTag(t.read + i) && ProperWord(t.pipe[i]) {
      if i < |s.pipe| { assert t.pipe[i] == t.pipe[..|s.pipe|][i]; }
    }
  }

  /** In every run, a spawn takes its own child's pid exactly if all words of earlier requests had
      been consumed. */
  lemma {:induction false} OwnPidIff(s: State)
    requires InStream(s) && s.pc == SpawnAwaitPid && s.pipe != [] && s.sent > 0
    ensures IsOwnPid(s, s.pipe[0]) <==> s.read == 2 * (s.sent - 1)
  {
    assert s.pipe[0].tag == StreamTag(s.read + 0);
  }

  lemma {:induction false} RunInStream(s: State, actions: seq<Action>, kind: ReadyKind)
    requires InStream(s)
    ensures Run(s, actions, kind).Some? ==> InStream(Run(s, actions, kind).value)
    decreases |actions|
  {
    if actions != [] && Run(s, actions, kind).Some? {
      var init := actions[..|actions| - 1];
      RunInStream(s, init, kind);
      NextInStream(Run(s, init, kind).value, actions[|actions| - 1], kind);
    }
  }

  // ----- runs without errors, spawning only when no child is left

  /** No error return, and no spawn while there is a child. */
  predicate Disciplined(s: State, a: Action) {
    && (a.CallSpawn? ==> s.childPid.None?)
    && !a.PidTimeout? && !a.ServerAckTimeout? && !a.TermAckTimeout?
  }

  predicate DisciplinedRun(s: State, actions: seq<Action>, kind: ReadyKind) {
    actions == [] ||
    (var init := actions[..|actions| - 1];
     && DisciplinedRun(s, init, kind)
     && Run(s, init, kind).Some?
     && Enabled(Run(s, init, kind).value, actions[|actions| - 1])
     && Disciplined(Run(s, init, kind).value, actions[|actions| - 1]))
  }

  /** How many words of its own request the sink has still to read. */
  function Outstanding(s: State): nat {
    match s.pc
    case Outside | SpawnFlush => if s.childPid.Some? then 1 else 0
    case SpawnAwaitPid => 2
    case _ => 1
  }

  ghost predicate Orderly(s: State) {
    && InStream(s) && !s.failed && !s.foreign
    && s.read + Outstanding(s) == 2 * s.sent
    && (s.pc == SpawnFlush || s.pc == SpawnAwaitPid ==> s.childPid.None?)
    && (s.pc.ServerWait? || s.pc.ServerKilled? || s.pc.TermWait? || s.pc.TermKilled? ==> s.childPid.Some?)
    // every child up to the last one read was collected, once and in order
    && |s.collected| == s.read / 2
    && (forall i :: 0 <= i < |s.collected| ==> s.collected[i] == i + 1)
  }

  /** With nothing outstanding both sides are at rest: nothing in the pipe, nobody serving. */
  lemma AtRest(s: State)
    requires Orderly(s) && Outstanding(s) == 0
    ensures s.pipe == [] && s.server == Idle && s.requests == 0 && s.forked == s.sent == |s.collected|
  {
  }

  /** With a child, the only word that can be in the pipe is that child's status. */
  lemma OnlyItsStatus(s: State)
    requires Orderly(s) && Outstanding(s) == 1
    ensures s.requests == 0 && s.forked == s.sent > 0
    ensures s.pipe == [] || (|s.pipe| == 1 && s.pipe[0].tag == Status(s.sent) && IsExitStatus(s.pipe[0].value))
  {
  }

  lemma TakeStatusOrderly(s: State, r: RunResult)
    requires Orderly(s) && s.pc != Outside && Outstanding(s) == 1 && s.pipe != []
    ensures Orderly(Return(TakeStatus(s), r))
  {
  }

  lemma NextOrderly(s: State, a: Action, kind: ReadyKind)
    requires Orderly(s) && Enabled(s, a) && Disciplined(s, a)
    ensures Orderly(Next(s, a, kind))
  {
    NextInStream(s, a, kind);
    match a
    case ReadPid => OwnPidIff(s); assert ProperWord(s.pipe[0]);
    case ServerAck => TakeStatusOrderly(s, TimedOut);
    case TermAck => TakeStatusOrderly(s, TimedOut);
    case PollTerm => OnlyItsStatus(s); TakeStatusOrderly(s, ExitResult(s.pipe[0].value));
    case PollServer => if s.pipe != [] { OnlyItsStatus(s); TakeStatusOrderly(s, ExitResult(s.pipe[0].value)); }
    case _ =>
  }

  lemma {:induction false} RunOrderly(s: State, actions: seq<Action>, kind: ReadyKind)
    requires Orderly(s) && DisciplinedRun(s, actions, kind)
    ensures Run(s, actions, kind).Some? && Orderly(Run(s, actions, kind).value)
    decreases |actions|
  {
    if actions != [] {
      var init := actions[..|actions| - 1];
      RunOrderly(s, init, kind);
      NextOrderly(Run(s, init, kind).value, actions[|actions| - 1], kind);
    }
  }

  lemma InitOrderly(s: State)
    requires IsInit(s)
    ensures Orderly(s)
  {
  }

  /** No spawn has taken a stale word for a pid, every status was consumed exactly once and in
      order, and the word stream is at rest when the sink has no child. */
  ghost predicate AllCollected(s: State) {
    && !s.foreign && !s.failed
    && (forall i :: 0 <= i < |s.collected| ==> s.collected[i] == i + 1)
    && (s.pc == Outside && s.childPid.None? ==> s.pipe == [] && s.server == Idle && |s.collected| == s.sent)
    && (s.childPid.Some? ==> |s.collected| == s.sent - 1)
  }

  lemma OrderlyIsCollected(s: State)
    requires Orderly(s)
    ensures AllCollected(s)
  {
  }

  /** Every interleaving without errors collects every status exactly once. */
  lemma {:induction false} StatusesConsumedOnce(init: State, actions: seq<Action>, kind: ReadyKind)
    requires IsInit(init) && DisciplinedRun(init, actions, kind)
    ensures Run(init, actions, kind).Some? && AllCollected(Run(init, actions, kind).value)
  {
    InitOrderly(init);
    RunOrderly(init, actions, kind);
    OrderlyIsCollected(Run(init, actions, kind).value);
  }

  // ----- when a spawn can go wrong

  /** Some continuation of a spawn called in `s` reaches its pid read with a foreign word in front. */
  ghost predicate SpawnCanGoWrong(s: State, kind: ReadyKind)
    requires s.pc == Outside
  {
    exists actions :: GoesWrong(s, Run(Next(s, CallSpawn, kind), actions, kind))
  }

  predicate GoesWrong(s: State, r: Option<State>) {
    ReadsPid(s, r) && !IsOwnPid(r.value, r.value.pipe[0])
  }

  /** The spawn called in `s` is about to read a word. */
  predicate ReadsPid(s: State, r: Option<State>) {
    r.Some? && r.value.pc == SpawnAwaitPid && r.value.sent == s.sent + 1 && r.value.pipe != []
  }

  /** Where a spawn called in `s` may be: nothing was read since, or the call is over. */
  predicate DuringSpawn(s: State, t: State) {
    || (t.pc == SpawnFlush && t.sent == s.sent && t.read == s.read)
    || (t.pc == SpawnAwaitPid && t.sent == s.sent + 1 && t.read == s.read)
    || (t.sent > s.sent && !(t.pc == SpawnAwaitPid && t.sent == s.sent + 1))
  }

  lemma NextDuringSpawn(s: State, t: State, a: Action, kind: ReadyKind)
    requires DuringSpawn(s, t) && Enabled(t, a)
    ensures DuringSpawn(s, Next(t, a, kind))
  {
  }

  lemma {:induction false} RunDuringSpawn(s: State, actions: seq<Action>, kind: ReadyKind)
    requires s.pc == Outside
    ensures var r := Run(Next(s, CallSpawn, kind), actions, kind);
            r.Some? ==> DuringSpawn(s, r.value)
    decreases |actions|
  {
    var s1 := Next(s, CallSpawn, kind);
    if actions != [] && Run(s1, actions, kind).Some? {
      var init := actions[..|actions| - 1];
      RunDuringSpawn(s, init, kind);
      NextDuringSpawn(s, Run(s1, init, kind).value, actions[|actions| - 1], kind);
    }
  }

  ghost predicate Reaches(s: State, t: State, kind: ReadyKind) {
    exists actions :: Run(s, actions, kind) == Some(t)
  }

  lemma ReachesNext(s: State, t: State, a: Action, kind: ReadyKind)
    requires Reaches(s, t, kind) && Enabled(t, a)
    ensures Reaches(s, Next(t, a, kind), kind)
  {
    var actions :| Run(s, actions, kind) == Some(t);
    assert (actions + [a])[..|actions + [a]| - 1] == actions;
    assert Run(s, actions + [a], kind) == Some(Next(t, a, kind));
  }

  lemma {:induction false} FlushAll(s: State, t: State, kind: ReadyKind)
    requires Reaches(s, t, kind) && t.pc == SpawnFlush
    ensures Reaches(s, t.(events := []), kind)
    decreases |t.events|
  {
    if t.events == [] {
      assert t.(events := []) == t;
    } else {
      ReachesNext(s, t, FlushOne, kind);
      FlushAll(s, t.(events := t.events[1..]), kind);
    }
  }

  /** The forkserver can always get to its next word while a request is open. */
  lemma NextWordArrives(s: State, t: State, kind: ReadyKind) returns (u: State)
    requires Reaches(s, t, kind) && InStream(t) && t.pc == SpawnAwaitPid && t.pipe == [] && t.read < 2 * t.sent
    ensures Reaches(s, u, kind) && InStream(u) && u.pc == SpawnAwaitPid && u.pipe != []
    ensures u.read == t.read && u.sent == t.sent
  {
    u := t;
    if u.server == Idle {
      u := Step(s, u, TakeRequest, kind);
    }
    if !u.server.pidSent {
      u := Step(s, u, WritePid(1), kind);
    } else {
      if u.server.exit.None? {
        u := Step(s, u, ChildExit(256), kind);
      }
      u := Step(s, u, WriteStatus, kind);
    }
  }

  lemma Step(s: State, t: State, a: Action, kind: ReadyKind) returns (u: State)
    requires Reaches(s, t, kind) && InStream(t) && Enabled(t, a)
    ensures u == Next(t, a, kind) && Reaches(s, u, kind) && InStream(u)
  {
    u := Next(t, a, kind);
    ReachesNext(s, t, a, kind);
    NextInStream(t, a, kind);
  }

  /** In every run, errors included, and whatever the other side does meanwhile: the word a spawn reads is
      its own child's pid exactly if the words of the earlier requests had all been read. */
  lemma {:induction false} SpawnReadsOwnPid(s: State, actions: seq<Action>, kind: ReadyKind)
    requires InStream(s) && s.pc == Outside
    ensures var r := Run(Next(s, CallSpawn, kind), actions, kind);
            ReadsPid(s, r) ==> (IsOwnPid(r.value, r.value.pipe[0]) <==> s.read == 2 * s.sent)
  {
    var s1 := Next(s, CallSpawn, kind);
    NextInStream(s, CallSpawn, kind);
    RunDuringSpawn(s, actions, kind);
    RunInStream(s1, actions, kind);
    var r := Run(s1, actions, kind);
    if ReadsPid(s, r) { OwnPidIff(r.value); }
  }

  /** Every continuation of a spawn that reads a word reads its own pid, or every one reads a foreign word and
      there is one that does; which of the two is decided before the call. */
  lemma SpawnSafety(s: State, kind: ReadyKind)
    requires InStream(s) && s.pc == Outside
    ensures SpawnCanGoWrong(s, kind) <==> s.read != 2 * s.sent
    ensures forall actions :: var r := Run(Next(s, CallSpawn, kind), actions, kind);
              ReadsPid(s, r) ==> (GoesWrong(s, r) <==> s.read != 2 * s.sent)
  {
    var s1 := Next(s, CallSpawn, kind);
    forall actions ensures var r := Run(s1, actions, kind); ReadsPid(s, r) ==> (GoesWrong(s, r) <==> s.read != 2 * s.sent) {
      SpawnReadsOwnPid(s, actions, kind);
    }
    if SpawnCanGoWrong(s, kind) {
      var actions :| GoesWrong(s, Run(s1, actions, kind));
      assert ReadsPid(s, Run(s1, actions, kind));
    }
    if s.read != 2 * s.sent {
      var u := ForeignWord(s, kind);
      var actions :| Run(s1, actions, kind) == Some(u);
      assert GoesWrong(s, Run(s1, actions, kind));
    }
  }

  lemma ForeignWord(s: State, kind: ReadyKind) returns (u: State)
    requires InStream(s) && s.pc == Outside && s.read != 2 * s.sent
    ensures Reaches(Next(s, CallSpawn, kind), u, kind) && GoesWrong(s, Some(u))
  {
    var s1 := Next(s, CallSpawn, kind);
    assert Run(s1, [], kind) == Some(s1);
    FlushAll(s1, s1, kind);
    var s2 := s1.(events := []);
    SameStream(s, s2);
    u := Step(s1, s2, RequestFork, kind);
    if u.pipe == [] {
      u := NextWordArrives(s1, u, kind);
    }
    OwnPidIff(u);
  }

  /** Without errors, that is exactly a spawn while there is a child. */
  lemma SpawnOverChild(s: State, kind: ReadyKind)
    requires Orderly(s) && s.pc == Outside
    ensures SpawnCanGoWrong(s, kind) <==> s.childPid.Some?
  {
    SpawnSafety(s, kind);
  }

  /** After the error of an unacknowledged kill the sink believes to have no child, and the next spawn
      can take that child's status for a pid. */
  lemma SpawnAfterLostChild(s: State, kind: ReadyKind)
    requires Orderly(s) && Enabled(s, TermAckTimeout)
    ensures var t := Next(s, TermAckTimeout, kind);
            t.childPid.None? && SpawnCanGoWrong(t, kind)
  {
    NextInStream(s, TermAckTimeout, kind);
    SpawnSafety(Next(s, TermAckTimeout, kind), kind);
  }

  lemma DisciplinedStep(init: State, s: State, a: Action, kind: ReadyKind) returns (t: State)
    requires Reaches(init, s, kind) && Orderly(s) && Enabled(s, a) && Disciplined(s, a)
    ensures t == Next(s, a, kind) && Reaches(init, t, kind) && Orderly(t)
  {
    t := Next(s, a, kind);
    ReachesNext(init, s, a, kind);
    NextOrderly(s, a, kind);
  }

  lemma FirstFork(init: State, kind: ReadyKind) returns (s: State)
    requires IsInit(init)
    ensures Reaches(init, s, kind) && Orderly(s) && s.pc == SpawnAwaitPid && s.sent == 1 && s.read == 0
    ensures s.pipe == [] && s.server == Serving(false, None)
  {
    InitOrderly(init);
    assert Run(init, [], kind) == Some(init);
    s := DisciplinedStep(init, init, CallSpawn, kind);
    s := DisciplinedStep(init, s, RequestFork, kind);
    s := DisciplinedStep(init, s, TakeRequest, kind);
  }

  /** A freshly started sink spawns its first child. */
  lemma FirstChild(init: State, kind: ReadyKind) returns (s: State)
    requires IsInit(init)
    ensures Reaches(init, s, kind) && Orderly(s) && s.pc == Outside && s.childPid.Some?
    ensures s.pipe == [] && s.sent == 1 && s.read == 1
  {
    s := FirstFork(init, kind);
    s := DisciplinedStep(init, s, WritePid(1), kind);
    s := DisciplinedStep(init, s, ReadPid, kind);
  }

  /** The state of a lost child is reached: the first child hangs and does not acknowledge the kill. The
      spawn after that can go wrong. */
  lemma LostChildIsReachable(init: State, kind: ReadyKind) returns (t: State)
    requires IsInit(init)
    ensures Reaches(init, t, kind) && t.pc == Outside && t.childPid.None? && t.sent == 1 && t.read == 1
    ensures SpawnCanGoWrong(t, kind)
  {
    var s := FirstChild(init, kind);
    s := DisciplinedStep(init, s, CallWaitTerm(false), kind);
    s := DisciplinedStep(init, s, TermTimeout, kind);
    ReachesNext(init, s, TermAckTimeout, kind);
    SpawnAfterLostChild(s, kind);
    t := Next(s, TermAckTimeout, kind);
  }

  // ----- ready signals

  function Occurrences(msgs: seq<int>, m: int): nat { multiset(msgs)[m] }

  function Messages(events: seq<Event>): (r: seq<int>)
    ensures |r| == |events| && forall i :: 0 <= i < |events| ==> r[i] == events[i].msg
  {
    seq(|events|, i requires 0 <= i < |events| => events[i].msg)
  }

  /** What the sink saw and what waits in the pipe are together what the latest child emitted. */
  ghost predicate Current(s: State) {
    && s.emitted == s.seen + Messages(s.events)
    && forall i :: 0 <= i < |s.events| ==> s.events[i].child == s.forked
  }

  ghost predicate Counted(s: State) {
    && s.listenCtr == Occurrences(s.seen, 1) && s.bindCtr == Occurrences(s.seen, 2)
    && (s.pc == SpawnFlush || s.pc == SpawnAwaitPid ==> s.seen == [])
    && (s.pc == SpawnAwaitPid && s.requests > 0 ==> s.events == [])
    && (s.pc == SpawnAwaitPid && s.requests == 0 ==> Current(s))
    && (s.childPid.Some? ==> Current(s))
  }

  predicate IsServerAction(a: Action) {
    a.TakeRequest? || a.WritePid? || a.WriteStatus? || a.EmitEvent? || a.ChildExit?
  }

  lemma NextCounted(s: State, a: Action, kind: ReadyKind)
    requires Orderly(s) && Counted(s) && Enabled(s, a) && Disciplined(s, a)
    ensures Counted(Next(s, a, kind))
  {
    if IsServerAction(a) { ServerCounted(s, a, kind); } else { SinkCounted(s, a, kind); }
  }

  lemma ServerCounted(s: State, a: Action, kind: ReadyKind)
    requires Orderly(s) && Counted(s) && Enabled(s, a) && IsServerAction(a)
    ensures Counted(Next(s, a, kind))
  {
    if a.EmitEvent? {
      if Outstanding(s) == 0 { AtRest(s); }
      EmitCurrent(s, Next(s, a, kind), a.msg);
    } else if a.TakeRequest? {
      if Outstanding(s) == 0 { AtRest(s); } else if Outstanding(s) == 1 { OnlyItsStatus(s); }
    }
  }

  lemma SinkCounted(s: State, a: Action, kind: ReadyKind)
    requires Orderly(s) && Counted(s) && Enabled(s, a) && Disciplined(s, a) && !IsServerAction(a)
    ensures Counted(Next(s, a, kind))
  {
    var t := Next(s, a, kind);
    if a.PollServer? && s.pipe == [] {
      ConsumeCurrent(s, t);
    } else if a.CallSpawn? || a.FlushOne? || a.RequestFork? || a.ReadPid? {
      SpawnCounted(s, a, kind);
    } else {
      assert t.pc != SpawnFlush && t.pc != SpawnAwaitPid && (t.childPid == s.childPid || t.childPid.None?);
      SameEvents(s, t);
    }
  }

  lemma SpawnCounted(s: State, a: Action, kind: ReadyKind)
    requires Orderly(s) && Counted(s) && Enabled(s, a) && Disciplined(s, a)
    requires a.CallSpawn? || a.FlushOne? || a.RequestFork? || a.ReadPid?
    ensures Counted(Next(s, a, kind))
  {
    if a.ReadPid? { assert s.requests == 0; }
  }

  /** Ending a call or waiting on touches neither events nor counters. */
  lemma SameEvents(s: State, t: State)
    requires Counted(s) && (t.childPid.Some? ==> s.childPid.Some?) && t.pc != SpawnFlush && t.pc != SpawnAwaitPid
    requires t.listenCtr == s.listenCtr && t.bindCtr == s.bindCtr && t.seen == s.seen
    requires t.events == s.events && t.emitted == s.emitted && t.forked == s.forked
    ensures Counted(t)
  {
  }

  lemma EmitCurrent(s: State, t: State, msg: int)
    requires t.events == s.events + [Event(s.forked, msg)] && t.emitted == s.emitted + [msg]
    requires t.seen == s.seen && t.forked == s.forked
    ensures Current(s) ==> Current(t)
  {
  }

  lemma ConsumeCurrent(s: State, t: State)
    requires s.events != [] && Current(s)
    requires t.events == s.events[1..] && t.seen == s.seen + [s.events[0].msg]
    requires t.emitted == s.emitted && t.forked == s.forked
    ensures Current(t)
  {
  }

  lemma {:induction false} RunCounted(s: State, actions: seq<Action>, kind: ReadyKind)
    requires Orderly(s) && Counted(s) && DisciplinedRun(s, actions, kind)
    ensures Run(s, actions, kind).Some? && Counted(Run(s, actions, kind).value)
    decreases |actions|
  {
    RunOrderly(s, actions, kind);
    if actions != [] {
      var init := actions[..|actions| - 1];
      RunOrderly(s, init, kind);
      RunCounted(s, init, kind);
      NextCounted(Run(s, init, kind).value, actions[|actions| - 1], kind);
    }
  }

  /** The message that completes the configured ready condition: the `n + 1`-th of its kind. */
  predicate CompletesReady(msgs: seq<int>, kind: ReadyKind)
    requires msgs != []
  {
    match kind
    case Listen(n) => msgs[|msgs| - 1] == 1 && Occurrences(msgs, 1) == n + 1
    case Bind(n) => msgs[|msgs| - 1] == 2 && Occurrences(msgs, 2) == n + 1
  }

  /** A poll of the ready pipe consumes the latest child's next message, and reports readiness exactly if
      that is the message that completes the condition. */
  ghost predicate PollsReady(s: State, kind: ReadyKind)
    requires s.pc == ServerWait && s.pipe == [] && s.events != []
  {
    var t, n := Next(s, PollServer, kind), |s.seen|;
    && n < |s.emitted| && t.seen == s.emitted[..n + 1]
    && (CompletesReady(s.emitted[..n + 1], kind) ==> t.pc == Outside && t.result == Some(Ready))
    && (!CompletesReady(s.emitted[..n + 1], kind) ==> t.pc == ServerWait)
  }

  lemma CountedPollsReady(s: State, kind: ReadyKind)
    requires Orderly(s) && Counted(s) && s.pc == ServerWait && s.pipe == [] && s.events != []
    ensures PollsReady(s, kind)
  {
    var msg, n := s.events[0].msg, |s.seen|;
    NextEmitted(s);
    OneMore(s.seen, msg, 1);
    OneMore(s.seen, msg, 2);
  }

  lemma NextEmitted(s: State)
    requires Current(s) && s.events != []
    ensures |s.seen| < |s.emitted| && s.emitted[..|s.seen| + 1] == s.seen + [s.events[0].msg]
  {
    assert s.emitted[|s.seen|] == Messages(s.events)[0];
  }

  lemma OneMore(msgs: seq<int>, msg: int, m: int)
    ensures Occurrences(msgs + [msg], m) == Occurrences(msgs, m) + if msg == m then 1 else 0
  {
  }

  /** In every error-free run, a poll of the ready pipe consumes the current child's next message; messages of
      earlier children are never counted. */
  lemma {:induction false} PollsAreCurrent(init: State, actions: seq<Action>, kind: ReadyKind)
    requires IsInit(init) && DisciplinedRun(init, actions, kind)
    ensures Run(init, actions, kind).Some?
    ensures var s := Run(init, actions, kind).value;
            s.pc == ServerWait && s.pipe == [] && s.events != [] ==> PollsReady(s, kind)
  {
    InitOrderly(init);
    RunCounted(init, actions, kind);
    RunOrderly(init, actions, kind);
    var s := Run(init, actions, kind).value;
    if s.pc == ServerWait && s.pipe == [] && s.events != [] { CountedPollsReady(s, kind); }
  }

  /** The poll reports the status of the current child and leaves the ready messages alone. */
  ghost predicate PollsStatus(s: State, kind: ReadyKind)
    requires s.pc == ServerWait && s.pipe != []
  {
    var t := Next(s, PollServer, kind);
    && s.pipe[0].tag == Status(s.sent) && IsExitStatus(s.pipe[0].value)
    && t.result.Some? && Reports(t.result.value, s.pipe[0].value) && t.childPid.None?
    && t.events == s.events && t.seen == s.seen
  }

  /** In every error-free run, a pending exit status wins over pending ready messages. */
  lemma {:induction false} StatusFirst(init: State, actions: seq<Action>, kind: ReadyKind)
    requires IsInit(init) && DisciplinedRun(init, actions, kind)
    ensures Run(init, actions, kind).Some?
    ensures var s := Run(init, actions, kind).value;
            s.pc == ServerWait && s.pipe != [] ==> PollsStatus(s, kind)
  {
    InitOrderly(init);
    RunOrderly(init, actions, kind);
    var s := Run(init, actions, kind).value;
    if s.pc == ServerWait && s.pipe != [] {
      OnlyItsStatus(s);
      ExitMeaning(s.pipe[0].value);
    }
  }
}
