/** What the calls of a sink return, over whole runs of the pipe protocol. */
module SinkResults {
  import opened Wrappers
  import opened Sink

  // ----- one step

  /** A call that is under way has no result yet. */
  predicate Pending(s: State) { s.pc != Outside ==> s.result.None? }

  /** The step makes the call under way return `r`. */
  predicate Returns(s: State, a: Action, kind: ReadyKind, r: RunResult)
    requires Enabled(s, a)
  {
    s.pc != Outside && Next(s, a, kind).pc == Outside && Next(s, a, kind).result == Some(r)
  }

  /** The step makes the call under way return an error. */
  predicate Errs(s: State, a: Action, kind: ReadyKind)
    requires Enabled(s, a)
  {
    s.pc != Outside && Next(s, a, kind).pc == Outside && Next(s, a, kind).failed && !s.failed
  }

  predicate TakesStatus(s: State, a: Action) { (a.PollTerm? || a.PollServer?) && s.pipe != [] }

  predicate TakesEvent(s: State, a: Action) { a.PollServer? && s.pipe == [] && s.events != [] }

  /** The next event is number `n + 1` of the awaited kind. */
  predicate EventCompletes(s: State, kind: ReadyKind)
    requires s.events != []
  {
    match kind
    case Listen(n) => s.events[0].msg == 1 && s.listenCtr == n
    case Bind(n) => s.events[0].msg == 2 && s.bindCtr == n
  }

  /** Giving up on a child is the only step that returns a timeout. */
  lemma StepTimesOut(s: State, a: Action, kind: ReadyKind)
    requires Enabled(s, a) && Pending(s)
    ensures Returns(s, a, kind, TimedOut) <==> a.ServerAck? || a.TermAck?
    ensures Pending(Next(s, a, kind))
  {
  }

  /** Consuming the event that completes the condition is the only step that returns readiness. */
  lemma StepReady(s: State, a: Action, kind: ReadyKind)
    requires Enabled(s, a) && Pending(s)
    ensures Returns(s, a, kind, Ready) <==> TakesEvent(s, a) && EventCompletes(s, kind)
  {
  }

  /** Taking a status is the only step that returns how a child ended. */
  lemma StepEnds(s: State, a: Action, kind: ReadyKind, r: RunResult)
    requires Enabled(s, a) && Pending(s) && (r.Terminated? || r.Signalled?)
    ensures Returns(s, a, kind, r) <==>
              TakesStatus(s, a) && IsExitStatus(s.pipe[0].value) && r == ExitResult(s.pipe[0].value)
  {
  }

  /** A missing acknowledgement loses the child of a termination wait, and keeps that of a server wait. */
  lemma StepErrs(s: State, a: Action, kind: ReadyKind)
    requires Enabled(s, a) && !s.failed
    ensures Errs(s, a, kind) <==>
              || a.PidTimeout? || a.ServerAckTimeout? || a.TermAckTimeout?
              || (a.ReadPid? && s.pipe[0].value <= 0) || (TakesStatus(s, a) && !IsExitStatus(s.pipe[0].value))
    ensures a.TermAckTimeout? ==> Next(s, a, kind).childPid.None?
    ensures Errs(s, a, kind) && !a.TermAckTimeout? ==> Next(s, a, kind).childPid == s.childPid
  {
  }

  /** A spawn records the word it reads, if that can be a pid. */
  lemma StepSpawns(s: State, kind: ReadyKind)
    requires Enabled(s, ReadPid)
    ensures var t, pid := Next(s, ReadPid, kind), s.pipe[0].value;
            && t.pc == Outside && t.read == s.read + 1
            && t.childPid == if pid > 0 then Some(pid) else s.childPid
  {
  }

  lemma {:induction false} RunPending(s: State, actions: seq<Action>, kind: ReadyKind)
    requires Pending(s)
    ensures Run(s, actions, kind).Some? ==> Pending(Run(s, actions, kind).value)
    decreases |actions|
  {
    if actions != [] && Run(s, actions, kind).Some? {
      var init := actions[..|actions| - 1];
      RunPending(s, init, kind);
      StepTimesOut(Run(s, init, kind).value, actions[|actions| - 1], kind);
    }
  }

  // ----- timeouts

  /** How many waits of the call under way are left. */
  predicate Patient(s: State) {
    match s.pc
    case ServerWait => s.timeouts == 0 && s.granted == 1
    case TermWait(sigtermFirst) => s.timeouts + (if sigtermFirst then 2 else 1) == s.granted
    case ServerKilled | TermKilled => s.timeouts == s.granted
    case _ => true
  }

  lemma NextPatient(s: State, a: Action, kind: ReadyKind)
    requires Patient(s) && Enabled(s, a)
    ensures Patient(Next(s, a, kind))
  {
  }

  /** Calls grant one wait, or two if the child is to be asked to terminate first; only waiting counts. */
  lemma StepWaits(s: State, a: Action, kind: ReadyKind)
    requires Enabled(s, a)
    ensures var t := Next(s, a, kind);
            && (a.CallWaitServer? ==> t.granted == 1 && t.timeouts == 0)
            && (a.CallWaitTerm? ==> t.timeouts == 0 && t.granted == if a.sigtermFirst then 2 else 1)
            && (a.ServerTimeout? || a.TermTimeout? ==> t.timeouts == s.timeouts + 1 && t.granted == s.granted)
            && (!a.CallWaitServer? && !a.CallWaitTerm? && !a.ServerTimeout? && !a.TermTimeout? ==>
                  t.timeouts == s.timeouts && t.granted == s.granted)
  {
  }

  /** In every run, errors included: a child is given up only after all the waits its call granted, which
      is two if it is to be asked to terminate first and one otherwise. */
  lemma {:induction false} TimedOutAfterAllWaits(s: State, actions: seq<Action>, kind: ReadyKind)
    requires Patient(s)
    ensures var r := Run(s, actions, kind);
            r.Some? ==>
              && Patient(r.value)
              && (r.value.pc == ServerKilled || r.value.pc == TermKilled ==> r.value.timeouts == r.value.granted)
    decreases |actions|
  {
    if actions != [] && Run(s, actions, kind).Some? {
      var init := actions[..|actions| - 1];
      TimedOutAfterAllWaits(s, init, kind);
      NextPatient(Run(s, init, kind).value, actions[|actions| - 1], kind);
    }
  }

  // ----- words carry what happened

  predicate TrueWord(w: Word, pids: seq<int>, exits: seq<int>) {
    match w.tag
    case Pid(c) => 1 <= c <= |pids| && pids[c - 1] == w.value
    case Status(c) => 1 <= c <= |exits| && exits[c - 1] == w.value
  }

  ghost predicate TrueWords(s: State) { forall i :: 0 <= i < |s.pipe| ==> TrueWord(s.pipe[i], s.pids, s.exits) }

  ghost predicate Logged(s: State) {
    && |s.pids| == s.forked - (if s.server.Serving? && !s.server.pidSent then 1 else 0)
    && |s.exits| == s.forked - (if s.server.Serving? && s.server.exit.None? then 1 else 0)
    && (s.server.Serving? && s.server.exit.Some? && s.forked > 0 ==> s.exits[s.forked - 1] == s.server.exit.value)
    && TrueWords(s)
  }

  lemma NextLogged(s: State, a: Action, kind: ReadyKind)
    requires InStream(s) && Logged(s) && Enabled(s, a)
    ensures Logged(Next(s, a, kind))
  {
    if IsServerAction(a) { ServerLogged(s, a, kind); } else { SinkLogged(s, a, kind); }
  }

  lemma ServerLogged(s: State, a: Action, kind: ReadyKind)
    requires InStream(s) && Logged(s) && Enabled(s, a) && IsServerAction(a)
    ensures Logged(Next(s, a, kind))
  {
    if a.WritePid? || a.WriteStatus? || a.ChildExit? { MoreWords(s, Next(s, a, kind)); }
  }

  lemma SinkLogged(s: State, a: Action, kind: ReadyKind)
    requires Logged(s) && Enabled(s, a) && !IsServerAction(a)
    ensures Logged(Next(s, a, kind))
  {
    var t := Next(s, a, kind);
    assert t.pids == s.pids && t.exits == s.exits && t.server == s.server && t.forked == s.forked;
    if t.read == s.read { assert t.pipe == s.pipe; } else { FewerWords(s, t); }
  }

  lemma FewerWords(s: State, t: State)
    requires Logged(s) && s.pipe != [] && t.pipe == s.pipe[1..]
    requires t.pids == s.pids && t.exits == s.exits && t.server == s.server && t.forked == s.forked
    ensures Logged(t)
  {
  }

  lemma MoreWords(s: State, t: State)
    requires TrueWords(s) && s.pids <= t.pids && s.exits <= t.exits && s.pipe <= t.pipe
    requires forall i :: |s.pipe| <= i < |t.pipe| ==> TrueWord(t.pipe[i], t.pids, t.exits)
    ensures TrueWords(t)
  {
    forall i | 0 <= i < |t.pipe| ensures TrueWord(t.pipe[i], t.pids, t.exits) {
      if i < |s.pipe| { assert t.pipe[i] == s.pipe[i] && TrueWord(s.pipe[i], s.pids, s.exits); }
    }
  }

  /** The recorded child is the one the last request was answered with. */
  predicate OwnChild(s: State) {
    s.childPid.Some? ==> 1 <= s.sent <= |s.pids| && s.childPid == Some(s.pids[s.sent - 1])
  }

  lemma NextOwnChild(s: State, a: Action, kind: ReadyKind)
    requires Orderly(s) && Logged(s) && OwnChild(s) && Enabled(s, a) && Disciplined(s, a)
    ensures OwnChild(Next(s, a, kind))
  {
    if a.ReadPid? {
      OwnPidIff(s);
      assert TrueWord(s.pipe[0], s.pids, s.exits);
    }
  }

  lemma {:induction false} RunLogged(init: State, actions: seq<Action>, kind: ReadyKind)
    requires IsInit(init) && DisciplinedRun(init, actions, kind)
    ensures Run(init, actions, kind).Some?
    ensures var s := Run(init, actions, kind).value; Orderly(s) && Logged(s) && OwnChild(s)
    decreases |actions|
  {
    InitOrderly(init);
    RunOrderly(init, actions, kind);
    if actions != [] {
      var before, a := actions[..|actions| - 1], actions[|actions| - 1];
      RunLogged(init, before, kind);
      NextLogged(Run(init, before, kind).value, a, kind);
      NextOwnChild(Run(init, before, kind).value, a, kind);
    }
  }

  // ----- whole runs

  /** The recorded pid is the one reported for the last request, and a call that takes a status returns
      how the child of that request ended, after which there is no child. */
  ghost predicate TellsTheTruth(s: State, a: Action, kind: ReadyKind)
    requires Enabled(s, a)
  {
    var t := Next(s, a, kind);
    && OwnChild(s)
    && (TakesStatus(s, a) ==>
          && 1 <= s.sent <= |s.exits| && t.pc == Outside && t.childPid.None?
          && t.result.Some? && Reports(t.result.value, s.exits[s.sent - 1]))
  }

  lemma OrderlyTells(s: State, a: Action, kind: ReadyKind)
    requires Orderly(s) && Logged(s) && OwnChild(s) && Enabled(s, a)
    ensures TellsTheTruth(s, a, kind)
  {
    if TakesStatus(s, a) {
      OnlyItsStatus(s);
      var w := s.pipe[0];
      assert TrueWord(w, s.pids, s.exits);
      ExitMeaning(w.value);
    }
  }

  /** In every run without error returns, whatever forkserver and child do in between. */
  lemma {:induction false} StatusIsReported(init: State, actions: seq<Action>, a: Action, kind: ReadyKind)
    requires IsInit(init) && DisciplinedRun(init, actions, kind)
    ensures Run(init, actions, kind).Some?
    ensures Enabled(Run(init, actions, kind).value, a) ==> TellsTheTruth(Run(init, actions, kind).value, a, kind)
  {
    RunLogged(init, actions, kind);
    var s := Run(init, actions, kind).value;
    if Enabled(s, a) { OrderlyTells(s, a, kind); }
  }

  /** In every run without error returns, and in whatever step: a call returns `Ready` if and only if it has
      just consumed the event of the current child that completes the condition, with no status pending. */
  lemma {:induction false} ReadyExactly(init: State, actions: seq<Action>, a: Action, kind: ReadyKind)
    requires IsInit(init) && DisciplinedRun(init, actions, kind)
    ensures Run(init, actions, kind).Some?
    ensures var s := Run(init, actions, kind).value;
            Enabled(s, a) ==>
              && (TakesEvent(s, a) ==> |s.seen| < |s.emitted| && s.events[0].msg == s.emitted[|s.seen|])
              && (Returns(s, a, kind, Ready) <==> TakesEvent(s, a) && CompletesReady(s.emitted[..|s.seen| + 1], kind))
              && (Returns(s, a, kind, TimedOut) <==> a.ServerAck? || a.TermAck?)
  {
    PollsAreCurrent(init, actions, kind);
    RunPending(init, actions, kind);
    var s := Run(init, actions, kind).value;
    if Enabled(s, a) {
      StepTimesOut(s, a, kind);
      StepReady(s, a, kind);
      if TakesEvent(s, a) {
        InitOrderly(init);
        RunCounted(init, actions, kind);
        RunOrderly(init, actions, kind);
        NextEmitted(s);
        assert s.emitted[..|s.seen| + 1][|s.seen|] == s.events[0].msg;
      }
    }
  }
}
