/**
 Runs of the log protocol, and what the actions of a run say about the state it
 ends in: which bytes were written, where they are, and where each thread stands.
 */
module LogRuns {
  import opened Basics
  import opened LogProtocol

  /** Any sequence of actions from state `s`, each enabled when taken. */
  ghost predicate RunFrom(s: State, actions: seq<Action>)
    decreases |actions|, 0
  {
    actions == [] ||
    (RunFrom(s, actions[..|actions| - 1]) && Enabled(ExecFrom(s, actions[..|actions| - 1]), actions[|actions| - 1]))
  }

  ghost function ExecFrom(s: State, actions: seq<Action>): State
    requires RunFrom(s, actions)
    decreases |actions|, 1
  {
    if actions == [] then s else Apply(ExecFrom(s, actions[..|actions| - 1]), actions[|actions| - 1])
  }

  ghost predicate Run(actions: seq<Action>) {
    RunFrom(INITIAL, actions)
  }

  ghost function Exec(actions: seq<Action>): State
    requires Run(actions)
  {
    ExecFrom(INITIAL, actions)
  }

  lemma ExtendFrom(s: State, actions: seq<Action>, a: Action)
    requires RunFrom(s, actions) && Enabled(ExecFrom(s, actions), a)
    ensures RunFrom(s, actions + [a]) && ExecFrom(s, actions + [a]) == Apply(ExecFrom(s, actions), a)
  {
    assert (actions + [a])[..|actions + [a]| - 1] == actions;
  }

  /** The beginning of a run is a run. */
  lemma {:induction false} RunPrefix(actions: seq<Action>, i: nat)
    requires Run(actions) && i <= |actions|
    ensures Run(actions[..i])
    decreases |actions|
  {
    if i < |actions| {
      var front := actions[..|actions| - 1];
      RunPrefix(front, i);
      assert front[..i] == actions[..i];
    } else {
      assert actions[..i] == actions;
    }
  }

  /** The state one action further on in a run. */
  lemma RunStep(actions: seq<Action>, i: nat)
    requires Run(actions) && i < |actions|
    ensures Run(actions[..i]) && Run(actions[..i + 1])
    ensures Enabled(Exec(actions[..i]), actions[i])
    ensures Exec(actions[..i + 1]) == Apply(Exec(actions[..i]), actions[i])
  {
    RunPrefix(actions, i);
    RunPrefix(actions, i + 1);
    assert actions[..i + 1][..i] == actions[..i];
  }

  /** A run is its beginning and its last action. */
  lemma LastAction(actions: seq<Action>)
    requires Run(actions) && actions != []
    ensures var front, a := actions[..|actions| - 1], actions[|actions| - 1];
            && actions == front + [a] && Run(front) && Enabled(Exec(front), a)
            && Exec(actions) == Apply(Exec(front), a)
  {
    hide Apply, Enabled;
  }

  // ------------------------------------------------------------------
  // The bytes
  // ------------------------------------------------------------------

  /** The bytes an action hands to fwrite. */
  function Output(a: Action): seq<Byte> {
    if a.RecvAndWrite? || a.WriteTimestamp? then a.data else []
  }

  /** Everything written, in the order in which it was written. */
  function Written(actions: seq<Action>): seq<Byte>
    decreases |actions|
  {
    if actions == [] then []
    else Written(actions[..|actions| - 1]) + Output(actions[|actions| - 1])
  }

  /** What thread `t` wrote, in the order in which it wrote it. */
  function WrittenBy(actions: seq<Action>, t: Tid): seq<Byte>
    decreases |actions|
  {
    if actions == [] then []
    else
      var a := actions[|actions| - 1];
      WrittenBy(actions[..|actions| - 1], t) + if By(a, t) then Output(a) else []
  }

  /** What each of `ts` wrote, one thread after the other. */
  function Contributions(actions: seq<Action>, ts: seq<Tid>): seq<Byte>
    decreases |ts|
  {
    if ts == [] then []
    else Contributions(actions, ts[..|ts| - 1]) + WrittenBy(actions, ts[|ts| - 1])
  }

  /** The threads that took the mutex, in the order in which they did. */
  function Locked(actions: seq<Action>): seq<Tid>
    decreases |actions|
  {
    if actions == [] then []
    else
      var a := actions[|actions| - 1];
      Locked(actions[..|actions| - 1]) + if a.Lock? then [a.t] else []
  }

  /** How many bytes stdio still holds: what it did not write out since the last fflush. */
  function Unflushed(actions: seq<Action>): int
    decreases |actions|
  {
    if actions == [] then 0
    else
      var before, a := Unflushed(actions[..|actions| - 1]), actions[|actions| - 1];
      if a.RecvAndWrite? || a.WriteTimestamp? then before + |a.data| - a.spill
      else if a.TestNewline? && a.found then 0
      else before
  }

  /** One action's own bytes go to the end of the stream, in their order and under its thread's name. */
  lemma StepWrites(s: State, a: Action)
    requires Enabled(s, a)
    ensures BytesOf(Apply(s, a).stream) == BytesOf(s.stream) + Output(a)
    ensures Apply(s, a).stream == s.stream + if a.RecvAndWrite? || a.WriteTimestamp? then Tag(a.t, a.data) else []
  {
    if a.RecvAndWrite? || a.WriteTimestamp? {
      BytesOfConcat(s.stream, Tag(a.t, a.data));
      TagBytes(a.t, a.data);
      hide Tag, BytesOf;
    }
  }

  /** Where an action leaves the bytes: what stdio held and is given moves to the file by `spill` bytes or by a flush. */
  lemma StepFile(s: State, a: Action)
    requires Enabled(s, a)
    ensures var s' := Apply(s, a);
            && s'.disk + s'.pending == s.disk + s.pending + Output(a)
            && |s'.pending| == (if a.RecvAndWrite? || a.WriteTimestamp? then |s.pending| + |a.data| - a.spill
                                else if a.TestNewline? && a.found then 0 else |s.pending|)
  {
    if a.RecvAndWrite? || a.WriteTimestamp? {
      SpillSplits(s.disk, s.pending, a.data, a.spill);
    }
  }

  /** Stream, file, lock order and exit flag of every run are those its actions spell. */
  lemma {:induction false} RunTells(actions: seq<Action>)
    requires Run(actions)
    ensures var s, w, u := Exec(actions), Written(actions), Unflushed(actions);
            && BytesOf(s.stream) == w
            && 0 <= u <= |w| && s.disk == w[..|w| - u] && s.pending == w[|w| - u..]
            && s.locks == Locked(actions)
            && (s.exitSignal <==> Signal in actions)
    decreases |actions|
  {
    if actions != [] {
      var front, a := actions[..|actions| - 1], actions[|actions| - 1];
      LastAction(actions);
      RunTells(front);
      hide Run, Exec, RunFrom, ExecFrom, Apply, Enabled, BytesOf, Output;
      StepWrites(Exec(front), a);
      StepFile(Exec(front), a);
      StepFlags(Exec(front), a);
      var s0, s := Exec(front), Exec(actions);
      SplitsAt(s0.disk, s0.pending, Written(front), Unflushed(front));
      SplitsAt(s.disk, s.pending, Written(actions), Unflushed(actions));
    }
  }

  lemma SplitsAt(disk: seq<Byte>, pending: seq<Byte>, all: seq<Byte>, held: int)
    ensures disk + pending == all && |pending| == held <==>
            0 <= held <= |all| && disk == all[..|all| - held] && pending == all[|all| - held..]
  {
    if 0 <= held <= |all| {
      assert all == all[..|all| - held] + all[|all| - held..];
    }
  }

  lemma StepFlags(s: State, a: Action)
    requires Enabled(s, a)
    ensures Apply(s, a).locks == s.locks + if a.Lock? then [a.t] else []
    ensures Apply(s, a).exitSignal <==> s.exitSignal || a == Signal
  {
  }

  /** What is tagged with a thread is what that thread's own actions wrote. */
  lemma {:induction false} OwnIsWritten(actions: seq<Action>, t: Tid)
    requires Run(actions)
    ensures BytesOf(Project(Exec(actions).stream, t)) == WrittenBy(actions, t)
    decreases |actions|
  {
    if actions != [] {
      var front, a := actions[..|actions| - 1], actions[|actions| - 1];
      LastAction(actions);
      OwnIsWritten(front, t);
      hide Run, Exec;
      StepWrites(Exec(front), a);
      hide Apply, Enabled;
      if a.RecvAndWrite? || a.WriteTimestamp? {
        ProjectAppend(Exec(front).stream, a.t, a.data, t);
        BytesOfConcat(Project(Exec(front).stream, t), if t == a.t then Tag(a.t, a.data) else []);
        TagBytes(a.t, a.data);
      }
    }
  }

  /** The sections of a regrouped stream are the threads' own writes. */
  lemma {:induction false} SectionsAreWritten(actions: seq<Action>, ts: seq<Tid>)
    requires Run(actions)
    ensures BytesOf(Regrouped(Exec(actions).stream, ts)) == Contributions(actions, ts)
    decreases |ts|
  {
    hide Run, Exec;
    if ts != [] {
      var front, t := ts[..|ts| - 1], ts[|ts| - 1];
      SectionsAreWritten(actions, front);
      OwnIsWritten(actions, t);
      hide BytesOf, Project;
      BytesOfConcat(Regrouped(Exec(actions).stream, front), Project(Exec(actions).stream, t));
    }
  }

  // ------------------------------------------------------------------
  // The threads
  // ------------------------------------------------------------------

  predicate By(a: Action, t: Tid) {
    !a.Signal? && a.t == t
  }

  /** The last thing `t` did. */
  function Previous(actions: seq<Action>, t: Tid): (p: Option<nat>)
    ensures p.Some? ==> p.value < |actions| && By(actions[p.value], t)
    ensures forall j | 0 <= j < |actions| && By(actions[j], t) :: p.Some? && j <= p.value
    decreases |actions|
  {
    if actions == [] then None
    else if By(actions[|actions| - 1], t) then Some(|actions| - 1)
    else Previous(actions[..|actions| - 1], t)
  }

  /** The order of one thread's actions that the source's text prescribes. */
  predicate MayFollow(before: seq<Action>, a: Action)
    requires !a.Signal?
  {
    match Previous(before, a.t)
    case None => a.SpawnClient? || a.FireTimer?
    case Some(j) =>
      match before[j]
      case SpawnClient(_) => a.Lock?
      case FireTimer(_) => a.Lock?
      case Lock(t) => if SpawnClient(t) in before then a.CheckExit? else a.WriteTimestamp?
      case CheckExit(_) => if Signal in before[..j] then a.SendNext? else a.RecvAndWrite? || a.RecvError?
      case RecvAndWrite(_, _, _) => a.TestNewline?
      case TestNewline(_, found) => if found then a.SendNext? else a.CheckExit?
      case SendNext(_) => a.SendNext? || a.Unlock?
      case RecvError(_) => a.Unlock?
      case WriteTimestamp(_, _, _) => a.Unlock?
      case _ => false
  }

  predicate ClientPc(pc: Pc) {
    match pc
    case TimerStart => false
    case TimerWrite => false
    case Leaving(how) => how != Timer
    case Done(how) => how != Timer
    case _ => true
  }

  predicate Ends(pc: Pc, how: Ending) {
    pc == Leaving(how) || pc == Done(how)
  }

  /** On the way out through the flushing break. */
  predicate Flushing(pc: Pc) {
    (pc.ClientSend? && pc.flushed) || Ends(pc, Flushed)
  }

  /** What a thread's position reveals about the actions taken. */
  ghost predicate Marks(actions: seq<Action>, s: State, t: Tid) {
    if t in s.threads then
      var pc := s.threads[t];
      && (SpawnClient(t) in actions <==> ClientPc(pc))
      && (RecvError(t) in actions <==> Ends(pc, RecvFailed))
      && (TestNewline(t, true) in actions <==> Flushing(pc))
    else
      SpawnClient(t) !in actions && RecvError(t) !in actions && TestNewline(t, true) !in actions
  }

  lemma OthersStay(s: State, a: Action, t: Tid)
    requires Enabled(s, a) && !By(a, t)
    ensures t in Apply(s, a).threads <==> t in s.threads
    ensures t in s.threads ==> Apply(s, a).threads[t] == s.threads[t]
  {
  }

  /** Which actions make a thread a client's, end it by a failed recv, or by a flush; no other action changes that. */
  lemma ActorPc(s: State, a: Action)
    requires Enabled(s, a) && !a.Signal?
    ensures a.t in Apply(s, a).threads
    ensures var pc := Apply(s, a).threads[a.t];
            && (ClientPc(pc) <==> a.SpawnClient? || (a.t in s.threads && ClientPc(s.threads[a.t])))
            && (Ends(pc, RecvFailed) <==> a.RecvError? || (a.t in s.threads && Ends(s.threads[a.t], RecvFailed)))
            && (Flushing(pc) <==> (a.TestNewline? && a.found) || (a.t in s.threads && Flushing(s.threads[a.t])))
  {
  }

  /** An arrival is a thread's first action and no other action is. */
  lemma ActorIsNamed(s: State, a: Action)
    requires Enabled(s, a) && !a.Signal?
    ensures a.t !in s.threads <==> a.SpawnClient? || a.FireTimer?
  {
  }

  lemma ActorMarks(actions: seq<Action>, s: State, a: Action)
    requires !a.Signal? && Marks(actions, s, a.t) && Enabled(s, a)
    ensures a.t in Apply(s, a).threads && Marks(actions + [a], Apply(s, a), a.t)
  {
    var t := a.t;
    ActorPc(s, a);
    ActorIsNamed(s, a);
    hide Apply, Enabled, ClientPc, Ends, Flushing;
    assert SpawnClient(t) in actions + [a] <==> SpawnClient(t) in actions || a == SpawnClient(t);
    assert RecvError(t) in actions + [a] <==> RecvError(t) in actions || a == RecvError(t);
    assert TestNewline(t, true) in actions + [a] <==> TestNewline(t, true) in actions || a == TestNewline(t, true);
  }

  lemma StepKeepsMarks(actions: seq<Action>, s: State, a: Action, t: Tid)
    requires Marks(actions, s, t) && Enabled(s, a)
    ensures Marks(actions + [a], Apply(s, a), t)
  {
    if By(a, t) {
      ActorMarks(actions, s, a);
    } else {
      OthersStay(s, a, t);
      hide Apply, Enabled, ClientPc, Ends, Flushing;
    }
  }

  lemma {:induction false} EveryRunIsMarked(actions: seq<Action>, t: Tid)
    requires Run(actions)
    ensures Marks(actions, Exec(actions), t)
    decreases |actions|
  {
    if actions != [] {
      LastAction(actions);
      EveryRunIsMarked(actions[..|actions| - 1], t);
      StepKeepsMarks(actions[..|actions| - 1], Exec(actions[..|actions| - 1]), actions[|actions| - 1], t);
    }
  }

  /** How a thread finished tells which way it left its loop. */
  lemma EndingTells(actions: seq<Action>, t: Tid, how: Ending)
    requires Run(actions) && t in Exec(actions).threads && Exec(actions).threads[t] == Done(how)
    ensures how == Timer <==> SpawnClient(t) !in actions
    ensures how == RecvFailed <==> RecvError(t) in actions
    ensures how == Flushed <==> TestNewline(t, true) in actions
  {
    EveryRunIsMarked(actions, t);
  }

  /** Where a thread stands after its action number `i`. */
  predicate StandsAfter(actions: seq<Action>, i: nat, pc: Pc)
    requires i < |actions|
  {
    match actions[i]
    case SpawnClient(_) => pc == ClientStart
    case FireTimer(_) => pc == TimerStart
    case Lock(_) => pc == ClientLoop || pc == TimerWrite
    case CheckExit(_) => pc == if Signal in actions[..i] then ClientSend(0, false) else ClientRecv
    case RecvAndWrite(_, _, _) => pc == ClientTest
    case TestNewline(_, found) => pc == if found then ClientSend(0, true) else ClientLoop
    case SendNext(_) => pc.ClientSend? || pc == Leaving(Flushed) || pc == Leaving(ExitSeen)
    case RecvError(_) => pc == Leaving(RecvFailed)
    case WriteTimestamp(_, _, _) => pc == Leaving(Timer)
    case Unlock(_) => pc.Done?
    case Signal => false
  }

  ghost predicate Stands(actions: seq<Action>, s: State, t: Tid) {
    match Previous(actions, t)
    case None => t !in s.threads
    case Some(i) => t in s.threads && StandsAfter(actions, i, s.threads[t])
  }

  lemma PreviousStep(actions: seq<Action>, a: Action, t: Tid)
    ensures Previous(actions + [a], t) == if By(a, t) then Some(|actions|) else Previous(actions, t)
  {
    assert (actions + [a])[..|actions + [a]| - 1] == actions;
  }

  /** The actor stands where its action put it. */
  lemma ActorStands(actions: seq<Action>, s: State, a: Action)
    requires Enabled(s, a) && !a.Signal? && (s.exitSignal <==> Signal in actions)
    ensures a.t in Apply(s, a).threads && StandsAfter(actions + [a], |actions|, Apply(s, a).threads[a.t])
  {
    assert (actions + [a])[..|actions|] == actions;
  }

  lemma StepKeepsStands(actions: seq<Action>, s: State, a: Action, t: Tid)
    requires Stands(actions, s, t) && Enabled(s, a) && (s.exitSignal <==> Signal in actions)
    ensures Stands(actions + [a], Apply(s, a), t)
  {
    PreviousStep(actions, a, t);
    if By(a, t) {
      ActorStands(actions, s, a);
    } else {
      OthersStay(s, a, t);
      var p := Previous(actions, t);
      assert p.Some? ==> (actions + [a])[..p.value] == actions[..p.value];
    }
  }

  lemma {:induction false} EveryThreadStands(actions: seq<Action>, t: Tid)
    requires Run(actions)
    ensures Stands(actions, Exec(actions), t)
    decreases |actions|
  {
    if actions != [] {
      var front := actions[..|actions| - 1];
      LastAction(actions);
      EveryThreadStands(front, t);
      RunTells(front);
      StepKeepsStands(front, Exec(front), actions[|actions| - 1], t);
    }
  }

  /** In every run each thread does what the source's text says next, whatever the others do. */
  lemma ProgramOrder(actions: seq<Action>, i: nat)
    requires Run(actions) && i < |actions| && !actions[i].Signal?
    ensures MayFollow(actions[..i], actions[i])
  {
    RunStep(actions, i);
    hide Run, Exec;
    EveryThreadStands(actions[..i], actions[i].t);
    EveryRunIsMarked(actions[..i], actions[i].t);
  }
}
