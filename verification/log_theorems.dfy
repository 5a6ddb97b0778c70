/** What every interleaving of clients, timer callbacks and the exit signal keeps. */
module LogTheorems {
  import opened Basics
  import opened LogProtocol
  import opened LogRuns

  lemma StepKeepsInv(s: State, a: Action)
    requires Inv(s) && Enabled(s, a)
    ensures Inv(Apply(s, a))
  {
    StepKeepsMutex(s, a);
    StepKeepsLockOrder(s, a);
    StepKeepsLog(s, a);
    var s' := Apply(s, a);
    forall u | u in s'.threads
      ensures ReplyOk(s', u)
    {
      if Arrival(a) && u in s.threads {
        OthersKeepReplies(s, a, u);
      } else if a.Signal? || a.t != u {
        OthersKeepReplies(s, a, u);
      } else {
        ActorKeepsReply(s, a, u);
      }
    }
  }

  lemma {:induction false} EveryRunKeepsInv(actions: seq<Action>)
    requires Run(actions)
    ensures Inv(Exec(actions))
    decreases |actions|
  {
    if actions != [] {
      EveryRunKeepsInv(actions[..|actions| - 1]);
      StepKeepsInv(Exec(actions[..|actions| - 1]), actions[|actions| - 1]);
    }
  }

  /** At most one thread is inside its critical section, and it is the owner. */
  lemma MutualExclusion(actions: seq<Action>, t: Tid, u: Tid)
    requires Run(actions)
    requires t in Exec(actions).threads && Inside(Exec(actions).threads[t])
    requires u in Exec(actions).threads && Inside(Exec(actions).threads[u])
    ensures t == u && Exec(actions).owner == LockedBy(t)
  {
    EveryRunKeepsInv(actions);
  }

  /** Nobody's writes are split by anyone else's, and the sections follow the lock order. */
  lemma WritesAreContiguous(actions: seq<Action>)
    requires Run(actions)
    ensures var s := Exec(actions);
            && s.stream == Regrouped(s.stream, s.locks)
            && forall i, j, k | 0 <= i < j < k < |s.stream| && s.stream[i].tid == s.stream[k].tid ::
                 s.stream[j].tid == s.stream[i].tid
  {
    EveryRunKeepsInv(actions);
    var s := Exec(actions);
    forall i, j, k | 0 <= i < j < k < |s.stream| && s.stream[i].tid == s.stream[k].tid
      ensures s.stream[j].tid == s.stream[i].tid
    {
      RegroupedContiguous(s.stream, s.locks, i, j, k);
    }
  }

  /** However much stdio has written out, the file followed by what it still holds is the log. */
  lemma DiskThenPendingIsLog(actions: seq<Action>)
    requires Run(actions)
    ensures Exec(actions).disk + Exec(actions).pending == BytesOf(Exec(actions).stream)
  {
    EveryRunKeepsInv(actions);
  }

  /** A thread's place in the lock order. */
  ghost function Turn(s: State, t: Tid): (k: nat)
    requires t in s.locks
    ensures k < |s.locks| && s.locks[k] == t
  {
    var k :| 0 <= k < |s.locks| && s.locks[k] == t;
    k
  }

  ghost predicate Finished(s: State, t: Tid, how: Ending) {
    t in s.threads && s.threads[t] == Done(how)
  }

  lemma FlushedTurn(s: State, t: Tid)
    requires Inv(s) && Finished(s, t, Flushed)
    ensures t in s.locks && t in s.replies && s.replies[t] == LogUpTo(s, Turn(s, t))
  {
    hide Log, LogUpTo;
    assert ReplyOk(s, t);
    var k :| 0 <= k < |s.locks| && s.locks[k] == t && s.replies[t] == LogUpTo(s, k);
    assert k == Turn(s, t);
  }

  /** What all threads before the `k`-th in lock order wrote. */
  ghost function Earlier(s: State, k: nat): seq<Byte>
    requires k < |s.locks|
  {
    BytesOf(Regrouped(s.stream, s.locks[..k]))
  }

  /** What thread `t` itself wrote. */
  ghost function Own(s: State, t: Tid): seq<Byte> {
    BytesOf(Project(s.stream, t))
  }

  /** The log up to a thread's turn ends with that thread's own bytes. */
  lemma LogUpToSplits(s: State, k: nat)
    requires k < |s.locks|
    ensures LogUpTo(s, k) == Earlier(s, k) + Own(s, s.locks[k])
  {
    assert s.locks[..k + 1][..k] == s.locks[..k];
    RegroupedUnfold(s.stream, s.locks[..k + 1]);
    hide Regrouped, Project, BytesOf;
    BytesOfConcat(Regrouped(s.stream, s.locks[..k]), Project(s.stream, s.locks[k]));
  }

  lemma LastLogIsStream(s: State)
    requires Log(s) && s.locks != []
    ensures LogUpTo(s, |s.locks| - 1) == BytesOf(s.stream)
  {
    assert s.locks[..|s.locks|] == s.locks;
  }

  /** Both in bytes: what a thread and its predecessors wrote is what their own actions handed to fwrite. */
  lemma LogIsWritten(actions: seq<Action>, t: Tid)
    requires Run(actions) && t in Exec(actions).locks
    ensures var s := Exec(actions);
            && Earlier(s, Turn(s, t)) == Contributions(actions, s.locks[..Turn(s, t)])
            && Own(s, t) == WrittenBy(actions, t)
  {
    hide Run, Exec, Regrouped, Project, BytesOf;
    var s := Exec(actions);
    SectionsAreWritten(actions, s.locks[..Turn(s, t)]);
    OwnIsWritten(actions, t);
  }

  /**
   A client that left through the flushing break was sent the contributions of every
   thread up to itself in lock order, its own last: the whole log of that moment, byte
   for byte what those threads received from their clients or stamped.
   */
  lemma FlushedReplyIsWholeLog(actions: seq<Action>, t: Tid)
    requires Run(actions) && Finished(Exec(actions), t, Flushed)
    ensures var s := Exec(actions);
            && t in s.locks && t in s.replies
            && s.replies[t] == LogUpTo(s, Turn(s, t)) == Earlier(s, Turn(s, t)) + Own(s, t)
            && s.replies[t] == Contributions(actions, s.locks[..Turn(s, t)]) + WrittenBy(actions, t)
            && s.replies[t] <= BytesOf(s.stream) == Written(actions)
  {
    hide RunFrom, ExecFrom, Run, Exec, Mutex, LockOrder, Replies;
    hide Written, WrittenBy, Contributions, Locked, Unflushed, Earlier, Own, LogUpTo;
    EveryRunKeepsInv(actions);
    RunTells(actions);
    var s := Exec(actions);
    FlushedTurn(s, t);
    LogIsWritten(actions, t);
    LogUpToSplits(s, Turn(s, t));
    BytesOfPrefix(s, Turn(s, t), |s.locks| - 1);
    LastLogIsStream(s);
  }

  lemma BytesOfPrefix(s: State, i: nat, j: nat)
    requires i <= j < |s.locks|
    ensures LogUpTo(s, i) <= LogUpTo(s, j)
  {
    var a, b := Regrouped(s.stream, s.locks[..i + 1]), Regrouped(s.stream, s.locks[..j + 1]);
    RegroupedGrows(s.stream, s.locks, i + 1, j + 1);
    assert b == a + b[|a|..];
    BytesOfConcat(a, b[|a|..]);
  }

  /** `t` is sending `file` after a flush, or has sent it. */
  ghost predicate SendsFlushed(s: State, t: Tid, file: seq<Byte>) {
    && t in s.threads
    && Flushing(s.threads[t])
    && (s.threads[t].ClientSend? ==> s.disk == file)
    && (Ends(s.threads[t], Flushed) ==> t in s.replies && s.replies[t] == file)
  }

  lemma StepKeepsFlushed(s: State, t: Tid, file: seq<Byte>, a: Action)
    requires Inv(s) && SendsFlushed(s, t, file) && Enabled(s, a)
    ensures SendsFlushed(Apply(s, a), t, file)
  {
    hide Log, LockOrder, GotWholeLog, GotPrefix;
    assert ReplyOk(s, t);
  }

  /** The reply is everything that had been handed to fwrite, by anyone, when the client's newline was found. */
  lemma {:induction false} FlushedReplyIsAllWritten(actions: seq<Action>, t: Tid) returns (i: nat)
    requires Run(actions) && t in Exec(actions).threads && Flushing(Exec(actions).threads[t])
    ensures i < |actions| && actions[i] == TestNewline(t, true)
    ensures SendsFlushed(Exec(actions), t, Written(actions[..i]))
    decreases |actions|
  {
    var front, a := actions[..|actions| - 1], actions[|actions| - 1];
    LastAction(actions);
    EveryRunKeepsInv(front);
    EveryRunIsMarked(front, t);
    EveryRunIsMarked(actions, t);
    RunTells(front);
    hide Run, Exec;
    if TestNewline(t, true) in front {
      i := FlushedReplyIsAllWritten(front, t);
      StepKeepsFlushed(Exec(front), t, Written(front[..i]), a);
      assert front[..i] == actions[..i];
    } else {
      i := |front|;
      assert a == TestNewline(t, true);
    }
  }

  /** Of two such replies, the one whose client locked first is a prefix of the other. */
  lemma FlushedRepliesAreOrdered(actions: seq<Action>, t: Tid, u: Tid)
    requires Run(actions) && Finished(Exec(actions), t, Flushed) && Finished(Exec(actions), u, Flushed)
    ensures var s := Exec(actions);
            && t in s.locks && u in s.locks && t in s.replies && u in s.replies
            && (Turn(s, t) <= Turn(s, u) ==> s.replies[t] <= s.replies[u])
  {
    FlushedReplyIsWholeLog(actions, t);
    FlushedReplyIsWholeLog(actions, u);
    var s := Exec(actions);
    if Turn(s, t) <= Turn(s, u) {
      BytesOfPrefix(s, Turn(s, t), Turn(s, u));
    }
  }

  // ------------------------------------------------------------------
  // Replies cut short by the exit signal
  // ------------------------------------------------------------------

  /**
   `t` saw the exit signal in state `s0`, and now, in `s`, it is still sending the file of
   that moment or has sent it; nothing it or earlier threads wrote has changed.
   */
  ghost predicate SendsFileOf(s0: State, s: State, t: Tid) {
    && s0.locks != [] && s0.locks[|s0.locks| - 1] == t
    && s0.locks <= s.locks && NoRepeats(s.locks)
    && Earlier(s, |s0.locks| - 1) == Earlier(s0, |s0.locks| - 1) && Own(s, t) == Own(s0, t)
    && t in s.threads && t in s.replies
    && (s.threads[t].ClientSend? ==> !s.threads[t].flushed && s.disk == s0.disk)
    && (!s.threads[t].ClientSend? ==>
          (s.threads[t] == Leaving(ExitSeen) || s.threads[t] == Done(ExitSeen)) && s.replies[t] == s0.disk)
  }

  lemma StartsSending(s0: State, t: Tid)
    requires Inv(s0) && Enabled(s0, CheckExit(t)) && s0.exitSignal
    ensures SendsFileOf(s0, Apply(s0, CheckExit(t)), t)
  {
    assert ReplyOk(s0, t);
    hide Log;
  }

  /** Writes by later threads leave what `t` and earlier threads wrote alone. */
  lemma LaterWriteKeeps(s: State, k: nat, t: Tid, u: Tid, data: seq<Byte>, spill: nat)
    requires NoRepeats(s.locks) && k + 1 < |s.locks| && s.locks[k] == t && s.locks[|s.locks| - 1] == u
    requires spill <= |s.pending| + |data|
    ensures Earlier(Fwrite(s, u, data, spill), k) == Earlier(s, k)
    ensures Own(Fwrite(s, u, data, spill), t) == Own(s, t)
  {
    assert u !in s.locks[..k];
    RegroupedUnaffected(s.stream, u, data, s.locks[..k]);
    ProjectAppend(s.stream, u, data, t);
  }

  lemma WriteKeepsSending(s0: State, s: State, t: Tid, u: Tid, data: seq<Byte>, spill: nat, pc: Pc)
    requires Mutex(s) && LockOrder(s) && SendsFileOf(s0, s, t)
    requires s.owner == LockedBy(u) && u != t && spill <= |s.pending| + |data|
    ensures SendsFileOf(s0, Goto(Fwrite(s, u, data, spill), u, pc), t)
  {
    LaterWriteKeeps(s, |s0.locks| - 1, t, u, data, spill);
    hide Regrouped, Project, BytesOf;
  }

  lemma SendKeepsSending(s0: State, s: State, t: Tid)
    requires Inv(s) && SendsFileOf(s0, s, t) && Enabled(s, SendNext(t))
    ensures SendsFileOf(s0, Apply(s, SendNext(t)), t)
  {
    assert ReplyOk(s, t);
    hide Log, Regrouped, Project, BytesOf;
  }

  lemma LockKeepsSending(s0: State, s: State, t: Tid, u: Tid)
    requires LockOrder(s) && SendsFileOf(s0, s, t) && Enabled(s, Lock(u))
    ensures SendsFileOf(s0, Apply(s, Lock(u)), t)
  {
    LockKeepsLockOrder(s, u);
    var k := |s0.locks| - 1;
    assert Apply(s, Lock(u)).locks[..k] == s.locks[..k];
    hide Regrouped, Project, BytesOf, LockOrder;
  }

  /** All other actions touch neither the log nor `t`'s reply, and not the file while `t` owns the mutex. */
  lemma QuietKeepsSending(s0: State, s: State, t: Tid, a: Action)
    requires Mutex(s) && SendsFileOf(s0, s, t) && Enabled(s, a)
    requires !a.RecvAndWrite? && !a.WriteTimestamp? && !a.Lock? && a != SendNext(t)
    ensures SendsFileOf(s0, Apply(s, a), t)
  {
    hide Regrouped, Project, BytesOf, NoRepeats;
    assert Apply(s, a).locks == s.locks && Apply(s, a).stream == s.stream;
  }

  lemma StepKeepsSending(s0: State, s: State, t: Tid, a: Action)
    requires Inv(s) && SendsFileOf(s0, s, t) && Enabled(s, a)
    ensures SendsFileOf(s0, Apply(s, a), t)
  {
    hide Log, SendsFileOf;
    if a.RecvAndWrite? {
      NotSending(s0, s, t, a.t);
      WriteKeepsSending(s0, s, t, a.t, a.data, a.spill, ClientTest);
    } else if a.WriteTimestamp? {
      NotSending(s0, s, t, a.t);
      WriteKeepsSending(s0, s, t, a.t, a.data, a.spill, Leaving(Timer));
    } else if a.Lock? {
      LockKeepsSending(s0, s, t, a.t);
    } else if a == SendNext(t) {
      SendKeepsSending(s0, s, t);
    } else {
      QuietKeepsSending(s0, s, t, a);
    }
  }

  /** A thread about to write is not the one that saw the signal. */
  lemma NotSending(s0: State, s: State, t: Tid, u: Tid)
    requires SendsFileOf(s0, s, t) && u in s.threads && (s.threads[u].ClientRecv? || s.threads[u].TimerWrite?)
    ensures u != t
  {
  }

  /** A client cut short by the exit signal was sent some prefix of the log. */
  lemma ExitReplyIsPrefix(actions: seq<Action>, t: Tid)
    requires Run(actions) && Finished(Exec(actions), t, ExitSeen)
    ensures t in Exec(actions).replies && Exec(actions).replies[t] <= BytesOf(Exec(actions).stream)
  {
    EveryRunKeepsInv(actions);
    assert ReplyOk(Exec(actions), t);
  }

  /** From the test that saw the signal to any later point of the run. */
  lemma {:induction false} SendingSince(actions: seq<Action>, i: nat, j: nat, t: Tid)
    requires Run(actions) && i < j <= |actions| && actions[i] == CheckExit(t)
    requires Run(actions[..i]) && Exec(actions[..i]).exitSignal
    ensures Run(actions[..j]) && SendsFileOf(Exec(actions[..i]), Exec(actions[..j]), t)
    decreases j
  {
    hide SendsFileOf, RunFrom, ExecFrom;
    RunStep(actions, j - 1);
    EveryRunKeepsInv(actions[..j - 1]);
    if i == j - 1 {
      StartsSending(Exec(actions[..i]), t);
    } else {
      SendingSince(actions, i, j - 1, t);
      StepKeepsSending(Exec(actions[..i]), Exec(actions[..j - 1]), t, actions[j - 1]);
    }
  }

  /**
   A client that saw the exit signal at step `i` is sent exactly the file as it stood then.
   The reply is the whole log up to its own turn if and only if stdio held nothing then, and
   it contains all the client wrote if and only if stdio held nothing or the client wrote
   nothing.  In general it is that log without its last bytes, as many as stdio held.
   That log is, byte for byte, what had been handed to fwrite by step `i`.
   */
  lemma ExitReplyExact(actions: seq<Action>, i: nat, t: Tid)
    requires Run(actions) && Finished(Exec(actions), t, ExitSeen)
    requires i < |actions| && actions[i] == CheckExit(t) && Run(actions[..i]) && Exec(actions[..i]).exitSignal
    ensures var s, s0 := Exec(actions), Exec(actions[..i]);
            && t in s.locks && t in s.replies
            && var earlier, own, missing := Earlier(s, Turn(s, t)), Own(s, t), |s0.pending|;
               && earlier == Contributions(actions, s.locks[..Turn(s, t)]) && own == WrittenBy(actions, t)
               && earlier + own == Written(actions[..i]) && missing == Unflushed(actions[..i])
               && missing <= |earlier + own|
               && s.replies[t] == s0.disk == (earlier + own)[..|earlier + own| - missing]
               && (s.replies[t] == LogUpTo(s, Turn(s, t)) <==> s0.pending == [])
               && (earlier + own <= s.replies[t] <==> s0.pending == [])
               && (OwnPart(s.replies[t], earlier) == own <==> s0.pending == [] || own == [])
               && (OwnPart(s.replies[t], earlier) == [] <==> missing >= |own|)
  {
    var s, s0 := Exec(actions), Exec(actions[..i]);
    assert actions[..|actions|] == actions;
    SendingSince(actions, i, |actions|, t);
    EveryRunKeepsInv(actions[..i]);
    RunStep(actions, i);
    RunTells(actions[..i]);
    hide RunFrom, ExecFrom;
    SeenState(s0, s, t);
    LogIsWritten(actions, t);
    hide Inv, SendsFileOf;
    LogUpToSplits(s, Turn(s, t));
    CutLog(s0.disk, s0.pending, Earlier(s, Turn(s, t)), Own(s, t));
  }

  /** The part of a reply that lies beyond what earlier threads wrote. */
  function OwnPart(reply: seq<Byte>, earlier: seq<Byte>): seq<Byte> {
    if |reply| <= |earlier| then [] else reply[|earlier|..]
  }

  lemma SeenState(s0: State, s: State, t: Tid)
    requires Inv(s0) && Enabled(s0, CheckExit(t)) && SendsFileOf(s0, s, t) && Finished(s, t, ExitSeen)
    ensures t in s.locks && t in s.replies && s.replies[t] == s0.disk
    ensures s0.disk + s0.pending == Earlier(s, Turn(s, t)) + Own(s, t)
  {
    var k := |s0.locks| - 1;
    assert s.locks[k] == t && Turn(s, t) == k;
    LogUpToSplits(s0, k);
    LastLogIsStream(s0);
  }

  lemma CutLog(disk: seq<Byte>, pending: seq<Byte>, earlier: seq<Byte>, own: seq<Byte>)
    requires disk + pending == earlier + own
    ensures disk == (earlier + own)[..|earlier + own| - |pending|]
    ensures disk == earlier + own <==> pending == []
    ensures earlier + own <= disk <==> pending == []
    ensures OwnPart(disk, earlier) == own <==> pending == [] || own == []
    ensures OwnPart(disk, earlier) == [] <==> |pending| >= |own|
  {
    assert |disk| + |pending| == |earlier| + |own|;
    assert disk == (disk + pending)[..|disk|];
    if |disk| > |earlier| {
      assert OwnPart(disk, earlier) == (disk + pending)[..|disk|][|earlier|..];
      assert own == (earlier + own)[|earlier|..];
    }
    if pending == [] {
      assert disk + pending == disk;
    }
  }

  /** Every client that finished this way did see the signal at some step, so the above applies to each. */
  lemma {:induction false} ExitWasSeen(actions: seq<Action>, t: Tid) returns (i: nat)
    requires Run(actions) && SeesExit(Exec(actions), t)
    ensures i < |actions| && actions[i] == CheckExit(t) && Run(actions[..i]) && Exec(actions[..i]).exitSignal
    decreases |actions|
  {
    var j := |actions| - 1;
    assert actions[..|actions|] == actions;
    RunStep(actions, j);
    if SeesExit(Exec(actions[..j]), t) {
      i := ExitWasSeen(actions[..j], t);
      assert actions[..j][..i] == actions[..i];
    } else {
      i := j;
    }
  }

  /** The thread is sending, or has sent, without a flush. */
  ghost predicate SeesExit(s: State, t: Tid) {
    t in s.threads && match s.threads[t]
                      case ClientSend(_, flushed) => !flushed
                      case Leaving(how) => how == ExitSeen
                      case Done(how) => how == ExitSeen
                      case _ => false
  }

  /** A run in which one byte has been received, is still pending, and the exit signal has arrived. */
  lemma PendingAtExit(b: Byte) returns (r: seq<Action>)
    ensures RunFrom(INITIAL, r)
    ensures ExecFrom(INITIAL, r) ==
            State(LockedBy(0), map[0 := ClientTest], true, [], [b], map[0 := []], [0], Tag(0, [b]))
  {
    r := [];
    ExtendFrom(INITIAL, r, SpawnClient(0));
    r := r + [SpawnClient(0)];
    ExtendFrom(INITIAL, r, Lock(0));
    r := r + [Lock(0)];
    ExtendFrom(INITIAL, r, CheckExit(0));
    r := r + [CheckExit(0)];
    hide RunFrom, ExecFrom;
    ExtendFrom(INITIAL, r, RecvAndWrite(0, [b], 0));
    r := r + [RecvAndWrite(0, [b], 0)];
    ExtendFrom(INITIAL, r, Signal);
    r := r + [Signal];
    assert [] + Tag(0, [b]) == Tag(0, [b]);
  }

  /** The run goes on: no newline, the signal is seen, and the empty file is sent. */
  lemma SentAtExit(b: Byte) returns (r: seq<Action>)
    ensures RunFrom(INITIAL, r)
    ensures ExecFrom(INITIAL, r) ==
            State(LockedBy(0), map[0 := Leaving(ExitSeen)], true, [], [b], map[0 := []], [0], Tag(0, [b]))
  {
    r := PendingAtExit(b);
    hide RunFrom, ExecFrom, Tag;
    ExtendFrom(INITIAL, r, TestNewline(0, false));
    r := r + [TestNewline(0, false)];
    ExtendFrom(INITIAL, r, CheckExit(0));
    r := r + [CheckExit(0)];
    ExtendFrom(INITIAL, r, SendNext(0));
    r := r + [SendNext(0)];
  }

  /** And the thread is done. */
  lemma DoneAtExit(b: Byte) returns (r: seq<Action>)
    ensures RunFrom(INITIAL, r)
    ensures ExecFrom(INITIAL, r) ==
            State(Unlocked, map[0 := Done(ExitSeen)], true, [], [b], map[0 := []], [0], Tag(0, [b]))
  {
    r := SentAtExit(b);
    hide RunFrom, ExecFrom, Tag;
    ExtendFrom(INITIAL, r, Unlock(0));
    r := r + [Unlock(0)];
  }

  lemma OwnByte(s: State, b: Byte)
    requires s.stream == Tag(0, [b])
    ensures Own(s, 0) == [b]
  {
    ProjectAppend([], 0, [b], 0);
    assert [] + Tag(0, [b]) == Tag(0, [b]) && BytesOf(Tag(0, [b])) == [b];
  }

  /** Such a reply can be short: the client's own bytes may still be pending in stdio. */
  lemma ExitReplyMayMissOwnBytes(b: Byte) returns (r: seq<Action>)
    ensures Run(r) && Finished(Exec(r), 0, ExitSeen)
    ensures 0 in Exec(r).replies && Exec(r).replies[0] == [] && Own(Exec(r), 0) == [b]
  {
    r := DoneAtExit(b);
    hide RunFrom, ExecFrom, Project, Tag, BytesOf;
    OwnByte(Exec(r), b);
  }
}
