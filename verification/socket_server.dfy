/**
 The threads' code over the shared stream.  While a thread holds the mutex no other
 thread touches the stream, so its code can be written down as one method; what it
 does is proved to be a sequence of the protocol's actions by that thread, with the
 exit signal possibly arriving in between.
 */
module SocketServer {
  import opened Basics
  import opened LogProtocol
  import opened LogRuns
  import opened LogTheorems

  /** A method's actions, appended to any run that reached its starting state, are again a run. */
  lemma {:induction false} ActionsContinueRun(run: seq<Action>, actions: seq<Action>)
    requires Run(run) && RunFrom(Exec(run), actions)
    ensures Run(run + actions)
    ensures Exec(run + actions) == ExecFrom(Exec(run), actions)
    decreases |actions|
  {
    if actions == [] {
      assert run + actions == run;
    } else {
      hide Apply, Enabled;
      var front, a := actions[..|actions| - 1], actions[|actions| - 1];
      ActionsContinueRun(run, front);
      ExtendFrom(INITIAL, run + front, a);
      assert run + actions == run + front + [a];
    }
  }

  /** Only thread `t` moves; meanwhile clients may connect, the timer may fire and the signal may arrive. */
  ghost predicate OnlyBy(actions: seq<Action>, t: Tid) {
    forall a | a in actions :: Arrival(a) || a.t == t
  }

  /** Thread `t`'s code, begun in state `s`, has so far performed `actions` and now stands in `now`. */
  ghost predicate Following(s: State, actions: seq<Action>, t: Tid, now: State) {
    RunFrom(s, actions) && ExecFrom(s, actions) == now && OnlyBy(actions, t)
  }

  lemma Begin(s: State, t: Tid)
    ensures Following(s, [], t, s)
  {
  }

  lemma Follow(s: State, actions: seq<Action>, t: Tid, now: State, a: Action)
    requires Following(s, actions, t, now) && Enabled(now, a) && (Arrival(a) || a.t == t)
    ensures Following(s, actions + [a], t, Apply(now, a))
  {
    ExtendFrom(s, actions, a);
  }

  /** One answer of recv and strchr; stdio writes out `spill` bytes, or all it holds if that is less. */
  datatype Reception = Reception(failed: bool, data: seq<Byte>, spill: nat, newline: bool)

  /** The bytes that reached fwrite. */
  function Received(rs: seq<Reception>): seq<Byte> {
    if rs == [] then []
    else
      var r := rs[|rs| - 1];
      Received(rs[..|rs| - 1]) + if r.failed then [] else r.data
  }

  lemma ReceivedGrows(rs: seq<Reception>, i: nat)
    requires i < |rs|
    ensures Received(rs[..i + 1]) == Received(rs[..i]) + if rs[i].failed then [] else rs[i].data
  {
    assert rs[..i + 1][..i] == rs[..i];
  }

  /** One more reception's bytes follow those of the others, in the stream and in the log. */
  lemma OneMore(rs: seq<Reception>, i: nat, t: Tid, stream: seq<Tagged>, log: seq<Byte>)
    requires i < |rs|
    ensures var more := if rs[i].failed then [] else rs[i].data;
            && stream + Tag(t, Received(rs[..i])) + Tag(t, more) == stream + Tag(t, Received(rs[..i + 1]))
            && log + Received(rs[..i]) + more == log + Received(rs[..i + 1])
  {
    ReceivedGrows(rs, i);
    hide Received;
  }

  lemma NothingReceived(rs: seq<Reception>, t: Tid)
    ensures Received(rs[..0]) == [] && Tag(t, []) == []
  {
  }

  /** The signal arrives before the exit test of pass `i`. */
  predicate Signalled(around: (nat, nat) -> seq<Action>, i: nat) {
    || Signal in around(i, 0)
    || (i > 0 && (Signalled(around, i - 1) || Signal in around(i - 1, 1) || Signal in around(i - 1, 2)))
  }

  /** None of the first `n` receptions fails or brings a newline. */
  predicate Undecided(script: seq<Reception>, n: nat)
    requires n <= |script|
  {
    forall i | 0 <= i < n :: !script[i].failed && !script[i].newline
  }

  /** Unless the signal ends it, the loop ends with the first reception that can, or not at all. */
  lemma FirstDeciding(script: seq<Reception>, taken: nat)
    requires taken <= |script| && Undecided(script, if taken > 0 then taken - 1 else 0)
    requires Undecided(script, taken) ==> taken == |script|
    ensures Undecided(script, taken) <==> Undecided(script, |script|)
    ensures forall j | 0 <= j < |script| && Undecided(script, j) && !Undecided(script, j + 1) :: taken == j + 1
  {
    forall j | 0 <= j < |script| && Undecided(script, j) && !Undecided(script, j + 1)
      ensures taken == j + 1
    {
      assert script[j].failed || script[j].newline;
    }
  }

  lemma SignalledUnfold(around: (nat, nat) -> seq<Action>, i: nat)
    ensures Signalled(around, i) <==>
            Signal in around(i, 0) ||
            (i > 0 && (Signalled(around, i - 1) || Signal in around(i - 1, 1) || Signal in around(i - 1, 2)))
  {
  }

  lemma {:induction false} NeverSignalled(around: (nat, nat) -> seq<Action>, i: nat)
    requires forall j, step :: Signal !in around(j, step)
    ensures !Signalled(around, i)
  {
    if i > 0 {
      NeverSignalled(around, i - 1);
    }
  }

  class Server {
    var owner: Owner
    var exitSignal: bool
    var disk: seq<Byte>
    var pending: seq<Byte>
    var replies: map<Tid, seq<Byte>>
    ghost var threads: map<Tid, Pc>
    ghost var locks: seq<Tid>
    ghost var stream: seq<Tagged>

    constructor ()
      ensures State() == INITIAL
    {
      owner, exitSignal, disk, pending, replies := Unlocked, false, [], [], map[];
      threads, locks, stream := map[], [], [];
    }

    ghost function State(): State
      reads this
    {
      LogProtocol.State(owner, threads, exitSignal, disk, pending, replies, locks, stream)
    }

    /** What happens around the thread before its next step: any of `around` that can happen does. */
    method Meanwhile(t: Tid, around: seq<Action>, ghost s: LogProtocol.State, ghost before: seq<Action>)
      returns (ghost actions: seq<Action>)
      requires Following(s, before, t, State()) && t in threads
      modifies this`exitSignal, this`threads
      ensures Following(s, actions, t, State())
      ensures t in threads && threads[t] == old(threads)[t]
      ensures exitSignal == (old(exitSignal) || Signal in around)
    {
      hide Following;
      actions := before;
      for i := 0 to |around|
        invariant Following(s, actions, t, State())
        invariant t in threads && threads[t] == old(threads)[t]
        invariant exitSignal == (old(exitSignal) || Signal in around[..i])
      {
        assert around[..i + 1] == around[..i] + [around[i]];
        var a := around[i];
        if Arrival(a) && Enabled(State(), a) {
          Follow(s, actions, t, State(), a);
          actions := actions + [a];
          match a
          case SpawnClient(u) => threads := threads[u := ClientStart];
          case FireTimer(u) => threads := threads[u := TimerStart];
          case _ =>
        }
        if a.Signal? {
          exitSignal := true;
        }
      }
      assert around[..|around|] == around;
    }

    /** fwrite: stdio keeps the bytes and writes out `spill` of what it then holds. */
    method Fwrite(t: Tid, data: seq<Byte>, spill: nat)
      requires spill <= |pending| + |data|
      modifies this`disk, this`pending, this`stream
      ensures State() == LogProtocol.Fwrite(old(State()), t, data, spill)
      ensures stream == old(stream) + Tag(t, data)
      ensures disk + pending == old(disk) + old(pending) + data && |pending| == |old(pending)| + |data| - spill
    {
      var held := pending + data;
      disk := disk + held[..spill];
      pending := held[spill..];
      stream := stream + Tag(t, data);
    }

    /** One byte of the file is read and sent. */
    method SendByte(t: Tid, pos: nat, around: seq<Action>, ghost s: LogProtocol.State, ghost before: seq<Action>,
                    ghost flushed: bool)
      returns (ghost actions: seq<Action>)
      requires Following(s, before, t, State())
      requires At(State(), t, ClientSend(pos, flushed)) && pos < |disk| && t in replies
      modifies this`exitSignal, this`replies, this`threads
      ensures Following(s, actions, t, State())
      ensures At(State(), t, ClientSend(pos + 1, flushed))
      ensures replies == old(replies)[t := old(replies)[t] + [disk[pos]]]
      ensures old(exitSignal) ==> exitSignal
    {
      hide Following;
      actions := Meanwhile(t, around, s, before);
      Follow(s, actions, t, State(), SendNext(t));
      actions := actions + [SendNext(t)];
      replies := replies[t := replies[t] + [disk[pos]]];
      threads := threads[t := ClientSend(pos + 1, flushed)];
    }

    /**
     send_file_to_client: read the file from the start, one byte at a time, to its end.
     `around(i)` is what happens around the thread before its `i`-th step.
     */
    method SendFileToClient(t: Tid, around: nat -> seq<Action>, ghost s: LogProtocol.State, ghost before: seq<Action>,
                            ghost flushed: bool)
      returns (ghost actions: seq<Action>)
      requires Following(s, before, t, State())
      requires At(State(), t, ClientSend(0, flushed)) && t in replies && replies[t] == []
      modifies this`exitSignal, this`replies, this`threads
      ensures Following(s, actions, t, State())
      ensures At(State(), t, Leaving(if flushed then Flushed else ExitSeen))
      ensures replies == old(replies)[t := disk]
      ensures old(exitSignal) ==> exitSignal
    {
      hide Following;
      actions := before;
      assert replies[t := []] == replies;
      var pos := 0;
      while pos < |disk|
        invariant 0 <= pos <= |disk| && replies == old(replies)[t := disk[..pos]]
        invariant old(exitSignal) ==> exitSignal
        invariant Following(s, actions, t, State())
        invariant At(State(), t, ClientSend(pos, flushed))
      {
        actions := SendByte(t, pos, around(pos), s, actions, flushed);
        assert disk[..pos + 1] == disk[..pos] + [disk[pos]];
        pos := pos + 1;
      }
      assert disk[..pos] == disk;
      actions := Meanwhile(t, around(pos), s, actions);
      Follow(s, actions, t, State(), SendNext(t));
      actions := actions + [SendNext(t)];
      threads := threads[t := Leaving(if flushed then Flushed else ExitSeen)];
    }

    method LeaveAndUnlock(t: Tid, around: seq<Action>, ghost s: LogProtocol.State, ghost before: seq<Action>)
      returns (ghost actions: seq<Action>)
      requires Following(s, before, t, State())
      requires t in threads && threads[t].Leaving?
      modifies this`exitSignal, this`owner, this`threads
      ensures Following(s, actions, t, State())
      ensures At(State(), t, Done(old(threads)[t].how)) && owner == Unlocked
      ensures old(exitSignal) ==> exitSignal
    {
      hide Following;
      actions := Meanwhile(t, around, s, before);
      Follow(s, actions, t, State(), Unlock(t));
      actions := actions + [Unlock(t)];
      owner := Unlocked;
      threads := threads[t := Done(threads[t].how)];
    }

    /** recv, and fwrite unless it failed; `ok` says that it did not. */
    method ReceiveAndWrite(t: Tid, r: Reception, around: seq<Action>, ghost s: LogProtocol.State, ghost before: seq<Action>)
      returns (ok: bool, ghost actions: seq<Action>)
      requires Following(s, before, t, State())
      requires At(State(), t, ClientRecv) && |r.data| < BUFLEN
      modifies this
      ensures Following(s, actions, t, State())
      ensures ok <==> !r.failed
      ensures At(State(), t, if ok then ClientTest else Leaving(RecvFailed))
      ensures replies == old(replies) && owner == old(owner) && locks == old(locks)
      ensures stream == old(stream) + Tag(t, if ok then r.data else [])
      ensures disk + pending == old(disk) + old(pending) + if ok then r.data else []
      ensures exitSignal == (old(exitSignal) || Signal in around)
    {
      hide Following;
      actions := Meanwhile(t, around, s, before);
      ok := !r.failed;
      if !ok {
        Follow(s, actions, t, State(), RecvError(t));
        actions := actions + [RecvError(t)];
        threads := threads[t := Leaving(RecvFailed)];
      } else {
        var spill := if r.spill <= |pending| + |r.data| then r.spill else |pending| + |r.data|;
        Follow(s, actions, t, State(), RecvAndWrite(t, r.data, spill));
        actions := actions + [RecvAndWrite(t, r.data, spill)];
        Fwrite(t, r.data, spill);
        threads := threads[t := ClientTest];
      }
    }

    /** The newline test, with fflush and break when it succeeds. */
    method FlushOnNewline(t: Tid, found: bool, around: seq<Action>, ghost s: LogProtocol.State, ghost before: seq<Action>)
      returns (ghost actions: seq<Action>)
      requires Following(s, before, t, State()) && At(State(), t, ClientTest)
      modifies this
      ensures Following(s, actions, t, State())
      ensures At(State(), t, if found then ClientSend(0, true) else ClientLoop)
      ensures replies == old(replies) && owner == old(owner) && locks == old(locks) && stream == old(stream)
      ensures found ==> disk == old(disk) + old(pending) && pending == []
      ensures !found ==> disk == old(disk) && pending == old(pending)
      ensures exitSignal == (old(exitSignal) || Signal in around)
    {
      hide Following;
      actions := Meanwhile(t, around, s, before);
      Follow(s, actions, t, State(), TestNewline(t, found));
      actions := actions + [TestNewline(t, found)];
      if found {
        disk := disk + pending;
        pending := [];
        threads := threads[t := ClientSend(0, true)];
      } else {
        threads := threads[t := ClientLoop];
      }
    }

    /** The loop's body: `failed` leaves the thread, `found` leaves the loop. */
    method ReceiveOnce(t: Tid, r: Reception, aroundRecv: seq<Action>, aroundTest: seq<Action>,
                       ghost s: LogProtocol.State, ghost before: seq<Action>)
      returns (failed: bool, found: bool, ghost actions: seq<Action>)
      requires Following(s, before, t, State())
      requires At(State(), t, ClientRecv) && |r.data| < BUFLEN
      modifies this
      ensures Following(s, actions, t, State())
      ensures failed == r.failed && found == (!r.failed && r.newline)
      ensures At(State(), t, if failed then Leaving(RecvFailed) else if found then ClientSend(0, true) else ClientLoop)
      ensures replies == old(replies) && owner == old(owner) && locks == old(locks)
      ensures stream == old(stream) + Tag(t, if failed then [] else r.data)
      ensures disk + pending == old(disk) + old(pending) + (if failed then [] else r.data) && (found ==> pending == [])
      ensures !failed ==> exitSignal == (old(exitSignal) || Signal in aroundRecv || Signal in aroundTest)
    {
      hide Following, Tag;
      var ok;
      ok, actions := ReceiveAndWrite(t, r, aroundRecv, s, before);
      failed, found := !ok, false;
      if ok {
        found := r.newline;
        actions := FlushOnNewline(t, found, aroundTest, s, actions);
        assert found ==> disk + [] == disk;
      }
    }

    /** `EXIT_SIGNAL == false` at the top of the loop. */
    method TestExit(t: Tid, around: seq<Action>, ghost s: LogProtocol.State, ghost before: seq<Action>)
      returns (go: bool, ghost actions: seq<Action>)
      requires Following(s, before, t, State())
      requires At(State(), t, ClientLoop)
      modifies this`exitSignal, this`threads
      ensures Following(s, actions, t, State())
      ensures go <==> !exitSignal
      ensures exitSignal == (old(exitSignal) || Signal in around)
      ensures At(State(), t, if go then ClientRecv else ClientSend(0, false))
    {
      hide Following;
      actions := Meanwhile(t, around, s, before);
      Follow(s, actions, t, State(), CheckExit(t));
      actions := actions + [CheckExit(t)];
      go := !exitSignal;
      threads := threads[t := if go then ClientRecv else ClientSend(0, false)];
    }

    method ClientTakesMutex(t: Tid) returns (ghost actions: seq<Action>)
      requires owner == Unlocked && At(State(), t, ClientStart)
      modifies this`owner, this`locks, this`replies, this`threads
      ensures Following(old(State()), actions, t, State())
      ensures At(State(), t, ClientLoop) && owner == LockedBy(t)
      ensures replies == old(replies)[t := []] && locks == old(locks) + [t]
    {
      hide Following;
      ghost var s := State();
      Begin(s, t);
      Follow(s, [], t, s, Lock(t));
      actions := [] + [Lock(t)];
      owner := LockedBy(t);
      locks := locks + [t];
      replies := replies[t := []];
      threads := threads[t := ClientLoop];
    }

    /**
     The receive loop.  `script` is the client's behaviour; when it is used up the thread stays
     blocked in recv.  `around(i, step)` is what happens around the thread in the `i`-th pass
     before the exit test, recv and the newline test.
     */
    method ReceiveLoop(t: Tid, script: seq<Reception>, around: (nat, nat) -> seq<Action>,
                       ghost s: LogProtocol.State, ghost before: seq<Action>)
      returns (blocked: bool, failed: bool, ghost flushed: bool, taken: nat, ghost actions: seq<Action>)
      requires Following(s, before, t, State()) && At(State(), t, ClientLoop)
      requires forall r | r in script :: |r.data| < BUFLEN
      modifies this
      ensures Following(s, actions, t, State())
      ensures replies == old(replies) && owner == old(owner) && locks == old(locks)
      ensures taken <= |script| && Undecided(script, if taken > 0 then taken - 1 else 0)
      ensures taken > 0 ==> !old(exitSignal)
      ensures forall i | 0 <= i < taken :: !Signalled(around, i)
      ensures stream == old(stream) + Tag(t, Received(script[..taken]))
      ensures disk + pending == old(disk) + old(pending) + Received(script[..taken])
      ensures failed || flushed ==> !blocked
      ensures blocked ==> taken == |script| && !old(exitSignal) && !Signalled(around, taken)
      ensures failed ==> !flushed && taken > 0 && script[taken - 1].failed
      ensures flushed ==> taken > 0 && !script[taken - 1].failed && script[taken - 1].newline && pending == []
      ensures Undecided(script, taken) <==> !failed && !flushed
      ensures !blocked && !failed && !flushed ==> exitSignal && (old(exitSignal) || Signalled(around, taken))
      ensures At(State(), t, if blocked then ClientRecv else if failed then Leaving(RecvFailed)
                             else ClientSend(0, flushed))
    {
      hide Following, Received, Tag, Signalled, At;
      actions := before;
      blocked, failed, flushed, taken := false, false, false, 0;
      var inLoop := true;
      NothingReceived(script, t);
      while inLoop
        invariant taken <= |script|
        invariant Following(s, actions, t, State())
        invariant replies == old(replies) && owner == old(owner) && locks == old(locks)
        invariant stream == old(stream) + Tag(t, Received(script[..taken]))
        invariant disk + pending == old(disk) + old(pending) + Received(script[..taken])
        invariant taken > 0 ==> !old(exitSignal)
        invariant forall i | 0 <= i < taken :: !Signalled(around, i)
        invariant Undecided(script, if taken > 0 then taken - 1 else 0)
        invariant inLoop ==>
                    && At(State(), t, ClientLoop) && !failed && !flushed
                    && exitSignal == (old(exitSignal) ||
                         (taken > 0 && (Signal in around(taken - 1, 1) || Signal in around(taken - 1, 2))))
        invariant !inLoop ==> At(State(), t, if failed then Leaving(RecvFailed) else ClientSend(0, flushed))
        invariant failed ==> !flushed && taken > 0 && script[taken - 1].failed
        invariant flushed ==> pending == [] && taken > 0 && !script[taken - 1].failed && script[taken - 1].newline
        invariant Undecided(script, taken) <==> !failed && !flushed
        invariant !inLoop && !failed && !flushed ==> exitSignal && (old(exitSignal) || Signalled(around, taken))
        decreases |script| - taken, inLoop
      {
        SignalledUnfold(around, taken);
        inLoop, actions := TestExit(t, around(taken, 0), s, actions);
        if inLoop {
          if taken == |script| {
            blocked := true;
            return;
          }
          OneMore(script, taken, t, old(stream), old(disk) + old(pending));
          var found;
          failed, found, actions := ReceiveOnce(t, script[taken], around(taken, 1), around(taken, 2), s, actions);
          inLoop, flushed := !failed && !found, found;
          taken := taken + 1;
        }
      }
    }

    /** What follows the loop: the file is sent back unless recv failed, and the mutex is released. */
    method Depart(t: Tid, failed: bool, around: seq<Action>, sending: nat -> seq<Action>,
                  ghost flushed: bool, ghost s: LogProtocol.State, ghost before: seq<Action>)
      returns (ghost actions: seq<Action>)
      requires Following(s, before, t, State()) && t in replies && replies[t] == []
      requires At(State(), t, if failed then Leaving(RecvFailed) else ClientSend(0, flushed))
      modifies this`exitSignal, this`owner, this`replies, this`threads
      ensures Following(s, actions, t, State())
      ensures Finished(State(), t, if failed then RecvFailed else if flushed then Flushed else ExitSeen)
      ensures owner == Unlocked && (old(exitSignal) ==> exitSignal)
      ensures replies == old(replies)[t := if failed then [] else disk]
    {
      hide Following;
      actions := before;
      assert replies[t := []] == replies;
      if !failed {
        actions := SendFileToClient(t, sending, s, actions, flushed);
      }
      actions := LeaveAndUnlock(t, around, s, actions);
    }

    /**
     thread_socket_receive once pthread_mutex_lock has returned.  `script` is the client's
     behaviour; when it is used up the thread stays blocked in recv, holding the mutex.
     `around(i, step)` is what happens around the thread in the `i`-th pass before the exit
     test, recv, the newline test and the unlocking (`step` 0 to 3); `sending` likewise
     before each byte sent.

     `taken` receptions are used up, each in a pass whose exit test saw no signal; all
     but the last are received and have no newline.  Their bytes are written in order,
     and how the thread leaves is decided by the last one or by the signal.
     */
    method ThreadSocketReceive(t: Tid, script: seq<Reception>, around: (nat, nat) -> seq<Action>,
                               sending: nat -> seq<Action>)
      returns (blocked: bool, taken: nat, ghost actions: seq<Action>)
      requires owner == Unlocked && At(State(), t, ClientStart)
      requires forall r | r in script :: |r.data| < BUFLEN
      modifies this
      ensures Following(old(State()), actions, t, State())
      ensures taken <= |script| && Undecided(script, if taken > 0 then taken - 1 else 0)
      ensures taken > 0 ==> !old(exitSignal)
      ensures forall i | 0 <= i < taken :: !Signalled(around, i)
      ensures stream == old(stream) + Tag(t, Received(script[..taken])) && locks == old(locks) + [t]
      ensures disk + pending == old(disk) + old(pending) + Received(script[..taken])
      ensures t in replies && replies == old(replies)[t := replies[t]]
      ensures blocked ==>
                && At(State(), t, ClientRecv) && owner == LockedBy(t) && replies[t] == []
                && taken == |script| && !old(exitSignal) && !Signalled(around, taken)
                && Undecided(script, taken)
      ensures !blocked ==>
                && owner == Unlocked
                && (Finished(State(), t, Flushed) || Finished(State(), t, RecvFailed) || Finished(State(), t, ExitSeen))
      ensures Finished(State(), t, Flushed) ==>
                && taken > 0 && !script[taken - 1].failed && script[taken - 1].newline
                && replies[t] == disk == old(disk) + old(pending) + Received(script[..taken]) && pending == []
      ensures Finished(State(), t, RecvFailed) ==>
                taken > 0 && script[taken - 1].failed && replies[t] == []
      ensures Finished(State(), t, ExitSeen) ==>
                && exitSignal && (old(exitSignal) || Signalled(around, taken))
                && Undecided(script, taken)
                && replies[t] == disk
      ensures !old(exitSignal) && (forall i, step :: Signal !in around(i, step)) ==>
                && (blocked <==> Undecided(script, |script|))
                && forall j | 0 <= j < |script| && Undecided(script, j) && !Undecided(script, j + 1) ::
                     taken == j + 1 && Finished(State(), t, if script[j].failed then RecvFailed else Flushed)
    {
      hide Following, Received, Tag, Signalled, Undecided;
      ghost var s := State();
      var failed;
      ghost var flushed;
      actions := ClientTakesMutex(t);
      blocked, failed, flushed, taken, actions := ReceiveLoop(t, script, around, s, actions);
      if !old(exitSignal) && forall i, step :: Signal !in around(i, step) {
        NeverSignalled(around, taken);
        FirstDeciding(script, taken);
      }
      if !blocked {
        actions := Depart(t, failed, around(taken, 3), sending, flushed, s, actions);
      }
    }

    method TimerTakesMutex(t: Tid) returns (ghost actions: seq<Action>)
      requires owner == Unlocked && At(State(), t, TimerStart)
      modifies this`owner, this`locks, this`threads
      ensures Following(old(State()), actions, t, State())
      ensures At(State(), t, TimerWrite) && owner == LockedBy(t) && locks == old(locks) + [t]
    {
      hide Following;
      ghost var s := State();
      Begin(s, t);
      Follow(s, [], t, s, Lock(t));
      actions := [] + [Lock(t)];
      owner := LockedBy(t);
      locks := locks + [t];
      threads := threads[t := TimerWrite];
    }

    /** timer_thread once pthread_mutex_lock has returned. */
    method TimerThread(t: Tid, timestamp: seq<Byte>, spill: nat, around: nat -> seq<Action>)
      returns (ghost actions: seq<Action>)
      requires owner == Unlocked && At(State(), t, TimerStart)
      requires |timestamp| < BUFLEN && spill <= |pending| + |timestamp|
      modifies this
      ensures Following(old(State()), actions, t, State())
      ensures Finished(State(), t, Timer) && owner == Unlocked
      ensures stream == old(stream) + Tag(t, timestamp) && locks == old(locks) + [t] && replies == old(replies)
      ensures disk + pending == old(disk) + old(pending) + timestamp && |pending| == |old(pending)| + |timestamp| - spill
    {
      hide Following;
      ghost var s := State();
      actions := TimerTakesMutex(t);
      actions := Meanwhile(t, around(0), s, actions);
      Follow(s, actions, t, State(), WriteTimestamp(t, timestamp, spill));
      actions := actions + [WriteTimestamp(t, timestamp, spill)];
      Fwrite(t, timestamp, spill);
      threads := threads[t := Leaving(Timer)];
      actions := LeaveAndUnlock(t, around(1), s, actions);
    }
  }
}
