/**
 The mutex protocol of the socket server: any number of client threads
 (server/src/aesdsocket_thread.c:60-115) and timer callbacks
 (server/src/timer_thread.c:6-29) append to one stdio stream, and an exit signal
 may arrive at any moment.  One action is one step of one thread; a run is any
 sequence of enabled actions.

 stdio may write out any prefix of its pending bytes during fwrite; strchr may or may
 not see a newline, since it also looks at bytes left over from earlier receptions.
 */
module LogProtocol {

  import opened Basics

  type Tid = nat

  const BUFLEN := 128

  datatype Ending = Flushed | ExitSeen | RecvFailed | Timer

  datatype Pc =
    | ClientStart                             // about to lock
    | ClientLoop                              // at the test of EXIT_SIGNAL
    | ClientRecv                              // about to receive and write
    | ClientTest                              // about to look for a newline
    | ClientSend(pos: nat, flushed: bool)     // sending the file back, byte by byte
    | TimerStart                              // about to lock
    | TimerWrite                              // about to write the timestamp
    | Leaving(how: Ending)                    // about to unlock
    | Done(how: Ending)

  predicate Inside(pc: Pc) {
    !pc.ClientStart? && !pc.TimerStart? && !pc.Done?
  }

  predicate Started(pc: Pc) {
    !pc.ClientStart? && !pc.TimerStart?
  }

  /** A byte of the stream and the thread that wrote it. */
  datatype Tagged = Tagged(tid: Tid, byte: Byte)

  datatype Owner = Unlocked | LockedBy(tid: Tid)

  /**
   `locks` is the order in which the mutex was taken and `stream` everything ever
   handed to fwrite; both are history, read by no step.
   */
  datatype State = State(
    owner: Owner, threads: map<Tid, Pc>, exitSignal: bool,
    disk: seq<Byte>, pending: seq<Byte>,
    replies: map<Tid, seq<Byte>>,
    locks: seq<Tid>, stream: seq<Tagged>)

  const INITIAL := State(Unlocked, map[], false, [], [], map[], [], [])

  datatype Action =
    | SpawnClient(t: Tid)
    | FireTimer(t: Tid)
    | Signal
    | Lock(t: Tid)
    | CheckExit(t: Tid)
    | RecvError(t: Tid)
    | RecvAndWrite(t: Tid, data: seq<Byte>, spill: nat)
    | TestNewline(t: Tid, found: bool)
    | SendNext(t: Tid)
    | WriteTimestamp(t: Tid, data: seq<Byte>, spill: nat)
    | Unlock(t: Tid)

  predicate At(s: State, t: Tid, pc: Pc) {
    t in s.threads && s.threads[t] == pc
  }

  predicate Enabled(s: State, a: Action) {
    match a
    case SpawnClient(t) => t !in s.threads
    case FireTimer(t) => t !in s.threads
    case Signal => true
    case Lock(t) => s.owner == Unlocked && (At(s, t, ClientStart) || At(s, t, TimerStart))
    case CheckExit(t) => At(s, t, ClientLoop)
    case RecvError(t) => At(s, t, ClientRecv)
    case RecvAndWrite(t, data, spill) => At(s, t, ClientRecv) && |data| < BUFLEN && spill <= |s.pending| + |data|
    case TestNewline(t, _) => At(s, t, ClientTest)
    case SendNext(t) => t in s.threads && s.threads[t].ClientSend?
    case WriteTimestamp(t, data, spill) => At(s, t, TimerWrite) && |data| < BUFLEN && spill <= |s.pending| + |data|
    case Unlock(t) => t in s.threads && s.threads[t].Leaving?
  }

  function Tag(t: Tid, data: seq<Byte>): seq<Tagged> {
    seq(|data|, i requires 0 <= i < |data| => Tagged(t, data[i]))
  }

  function BytesOf(stream: seq<Tagged>): seq<Byte> {
    seq(|stream|, i requires 0 <= i < |stream| => stream[i].byte)
  }

  /** fwrite by thread `t`, after which stdio has written out `spill` of the bytes it holds. */
  function Fwrite(s: State, t: Tid, data: seq<Byte>, spill: nat): State
    requires spill <= |s.pending| + |data|
  {
    var held := s.pending + data;
    s.(disk := s.disk + held[..spill], pending := held[spill..], stream := s.stream + Tag(t, data))
  }

  function Goto(s: State, t: Tid, pc: Pc): State {
    s.(threads := s.threads[t := pc])
  }

  function Apply(s: State, a: Action): State
    requires Enabled(s, a)
  {
    match a
    case SpawnClient(t) => Goto(s, t, ClientStart)
    case FireTimer(t) => Goto(s, t, TimerStart)
    case Signal => s.(exitSignal := true)
    case Lock(t) =>
      var taken := s.(owner := LockedBy(t), locks := s.locks + [t]);
      if s.threads[t].ClientStart? then Goto(taken.(replies := s.replies[t := []]), t, ClientLoop)
      else Goto(taken, t, TimerWrite)
    case CheckExit(t) => Goto(s, t, if s.exitSignal then ClientSend(0, false) else ClientRecv)
    case RecvError(t) => Goto(s, t, Leaving(RecvFailed))
    case RecvAndWrite(t, data, spill) => Goto(Fwrite(s, t, data, spill), t, ClientTest)
    case TestNewline(t, found) =>
      if found then Goto(s.(disk := s.disk + s.pending, pending := []), t, ClientSend(0, true))
      else Goto(s, t, ClientLoop)
    case SendNext(t) =>
      var pc := s.threads[t];
      if pc.pos < |s.disk| then
        var sent := if t in s.replies then s.replies[t] else [];
        Goto(s.(replies := s.replies[t := sent + [s.disk[pc.pos]]]), t, ClientSend(pc.pos + 1, pc.flushed))
      else Goto(s, t, Leaving(if pc.flushed then Flushed else ExitSeen))
    case WriteTimestamp(t, data, spill) => Goto(Fwrite(s, t, data, spill), t, Leaving(Timer))
    case Unlock(t) => Goto(s.(owner := Unlocked), t, Done(s.threads[t].how))
  }

  // ------------------------------------------------------------------
  // The stream, regrouped by thread in lock order
  // ------------------------------------------------------------------

  /** What thread `t` wrote. */
  function Project(stream: seq<Tagged>, t: Tid): seq<Tagged> {
    if stream == [] then []
    else
      var last := stream[|stream| - 1];
      Project(stream[..|stream| - 1], t) + if last.tid == t then [last] else []
  }

  /** All of the first thread's writes, then all of the second's, and so on. */
  function Regrouped(stream: seq<Tagged>, locks: seq<Tid>): seq<Tagged> {
    if locks == [] then []
    else Regrouped(stream, locks[..|locks| - 1]) + Project(stream, locks[|locks| - 1])
  }

  lemma {:induction false} ProjectAppend(stream: seq<Tagged>, t: Tid, data: seq<Byte>, u: Tid)
    ensures Project(stream + Tag(t, data), u) == Project(stream, u) + if u == t then Tag(t, data) else []
    decreases |data|
  {
    var all := stream + Tag(t, data);
    if data == [] {
      assert all == stream;
    } else {
      var front := data[..|data| - 1];
      assert Tag(t, data) == Tag(t, front) + [Tagged(t, data[|data| - 1])];
      assert all[..|all| - 1] == stream + Tag(t, front);
      ProjectAppend(stream, t, front, u);
    }
  }

  lemma {:induction false} RegroupedUnaffected(stream: seq<Tagged>, t: Tid, data: seq<Byte>, locks: seq<Tid>)
    requires t !in locks
    ensures Regrouped(stream + Tag(t, data), locks) == Regrouped(stream, locks)
    decreases |locks|
  {
    if locks != [] {
      RegroupedUnaffected(stream, t, data, locks[..|locks| - 1]);
      ProjectAppend(stream, t, data, locks[|locks| - 1]);
    }
  }

  lemma {:induction false} ProjectMembers(stream: seq<Tagged>, t: Tid)
    ensures forall x | x in Project(stream, t) :: x.tid == t && x in stream
    ensures (forall x | x in stream :: x.tid != t) ==> Project(stream, t) == []
  {
    if stream != [] {
      var front := stream[..|stream| - 1];
      assert stream == front + [stream[|stream| - 1]];
      ProjectMembers(front, t);
    }
  }

  lemma {:induction false} RegroupedMembers(stream: seq<Tagged>, locks: seq<Tid>)
    ensures forall x | x in Regrouped(stream, locks) :: x.tid in locks
    decreases |locks|
  {
    if locks != [] {
      var front := locks[..|locks| - 1];
      assert locks == front + [locks[|locks| - 1]];
      RegroupedMembers(stream, front);
      ProjectMembers(stream, locks[|locks| - 1]);
    }
  }

  lemma {:induction false} RegroupedGrows(stream: seq<Tagged>, locks: seq<Tid>, i: nat, j: nat)
    requires i <= j <= |locks|
    ensures Regrouped(stream, locks[..i]) <= Regrouped(stream, locks[..j])
    decreases j
  {
    if i < j {
      assert locks[..j][..j - 1] == locks[..j - 1];
      RegroupedGrows(stream, locks, i, j - 1);
    }
  }

  predicate NoRepeats(s: seq<Tid>) {
    forall i, j | 0 <= i < j < |s| :: s[i] != s[j]
  }

  /** The last thread's section is exactly the part tagged with it. */
  lemma LastSection(stream: seq<Tagged>, locks: seq<Tid>, i: nat)
    requires NoRepeats(locks) && locks != [] && i < |Regrouped(stream, locks)|
    ensures var front, last := locks[..|locks| - 1], locks[|locks| - 1];
            && (Regrouped(stream, locks)[i].tid == last <==> i >= |Regrouped(stream, front)|)
            && (i < |Regrouped(stream, front)| ==> Regrouped(stream, front)[i] == Regrouped(stream, locks)[i])
  {
    var front, last := locks[..|locks| - 1], locks[|locks| - 1];
    var a, b := Regrouped(stream, front), Project(stream, last);
    RegroupedMembers(stream, front);
    ProjectMembers(stream, last);
    if i < |a| {
      assert a[i] in a && a[i].tid in front;
    } else {
      assert b[i - |a|] in b;
    }
  }

  /** In a regrouped stream nobody's writes are split by anyone else's. */
  lemma {:induction false} RegroupedContiguous(stream: seq<Tagged>, locks: seq<Tid>, i: nat, j: nat, k: nat)
    requires NoRepeats(locks)
    requires i < j < k < |Regrouped(stream, locks)|
    requires Regrouped(stream, locks)[i].tid == Regrouped(stream, locks)[k].tid
    ensures Regrouped(stream, locks)[j].tid == Regrouped(stream, locks)[i].tid
    decreases |locks|
  {
    LastSection(stream, locks, i);
    LastSection(stream, locks, j);
    LastSection(stream, locks, k);
    if k < |Regrouped(stream, locks[..|locks| - 1])| {
      RegroupedContiguous(stream, locks[..|locks| - 1], i, j, k);
    }
  }

  lemma {:induction false} BytesOfConcat(a: seq<Tagged>, b: seq<Tagged>)
    ensures BytesOf(a + b) == BytesOf(a) + BytesOf(b)
  {
  }

  /** Tagging keeps every byte and its place. */
  lemma TagBytes(t: Tid, data: seq<Byte>)
    ensures BytesOf(Tag(t, data)) == data
    ensures forall x | x in Tag(t, data) :: x.tid == t
  {
  }

  // ------------------------------------------------------------------
  // The invariant
  // ------------------------------------------------------------------

  /** A thread is inside its critical section exactly when it owns the mutex. */
  ghost predicate Mutex(s: State) {
    && (s.owner.LockedBy? ==> s.owner.tid in s.threads)
    && forall t | t in s.threads :: Inside(s.threads[t]) <==> s.owner == LockedBy(t)
  }

  /** Every thread takes the mutex at most once, and the owner took it last. */
  ghost predicate LockOrder(s: State) {
    && NoRepeats(s.locks)
    && (forall t :: t in s.locks <==> t in s.threads && Started(s.threads[t]))
    && (s.owner.LockedBy? ==> s.locks != [] && s.locks[|s.locks| - 1] == s.owner.tid)
  }

  /** The stream is the concatenation, in lock order, of unsplit contributions; disk and stdio hold exactly it. */
  ghost predicate Log(s: State) {
    s.stream == Regrouped(s.stream, s.locks) && BytesOf(s.stream) == s.disk + s.pending
  }

  /** The log when thread `locks[k]` had finished writing. */
  function LogUpTo(s: State, k: nat): seq<Byte>
    requires k < |s.locks|
  {
    BytesOf(Regrouped(s.stream, s.locks[..k + 1]))
  }

  ghost predicate GotWholeLog(s: State, t: Tid) {
    t in s.replies && exists k :: 0 <= k < |s.locks| && s.locks[k] == t && s.replies[t] == LogUpTo(s, k)
  }

  ghost predicate GotPrefix(s: State, t: Tid) {
    t in s.replies && s.replies[t] <= BytesOf(s.stream)
  }

  ghost predicate ReplyOk(s: State, t: Tid)
    requires t in s.threads
  {
    match s.threads[t]
    case ClientLoop => t in s.replies && s.replies[t] == []
    case ClientRecv => t in s.replies && s.replies[t] == []
    case ClientTest => t in s.replies && s.replies[t] == []
    case ClientSend(pos, flushed) =>
      t in s.replies && pos <= |s.disk| && s.replies[t] == s.disk[..pos] && (flushed ==> s.pending == [])
    case Leaving(how) => (how.Flushed? ==> GotWholeLog(s, t)) && (how.ExitSeen? ==> GotPrefix(s, t))
    case Done(how) => (how.Flushed? ==> GotWholeLog(s, t)) && (how.ExitSeen? ==> GotPrefix(s, t))
    case _ => true
  }

  ghost predicate Replies(s: State) {
    forall t | t in s.threads :: ReplyOk(s, t)
  }

  ghost predicate Inv(s: State) {
    Mutex(s) && LockOrder(s) && Log(s) && Replies(s)
  }

  lemma StepKeepsMutex(s: State, a: Action)
    requires Mutex(s) && Enabled(s, a)
    ensures Mutex(Apply(s, a))
  {
  }

  lemma LockKeepsLockOrder(s: State, t: Tid)
    requires LockOrder(s) && Enabled(s, Lock(t))
    ensures LockOrder(Apply(s, Lock(t)))
  {
    assert t !in s.locks;
    var s' := Apply(s, Lock(t));
    assert NoRepeats(s.locks + [t]);
    forall u
      ensures u in s'.locks <==> u in s'.threads && Started(s'.threads[u])
    {
      assert u in s.locks <==> u in s.threads && Started(s.threads[u]);
    }
  }

  /** One thread moves without passing its lock, or a new one appears before it. */
  lemma MoveKeepsLockOrder(s: State, s': State, t: Tid, pc: Pc)
    requires LockOrder(s) && s'.locks == s.locks && s'.threads == s.threads[t := pc]
    requires s'.owner == s.owner || s'.owner == Unlocked
    requires Started(pc) <==> t in s.threads && Started(s.threads[t])
    ensures LockOrder(s')
  {
  }

  lemma StepKeepsLockOrder(s: State, a: Action)
    requires LockOrder(s) && Enabled(s, a)
    ensures LockOrder(Apply(s, a))
  {
    match a
    case Lock(t) => LockKeepsLockOrder(s, t);
    case Signal =>
    case _ =>
      hide LockOrder;
      MoveKeepsLockOrder(s, Apply(s, a), a.t, Apply(s, a).threads[a.t]);
  }

  lemma OwnerExtendsLog(stream: seq<Tagged>, locks: seq<Tid>, t: Tid, data: seq<Byte>)
    requires stream == Regrouped(stream, locks) && NoRepeats(locks) && locks != [] && locks[|locks| - 1] == t
    ensures stream + Tag(t, data) == Regrouped(stream + Tag(t, data), locks)
  {
    var front := locks[..|locks| - 1];
    LastIsNew(locks);
    RegroupedUnfold(stream, locks);
    RegroupedUnfold(stream + Tag(t, data), locks);
    RegroupedUnaffected(stream, t, data, front);
    ProjectAppend(stream, t, data, t);
    hide Regrouped, Project, Tag, NoRepeats;
    Regroup(stream, Regrouped(stream, front), Project(stream, t), Tag(t, data));
  }

  lemma Regroup(whole: seq<Tagged>, a: seq<Tagged>, b: seq<Tagged>, c: seq<Tagged>)
    requires whole == a + b
    ensures whole + c == a + (b + c)
  {
  }

  lemma LastIsNew(locks: seq<Tid>)
    requires NoRepeats(locks) && locks != []
    ensures locks[|locks| - 1] !in locks[..|locks| - 1]
  {
  }

  lemma RegroupedUnfold(stream: seq<Tagged>, locks: seq<Tid>)
    requires locks != []
    ensures Regrouped(stream, locks) == Regrouped(stream, locks[..|locks| - 1]) + Project(stream, locks[|locks| - 1])
  {
  }

  lemma FwriteKeepsLog(s: State, t: Tid, data: seq<Byte>, spill: nat)
    requires Log(s) && NoRepeats(s.locks) && s.locks != [] && s.locks[|s.locks| - 1] == t
    requires spill <= |s.pending| + |data|
    ensures Log(Fwrite(s, t, data, spill))
  {
    OwnerExtendsLog(s.stream, s.locks, t, data);
    BytesOfConcat(s.stream, Tag(t, data));
    assert BytesOf(Tag(t, data)) == data;
    hide Regrouped, Tag, BytesOf, NoRepeats;
    SpillSplits(s.disk, s.pending, data, spill);
  }

  lemma SpillSplits(disk: seq<Byte>, pending: seq<Byte>, data: seq<Byte>, spill: nat)
    requires spill <= |pending| + |data|
    ensures (disk + pending) + data == (disk + (pending + data)[..spill]) + (pending + data)[spill..]
  {
  }

  lemma LockKeepsLog(s: State, t: Tid)
    requires Log(s) && t !in s.locks
    ensures s.stream == Regrouped(s.stream, s.locks + [t])
  {
    RegroupedMembers(s.stream, s.locks);
    ProjectMembers(s.stream, t);
    assert (s.locks + [t])[..|s.locks + [t]| - 1] == s.locks;
  }

  lemma StepKeepsLog(s: State, a: Action)
    requires Inv(s) && Enabled(s, a)
    ensures Log(Apply(s, a))
  {
    match a
    case RecvAndWrite(t, data, spill) => FwriteKeepsLog(s, t, data, spill);
    case WriteTimestamp(t, data, spill) => FwriteKeepsLog(s, t, data, spill);
    case Lock(t) => LockKeepsLog(s, t);
    case _ =>
  }

  // ------------------------------------------------------------------
  // Replies, once sent, keep their meaning
  // ------------------------------------------------------------------

  /** What earlier threads contributed never changes. */
  lemma FwriteKeepsLogUpTo(s: State, t: Tid, data: seq<Byte>, spill: nat, k: nat)
    requires NoRepeats(s.locks) && k + 1 < |s.locks| && s.locks[|s.locks| - 1] == t
    requires spill <= |s.pending| + |data|
    ensures LogUpTo(Fwrite(s, t, data, spill), k) == LogUpTo(s, k)
  {
    assert t !in s.locks[..k + 1];
    RegroupedUnaffected(s.stream, t, data, s.locks[..k + 1]);
  }

  lemma FwriteKeepsReply(s: State, t: Tid, data: seq<Byte>, spill: nat, u: Tid)
    requires NoRepeats(s.locks) && s.locks != [] && s.locks[|s.locks| - 1] == t && u != t
    requires spill <= |s.pending| + |data|
    ensures GotWholeLog(s, u) ==> GotWholeLog(Fwrite(s, t, data, spill), u)
    ensures GotPrefix(s, u) ==> GotPrefix(Fwrite(s, t, data, spill), u)
  {
    if GotWholeLog(s, u) {
      var k :| 0 <= k < |s.locks| && s.locks[k] == u && s.replies[u] == LogUpTo(s, k);
      FwriteKeepsLogUpTo(s, t, data, spill, k);
    }
    BytesOfConcat(s.stream, Tag(t, data));
  }

  lemma LockKeepsReply(s: State, t: Tid, u: Tid, s': State)
    requires u != t && s'.locks == s.locks + [t] && s'.stream == s.stream
    requires u in s.replies ==> u in s'.replies && s'.replies[u] == s.replies[u]
    ensures GotWholeLog(s, u) ==> GotWholeLog(s', u)
    ensures GotPrefix(s, u) ==> GotPrefix(s', u)
  {
    if GotWholeLog(s, u) {
      var k :| 0 <= k < |s.locks| && s.locks[k] == u && s.replies[u] == LogUpTo(s, k);
      assert s'.locks[..k + 1] == s.locks[..k + 1];
      assert s'.locks[k] == u && s'.replies[u] == LogUpTo(s', k);
    }
  }

  /** At end of file after a flush the owner has been sent everything. */
  lemma EofAfterFlush(s: State, t: Tid)
    requires Inv(s) && At(s, t, ClientSend(|s.disk|, true))
    ensures GotWholeLog(s, t)
  {
    var k := |s.locks| - 1;
    assert s.locks[..k + 1] == s.locks && s.locks[k] == t;
    assert s.replies[t] == LogUpTo(s, k);
  }

  /** A thread outside its critical section only relies on what it was sent. */
  lemma OutsideReply(s: State, s': State, u: Tid)
    requires u in s.threads && u in s'.threads && s'.threads[u] == s.threads[u] && !Inside(s.threads[u])
    requires ReplyOk(s, u)
    requires GotWholeLog(s, u) ==> GotWholeLog(s', u)
    requires GotPrefix(s, u) ==> GotPrefix(s', u)
    ensures ReplyOk(s', u)
  {
  }

  /** An action of a client, the timer or the kernel that is about to start a thread or to signal. */
  predicate Arrival(a: Action) {
    a.SpawnClient? || a.FireTimer? || a.Signal?
  }

  lemma SameReplies(s: State, s': State, u: Tid)
    requires s'.locks == s.locks && s'.stream == s.stream
    requires u in s.replies ==> u in s'.replies && s'.replies[u] == s.replies[u]
    ensures GotWholeLog(s, u) ==> GotWholeLog(s', u)
    ensures GotPrefix(s, u) ==> GotPrefix(s', u)
  {
    if GotWholeLog(s, u) {
      var k :| 0 <= k < |s.locks| && s.locks[k] == u && s.replies[u] == LogUpTo(s, k);
      assert s'.replies[u] == LogUpTo(s', k);
    }
  }

  lemma WriteKeepsOthersReply(s: State, t: Tid, data: seq<Byte>, spill: nat, pc: Pc, u: Tid)
    requires Mutex(s) && LockOrder(s) && s.owner == LockedBy(t) && u in s.threads && u != t && ReplyOk(s, u)
    requires spill <= |s.pending| + |data|
    ensures ReplyOk(Goto(Fwrite(s, t, data, spill), t, pc), u)
  {
    hide GotWholeLog, GotPrefix, Fwrite;
    FwriteKeepsReply(s, t, data, spill, u);
    FwriteMovesNobody(s, t, data, spill);
    var s' := Goto(Fwrite(s, t, data, spill), t, pc);
    SameReplies(Fwrite(s, t, data, spill), s', u);
    OutsideReply(s, s', u);
  }

  lemma LockKeepsOthersReply(s: State, t: Tid, u: Tid)
    requires Mutex(s) && Enabled(s, Lock(t)) && u in s.threads && u != t && ReplyOk(s, u)
    ensures ReplyOk(Apply(s, Lock(t)), u)
  {
    LockKeepsReply(s, t, u, Apply(s, Lock(t)));
    hide GotWholeLog, GotPrefix;
    OutsideReply(s, Apply(s, Lock(t)), u);
  }

  /** Every other action leaves the stream, the lock order and all replies but the actor's alone. */
  lemma QuietKeepsOthersReply(s: State, a: Action, u: Tid)
    requires Mutex(s) && Enabled(s, a) && u in s.threads && ReplyOk(s, u) && (Arrival(a) || a.t != u)
    requires !a.RecvAndWrite? && !a.WriteTimestamp? && !a.Lock?
    ensures u in Apply(s, a).threads && ReplyOk(Apply(s, a), u)
  {
    SameReplies(s, Apply(s, a), u);
    hide GotWholeLog, GotPrefix;
  }

  /** Only the owner moves while the mutex is held, so everyone else's reply stands. */
  lemma OthersKeepReplies(s: State, a: Action, u: Tid)
    requires Inv(s) && Enabled(s, a) && u in s.threads && (Arrival(a) || a.t != u)
    ensures u in Apply(s, a).threads && ReplyOk(Apply(s, a), u)
  {
    hide Log, GotWholeLog, GotPrefix;
    assert ReplyOk(s, u);
    if a.RecvAndWrite? {
      WriteKeepsOthersReply(s, a.t, a.data, a.spill, ClientTest, u);
    } else if a.WriteTimestamp? {
      WriteKeepsOthersReply(s, a.t, a.data, a.spill, Leaving(Timer), u);
    } else if a.Lock? {
      LockKeepsOthersReply(s, a.t, u);
    } else {
      QuietKeepsOthersReply(s, a, u);
    }
  }

  lemma FwriteMovesNobody(s: State, t: Tid, data: seq<Byte>, spill: nat)
    requires spill <= |s.pending| + |data|
    ensures Fwrite(s, t, data, spill).threads == s.threads
  {
  }

  lemma ActorKeepsReply(s: State, a: Action, t: Tid)
    requires Inv(s) && Enabled(s, a) && !a.Signal? && a.t == t
    ensures ReplyOk(Apply(s, a), t)
  {
    var s' := Apply(s, a);
    if t in s.threads {
      assert ReplyOk(s, t);
    }
    match a
    case SendNext(_) =>
      if s.threads[t].pos < |s.disk| {
        assert s.disk[..s.threads[t].pos + 1] == s.disk[..s.threads[t].pos] + [s.disk[s.threads[t].pos]];
      } else if s.threads[t].flushed {
        EofAfterFlush(s, t);
      }
    case _ =>
  }
}
