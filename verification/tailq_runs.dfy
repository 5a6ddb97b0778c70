/**
 Whole runs of TAILQ operations on any number of heads, and the life of the
 server's thread list from the first accept to shutdown
 (server/src/aesdsocket.c:200-251, server/src/aesdsocket_thread.c:20-41).
 */
module TailQueueRuns {
  import opened QueueMemory
  import opened QueueMachine
  import TailQueue
  import Programs = TailQueuePrograms
  import Traversal = TailQueueTraversal

  // ------------------------------------------------------------------
  // Runs
  // ------------------------------------------------------------------

  datatype Op =
    | OpInit(h: HeadId)
    | OpInsert(h: HeadId, place: Programs.Place, e: NodeId)
    | OpRemove(h: HeadId, e: NodeId)
    | OpConcat(h: HeadId, g: HeadId)
    | OpSwap(h: HeadId, g: HeadId)

  /** What the macros ask of their caller: allocated records, initialized heads, members where members are named, unlinked elements to insert. */
  ghost predicate Legal(qs: Queues, records: set<Loc>, op: Op) {
    match op
    case OpInit(h) => HeadSlot(h) in records
    case OpInsert(h, place, e) => h in qs && Programs.Fits(qs[h], place) && NextSlot(e) in records && Free(qs, e)
    case OpRemove(h, e) => h in qs && e in qs[h]
    case OpConcat(h, g) => h in qs && g in qs && h != g
    case OpSwap(h, g) => h in qs && g in qs
  }

  /** The sequence meaning of an operation. */
  ghost function Effect(qs: Queues, records: set<Loc>, op: Op): Queues
    requires Legal(qs, records, op)
  {
    match op
    case OpInit(h) => qs[h := []]
    case OpInsert(h, place, e) => qs[h := InsertAt(qs[h], Programs.Position(qs[h], place), e)]
    case OpRemove(h, e) => qs[h := Without(qs[h], e)]
    case OpConcat(h, g) => Joined(qs, h, g)
    case OpSwap(h, g) => Exchanged(qs, h, g)
  }

  ghost predicate LegalRun(qs: Queues, records: set<Loc>, ops: seq<Op>)
    decreases |ops|
  {
    ops != [] ==> Legal(qs, records, ops[0]) && LegalRun(Effect(qs, records, ops[0]), records, ops[1..])
  }

  ghost function EffectOfRun(qs: Queues, records: set<Loc>, ops: seq<Op>): Queues
    requires LegalRun(qs, records, ops)
    decreases |ops|
  {
    if ops == [] then qs else EffectOfRun(Effect(qs, records, ops[0]), records, ops[1..])
  }

  /** A longer run does what the shorter one does, then its last operation. */
  lemma {:induction false} RunExtends(qs: Queues, records: set<Loc>, ops: seq<Op>, op: Op)
    requires LegalRun(qs, records, ops + [op])
    ensures LegalRun(qs, records, ops) && Legal(EffectOfRun(qs, records, ops), records, op)
    ensures EffectOfRun(qs, records, ops + [op]) == Effect(EffectOfRun(qs, records, ops), records, op)
    decreases |ops|
  {
    if ops == [] {
      assert [op][1..] == [] && [] + [op] == [op];
      assert EffectOfRun(qs, records, [op]) == EffectOfRun(Effect(qs, records, op), records, []);
    } else {
      assert (ops + [op])[0] == ops[0] && (ops + [op])[1..] == ops[1..] + [op];
      RunExtends(Effect(qs, records, ops[0]), records, ops[1..], op);
    }
  }

  method Execute(m: Memory, op: Op)
    requires m.kind.Tailq? && m.Valid() && Legal(m.queues, m.fwd.Keys, op)
    modifies m
    ensures m.Valid() && m.queues == Effect(old(m.queues), old(m.fwd.Keys), op)
    ensures Relinked(m.kind, old(m.Mem()), m.Mem(), m.queues)
    ensures op.OpInit? ==> m.queues == old(m.queues)[op.h := []]
    ensures op.OpInsert? ==>
              var q := old(m.queues[op.h]);
              match op.place
              case AtHead => m.queues == old(m.queues)[op.h := [op.e] + q]
              case AtTail => m.queues == old(m.queues)[op.h := q + [op.e]]
              case AfterElement(x) => forall i | 0 <= i < |q| && q[i] == x ::
                m.queues == old(m.queues)[op.h := q[..i + 1] + [op.e] + q[i + 1..]]
              case BeforeElement(x) => forall i | 0 <= i < |q| && q[i] == x ::
                m.queues == old(m.queues)[op.h := q[..i] + [op.e] + q[i..]]
    ensures op.OpRemove? ==>
              var q := old(m.queues[op.h]);
              forall i | 0 <= i < |q| && q[i] == op.e :: m.queues == old(m.queues)[op.h := q[..i] + q[i + 1..]]
    ensures op.OpConcat? ==>
              m.queues == old(m.queues)[op.h := old(m.queues[op.h]) + old(m.queues[op.g])][op.g := []]
    ensures op.OpSwap? ==>
              m.queues == old(m.queues)[op.h := old(m.queues[op.g])][op.g := old(m.queues[op.h])]
  {
    hide Represents, Free, Relinked;
    if op.OpInsert? {
      Programs.InsertAtEnds(m.queues[op.h], op.e);
    }
    if !op.OpInit? {
      OwnPositions(Tailq, m.Mem(), m.queues, op.h);
    }
    match op
    case OpInit(h) => TailQueue.Init(m, h);
    case OpInsert(h, place, e) => Programs.Insert(m, h, place, e);
    case OpRemove(h, e) => TailQueue.Remove(m, h, e);
    case OpConcat(h, g) => TailQueue.Concat(m, h, g);
    case OpSwap(h, g) => TailQueue.Swap(m, h, g);
  }

  /**
   Any legal run, from any well-formed memory: memory stays well formed after every
   operation, no check fires, the records stay the same and the heads denote what
   the operations mean on sequences.
   */
  method Run(m: Memory, ops: seq<Op>)
    requires m.kind.Tailq? && m.Valid() && LegalRun(m.queues, m.fwd.Keys, ops)
    modifies m
    ensures m.Valid() && m.queues == EffectOfRun(old(m.queues), old(m.fwd.Keys), ops)
    ensures m.fwd.Keys == old(m.fwd.Keys) && m.back.Keys == old(m.back.Keys)
  {
    hide Represents, Legal, Effect;
    ghost var records := m.fwd.Keys;
    ghost var end := EffectOfRun(m.queues, records, ops);
    var i := 0;
    assert ops[0..] == ops;
    while i < |ops|
      invariant 0 <= i <= |ops| && m.Valid()
      invariant m.fwd.Keys == records && m.back.Keys == old(m.back.Keys)
      invariant LegalRun(m.queues, records, ops[i..])
      invariant EffectOfRun(m.queues, records, ops[i..]) == end
    {
      assert ops[i..][0] == ops[i] && ops[i..][1..] == ops[i + 1..];
      Execute(m, ops[i]);
      i := i + 1;
    }
  }

  // ------------------------------------------------------------------
  // The server's thread list
  // ------------------------------------------------------------------

  function Slots(q: seq<NodeId>): set<Loc> {
    set n | n in q :: NextSlot(n)
  }

  lemma SlotsGrow(q: seq<NodeId>, e: NodeId)
    ensures Slots(q + [e]) == Slots(q) + {NextSlot(e)}
  {
  }

  /** One round of the shutdown loop. */
  method ReleaseFirst(m: Memory, h: HeadId, ghost qs: Queues, ghost i: nat) returns (e: NodeId)
    requires h in qs && i < |qs[h]|
    requires m.kind.Tailq? && m.Valid() && m.queues == qs[h := qs[h][i..]]
    modifies m
    ensures e == qs[h][i]
    ensures m.Valid() && m.queues == qs[h := qs[h][i + 1..]]
    ensures m.fwd.Keys == old(m.fwd.Keys) - {NextSlot(e)}
  {
    hide Represents, Linked, Distinct, IndexOf;
    ghost var q := qs[h];
    var p := TailQueue.First(m, h);
    e := p.node;
    Overwrite(qs, h, q[i..], q[i + 1..]);
    assert q[i..] == [] + [e] + q[i + 1..] && [] + q[i + 1..] == q[i + 1..];
    Distinctness(Tailq, m.Mem(), m.queues, h);
    SplitAt(q[i..], [], e, q[i + 1..]);
    hide Without;
    Traversal.RemoveAndFree(m, h, e);
  }

  /** release_all_thread: unlink and free from the front until nothing is left. */
  method ReleaseAll(m: Memory, h: HeadId) returns (freed: seq<NodeId>)
    requires m.kind.Tailq? && m.Valid() && h in m.queues
    modifies m
    ensures m.Valid() && m.queues == old(m.queues)[h := []]
    ensures freed == old(m.queues[h]) && Distinct(freed)
    ensures m.fwd.Keys == old(m.fwd.Keys) - Slots(freed)
  {
    hide Represents, Distinct, Slots;
    ghost var qs, q, i := m.queues, m.queues[h], 0;
    Distinctness(Tailq, m.Mem(), qs, h);
    assert q[0..] == q && qs == qs[h := q[0..]];
    freed := [];
    NoSlots();
    var done := TailQueue.Empty(m, h);
    while !done
      invariant m.Valid() && i <= |q| && freed == q[0..i]
      invariant m.queues == qs[h := q[i..]]
      invariant m.fwd.Keys == old(m.fwd.Keys) - Slots(freed)
      invariant done <==> m.queues[h] == []
      decreases |q| - i
    {
      SliceGrows(q, 0, i);
      var e := ReleaseFirst(m, h, qs, i);
      SlotsGrow(freed, e);
      freed := freed + [e];
      i := i + 1;
      done := TailQueue.Empty(m, h);
    }
    assert q[0..|q|] == q;
  }

  lemma NoSlots()
    ensures Slots([]) == {}
  {
  }

  /**
   From TAILQ_INIT over any number of accepted connections to shutdown: every node is
   unlinked and freed once, in the order of acceptance, and the same records exist as before.
   `accepts` are the addresses malloc hands out, with arbitrary words in them; after each insertion the whole list
   is scanned, as check_thread_exit does.
   */
  method ServeAndShutDown(m: Memory, h: HeadId, accepts: seq<NodeId>, junk0: Ptr, junk1: Loc) returns (freed: seq<NodeId>)
    requires m.kind.Tailq? && m.Valid() && HeadSlot(h) in m.fwd
    requires Distinct(accepts) && forall n | n in accepts :: NextSlot(n) !in m.fwd
    modifies m
    ensures m.Valid() && m.queues == old(m.queues)[h := []]
    ensures freed == accepts
    ensures m.fwd.Keys == old(m.fwd.Keys)
  {
    hide Represents, Free, Relinked, Distinct;
    TailQueue.Init(m, h);
    ghost var qs := m.queues;
    var i := 0;
    while i < |accepts|
      invariant 0 <= i <= |accepts| && m.Valid()
      invariant m.queues == qs[h := accepts[0..i]]
      invariant m.fwd.Keys == old(m.fwd.Keys) + Slots(accepts[0..i])
    {
      SliceGrows(accepts, 0, i);
      SlotsGrow(accepts[0..i], accepts[i]);
      FreshLater(accepts, i);
      var _ := Accept(m, h, accepts[i], junk0, junk1, qs, accepts, i);
      i := i + 1;
    }
    assert accepts[0..i] == accepts;
    freed := ReleaseAll(m, h);
    assert m.fwd.Keys == old(m.fwd.Keys);
  }

  lemma FreshLater(q: seq<NodeId>, i: nat)
    requires Distinct(q) && i < |q|
    ensures NextSlot(q[i]) !in Slots(q[0..i])
  {
  }

  /** One accepted connection: a fresh node goes to the tail, then the whole list is scanned. */
  method Accept(m: Memory, h: HeadId, e: NodeId, junk0: Ptr, junk1: Loc,
                ghost qs: Queues, ghost accepts: seq<NodeId>, ghost i: nat) returns (scanned: seq<NodeId>)
    requires Distinct(accepts) && i < |accepts| && e == accepts[i] && h in qs
    requires m.kind.Tailq? && m.Valid() && m.queues == qs[h := accepts[0..i]]
    requires NextSlot(e) !in m.fwd
    modifies m
    ensures m.Valid() && m.queues == qs[h := accepts[0..i + 1]]
    ensures m.fwd.Keys == old(m.fwd.Keys) + {NextSlot(e)}
    ensures scanned == accepts[0..i + 1]
  {
    hide Represents, Free, Relinked, Distinct;
    SliceGrows(accepts, 0, i);
    Overwrite(qs, h, accepts[0..i], accepts[0..i + 1]);
    m.Malloc(e, junk0, junk1);
    TailQueue.InsertTail(m, h, e);
    scanned := Traversal.Foreach(m, h, Null);
  }

  method OneElement(junk0: Ptr, junk1: Loc) returns (m: Memory)
    ensures fresh(m) && m.kind.Tailq? && m.Valid() && m.queues == map[0 := [2]]
    ensures NextSlot(1) !in m.fwd
  {
    hide Represents, Free, Relinked, Linked;
    m := new Memory(Tailq, Heap(map[HeadSlot(0) := junk0], map[HeadSlot(0) := junk1]));
    TailQueue.Init(m, 0);
    m.Malloc(2, junk0, junk1);
    TailQueue.InsertTail(m, 0, 2);
    assert [] + [2] == [2];
  }

  /** Well-formed memories with queues in them exist: this one is built from nothing. */
  method TwoElements(junk0: Ptr, junk1: Loc) returns (m: Memory)
    ensures m.kind.Tailq? && m.Valid() && m.queues == map[0 := [1, 2]]
  {
    hide Represents, Free, Relinked, Linked;
    m := OneElement(junk0, junk1);
    m.Malloc(1, junk0, junk1);
    TailQueue.InsertHead(m, 0, 1);
    assert [1] + [2] == [1, 2];
  }
}
