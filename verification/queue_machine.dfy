/**
 A mutable memory of queue records.  The macros of queue.h are methods that load
 and store its words one statement at a time.  Every load and store demands that
 the record is allocated, so a verified macro never touches a freed record and
 never dereferences NULL.
 */
module QueueMachine {
  import opened QueueMemory

  /** One word is overwritten; its record must be allocated. */
  function Store<V>(words: map<Loc, V>, l: Loc, v: V): (r: map<Loc, V>)
    requires l in words
    ensures r.Keys == words.Keys
  {
    words[l := v]
  }

  class Memory {
    const kind: Kind
    var fwd: map<Loc, Ptr>
    var back: map<Loc, Loc>
    /** Set when one of the QMD_*_CHECK_* macros would call panic(). */
    var panicked: bool
    /** The sequences that the initialized heads denote. */
    ghost var queues: Queues

    ghost predicate Valid()
      reads this
    {
      Represents(kind, Mem(), queues) && !panicked
    }

    function Mem(): Heap
      reads this
    {
      Heap(fwd, back)
    }

    /** Memory with the given records, their words still arbitrary and no head initialized. */
    constructor (k: Kind, m: Heap)
      requires Shape(k, m)
      ensures Valid() && kind == k && Mem() == m && queues == map[]
    {
      kind, fwd, back, panicked, queues := k, m.fwd, m.back, false, map[];
    }

    /** malloc of an element: a new record whose words are arbitrary. */
    method Malloc(e: NodeId, p: Ptr, b: Loc)
      requires Valid() && NextSlot(e) !in fwd
      modifies this`fwd, this`back
      ensures Valid()
      ensures fwd == old(fwd)[NextSlot(e) := p]
      ensures back == if HasBack(kind, NextSlot(e)) then old(back)[NextSlot(e) := b] else old(back)
      ensures QueueMemory.Free(queues, e)
    {
      ghost var m0 := Mem();
      fwd := fwd[NextSlot(e) := p];
      if HasBack(kind, NextSlot(e)) {
        back := back[NextSlot(e) := b];
      }
      MallocKeeps(kind, m0, Mem(), queues, e);
    }

    /** free of an element that is in no queue. */
    method Dispose(e: NodeId)
      requires Valid() && NextSlot(e) in fwd && QueueMemory.Free(queues, e)
      modifies this`fwd, this`back
      ensures Valid()
      ensures fwd == old(fwd) - {NextSlot(e)}
      ensures back == old(back) - {NextSlot(e)}
    {
      ghost var m0 := Mem();
      fwd := fwd - {NextSlot(e)};
      back := back - {NextSlot(e)};
      DisposeKeeps(kind, m0, Mem(), queues, e);
    }
  }

  lemma MallocKeeps(k: Kind, m0: Heap, m1: Heap, qs: Queues, e: NodeId)
    requires Represents(k, m0, qs) && NextSlot(e) !in m0.fwd
    requires NextSlot(e) in m1.fwd && m1.fwd == m0.fwd[NextSlot(e) := m1.fwd[NextSlot(e)]]
    requires if HasBack(k, NextSlot(e))
             then NextSlot(e) in m1.back && m1.back == m0.back[NextSlot(e) := m1.back[NextSlot(e)]]
             else m1.back == m0.back
    ensures Represents(k, m1, qs) && Free(qs, e)
  {
    forall h | h in qs
      ensures e !in qs[h] && Spells(k, m1, h, qs[h])
    {
      assert e in qs[h] ==> Rec(h, qs[h], IndexOf(qs[h], e) + 1) == NextSlot(e);
      SpellsFrame(k, m0, m1, h, qs[h]);
    }
  }

  lemma DisposeKeeps(k: Kind, m0: Heap, m1: Heap, qs: Queues, e: NodeId)
    requires Represents(k, m0, qs) && Free(qs, e)
    requires m1 == Heap(m0.fwd - {NextSlot(e)}, m0.back - {NextSlot(e)})
    ensures Represents(k, m1, qs)
  {
    forall h | h in qs
      ensures Spells(k, m1, h, qs[h])
    {
      var q := qs[h];
      forall i | 0 <= i <= |q|
        ensures Rec(h, q, i) in m1.fwd && m1.fwd[Rec(h, q, i)] == Target(q, i)
      {
        assert i > 0 ==> q[i - 1] in q;
      }
    }
  }

  lemma SecondWord(k: Kind, m: Heap, qs: Queues, l: Loc)
    requires Represents(k, m, qs) && l in m.fwd && HasBack(k, l)
    ensures l in m.back
  {
  }

  /** All words around position `i` of a queue, and the records that hold them. */
  lemma Words(k: Kind, m: Heap, qs: Queues, h: HeadId, i: nat)
    requires Represents(k, m, qs) && h in qs && i <= |qs[h]|
    ensures var q := qs[h];
            && Rec(h, q, i) in m.fwd && m.fwd[Rec(h, q, i)] == Target(q, i)
            && (HasBack(k, Rec(h, q, i)) ==> Rec(h, q, i) in m.back)
            && After(h, q, i) == Holder(h, Target(q, i)) && After(h, q, i) in m.fwd
            && (HasBack(k, After(h, q, i)) ==> After(h, q, i) in m.back && m.back[After(h, q, i)] == Rec(h, q, i))
            && Rec(h, q, 0) == HeadSlot(h) && HeadSlot(h) in m.fwd && Target(q, |q|) == Null
            && (HasBack(k, HeadSlot(h)) ==> HeadSlot(h) in m.back && m.back[HeadSlot(h)] == Rec(h, q, |q|))
            && (i < |q| ==> Rec(h, q, i + 1) == NextSlot(q[i]) && Target(q, i) == To(q[i])
                            && m.fwd[NextSlot(q[i])] == Target(q, i + 1))
  {
    var q := qs[h];
    assert Spells(k, m, h, q);
    assert Rec(h, q, 0) == HeadSlot(h);
    if i < |q| {
      assert Rec(h, q, i + 1) == NextSlot(q[i]);
    }
    hide Represents, Spells;
    if HasBack(k, Rec(h, q, i)) {
      SecondWord(k, m, qs, Rec(h, q, i));
    }
  }

  /** The record of an element in no queue. */
  lemma FreeWords(k: Kind, m: Heap, qs: Queues, h: HeadId, e: NodeId)
    requires Represents(k, m, qs) && h in qs && NextSlot(e) in m.fwd && Free(qs, e)
    ensures e !in qs[h] && (HasBack(k, NextSlot(e)) ==> NextSlot(e) in m.back)
  {
  }

  lemma IndexOfUnique(k: Kind, m: Heap, qs: Queues, h: HeadId, i: nat)
    requires Represents(k, m, qs) && h in qs && i < |qs[h]|
    ensures IndexOf(qs[h], qs[h][i]) == i
  {
  }

  /** Each element of a queue stands at exactly one position of it. */
  lemma OwnPositions(k: Kind, m: Heap, qs: Queues, h: HeadId)
    requires Represents(k, m, qs) && h in qs
    ensures forall i | 0 <= i < |qs[h]| :: IndexOf(qs[h], qs[h][i]) == i
  {
    hide Represents;
    forall i | 0 <= i < |qs[h]|
      ensures IndexOf(qs[h], qs[h][i]) == i
    {
      IndexOfUnique(k, m, qs, h, i);
    }
  }
}
