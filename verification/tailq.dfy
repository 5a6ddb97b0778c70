/**
 TAILQ: doubly linked tail queues (server/src/queue.h:567-786).

 Each mutating macro promises three things: the queues afterwards, that memory
 spells exactly those queues and changed nowhere else (`Relinked`), and that no
 consistency check fired.
 */
module TailQueue {
  import opened QueueMemory
  import opened QueueMachine

  // ------------------------------------------------------------------
  // The consistency checks
  // ------------------------------------------------------------------

  /** QMD_TAILQ_CHECK_HEAD would panic. */
  predicate BadHead(m: Heap, h: HeadId)
    requires HeadSlot(h) in m.fwd
    requires m.fwd[HeadSlot(h)] != Null ==> NextSlot(m.fwd[HeadSlot(h)].node) in m.back
  {
    m.fwd[HeadSlot(h)] != Null && m.back[NextSlot(m.fwd[HeadSlot(h)].node)] != HeadSlot(h)
  }

  /** QMD_TAILQ_CHECK_TAIL would panic. */
  predicate BadTail(m: Heap, h: HeadId)
    requires HeadSlot(h) in m.back && m.back[HeadSlot(h)] in m.fwd
  {
    m.fwd[m.back[HeadSlot(h)]] != Null
  }

  /** QMD_TAILQ_CHECK_NEXT would panic. */
  predicate BadNext(m: Heap, x: NodeId)
    requires NextSlot(x) in m.fwd
    requires m.fwd[NextSlot(x)] != Null ==> NextSlot(m.fwd[NextSlot(x)].node) in m.back
  {
    m.fwd[NextSlot(x)] != Null && m.back[NextSlot(m.fwd[NextSlot(x)].node)] != NextSlot(x)
  }

  /** QMD_TAILQ_CHECK_PREV would panic. */
  predicate BadPrev(m: Heap, x: NodeId)
    requires NextSlot(x) in m.back && m.back[NextSlot(x)] in m.fwd
  {
    m.fwd[m.back[NextSlot(x)]] != To(x)
  }

  /** No check can fire on a head of a well-formed memory; none of them reads outside it. */
  lemma HeadChecksPass(m: Heap, qs: Queues, h: HeadId)
    requires Represents(Tailq, m, qs) && h in qs
    ensures HeadSlot(h) in m.fwd && HeadSlot(h) in m.back && m.back[HeadSlot(h)] in m.fwd
    ensures m.fwd[HeadSlot(h)] != Null ==> NextSlot(m.fwd[HeadSlot(h)].node) in m.back
    ensures !BadHead(m, h) && !BadTail(m, h)
  {
    Words(Tailq, m, qs, h, 0);
    Words(Tailq, m, qs, h, |qs[h]|);
  }

  /** Nor on any member of its queue. */
  lemma ElementChecksPass(m: Heap, qs: Queues, h: HeadId, x: NodeId)
    requires Represents(Tailq, m, qs) && h in qs && x in qs[h]
    ensures NextSlot(x) in m.fwd && NextSlot(x) in m.back && m.back[NextSlot(x)] in m.fwd
    ensures m.fwd[NextSlot(x)] != Null ==> NextSlot(m.fwd[NextSlot(x)].node) in m.back
    ensures !BadNext(m, x) && !BadPrev(m, x)
  {
    var i := IndexOf(qs[h], x);
    Words(Tailq, m, qs, h, i);
    Words(Tailq, m, qs, h, i + 1);
  }

  // ------------------------------------------------------------------
  // Accessors
  // ------------------------------------------------------------------

  method Empty(m: Memory, h: HeadId) returns (b: bool)
    requires m.kind.Tailq? && m.Valid() && h in m.queues
    ensures b <==> m.queues[h] == []
  {
    hide Represents;
    Words(m.kind, m.Mem(), m.queues, h, 0);
    b := m.fwd[HeadSlot(h)] == Null;
  }

  method First(m: Memory, h: HeadId) returns (p: Ptr)
    requires m.kind.Tailq? && m.Valid() && h in m.queues
    ensures p == if m.queues[h] == [] then Null else To(m.queues[h][0])
  {
    hide Represents;
    Words(m.kind, m.Mem(), m.queues, h, 0);
    p := m.fwd[HeadSlot(h)];
  }

  method Next(m: Memory, ghost h: HeadId, x: NodeId) returns (p: Ptr)
    requires m.kind.Tailq? && m.Valid() && h in m.queues && x in m.queues[h]
    ensures p == Target(m.queues[h], IndexOf(m.queues[h], x) + 1)
  {
    hide Represents;
    Words(m.kind, m.Mem(), m.queues, h, IndexOf(m.queues[h], x));
    p := m.fwd[NextSlot(x)];
  }

  /** The address in `tqh_last` is read as a head, whose second word addresses the slot holding the answer. */
  method Last(m: Memory, h: HeadId) returns (p: Ptr)
    requires m.kind.Tailq? && m.Valid() && h in m.queues
    ensures m.queues[h] == [] <==> p == Null
    ensures m.queues[h] != [] ==> p == To(m.queues[h][|m.queues[h]| - 1])
  {
    hide Represents;
    ghost var q := m.queues[h];
    Words(m.kind, m.Mem(), m.queues, h, if q == [] then 0 else |q| - 1);
    p := m.fwd[m.back[m.back[HeadSlot(h)]]];
  }

  method Prev(m: Memory, ghost h: HeadId, x: NodeId) returns (p: Ptr)
    requires m.kind.Tailq? && m.Valid() && h in m.queues && x in m.queues[h]
    ensures var i := IndexOf(m.queues[h], x);
            (i == 0 <==> p == Null) && (i > 0 ==> p == To(m.queues[h][i - 1]))
  {
    hide Represents, Relinked;
    ghost var q := m.queues[h];
    ghost var i := IndexOf(q, x);
    Words(m.kind, m.Mem(), m.queues, h, i);
    Words(m.kind, m.Mem(), m.queues, h, if i == 0 then |q| else i - 1);
    p := m.fwd[m.back[m.back[NextSlot(x)]]];
  }

  // ------------------------------------------------------------------
  // Updates
  // ------------------------------------------------------------------

  method Init(m: Memory, h: HeadId)
    requires m.kind.Tailq? && m.Valid() && HeadSlot(h) in m.fwd
    modifies m
    ensures m.Valid() && m.queues == old(m.queues)[h := []]
    ensures Relinked(m.kind, old(m.Mem()), m.Mem(), m.queues)
    ensures m.fwd.Keys == old(m.fwd.Keys)
  {
    ghost var m0 := m.Mem();
    ghost var next := m.queues[h := []];
    m.fwd := Store(m.fwd, HeadSlot(h), Null);
    m.back := Store(m.back, HeadSlot(h), HeadSlot(h));
    assert m.Mem() == Reset(m.kind, m0, h);
    ResetRelinks(m.kind, m0, m.queues, h);
    m.queues := next;
  }

  method InsertHead(m: Memory, h: HeadId, e: NodeId)
    requires m.kind.Tailq? && m.Valid() && h in m.queues
    requires NextSlot(e) in m.fwd && Free(m.queues, e)
    modifies m
    ensures m.Valid() && m.queues == old(m.queues)[h := [e] + old(m.queues[h])]
    ensures Relinked(m.kind, old(m.Mem()), m.Mem(), m.queues)
  {
    hide Represents, Relinked;
    ghost var m0, q := m.Mem(), m.queues[h];
    FreeWords(m.kind, m0, m.queues, h, e);
    Words(m.kind, m0, m.queues, h, 0);
    SplicedWords(m0, h, q, 0, e);
    SpliceRelinks(m.kind, m0, m.queues, h, 0, e);
    hide Spliced, Free;
    ghost var next := m.queues[h := [e] + q];
    HeadChecksPass(m0, m.queues, h);
    m.panicked := m.panicked || BadHead(m.Mem(), h);
    m.fwd := Store(m.fwd, NextSlot(e), m.fwd[HeadSlot(h)]);
    if m.fwd[NextSlot(e)] != Null {
      m.back := Store(m.back, NextSlot(m.fwd[HeadSlot(h)].node), NextSlot(e));
    } else {
      m.back := Store(m.back, HeadSlot(h), NextSlot(e));
    }
    m.fwd := Store(m.fwd, HeadSlot(h), To(e));
    m.back := Store(m.back, NextSlot(e), HeadSlot(h));
    assert InsertAt(q, 0, e) == [e] + q;
    m.queues := next;
  }

  method InsertTail(m: Memory, h: HeadId, e: NodeId)
    requires m.kind.Tailq? && m.Valid() && h in m.queues
    requires NextSlot(e) in m.fwd && Free(m.queues, e)
    modifies m
    ensures m.Valid() && m.queues == old(m.queues)[h := old(m.queues[h]) + [e]]
    ensures Relinked(m.kind, old(m.Mem()), m.Mem(), m.queues)
    ensures m.fwd.Keys == old(m.fwd.Keys)
  {
    hide Represents, Relinked;
    ghost var m0, q := m.Mem(), m.queues[h];
    FreeWords(m.kind, m0, m.queues, h, e);
    Words(m.kind, m0, m.queues, h, |q|);
    SplicedWords(m0, h, q, |q|, e);
    SpliceRelinks(m.kind, m0, m.queues, h, |q|, e);
    hide Spliced, Free;
    ghost var next := m.queues[h := q + [e]];
    HeadChecksPass(m0, m.queues, h);
    m.panicked := m.panicked || BadTail(m.Mem(), h);
    m.fwd := Store(m.fwd, NextSlot(e), Null);
    m.back := Store(m.back, NextSlot(e), m.back[HeadSlot(h)]);
    m.fwd := Store(m.fwd, m.back[HeadSlot(h)], To(e));
    m.back := Store(m.back, HeadSlot(h), NextSlot(e));
    assert InsertAt(q, |q|, e) == q + [e];
    m.queues := next;
  }

  method InsertAfter(m: Memory, h: HeadId, x: NodeId, e: NodeId)
    requires m.kind.Tailq? && m.Valid() && h in m.queues && x in m.queues[h]
    requires NextSlot(e) in m.fwd && Free(m.queues, e)
    modifies m
    ensures m.Valid()
    ensures m.queues == old(m.queues)[h := InsertAt(old(m.queues[h]), IndexOf(old(m.queues[h]), x) + 1, e)]
    ensures Relinked(m.kind, old(m.Mem()), m.Mem(), m.queues)
  {
    hide Represents, Relinked, Spliced, InsertAt, IndexOf, Free, Rec, After, Target;
    ghost var m0, q := m.Mem(), m.queues[h];
    ghost var i := IndexOf(q, x);
    ghost var next := m.queues[h := InsertAt(q, i + 1, e)];
    Words(m.kind, m0, m.queues, h, i);
    Words(m.kind, m0, m.queues, h, i + 1);
    FreeWords(m.kind, m0, m.queues, h, e);
    SplicedWords(m0, h, q, i + 1, e);
    SpliceRelinks(m.kind, m0, m.queues, h, i + 1, e);
    ElementChecksPass(m0, m.queues, h, x);
    m.panicked := m.panicked || BadNext(m.Mem(), x);
    m.fwd := Store(m.fwd, NextSlot(e), m.fwd[NextSlot(x)]);
    if m.fwd[NextSlot(e)] != Null {
      m.back := Store(m.back, NextSlot(m.fwd[NextSlot(e)].node), NextSlot(e));
    } else {
      m.back := Store(m.back, HeadSlot(h), NextSlot(e));
    }
    m.fwd := Store(m.fwd, NextSlot(x), To(e));
    m.back := Store(m.back, NextSlot(e), NextSlot(x));
    m.queues := next;
  }

  /** The macro is not given the head; `h` is known to the proof alone. */
  method InsertBefore(m: Memory, ghost h: HeadId, x: NodeId, e: NodeId)
    requires m.kind.Tailq? && m.Valid() && h in m.queues && x in m.queues[h]
    requires NextSlot(e) in m.fwd && Free(m.queues, e)
    modifies m
    ensures m.Valid()
    ensures m.queues == old(m.queues)[h := InsertAt(old(m.queues[h]), IndexOf(old(m.queues[h]), x), e)]
    ensures Relinked(m.kind, old(m.Mem()), m.Mem(), m.queues)
  {
    hide Represents, Relinked;
    ghost var m0, q := m.Mem(), m.queues[h];
    FreeWords(m.kind, m0, m.queues, h, e);
    ghost var i := IndexOf(q, x);
    Words(m.kind, m0, m.queues, h, i);
    SplicedWords(m0, h, q, i, e);
    SpliceRelinks(m.kind, m0, m.queues, h, i, e);
    hide Spliced, Free;
    ghost var next := m.queues[h := InsertAt(q, i, e)];
    ElementChecksPass(m0, m.queues, h, x);
    m.panicked := m.panicked || BadPrev(m.Mem(), x);
    m.back := Store(m.back, NextSlot(e), m.back[NextSlot(x)]);
    m.fwd := Store(m.fwd, NextSlot(e), To(x));
    m.fwd := Store(m.fwd, m.back[NextSlot(x)], To(e));
    m.back := Store(m.back, NextSlot(x), NextSlot(e));
    m.queues := next;
  }

  method Remove(m: Memory, h: HeadId, e: NodeId)
    requires m.kind.Tailq? && m.Valid() && h in m.queues && e in m.queues[h]
    modifies m
    ensures m.Valid() && m.queues == old(m.queues)[h := Without(old(m.queues[h]), e)]
    ensures Relinked(m.kind, old(m.Mem()), m.Mem(), m.queues)
    ensures Free(m.queues, e) && NextSlot(e) in m.fwd
  {
    hide Represents, Relinked;
    ghost var m0, q := m.Mem(), m.queues[h];
    ghost var i := IndexOf(q, e);
    Words(m.kind, m0, m.queues, h, i);
    Words(m.kind, m0, m.queues, h, i + 1);
    ghost var next := m.queues[h := Without(q, e)];
    ElementChecksPass(m0, m.queues, h, e);
    m.panicked := m.panicked || BadNext(m.Mem(), e) || BadPrev(m.Mem(), e);
    if m.fwd[NextSlot(e)] != Null {
      m.back := Store(m.back, NextSlot(m.fwd[NextSlot(e)].node), m.back[NextSlot(e)]);
    } else {
      m.back := Store(m.back, HeadSlot(h), m.back[NextSlot(e)]);
    }
    m.fwd := Store(m.fwd, m.back[NextSlot(e)], m.fwd[NextSlot(e)]);
    assert m.Mem() == Cut(m.kind, m0, h, q, i);
    CutRelinks(m.kind, m0, m.queues, h, i);
    WithoutFrees(m.kind, m0, m.queues, h, e);
    m.queues := next;
  }

  /** Moves all of head `g`'s queue behind head `h`'s. */
  method Concat(m: Memory, h: HeadId, g: HeadId)
    requires m.kind.Tailq? && m.Valid() && h in m.queues && g in m.queues && h != g
    modifies m
    ensures m.Valid() && m.queues == Joined(old(m.queues), h, g)
    ensures Relinked(m.kind, old(m.Mem()), m.Mem(), m.queues)
  {
    hide Represents, Relinked, Adopted, Reset, Rec, After, Target;
    ghost var m0, p, q := m.Mem(), m.queues[h], m.queues[g];
    ghost var next := Joined(m.queues, h, g);
    Words(m.kind, m0, m.queues, h, |p|);
    Words(m.kind, m0, m.queues, g, 0);
    Words(m.kind, m0, m.queues, g, |q|);
    ConcatWords(m0, h, g, p, q);
    ConcatRelinks(m.kind, m0, m.queues, h, g);
    if m.fwd[HeadSlot(g)] != Null {
      m.fwd := Store(m.fwd, m.back[HeadSlot(h)], m.fwd[HeadSlot(g)]);
      m.back := Store(m.back, NextSlot(m.fwd[HeadSlot(g)].node), m.back[HeadSlot(h)]);
      m.back := Store(m.back, HeadSlot(h), m.back[HeadSlot(g)]);
      m.fwd := Store(m.fwd, HeadSlot(g), Null);
      m.back := Store(m.back, HeadSlot(g), HeadSlot(g));
    }
    m.queues := next;
  }

  lemma ConcatWords(m: Heap, h: HeadId, g: HeadId, p: seq<NodeId>, q: seq<NodeId>)
    requires h != g
    ensures q != [] ==>
              var m' := Adopted(Tailq, Reset(Tailq, m, g), h, p, q);
              && m'.fwd == m.fwd[Rec(h, p, |p|) := Target(q, 0)][HeadSlot(g) := Null]
              && m'.back == m.back[After(g, q, 0) := Rec(h, p, |p|)][HeadSlot(h) := Rec(g, q, |q|)]
                            [HeadSlot(g) := HeadSlot(g)]
    ensures q == [] && HeadSlot(g) in m.fwd && m.fwd[HeadSlot(g)] == Null
            && HeadSlot(g) in m.back && m.back[HeadSlot(g)] == HeadSlot(g) ==>
              Adopted(Tailq, Reset(Tailq, m, g), h, p, q) == m
  {
  }

  /** Points the first element, or the head of an empty queue, back at the head's slot. */
  method Reattach(m: Memory, h: HeadId)
    requires HeadSlot(h) in m.fwd && HeadSlot(h) in m.back
    requires m.fwd[HeadSlot(h)] != Null ==> NextSlot(m.fwd[HeadSlot(h)].node) in m.back
    modifies m`back
    ensures m.back.Keys == old(m.back.Keys)
    ensures m.back == old(m.back)[Holder(h, m.fwd[HeadSlot(h)]) := HeadSlot(h)]
  {
    var first := m.fwd[HeadSlot(h)];
    if first != Null {
      m.back := Store(m.back, NextSlot(first.node), HeadSlot(h));
    } else {
      m.back := Store(m.back, HeadSlot(h), HeadSlot(h));
    }
  }

  /** The same head may be given twice: nothing changes. */
  method Swap(m: Memory, h: HeadId, g: HeadId)
    requires m.kind.Tailq? && m.Valid() && h in m.queues && g in m.queues
    modifies m
    ensures m.Valid() && m.queues == Exchanged(old(m.queues), h, g)
    ensures Relinked(m.kind, old(m.Mem()), m.Mem(), m.queues)
  {
    hide Represents, Relinked, ExchangedHeap, SetIf, Rec, After, Target;
    ghost var m0, p, q := m.Mem(), m.queues[h], m.queues[g];
    ghost var next := Exchanged(m.queues, h, g);
    Words(m.kind, m0, m.queues, h, 0);
    Words(m.kind, m0, m.queues, h, |p|);
    Words(m.kind, m0, m.queues, g, 0);
    Words(m.kind, m0, m.queues, g, |q|);
    SwappedWords(m0, m.queues, h, g);
    var first, last := m.fwd[HeadSlot(h)], m.back[HeadSlot(h)];
    m.fwd := Store(m.fwd, HeadSlot(h), m.fwd[HeadSlot(g)]);
    m.back := Store(m.back, HeadSlot(h), m.back[HeadSlot(g)]);
    m.fwd := Store(m.fwd, HeadSlot(g), first);
    m.back := Store(m.back, HeadSlot(g), last);
    Reattach(m, h);
    Reattach(m, g);
    m.queues := next;
  }

  /** The words the macro's stores leave, in their order. */
  function Swapped(m: Heap, h: HeadId, g: HeadId, p: seq<NodeId>, q: seq<NodeId>): Heap {
    Heap(m.fwd[HeadSlot(h) := Target(q, 0)][HeadSlot(g) := Target(p, 0)],
         m.back[HeadSlot(h) := Rec(g, q, |q|)][HeadSlot(g) := Rec(h, p, |p|)]
           [Holder(h, Target(q, 0)) := HeadSlot(h)][Holder(g, Target(p, 0)) := HeadSlot(g)])
  }

  lemma SwappedWords(m: Heap, qs: Queues, h: HeadId, g: HeadId)
    requires Represents(Tailq, m, qs) && h in qs && g in qs
    ensures Relinked(Tailq, m, Swapped(m, h, g, qs[h], qs[g]), Exchanged(qs, h, g))
    ensures Represents(Tailq, Swapped(m, h, g, qs[h], qs[g]), Exchanged(qs, h, g))
  {
    hide Represents, Relinked;
    Words(Tailq, m, qs, h, 0);
    if h == g {
      Words(Tailq, m, qs, h, |qs[h]|);
      hide Rec, Target;
      assert Swapped(m, h, g, qs[h], qs[g]) == m && Exchanged(qs, h, g) == qs;
      RelinkedSelf(Tailq, m, qs);
    } else {
      Words(Tailq, m, qs, g, 0);
      SwapRelinks(Tailq, m, qs, h, g);
      ExchangedWords(m, h, g, qs[h], qs[g]);
    }
  }

  /** Handing the chain `q` to an emptied head, as words. */
  lemma AdoptedWords(m: Heap, h: HeadId, q: seq<NodeId>)
    requires HeadSlot(h) in m.fwd && m.fwd[HeadSlot(h)] == Null
    requires HeadSlot(h) in m.back && m.back[HeadSlot(h)] == HeadSlot(h)
    ensures var m' := Adopted(Tailq, m, h, [], q);
            && m'.fwd == m.fwd[HeadSlot(h) := Target(q, 0)]
            && m'.back == m.back[HeadSlot(h) := Rec(h, q, |q|)][After(h, q, 0) := HeadSlot(h)]
  {
  }

  /** The macro's order of writes leaves the same words as two resets and two adoptions. */
  lemma ExchangedWords(m: Heap, h: HeadId, g: HeadId, p: seq<NodeId>, q: seq<NodeId>)
    requires h != g && HeadSlot(h) in m.fwd && HeadSlot(g) in m.fwd
    ensures var m' := ExchangedHeap(Tailq, m, h, g, p, q);
            && m'.fwd == m.fwd[HeadSlot(h) := Target(q, 0)][HeadSlot(g) := Target(p, 0)]
            && m'.back == m.back[HeadSlot(h) := Rec(g, q, |q|)][HeadSlot(g) := Rec(h, p, |p|)]
                          [Holder(h, Target(q, 0)) := HeadSlot(h)][Holder(g, Target(p, 0)) := HeadSlot(g)]
  {
    var m2 := Reset(Tailq, Reset(Tailq, m, h), g);
    var m3 := Adopted(Tailq, m2, h, [], q);
    AdoptedWords(m2, h, q);
    assert HeadSlot(g) != After(h, q, 0);
    hide Adopted;
    AdoptedWords(m3, g, p);
    assert m2.back == m.back[HeadSlot(h) := HeadSlot(h)][HeadSlot(g) := HeadSlot(g)];
  }

  lemma WithoutFrees(k: Kind, m: Heap, qs: Queues, h: HeadId, e: NodeId)
    requires Represents(k, m, qs) && h in qs && e in qs[h]
    ensures Free(qs[h := Without(qs[h], e)], e)
  {
    Distinctness(k, m, qs, h);
    DropAtMembers(qs[h], IndexOf(qs[h], e));
    forall g | g in qs && g != h
      ensures e !in qs[g]
    {
      NotElsewhere(qs, h, e, g);
    }
  }
}
