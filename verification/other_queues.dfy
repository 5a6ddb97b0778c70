/**
 The other three families, as far as they bear on removal, tail upkeep and scanning:
 SLIST and STAILQ have no back pointers and must scan to remove, SLIST and LIST have
 no tail and must scan to concatenate.
 They work on the same memory and are held to the same meaning as TAILQ.
 */
module OtherQueues {
  import opened QueueMemory
  import opened QueueMachine
  import TailQueue

  // ------------------------------------------------------------------
  // SLIST
  // ------------------------------------------------------------------

  method SlistRemoveHead(m: Memory, h: HeadId)
    requires m.kind.Slist? && m.Valid() && h in m.queues && m.queues[h] != []
    modifies m
    ensures m.Valid() && m.queues == old(m.queues)[h := DropAt(old(m.queues[h]), 0)]
    ensures Relinked(m.kind, old(m.Mem()), m.Mem(), m.queues)
  {
    hide Represents, Relinked, Rec, Target;
    ghost var m0, q := m.Mem(), m.queues[h];
    ghost var next := m.queues[h := DropAt(q, 0)];
    Words(m.kind, m0, m.queues, h, 0);
    Words(m.kind, m0, m.queues, h, 1);
    CutRelinks(m.kind, m0, m.queues, h, 0);
    m.fwd := Store(m.fwd, HeadSlot(h), m.fwd[NextSlot(m.fwd[HeadSlot(h)].node)]);
    m.queues := next;
  }

  method SlistRemoveAfter(m: Memory, ghost h: HeadId, x: NodeId, ghost i: nat)
    requires m.kind.Slist? && m.Valid() && h in m.queues
    requires i + 1 < |m.queues[h]| && m.queues[h][i] == x
    modifies m
    ensures m.Valid() && m.queues == old(m.queues)[h := DropAt(old(m.queues[h]), i + 1)]
    ensures Relinked(m.kind, old(m.Mem()), m.Mem(), m.queues)
  {
    hide Represents, Relinked, Rec, Target;
    ghost var m0, q := m.Mem(), m.queues[h];
    ghost var next := m.queues[h := DropAt(q, i + 1)];
    Words(m.kind, m0, m.queues, h, i);
    Words(m.kind, m0, m.queues, h, i + 1);
    Words(m.kind, m0, m.queues, h, i + 2);
    CutRelinks(m.kind, m0, m.queues, h, i + 1);
    m.fwd := Store(m.fwd, NextSlot(x), m.fwd[NextSlot(m.fwd[NextSlot(x)].node)]);
    m.queues := next;
  }

  /** The scan for the predecessor of `e`, shared by SLIST_REMOVE and STAILQ_REMOVE. */
  method FindBefore(m: Memory, h: HeadId, e: NodeId) returns (cur: NodeId)
    requires m.Valid() && h in m.queues && e in m.queues[h] && m.queues[h][0] != e
    ensures IndexOf(m.queues[h], e) > 0 && cur == m.queues[h][IndexOf(m.queues[h], e) - 1]
  {
    hide Represents;
    ghost var q := m.queues[h];
    Words(m.kind, m.Mem(), m.queues, h, 0);
    cur := m.fwd[HeadSlot(h)].node;
    ghost var i := 0;
    Words(m.kind, m.Mem(), m.queues, h, 1);
    while m.fwd[NextSlot(cur)] != To(e)
      invariant i < IndexOf(q, e) && cur == q[i]
      invariant NextSlot(cur) in m.fwd && m.fwd[NextSlot(cur)] == To(q[i + 1])
      decreases |q| - i
    {
      Words(m.kind, m.Mem(), m.queues, h, i + 1);
      Words(m.kind, m.Mem(), m.queues, h, i + 2);
      cur := m.fwd[NextSlot(cur)].node;
      i := i + 1;
    }
    IndexOfUnique(m.kind, m.Mem(), m.queues, h, i + 1);
  }

  method SlistRemove(m: Memory, h: HeadId, e: NodeId)
    requires m.kind.Slist? && m.Valid() && h in m.queues && e in m.queues[h]
    modifies m
    ensures m.Valid() && m.queues == old(m.queues)[h := Without(old(m.queues[h]), e)]
    ensures Relinked(m.kind, old(m.Mem()), m.Mem(), m.queues)
  {
    hide Represents, Relinked;
    Words(m.kind, m.Mem(), m.queues, h, 0);
    if m.fwd[HeadSlot(h)] == To(e) {
      IndexOfUnique(m.kind, m.Mem(), m.queues, h, 0);
      SlistRemoveHead(m, h);
    } else {
      var cur := FindBefore(m, h, e);
      SlistRemoveAfter(m, h, cur, IndexOf(m.queues[h], e) - 1);
    }
  }

  // ------------------------------------------------------------------
  // STAILQ: every operation must keep `stqh_last` at the last next-slot
  // ------------------------------------------------------------------

  method StailqInsertHead(m: Memory, h: HeadId, e: NodeId)
    requires m.kind.Stailq? && m.Valid() && h in m.queues
    requires NextSlot(e) in m.fwd && Free(m.queues, e)
    modifies m
    ensures m.Valid() && m.queues == old(m.queues)[h := InsertAt(old(m.queues[h]), 0, e)]
    ensures Relinked(m.kind, old(m.Mem()), m.Mem(), m.queues)
  {
    hide Represents, Relinked, Rec, Target, InsertAt, Free;
    ghost var m0, q := m.Mem(), m.queues[h];
    ghost var next := m.queues[h := InsertAt(q, 0, e)];
    Words(m.kind, m0, m.queues, h, 0);
    SpliceRelinks(m.kind, m0, m.queues, h, 0, e);
    m.fwd := Store(m.fwd, NextSlot(e), m.fwd[HeadSlot(h)]);
    if m.fwd[NextSlot(e)] == Null {
      m.back := Store(m.back, HeadSlot(h), NextSlot(e));
    }
    m.fwd := Store(m.fwd, HeadSlot(h), To(e));
    m.queues := next;
  }

  method StailqInsertTail(m: Memory, h: HeadId, e: NodeId)
    requires m.kind.Stailq? && m.Valid() && h in m.queues
    requires NextSlot(e) in m.fwd && Free(m.queues, e)
    modifies m
    ensures m.Valid() && m.queues == old(m.queues)[h := InsertAt(old(m.queues[h]), |old(m.queues[h])|, e)]
    ensures Relinked(m.kind, old(m.Mem()), m.Mem(), m.queues)
  {
    hide Represents, Relinked, Rec, Target, InsertAt, Free;
    ghost var m0, q := m.Mem(), m.queues[h];
    ghost var next := m.queues[h := InsertAt(q, |q|, e)];
    Words(m.kind, m0, m.queues, h, |q|);
    SpliceRelinks(m.kind, m0, m.queues, h, |q|, e);
    m.fwd := Store(m.fwd, NextSlot(e), Null);
    m.fwd := Store(m.fwd, m.back[HeadSlot(h)], To(e));
    m.back := Store(m.back, HeadSlot(h), NextSlot(e));
    m.queues := next;
  }

  method StailqInsertAfter(m: Memory, h: HeadId, x: NodeId, e: NodeId)
    requires m.kind.Stailq? && m.Valid() && h in m.queues && x in m.queues[h]
    requires NextSlot(e) in m.fwd && Free(m.queues, e)
    modifies m
    ensures m.Valid()
    ensures m.queues == old(m.queues)[h := InsertAt(old(m.queues[h]), IndexOf(old(m.queues[h]), x) + 1, e)]
    ensures Relinked(m.kind, old(m.Mem()), m.Mem(), m.queues)
  {
    hide Represents, Relinked, Rec, Target, InsertAt, Free, IndexOf;
    ghost var m0, q := m.Mem(), m.queues[h];
    ghost var i := IndexOf(q, x);
    ghost var next := m.queues[h := InsertAt(q, i + 1, e)];
    Words(m.kind, m0, m.queues, h, i);
    Words(m.kind, m0, m.queues, h, i + 1);
    SpliceRelinks(m.kind, m0, m.queues, h, i + 1, e);
    m.fwd := Store(m.fwd, NextSlot(e), m.fwd[NextSlot(x)]);
    if m.fwd[NextSlot(e)] == Null {
      m.back := Store(m.back, HeadSlot(h), NextSlot(e));
    }
    m.fwd := Store(m.fwd, NextSlot(x), To(e));
    m.queues := next;
  }

  method StailqRemoveHead(m: Memory, h: HeadId)
    requires m.kind.Stailq? && m.Valid() && h in m.queues && m.queues[h] != []
    modifies m
    ensures m.Valid() && m.queues == old(m.queues)[h := DropAt(old(m.queues[h]), 0)]
    ensures Relinked(m.kind, old(m.Mem()), m.Mem(), m.queues)
  {
    hide Represents, Relinked, Rec, Target;
    ghost var m0, q := m.Mem(), m.queues[h];
    ghost var next := m.queues[h := DropAt(q, 0)];
    Words(m.kind, m0, m.queues, h, 0);
    Words(m.kind, m0, m.queues, h, 1);
    CutRelinks(m.kind, m0, m.queues, h, 0);
    m.fwd := Store(m.fwd, HeadSlot(h), m.fwd[NextSlot(m.fwd[HeadSlot(h)].node)]);
    if m.fwd[HeadSlot(h)] == Null {
      m.back := Store(m.back, HeadSlot(h), HeadSlot(h));
    }
    m.queues := next;
  }

  method StailqRemoveAfter(m: Memory, h: HeadId, x: NodeId, ghost i: nat)
    requires m.kind.Stailq? && m.Valid() && h in m.queues
    requires i + 1 < |m.queues[h]| && m.queues[h][i] == x
    modifies m
    ensures m.Valid() && m.queues == old(m.queues)[h := DropAt(old(m.queues[h]), i + 1)]
    ensures Relinked(m.kind, old(m.Mem()), m.Mem(), m.queues)
  {
    hide Represents, Relinked, Rec, Target;
    ghost var m0, q := m.Mem(), m.queues[h];
    ghost var next := m.queues[h := DropAt(q, i + 1)];
    Words(m.kind, m0, m.queues, h, i);
    Words(m.kind, m0, m.queues, h, i + 1);
    Words(m.kind, m0, m.queues, h, i + 2);
    CutRelinks(m.kind, m0, m.queues, h, i + 1);
    m.fwd := Store(m.fwd, NextSlot(x), m.fwd[NextSlot(m.fwd[NextSlot(x)].node)]);
    if m.fwd[NextSlot(x)] == Null {
      m.back := Store(m.back, HeadSlot(h), NextSlot(x));
    }
    m.queues := next;
  }

  method StailqRemove(m: Memory, h: HeadId, e: NodeId)
    requires m.kind.Stailq? && m.Valid() && h in m.queues && e in m.queues[h]
    modifies m
    ensures m.Valid() && m.queues == old(m.queues)[h := Without(old(m.queues[h]), e)]
    ensures Relinked(m.kind, old(m.Mem()), m.Mem(), m.queues)
  {
    hide Represents, Relinked;
    Words(m.kind, m.Mem(), m.queues, h, 0);
    if m.fwd[HeadSlot(h)] == To(e) {
      IndexOfUnique(m.kind, m.Mem(), m.queues, h, 0);
      StailqRemoveHead(m, h);
    } else {
      var cur := FindBefore(m, h, e);
      StailqRemoveAfter(m, h, cur, IndexOf(m.queues[h], e) - 1);
    }
  }

  /** The element whose next-slot `stqh_last` addresses. */
  method StailqLast(m: Memory, h: HeadId) returns (p: Ptr)
    requires m.kind.Stailq? && m.Valid() && h in m.queues
    ensures m.queues[h] == [] <==> p == Null
    ensures m.queues[h] != [] ==> p == To(m.queues[h][|m.queues[h]| - 1])
  {
    Words(m.kind, m.Mem(), m.queues, h, 0);
    if m.fwd[HeadSlot(h)] == Null {
      p := Null;
    } else {
      p := To(m.back[HeadSlot(h)].node);
    }
  }

  // ------------------------------------------------------------------
  // LIST
  // ------------------------------------------------------------------

  method ListInsertBefore(m: Memory, ghost h: HeadId, x: NodeId, e: NodeId)
    requires m.kind.List? && m.Valid() && h in m.queues && x in m.queues[h]
    requires NextSlot(e) in m.fwd && Free(m.queues, e)
    modifies m
    ensures m.Valid()
    ensures m.queues == old(m.queues)[h := InsertAt(old(m.queues[h]), IndexOf(old(m.queues[h]), x), e)]
    ensures Relinked(m.kind, old(m.Mem()), m.Mem(), m.queues)
  {
    hide Represents, Relinked, Rec, Target, InsertAt, Free, IndexOf;
    ghost var m0, q := m.Mem(), m.queues[h];
    ghost var i := IndexOf(q, x);
    ghost var next := m.queues[h := InsertAt(q, i, e)];
    Words(m.kind, m0, m.queues, h, i);
    FreeWords(m.kind, m0, m.queues, h, e);
    SpliceRelinks(m.kind, m0, m.queues, h, i, e);
    m.panicked := m.panicked || m.fwd[m.back[NextSlot(x)]] != To(x);
    m.back := Store(m.back, NextSlot(e), m.back[NextSlot(x)]);
    m.fwd := Store(m.fwd, NextSlot(e), To(x));
    m.fwd := Store(m.fwd, m.back[NextSlot(x)], To(e));
    m.back := Store(m.back, NextSlot(x), NextSlot(e));
    m.queues := next;
  }

  /** Neither the head nor a scan is needed. */
  method ListRemove(m: Memory, ghost h: HeadId, e: NodeId)
    requires m.kind.List? && m.Valid() && h in m.queues && e in m.queues[h]
    modifies m
    ensures m.Valid() && m.queues == old(m.queues)[h := Without(old(m.queues[h]), e)]
    ensures Relinked(m.kind, old(m.Mem()), m.Mem(), m.queues)
  {
    hide Represents, Relinked, Rec, Target, IndexOf;
    ghost var m0, q := m.Mem(), m.queues[h];
    ghost var i := IndexOf(q, e);
    ghost var next := m.queues[h := DropAt(q, i)];
    Words(m.kind, m0, m.queues, h, i);
    Words(m.kind, m0, m.queues, h, i + 1);
    CutRelinks(m.kind, m0, m.queues, h, i);
    m.panicked := m.panicked || m.fwd[m.back[NextSlot(e)]] != To(e);
    if m.fwd[NextSlot(e)] != Null {
      var succ := NextSlot(m.fwd[NextSlot(e)].node);
      m.panicked := m.panicked || m.back[succ] != NextSlot(e);
      m.back := Store(m.back, succ, m.back[NextSlot(e)]);
    }
    m.fwd := Store(m.fwd, m.back[NextSlot(e)], m.fwd[NextSlot(e)]);
    m.queues := next;
  }

  method ListPrev(m: Memory, h: HeadId, x: NodeId) returns (p: Ptr)
    requires m.kind.List? && m.Valid() && h in m.queues && x in m.queues[h]
    ensures var i := IndexOf(m.queues[h], x);
            (i == 0 <==> p == Null) && (i > 0 ==> p == To(m.queues[h][i - 1]))
  {
    Words(m.kind, m.Mem(), m.queues, h, IndexOf(m.queues[h], x));
    if m.back[NextSlot(x)] == HeadSlot(h) {
      p := Null;
    } else {
      p := To(m.back[NextSlot(x)].node);
    }
  }

  // ------------------------------------------------------------------
  // SLIST and LIST concatenation: no tail to hang the second list on, so it is sought
  // ------------------------------------------------------------------

  /** The scan for the last element of a queue that is not empty. */
  method FindLast(m: Memory, h: HeadId) returns (cur: NodeId)
    requires m.Valid() && h in m.queues && m.queues[h] != []
    ensures cur == m.queues[h][|m.queues[h]| - 1]
  {
    hide Represents, Rec, After;
    ghost var q := m.queues[h];
    ghost var i := 0;
    Words(m.kind, m.Mem(), m.queues, h, 0);
    cur := m.fwd[HeadSlot(h)].node;
    Words(m.kind, m.Mem(), m.queues, h, 1);
    while m.fwd[NextSlot(cur)] != Null
      invariant i < |q| && cur == q[i]
      invariant NextSlot(cur) in m.fwd && m.fwd[NextSlot(cur)] == Target(q, i + 1)
      decreases |q| - i
    {
      Words(m.kind, m.Mem(), m.queues, h, i + 1);
      Words(m.kind, m.Mem(), m.queues, h, i + 2);
      cur := m.fwd[NextSlot(cur)].node;
      i := i + 1;
    }
  }

  /** The words a concatenation leaves in the two families whose heads have no second word. */
  lemma ConcatWords(k: Kind, m: Heap, h: HeadId, g: HeadId, p: seq<NodeId>, q: seq<NodeId>)
    requires (k.Slist? || k.List?) && h != g
    ensures Adopted(k, Reset(k, m, g), h, p, q) ==
            if q == [] then Heap(m.fwd[HeadSlot(g) := Null], m.back)
            else Heap(m.fwd[Rec(h, p, |p|) := To(q[0])][HeadSlot(g) := Null],
                      if k.List? then m.back[NextSlot(q[0]) := Rec(h, p, |p|)] else m.back)
  {
  }

  method SlistConcat(m: Memory, h: HeadId, g: HeadId)
    requires m.kind.Slist? && m.Valid() && h in m.queues && g in m.queues && h != g
    modifies m
    ensures m.Valid() && m.queues == Joined(old(m.queues), h, g)
    ensures Relinked(m.kind, old(m.Mem()), m.Mem(), m.queues)
  {
    hide Represents, Relinked, Rec, Target, Adopted, Reset;
    ghost var m0, p, q := m.Mem(), m.queues[h], m.queues[g];
    ghost var next := Joined(m.queues, h, g);
    Words(m.kind, m0, m.queues, h, 0);
    Words(m.kind, m0, m.queues, h, |p|);
    Words(m.kind, m0, m.queues, g, 0);
    ConcatWords(m.kind, m0, h, g, p, q);
    ConcatRelinks(m.kind, m0, m.queues, h, g);
    if m.fwd[HeadSlot(h)] == Null {
      m.fwd := Store(m.fwd, HeadSlot(h), m.fwd[HeadSlot(g)]);
      if m.fwd[HeadSlot(h)] != Null {
        m.fwd := Store(m.fwd, HeadSlot(g), Null);
      }
    } else if m.fwd[HeadSlot(g)] != Null {
      var cur := FindLast(m, h);
      LastSlot(h, p);
      m.fwd := Store(m.fwd, NextSlot(cur), m.fwd[HeadSlot(g)]);
      m.fwd := Store(m.fwd, HeadSlot(g), Null);
    }
    assert m.Mem() == Adopted(m.kind, Reset(m.kind, m0, g), h, p, q);
    m.queues := next;
  }

  method ListConcat(m: Memory, h: HeadId, g: HeadId)
    requires m.kind.List? && m.Valid() && h in m.queues && g in m.queues && h != g
    modifies m
    ensures m.Valid() && m.queues == Joined(old(m.queues), h, g)
    ensures Relinked(m.kind, old(m.Mem()), m.Mem(), m.queues)
  {
    hide Represents, Relinked, Rec, Target, Adopted, Reset;
    ghost var m0, p, q := m.Mem(), m.queues[h], m.queues[g];
    ghost var next := Joined(m.queues, h, g);
    Words(m.kind, m0, m.queues, h, 0);
    Words(m.kind, m0, m.queues, h, |p|);
    Words(m.kind, m0, m.queues, g, 0);
    ConcatWords(m.kind, m0, h, g, p, q);
    ConcatRelinks(m.kind, m0, m.queues, h, g);
    if m.fwd[HeadSlot(h)] == Null {
      m.fwd := Store(m.fwd, HeadSlot(h), m.fwd[HeadSlot(g)]);
      if m.fwd[HeadSlot(h)] != Null {
        m.back := Store(m.back, NextSlot(m.fwd[HeadSlot(g)].node), HeadSlot(h));
        m.fwd := Store(m.fwd, HeadSlot(g), Null);
      }
    } else if m.fwd[HeadSlot(g)] != Null {
      var cur := FindLast(m, h);
      LastSlot(h, p);
      m.fwd := Store(m.fwd, NextSlot(cur), m.fwd[HeadSlot(g)]);
      m.back := Store(m.back, NextSlot(m.fwd[HeadSlot(g)].node), NextSlot(cur));
      m.fwd := Store(m.fwd, HeadSlot(g), Null);
    }
    assert m.Mem() == Adopted(m.kind, Reset(m.kind, m0, g), h, p, q);
    m.queues := next;
  }

  lemma LastSlot(h: HeadId, p: seq<NodeId>)
    requires p != []
    ensures Rec(h, p, |p|) == NextSlot(p[|p| - 1])
  {
  }

  // ------------------------------------------------------------------
  // Scanning and constant-time removals agree
  // ------------------------------------------------------------------

  method RemovalsAgree(t: Memory, l: Memory, st: Memory, s: Memory, h: HeadId, e: NodeId)
    requires t.kind.Tailq? && l.kind.List? && st.kind.Stailq? && s.kind.Slist?
    requires t.Valid() && l.Valid() && st.Valid() && s.Valid()
    requires t.queues == l.queues == st.queues == s.queues && h in t.queues && e in t.queues[h]
    modifies t, l, st, s
    ensures t.Valid() && l.Valid() && st.Valid() && s.Valid()
    ensures t.queues == l.queues == st.queues == s.queues == old(t.queues)[h := Without(old(t.queues[h]), e)]
    ensures Free(t.queues, e) && forall g, n | g in old(t.queues) && n in old(t.queues)[g] && n != e ::
              g in t.queues && n in t.queues[g]
  {
    hide Represents, Relinked, Without;
    ghost var qs := t.queues;
    Distinctness(Tailq, t.Mem(), qs, h);
    RemovedMembers(qs[h], e);
    TailQueue.Remove(t, h, e);
    ListRemove(l, h, e);
    StailqRemove(st, h, e);
    SlistRemove(s, h, e);
  }

  lemma RemovedMembers(q: seq<NodeId>, e: NodeId)
    requires e in q && Distinct(q)
    ensures forall n | n in q && n != e :: n in Without(q, e)
  {
    DropAtMembers(q, IndexOf(q, e));
  }
}
