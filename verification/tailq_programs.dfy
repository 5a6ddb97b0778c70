/**
 Programs over the TAILQ macros, run on twin memories that must end word for word
 equal: the insert forms, removal after insertion, and CONCAT against the
 element-by-element move.
 */
module TailQueuePrograms {
  import opened QueueMemory
  import opened QueueMachine
  import TailQueue

  /** Two separate memories in the same state. */
  ghost predicate Twins(a: Memory, b: Memory)
    reads a, b
  {
    a != b && a.kind == b.kind == Tailq && a.Valid() && b.Valid() && a.Mem() == b.Mem() && a.queues == b.queues
  }

  // ------------------------------------------------------------------
  // The insert forms coincide
  // ------------------------------------------------------------------

  /** INSERT_BEFORE, which is not told the head, does what INSERT_AFTER the predecessor or INSERT_HEAD does. */
  method InsertBeforeByOthers(a: Memory, b: Memory, h: HeadId, x: NodeId, e: NodeId)
    requires Twins(a, b) && h in a.queues && x in a.queues[h]
    requires NextSlot(e) in a.fwd && Free(a.queues, e)
    modifies a, b
    ensures Twins(a, b)
  {
    hide Represents, Free;
    ghost var m0, q := a.Mem(), a.queues[h];
    TailQueue.InsertBefore(a, h, x, e);
    var p := TailQueue.Prev(b, h, x);
    if p == Null {
      TailQueue.InsertHead(b, h, e);
      assert InsertAt(q, 0, e) == [e] + q;
    } else {
      ghost var i := IndexOf(q, x);
      IndexOfUnique(b.kind, m0, b.queues, h, i - 1);
      TailQueue.InsertAfter(b, h, p.node, e);
    }
    assert a.queues == b.queues;
    RelinkedDetermines(Tailq, m0, a.Mem(), b.Mem(), a.queues);
  }

  /** INSERT_TAIL is INSERT_AFTER the last element, or INSERT_HEAD of an empty queue. */
  method InsertTailByOthers(a: Memory, b: Memory, h: HeadId, e: NodeId)
    requires Twins(a, b) && h in a.queues
    requires NextSlot(e) in a.fwd && Free(a.queues, e)
    modifies a, b
    ensures Twins(a, b)
  {
    hide Represents, Free;
    ghost var m0, q := a.Mem(), a.queues[h];
    TailQueue.InsertTail(a, h, e);
    var p := TailQueue.Last(b, h);
    if p == Null {
      TailQueue.InsertHead(b, h, e);
      assert [e] + q == q + [e];
    } else {
      IndexOfUnique(b.kind, m0, b.queues, h, |q| - 1);
      TailQueue.InsertAfter(b, h, p.node, e);
      assert InsertAt(q, |q|, e) == q + [e];
    }
    assert a.queues == b.queues;
    RelinkedDetermines(Tailq, m0, a.Mem(), b.Mem(), a.queues);
  }

  // ------------------------------------------------------------------
  // REMOVE undoes every insertion
  // ------------------------------------------------------------------

  /** Which insertion macro is used. */
  datatype Place = AtHead | AtTail | AfterElement(x: NodeId) | BeforeElement(x: NodeId)

  ghost predicate Fits(q: seq<NodeId>, place: Place) {
    (place.AfterElement? || place.BeforeElement?) ==> place.x in q
  }

  /** The position the new element takes. */
  ghost function Position(q: seq<NodeId>, place: Place): (i: nat)
    requires Fits(q, place)
    ensures i <= |q|
  {
    match place
    case AtHead => 0
    case AtTail => |q|
    case AfterElement(x) => IndexOf(q, x) + 1
    case BeforeElement(x) => IndexOf(q, x)
  }

  lemma InsertAtEnds(q: seq<NodeId>, e: NodeId)
    ensures InsertAt(q, 0, e) == [e] + q && InsertAt(q, |q|, e) == q + [e]
  {
  }

  method Insert(m: Memory, h: HeadId, place: Place, e: NodeId)
    requires m.kind.Tailq? && m.Valid() && h in m.queues && Fits(m.queues[h], place)
    requires NextSlot(e) in m.fwd && Free(m.queues, e)
    modifies m
    ensures m.Valid()
    ensures m.queues == old(m.queues)[h := InsertAt(old(m.queues[h]), Position(old(m.queues[h]), place), e)]
    ensures Relinked(m.kind, old(m.Mem()), m.Mem(), m.queues)
  {
    hide Represents, Free, Relinked;
    InsertAtEnds(m.queues[h], e);
    match place
    case AtHead =>
      TailQueue.InsertHead(m, h, e);
    case AtTail =>
      TailQueue.InsertTail(m, h, e);
    case AfterElement(x) =>
      TailQueue.InsertAfter(m, h, x, e);
    case BeforeElement(x) =>
      TailQueue.InsertBefore(m, h, x, e);
  }

  /** Every word of every record but the element's own is as before, and the queues are too. */
  method InsertThenRemove(m: Memory, h: HeadId, place: Place, e: NodeId)
    requires m.kind.Tailq? && m.Valid() && h in m.queues && Fits(m.queues[h], place)
    requires NextSlot(e) in m.fwd && Free(m.queues, e)
    modifies m
    ensures m.Valid() && m.queues == old(m.queues)
    ensures m.fwd.Keys == old(m.fwd.Keys) && m.back.Keys == old(m.back.Keys)
    ensures forall l | l in old(m.fwd) && l != NextSlot(e) :: m.fwd[l] == old(m.fwd[l])
    ensures forall l | l in old(m.back) && l != NextSlot(e) :: m.back[l] == old(m.back[l])
  {
    hide Represents;
    ghost var m0, qs := m.Mem(), m.queues;
    ghost var q := qs[h];
    ghost var i := Position(q, place);
    FreeOutside(Tailq, m0, qs, h, e);
    Insert(m, h, place, e);
    ghost var m1, other := m.Mem(), m.queues;
    InsertAtDistinct(q, i, e);
    SplitAt(InsertAt(q, i, e), q[..i], e, q[i..]);
    assert q[..i] + q[i..] == q;
    TailQueue.Remove(m, h, e);
    assert m.queues == qs;
    hide Relinked;
    forall l: Loc | l != NextSlot(e)
      ensures l in m0.fwd <==> l in m.fwd
      ensures l in m0.fwd ==> m.fwd[l] == m0.fwd[l]
      ensures l in m0.back <==> l in m.back
      ensures l in m0.back ==> m.back[l] == m0.back[l]
    {
      InsertedLinks(qs, h, i, e, l);
      RelinkedBackRestores(Tailq, m0, m1, m.Mem(), qs, other, l);
    }
  }

  lemma FreeOutside(k: Kind, m: Heap, qs: Queues, h: HeadId, e: NodeId)
    requires Represents(k, m, qs) && h in qs && Free(qs, e)
    ensures e !in qs[h] && Distinct(qs[h])
  {
    Distinctness(k, m, qs, h);
  }

  lemma InsertedLinks(qs: Queues, h: HeadId, i: nat, e: NodeId, l: Loc)
    requires h in qs && i <= |qs[h]| && l != NextSlot(e)
    ensures Linked(qs[h := InsertAt(qs[h], i, e)], l) ==> Linked(qs, l)
  {
    var qs' := qs[h := InsertAt(qs[h], i, e)];
    if l.NextSlot? && Linked(qs', l) {
      InsertAtMembers(qs[h], i, e);
      var g, j := LinkedAt(qs', l.node);
      assert l.node in qs[g];
    }
  }

  // ------------------------------------------------------------------
  // CONCAT is repeated removal from the front and insertion at the back
  // ------------------------------------------------------------------

  method MoveAll(m: Memory, h: HeadId, g: HeadId)
    requires m.kind.Tailq? && m.Valid() && h in m.queues && g in m.queues && h != g
    modifies m
    ensures m.Valid() && m.queues == Joined(old(m.queues), h, g)
    ensures Relinked(m.kind, old(m.Mem()), m.Mem(), m.queues)
  {
    hide Represents, Relinked, Linked;
    ghost var m0, qs, p, q, i := m.Mem(), m.queues, m.queues[h], m.queues[g], 0;
    RelinkedSelf(Tailq, m0, qs);
    assert q[..0] == [] && p + [] == p && q[0..] == q;
    var done := TailQueue.Empty(m, g);
    while !done
      invariant m.Valid() && i <= |q|
      invariant m.queues == Moved(qs, h, g, i)
      invariant Relinked(Tailq, m0, m.Mem(), m.queues)
      invariant done <==> m.queues[g] == []
      decreases |q| - i
    {
      ghost var m1, now := m.Mem(), m.queues;
      MovedStep(Tailq, m1, qs, h, g, i);
      var x := TailQueue.First(m, g);
      TailQueue.Remove(m, g, x.node);
      ghost var m2, mid := m.Mem(), m.queues;
      TailQueue.InsertTail(m, h, x.node);
      i := i + 1;
      RelinkedCompose(Tailq, m1, m2, m.Mem(), mid, m.queues);
      RelinkedCompose(Tailq, m0, m1, m.Mem(), now, m.queues);
      done := TailQueue.Empty(m, g);
    }
    assert i == |q| && q[..i] == q && q[i..] == [];
    assert m.queues == Joined(qs, h, g);
  }

  /** The queues after the first `i` elements of `g` have moved to the tail of `h`. */
  function Moved(qs: Queues, h: HeadId, g: HeadId, i: nat): Queues
    requires h in qs && g in qs && i <= |qs[g]|
  {
    qs[g := qs[g][i..]][h := qs[h] + qs[g][..i]]
  }

  /** Moving one more element: what the removal and the insertion leave, and that no record is forgotten. */
  lemma MovedStep(k: Kind, m: Heap, qs: Queues, h: HeadId, g: HeadId, i: nat)
    requires h in qs && g in qs && h != g && i < |qs[g]|
    requires Represents(k, m, Moved(qs, h, g, i))
    ensures var now, x := Moved(qs, h, g, i), qs[g][i];
            var mid := now[g := Without(now[g], x)];
            && x in now[g]
            && mid[h := mid[h] + [x]] == Moved(qs, h, g, i + 1)
            && (forall l :: Linked(now, l) ==> Linked(Moved(qs, h, g, i + 1), l))
            && (forall l :: Linked(mid, l) ==> Linked(Moved(qs, h, g, i + 1), l))
  {
    hide Linked;
    var now, x, rest := Moved(qs, h, g, i), qs[g][i], qs[g][i + 1..];
    Distinctness(k, m, now, g);
    hide Represents, Unique;
    MovedSequences(qs[h], qs[g], i);
    MovedQueues(qs, h, g, i);
    hide Without, Distinct, Moved;
    LinkedGrows(now[g := rest], h, now[h] + [x]);
    forall l | Linked(now, l)
      ensures Linked(Moved(qs, h, g, i + 1), l)
    {
      MovedLinks(qs, h, g, i, l);
    }
  }

  lemma MovedSequences(p: seq<NodeId>, q: seq<NodeId>, i: nat)
    requires i < |q| && Distinct(q[i..])
    ensures q[i] in q[i..] && Without(q[i..], q[i]) == q[i + 1..]
    ensures p + q[..i] + [q[i]] == p + q[..i + 1]
  {
    assert q[i..] == [] + [q[i]] + q[i + 1..];
    SplitAt(q[i..], [], q[i], q[i + 1..]);
  }

  lemma MovedQueues(qs: Queues, h: HeadId, g: HeadId, i: nat)
    requires h in qs && g in qs && h != g && i < |qs[g]|
    ensures var now, x := Moved(qs, h, g, i), qs[g][i];
            now[g := qs[g][i + 1..]][h := now[h] + [x]] == Moved(qs, h, g, i + 1)
  {
    assert qs[h] + qs[g][..i] + [qs[g][i]] == qs[h] + qs[g][..i + 1];
  }

  lemma MovedLinks(qs: Queues, h: HeadId, g: HeadId, i: nat, l: Loc)
    requires h in qs && g in qs && h != g && i < |qs[g]|
    requires Linked(Moved(qs, h, g, i), l)
    ensures Linked(Moved(qs, h, g, i + 1), l)
  {
    var now, x, next := Moved(qs, h, g, i), qs[g][i], Moved(qs, h, g, i + 1);
    assert next[h] == now[h] + [x] && now[g] == [x] + next[g];
    if l.NextSlot? {
      var f, j := LinkedAt(now, l.node);
      assert l.node in next[if l.node == x then h else f];
    }
  }

  /** The constant-time CONCAT and the element-by-element move leave the same memory, link for link. */
  method ConcatByMoves(a: Memory, b: Memory, h: HeadId, g: HeadId)
    requires Twins(a, b) && h in a.queues && g in a.queues && h != g
    modifies a, b
    ensures Twins(a, b)
  {
    hide Represents, Joined;
    ghost var m0 := a.Mem();
    TailQueue.Concat(a, h, g);
    MoveAll(b, h, g);
    RelinkedDetermines(Tailq, m0, a.Mem(), b.Mem(), a.queues);
  }
}
