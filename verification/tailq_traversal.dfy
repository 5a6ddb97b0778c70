/**
 The TAILQ traversal macros (server/src/queue.h:650-688).  A `from` of NULL is
 the plain macro; any other value is its _FROM variant.  The bodies of the _SAFE
 loops remove AND free the current element whenever `drop` says so, which is the
 strongest interference those macros are meant to survive.
 */
module TailQueueTraversal {
  import opened QueueMemory
  import opened QueueMachine
  import TailQueue

  function Keep(q: seq<NodeId>, drop: NodeId -> bool): seq<NodeId> {
    if q == [] then []
    else Keep(q[..|q| - 1], drop) + if drop(q[|q| - 1]) then [] else [q[|q| - 1]]
  }

  /** The last element first. */
  function Backwards(q: seq<NodeId>): (r: seq<NodeId>)
    ensures |r| == |q|
    ensures forall i | 0 <= i < |q| :: r[i] == q[|q| - 1 - i]
  {
    seq(|q|, i requires 0 <= i < |q| => q[|q| - 1 - i])
  }

  /** Going one element further back visits that element next. */
  lemma BackwardsGrows(q: seq<NodeId>, i: nat, j: nat)
    requires 0 < i <= j <= |q|
    ensures Backwards(q[i - 1..j]) == Backwards(q[i..j]) + [q[i - 1]]
  {
  }

  /** Survivors of a concatenation are the survivors of its parts, in order. */
  lemma {:induction false} KeepConcat(a: seq<NodeId>, b: seq<NodeId>, drop: NodeId -> bool)
    ensures Keep(a + b, drop) == Keep(a, drop) + Keep(b, drop)
    decreases |b|
  {
    if b == [] {
      assert a + b == a;
    } else {
      var l := |b| - 1;
      assert (a + b)[..|a + b| - 1] == a + b[..l];
      KeepConcat(a, b[..l], drop);
      assert (a + b)[|a + b| - 1] == b[l];
    }
  }

  /** The survivors are exactly the elements that `drop` spares. */
  lemma {:induction false} KeepMembers(q: seq<NodeId>, drop: NodeId -> bool)
    ensures forall n :: n in Keep(q, drop) <==> n in q && !drop(n)
  {
    if q != [] {
      KeepMembers(q[..|q| - 1], drop);
      assert q == q[..|q| - 1] + [q[|q| - 1]];
    }
  }

  // ------------------------------------------------------------------
  // Memory while elements are being removed and freed
  // ------------------------------------------------------------------

  /** Records of the dropped elements of `seen` are gone, all others remain, and no word outside the queues changed. */
  ghost predicate Swept(m0: Heap, m1: Heap, qs: Queues, seen: seq<NodeId>, drop: NodeId -> bool) {
    && (forall l :: l in m1.fwd <==> l in m0.fwd && !(l.NextSlot? && l.node in seen && drop(l.node)))
    && (forall l | l in m1.fwd && !Linked(qs, l) :: m1.fwd[l] == m0.fwd[l])
    && (forall l | l in m1.back && !Linked(qs, l) :: l in m0.back && m1.back[l] == m0.back[l])
  }

  method RemoveAndFree(m: Memory, h: HeadId, e: NodeId)
    requires m.kind.Tailq? && m.Valid() && h in m.queues && e in m.queues[h]
    modifies m
    ensures m.Valid() && m.queues == old(m.queues)[h := Without(old(m.queues[h]), e)]
    ensures m.fwd.Keys == old(m.fwd.Keys) - {NextSlot(e)}
    ensures forall l | l in m.fwd && !Linked(old(m.queues), l) :: m.fwd[l] == old(m.fwd)[l]
    ensures forall l | l in m.back && !Linked(old(m.queues), l) :: l in old(m.back) && m.back[l] == old(m.back)[l]
    ensures forall l | !Linked(m.queues, l) :: !Linked(old(m.queues), l) || l == NextSlot(e)
  {
    hide Represents;
    ghost var m0, qs := m.Mem(), m.queues;
    WithoutLinks(Tailq, m0, qs, h, e);
    TailQueue.Remove(m, h, e);
    ghost var m1 := m.Mem();
    assert m1.fwd.Keys == m0.fwd.Keys && m1.back.Keys == m0.back.Keys;
    hide Linked;
    m.Dispose(e);
    forall l | l in m.fwd && !Linked(qs, l)
      ensures m.fwd[l] == m0.fwd[l]
    {
      assert l in m1.fwd.Keys;
    }
    forall l | l in m.back && !Linked(qs, l)
      ensures l in m0.back && m.back[l] == m0.back[l]
    {
      assert l in m1.back.Keys;
    }
  }

  lemma WithoutLinks(k: Kind, m: Heap, qs: Queues, h: HeadId, e: NodeId)
    requires Represents(k, m, qs) && h in qs && e in qs[h]
    ensures forall l :: Linked(qs[h := Without(qs[h], e)], l) <==> Linked(qs, l) && l != NextSlot(e)
  {
    var qs' := qs[h := Without(qs[h], e)];
    Distinctness(k, m, qs, h);
    DropAtMembers(qs[h], IndexOf(qs[h], e));
    TailQueue.WithoutFrees(k, m, qs, h, e);
    forall l
      ensures Linked(qs', l) <==> Linked(qs, l) && l != NextSlot(e)
    {
      if l.NextSlot? && l.node != e {
        if Linked(qs, l) {
          var g, i := LinkedAt(qs, l.node);
          assert l.node in qs'[g];
        }
        if Linked(qs', l) {
          var g, i := LinkedAt(qs', l.node);
          assert l.node in qs[g];
        }
      }
    }
  }

  // ------------------------------------------------------------------
  // Reading traversals
  // ------------------------------------------------------------------

  method Foreach(m: Memory, h: HeadId, from: Ptr) returns (visited: seq<NodeId>)
    requires m.kind.Tailq? && m.Valid() && h in m.queues
    requires from.To? ==> from.node in m.queues[h]
    ensures from == Null ==> visited == m.queues[h]
    ensures forall i | 0 <= i < |m.queues[h]| && from == To(m.queues[h][i]) :: visited == m.queues[h][i..]
  {
    hide Represents;
    ghost var q := m.queues[h];
    ghost var start := if from == Null then 0 else IndexOf(q, from.node);
    ghost var i := start;
    OwnPositions(Tailq, m.Mem(), m.queues, h);
    visited := [];
    var v := from;
    if v == Null {
      v := TailQueue.First(m, h);
    }
    while v != Null
      invariant start <= i <= |q| && v == Target(q, i)
      invariant visited == q[start..i]
      decreases |q| - i
    {
      visited := visited + [v.node];
      IndexOfUnique(Tailq, m.Mem(), m.queues, h, i);
      v := TailQueue.Next(m, h, v.node);
      i := i + 1;
    }
  }

  method ForeachReverse(m: Memory, h: HeadId, from: Ptr) returns (visited: seq<NodeId>)
    requires m.kind.Tailq? && m.Valid() && h in m.queues
    requires from.To? ==> from.node in m.queues[h]
    ensures from == Null ==>
              && |visited| == |m.queues[h]|
              && forall j | 0 <= j < |visited| :: visited[j] == m.queues[h][|visited| - 1 - j]
    ensures forall i | 0 <= i < |m.queues[h]| && from == To(m.queues[h][i]) ::
              && |visited| == i + 1
              && forall j | 0 <= j <= i :: visited[j] == m.queues[h][i - j]
  {
    hide Represents;
    ghost var q := m.queues[h];
    ghost var end := if from == Null then |q| else IndexOf(q, from.node) + 1;
    ghost var i := end;
    OwnPositions(Tailq, m.Mem(), m.queues, h);
    visited := [];
    var v := from;
    if v == Null {
      v := TailQueue.Last(m, h);
    }
    while v != Null
      invariant 0 <= i <= end <= |q| && v == (if i == 0 then Null else To(q[i - 1]))
      invariant visited == Backwards(q[i..end])
      decreases i
    {
      visited := visited + [v.node];
      IndexOfUnique(Tailq, m.Mem(), m.queues, h, i - 1);
      v := TailQueue.Prev(m, h, v.node);
      BackwardsGrows(q, i, end);
      i := i - 1;
    }
    assert q[0..end] == q[..end];
  }

  // ------------------------------------------------------------------
  // Traversals that survive removal of the current element
  // ------------------------------------------------------------------

  lemma SweptSelf(m: Heap, qs: Queues, drop: NodeId -> bool)
    ensures Swept(m, m, qs, [], drop)
  {
  }

  lemma SweptSpare(m0: Heap, m1: Heap, qs: Queues, seen: seq<NodeId>, v: NodeId, drop: NodeId -> bool)
    requires Swept(m0, m1, qs, seen, drop) && !drop(v)
    ensures Swept(m0, m1, qs, seen + [v], drop) && Swept(m0, m1, qs, [v] + seen, drop)
  {
    forall l: Loc
      ensures (l.NextSlot? && l.node in seen + [v] && drop(l.node)) <==> (l.NextSlot? && l.node in seen && drop(l.node))
      ensures (l.NextSlot? && l.node in [v] + seen && drop(l.node)) <==> (l.NextSlot? && l.node in seen && drop(l.node))
    {
    }
  }

  lemma SweptDrop(m0: Heap, m1: Heap, m2: Heap, qs: Queues, qs': Queues, seen: seq<NodeId>, v: NodeId, drop: NodeId -> bool)
    requires Swept(m0, m1, qs, seen, drop) && drop(v)
    requires m2.fwd.Keys == m1.fwd.Keys - {NextSlot(v)} && NextSlot(v) !in m2.back
    requires forall l | l in m2.fwd && !Linked(qs, l) :: m2.fwd[l] == m1.fwd[l]
    requires forall l | l in m2.back && !Linked(qs, l) :: l in m1.back && m2.back[l] == m1.back[l]
    requires forall l | !Linked(qs', l) :: !Linked(qs, l) || l == NextSlot(v)
    ensures Swept(m0, m2, qs', seen + [v], drop) && Swept(m0, m2, qs', [v] + seen, drop)
  {
    hide Linked;
    forall l: Loc
      ensures l in m2.fwd <==> l in m0.fwd && !(l.NextSlot? && l.node in seen + [v] && drop(l.node))
      ensures l in m2.fwd <==> l in m0.fwd && !(l.NextSlot? && l.node in [v] + seen && drop(l.node))
    {
      assert l in m2.fwd <==> l in m1.fwd.Keys && l != NextSlot(v);
    }
  }

  /** The loop body: the current element goes when `drop` says so. */
  method Body(m: Memory, h: HeadId, v: NodeId, drop: NodeId -> bool,
              ghost a: seq<NodeId>, ghost b: seq<NodeId>, ghost m0: Heap, ghost seen: seq<NodeId>)
    requires m.kind.Tailq? && m.Valid() && h in m.queues && m.queues[h] == a + [v] + b
    requires Swept(m0, m.Mem(), m.queues, seen, drop)
    modifies m
    ensures m.Valid() && m.queues == old(m.queues)[h := a + Keep([v], drop) + b]
    ensures Swept(m0, m.Mem(), m.queues, seen + [v], drop)
    ensures Swept(m0, m.Mem(), m.queues, [v] + seen, drop)
  {
    hide Represents, Swept, Linked;
    assert [v][..0] == [] && Keep([v], drop) == if drop(v) then [] else [v];
    Distinctness(Tailq, m.Mem(), m.queues, h);
    SplitAt(m.queues[h], a, v, b);
    if drop(v) {
      ghost var m1, now := m.Mem(), m.queues;
      RemoveAndFree(m, h, v);
      BackIsFwd(Tailq, m.Mem(), m.queues, NextSlot(v));
      SweptDrop(m0, m1, m.Mem(), now, m.queues, seen, v, drop);
      assert a + [] + b == a + b;
    } else {
      SweptSpare(m0, m.Mem(), m.queues, seen, v, drop);
    }
  }

  lemma BackIsFwd(k: Kind, m: Heap, qs: Queues, l: Loc)
    requires Represents(k, m, qs) && l !in m.fwd
    ensures l !in m.back
  {
  }

  /** A queue whose positions `from..to` have been visited. */
  function Partly(q: seq<NodeId>, from: nat, to: nat, drop: NodeId -> bool): seq<NodeId>
    requires from <= to <= |q|
  {
    q[..from] + Keep(q[from..to], drop) + q[to..]
  }

  lemma PartlyForward(q: seq<NodeId>, from: nat, to: nat, drop: NodeId -> bool)
    requires from <= to < |q|
    ensures var a, b := q[..from] + Keep(q[from..to], drop), q[to + 1..];
            && Partly(q, from, to, drop) == a + [q[to]] + b
            && Partly(q, from, to + 1, drop) == a + Keep([q[to]], drop) + b
  {
    assert q[from..to + 1] == q[from..to] + [q[to]];
    KeepConcat(q[from..to], [q[to]], drop);
  }

  lemma PartlyBackward(q: seq<NodeId>, from: nat, to: nat, drop: NodeId -> bool)
    requires 0 < from <= to <= |q|
    ensures var a, b := q[..from - 1], Keep(q[from..to], drop) + q[to..];
            && Partly(q, from, to, drop) == a + [q[from - 1]] + b
            && Partly(q, from - 1, to, drop) == a + Keep([q[from - 1]], drop) + b
  {
    assert q[from - 1..to] == [q[from - 1]] + q[from..to];
    KeepConcat([q[from - 1]], q[from..to], drop);
  }

  /** One round of the forward loop at position `i`; `t` is fetched before the body runs. */
  method StepForward(m: Memory, h: HeadId, v: NodeId, drop: NodeId -> bool,
                     ghost qs: Queues, ghost start: nat, ghost i: nat, ghost m0: Heap) returns (t: Ptr)
    requires h in qs && start <= i < |qs[h]| && v == qs[h][i]
    requires m.kind.Tailq? && m.Valid() && m.queues == qs[h := Partly(qs[h], start, i, drop)]
    requires Swept(m0, m.Mem(), m.queues, qs[h][start..i], drop)
    modifies m
    ensures t == Target(qs[h], i + 1)
    ensures m.Valid() && m.queues == qs[h := Partly(qs[h], start, i + 1, drop)]
    ensures Swept(m0, m.Mem(), m.queues, qs[h][start..i + 1], drop)
  {
    hide Represents, Swept, Partly, Keep, Distinct, IndexOf;
    ghost var q := qs[h];
    ghost var a, b := q[..start] + Keep(q[start..i], drop), q[i + 1..];
    PartlyForward(q, start, i, drop);
    SliceGrows(q, start, i);
    Overwrite(qs, h, Partly(q, start, i, drop), Partly(q, start, i + 1, drop));
    NeighboursAt(Tailq, m.Mem(), m.queues, h, a, v, b);
    t := TailQueue.Next(m, h, v);
    Body(m, h, v, drop, a, b, m0, q[start..i]);
  }

  method ForeachSafe(m: Memory, h: HeadId, from: Ptr, drop: NodeId -> bool) returns (visited: seq<NodeId>)
    requires m.kind.Tailq? && m.Valid() && h in m.queues
    requires from.To? ==> from.node in m.queues[h]
    modifies m
    ensures from == Null ==>
              && visited == old(m.queues[h])
              && m.queues == old(m.queues)[h := Keep(old(m.queues[h]), drop)]
    ensures forall i | 0 <= i < |old(m.queues[h])| && from == To(old(m.queues[h])[i]) ::
              var q := old(m.queues[h]);
              && visited == q[i..]
              && m.queues == old(m.queues)[h := q[..i] + Keep(q[i..], drop)]
    ensures m.Valid()
    ensures Swept(old(m.Mem()), m.Mem(), m.queues, visited, drop)
  {
    hide Represents, Swept, Partly, Keep, Distinct, IndexOf;
    ghost var m0, qs, q := m.Mem(), m.queues, m.queues[h];
    ghost var start := if from == Null then 0 else IndexOf(q, from.node);
    ghost var i := start;
    visited := [];
    OwnPositions(Tailq, m0, qs, h);
    SweptSelf(m0, qs, drop);
    PartlyEnds(q, start, start, drop);
    var v := from;
    if v == Null {
      v := TailQueue.First(m, h);
    }
    while v != Null
      invariant start <= i <= |q| && v == Target(q, i)
      invariant visited == q[start..i]
      invariant m.Valid() && m.queues == qs[h := Partly(q, start, i, drop)]
      invariant Swept(m0, m.Mem(), m.queues, q[start..i], drop)
      decreases |q| - i
    {
      visited := visited + [v.node];
      SliceGrows(q, start, i);
      v := StepForward(m, h, v.node, drop, qs, start, i, m0);
      i := i + 1;
    }
    PartlyEnds(q, start, |q|, drop);
    assert start == 0 ==> q[..start] + Keep(q[start..], drop) == Keep(q, drop) by {
      assert q[0..] == q;
    }
  }

  lemma PartlyEnds(q: seq<NodeId>, from: nat, to: nat, drop: NodeId -> bool)
    requires from <= to <= |q|
    ensures from == to ==> Partly(q, from, to, drop) == q
    ensures to == |q| ==> Partly(q, from, to, drop) == q[..from] + Keep(q[from..], drop) && q[from..to] == q[from..]
    ensures from == 0 ==> Partly(q, from, to, drop) == Keep(q[..to], drop) + q[to..] && q[from..to] == q[..to]
  {
    assert from == to ==> q[from..to] == [] && q[..from] + q[to..] == q;
    assert to == |q| ==> q[from..to] == q[from..];
    assert from == 0 ==> q[from..to] == q[..to];
  }

  /** What TAILQ_NEXT and TAILQ_PREV answer at `v`. */
  lemma NeighboursAt(k: Kind, m: Heap, qs: Queues, h: HeadId, a: seq<NodeId>, v: NodeId, b: seq<NodeId>)
    requires Represents(k, m, qs) && h in qs && qs[h] == a + [v] + b
    ensures v in qs[h] && IndexOf(qs[h], v) == |a|
    ensures Target(qs[h], |a| + 1) == Target(b, 0)
    ensures a != [] ==> qs[h][|a| - 1] == a[|a| - 1]
  {
    Distinctness(k, m, qs, h);
    SplitAt(qs[h], a, v, b);
  }

  /** One round of the backward loop at position `i - 1`. */
  method StepBackward(m: Memory, h: HeadId, v: NodeId, drop: NodeId -> bool,
                      ghost qs: Queues, ghost i: nat, ghost end: nat, ghost m0: Heap) returns (t: Ptr)
    requires h in qs && 0 < i <= end <= |qs[h]| && v == qs[h][i - 1]
    requires m.kind.Tailq? && m.Valid() && m.queues == qs[h := Partly(qs[h], i, end, drop)]
    requires Swept(m0, m.Mem(), m.queues, qs[h][i..end], drop)
    modifies m
    ensures t == if i == 1 then Null else To(qs[h][i - 2])
    ensures m.Valid() && m.queues == qs[h := Partly(qs[h], i - 1, end, drop)]
    ensures Swept(m0, m.Mem(), m.queues, qs[h][i - 1..end], drop)
  {
    hide Represents, Swept, Partly, Keep, Distinct, IndexOf;
    ghost var q := qs[h];
    ghost var a, b := q[..i - 1], Keep(q[i..end], drop) + q[end..];
    PartlyBackward(q, i, end, drop);
    assert q[i - 1..end] == [v] + q[i..end];
    Overwrite(qs, h, Partly(q, i, end, drop), Partly(q, i - 1, end, drop));
    NeighboursAt(Tailq, m.Mem(), m.queues, h, a, v, b);
    t := TailQueue.Prev(m, h, v);
    Body(m, h, v, drop, a, b, m0, q[i..end]);
  }

  method ForeachReverseSafe(m: Memory, h: HeadId, from: Ptr, drop: NodeId -> bool) returns (visited: seq<NodeId>)
    requires m.kind.Tailq? && m.Valid() && h in m.queues
    requires from.To? ==> from.node in m.queues[h]
    modifies m
    ensures from == Null ==>
              var q := old(m.queues[h]);
              && |visited| == |q|
              && (forall j | 0 <= j < |q| :: visited[j] == q[|q| - 1 - j])
              && m.queues == old(m.queues)[h := Keep(q, drop)]
              && Swept(old(m.Mem()), m.Mem(), m.queues, q, drop)
    ensures forall i | 0 <= i < |old(m.queues[h])| && from == To(old(m.queues[h])[i]) ::
              var q := old(m.queues[h]);
              && |visited| == i + 1
              && (forall j | 0 <= j <= i :: visited[j] == q[i - j])
              && m.queues == old(m.queues)[h := Keep(q[..i + 1], drop) + q[i + 1..]]
              && Swept(old(m.Mem()), m.Mem(), m.queues, q[..i + 1], drop)
    ensures m.Valid()
  {
    hide Represents, Swept, Partly, Keep, Distinct, IndexOf;
    ghost var m0, qs, q := m.Mem(), m.queues, m.queues[h];
    ghost var end := if from == Null then |q| else IndexOf(q, from.node) + 1;
    ghost var i := end;
    visited := [];
    OwnPositions(Tailq, m0, qs, h);
    SweptSelf(m0, qs, drop);
    PartlyEnds(q, end, end, drop);
    var v := from;
    if v == Null {
      v := TailQueue.Last(m, h);
    }
    while v != Null
      invariant 0 <= i <= end <= |q| && v == (if i == 0 then Null else To(q[i - 1]))
      invariant visited == Backwards(q[i..end])
      invariant m.Valid() && m.queues == qs[h := Partly(q, i, end, drop)]
      invariant Swept(m0, m.Mem(), m.queues, q[i..end], drop)
      decreases i
    {
      visited := visited + [v.node];
      BackwardsGrows(q, i, end);
      v := StepBackward(m, h, v.node, drop, qs, i, end, m0);
      i := i - 1;
    }
    PartlyEnds(q, 0, end, drop);
    assert end == |q| ==> q[..end] == q && Keep(q[..end], drop) + q[end..] == Keep(q, drop);
  }
}
