/**
 The memory that the queue macros of server/src/queue.h work on.

 Every record is one or two machine words.  The first word is always a forward
 pointer to an element (`*_first` in a head, `*_next` in an entry).  The second
 word, where the family has one, holds the ADDRESS OF A FORWARD WORD
 (`*_last` in a head, `*_prev` in an entry).  Since the forward word is the
 first word of its record, the address of a forward word is the address of a
 record, which is why TAILQ_LAST and TAILQ_PREV may cast it to a head.
 */
module QueueMemory {

  type NodeId = nat
  type HeadId = nat

  datatype Ptr = Null | To(node: NodeId)

  /** The address of a forward word: inside a head, or inside an element's entry. */
  datatype Loc = HeadSlot(head: HeadId) | NextSlot(node: NodeId)

  /** The four families of queue.h; they differ in which records have a second word. */
  datatype Kind = Slist | Stailq | List | Tailq

  predicate HasBack(k: Kind, l: Loc) {
    match l
    case HeadSlot(_) => k.Stailq? || k.Tailq?
    case NextSlot(_) => k.List? || k.Tailq?
  }

  /** The words of all allocated records. */
  datatype Heap = Heap(fwd: map<Loc, Ptr>, back: map<Loc, Loc>)

  /** What the initialized heads denote. */
  type Queues = map<HeadId, seq<NodeId>>

  // ------------------------------------------------------------------
  // Sequence vocabulary
  // ------------------------------------------------------------------

  function InsertAt(q: seq<NodeId>, i: nat, e: NodeId): seq<NodeId>
    requires i <= |q|
  {
    q[..i] + [e] + q[i..]
  }

  function DropAt(q: seq<NodeId>, i: nat): seq<NodeId>
    requires i < |q|
  {
    q[..i] + q[i + 1..]
  }

  ghost predicate Distinct(q: seq<NodeId>) {
    forall a, b | 0 <= a < b < |q| :: q[a] != q[b]
  }

  ghost function IndexOf(q: seq<NodeId>, e: NodeId): (i: nat)
    requires e in q
    ensures i < |q| && q[i] == e
  {
    var i :| 0 <= i < |q| && q[i] == e;
    i
  }

  /** The queue without its member `e`. */
  ghost function Without(q: seq<NodeId>, e: NodeId): seq<NodeId>
    requires e in q
  {
    DropAt(q, IndexOf(q, e))
  }

  lemma SplitAt(q: seq<NodeId>, a: seq<NodeId>, v: NodeId, b: seq<NodeId>)
    requires q == a + [v] + b && Distinct(q)
    ensures v in q && IndexOf(q, v) == |a|
    ensures Without(q, v) == a + b
    ensures Target(q, |a| + 1) == Target(b, 0)
    ensures Distinct(a + b)
  {
    assert q[|a|] == v;
  }

  lemma Overwrite(qs: Queues, h: HeadId, a: seq<NodeId>, b: seq<NodeId>)
    ensures qs[h := a][h := b] == qs[h := b]
  {
  }

  lemma SliceGrows(q: seq<NodeId>, i: nat, j: nat)
    requires i <= j < |q|
    ensures q[i..j + 1] == q[i..j] + [q[j]]
    ensures q[j..] == [q[j]] + q[j + 1..]
  {
  }

  // ------------------------------------------------------------------
  // What it means for memory to hold queues
  // ------------------------------------------------------------------

  /** The record before position `i`: the head for 0, otherwise element `i - 1`. */
  function Rec(h: HeadId, q: seq<NodeId>, i: nat): Loc
    requires i <= |q|
  {
    if i == 0 then HeadSlot(h) else NextSlot(q[i - 1])
  }

  /** The pointer to position `i`: NULL just past the end. */
  function Target(q: seq<NodeId>, i: nat): Ptr {
    if i < |q| then To(q[i]) else Null
  }

  /** Forward words spell `q`, and every second word the family has is right. */
  ghost predicate Spells(k: Kind, m: Heap, h: HeadId, q: seq<NodeId>) {
    && (forall i | 0 <= i <= |q| :: Rec(h, q, i) in m.fwd && m.fwd[Rec(h, q, i)] == Target(q, i))
    && (HasBack(k, HeadSlot(h)) ==> HeadSlot(h) in m.back && m.back[HeadSlot(h)] == Rec(h, q, |q|))
    && (forall i {:trigger m.back[NextSlot(q[i])]} {:trigger NextSlot(q[i]) in m.back} |
          0 <= i < |q| && HasBack(k, NextSlot(q[i])) ::
          NextSlot(q[i]) in m.back && m.back[NextSlot(q[i])] == Rec(h, q, i))
  }

  /** No element occurs twice, in one queue or in two. */
  ghost predicate Unique(qs: Queues) {
    forall g, h, i, j {:trigger qs[g][i], qs[h][j]} ::
      g in qs && h in qs && 0 <= i < |qs[g]| && 0 <= j < |qs[h]| && qs[g][i] == qs[h][j]
      ==> g == h && i == j
  }

  /** A record has a second word exactly when its family says so. */
  ghost predicate Shape(k: Kind, m: Heap) {
    forall l :: l in m.back <==> l in m.fwd && HasBack(k, l)
  }

  ghost predicate Represents(k: Kind, m: Heap, qs: Queues) {
    && Shape(k, m)
    && Unique(qs)
    && forall h | h in qs :: Spells(k, m, h, qs[h])
  }

  ghost predicate Free(qs: Queues, e: NodeId) {
    forall h | h in qs :: e !in qs[h]
  }

  /** The record belongs to an initialized head or to an element of some queue. */
  ghost predicate Linked(qs: Queues, l: Loc) {
    match l
    case HeadSlot(h) => h in qs
    case NextSlot(n) => !Free(qs, n)
  }

  /**
   The whole effect of an operation: afterwards memory holds `qs`, the same
   records exist, and no word outside the queues has changed.
   */
  ghost predicate Relinked(k: Kind, m0: Heap, m1: Heap, qs: Queues) {
    && Represents(k, m1, qs)
    && m1.fwd.Keys == m0.fwd.Keys
    && m1.back.Keys == m0.back.Keys
    && (forall l | l in m0.fwd && !Linked(qs, l) :: m1.fwd[l] == m0.fwd[l])
    && (forall l | l in m0.back && !Linked(qs, l) :: m1.back[l] == m0.back[l])
  }

  // ------------------------------------------------------------------
  // Memory determines the queues and the queues determine memory
  // ------------------------------------------------------------------

  /** A head denotes at most one sequence: following the forward words finds it. */
  lemma {:induction false} DenotationUnique(k: Kind, m: Heap, h: HeadId, p: seq<NodeId>, q: seq<NodeId>)
    requires Spells(k, m, h, p) && Spells(k, m, h, q)
    ensures p == q
  {
    var i := 0;
    while i < |p| && i < |q|
      invariant 0 <= i <= |p| && i <= |q|
      invariant p[..i] == q[..i]
    {
      assert Rec(h, p, i) == Rec(h, q, i);
      i := i + 1;
    }
    assert Rec(h, p, i) == Rec(h, q, i);
    assert m.fwd[Rec(h, p, i)] == Target(p, i) == Target(q, i);
  }

  /** A sequence spelled by forward words that end in NULL has no duplicates. */
  lemma SpelledIsDuplicateFree(k: Kind, m: Heap, h: HeadId, q: seq<NodeId>, i: nat, j: nat)
    requires Spells(k, m, h, q)
    requires i < j < |q|
    ensures q[i] != q[j]
    decreases |q| - j
  {
    if q[i] == q[j] {
      assert Rec(h, q, i + 1) == Rec(h, q, j + 1);
      assert Target(q, i + 1) == Target(q, j + 1);
      if j + 1 < |q| {
        SpelledIsDuplicateFree(k, m, h, q, i + 1, j + 1);
      }
    }
  }

  lemma LinkedAt(qs: Queues, n: NodeId) returns (h: HeadId, i: nat)
    requires !Free(qs, n)
    ensures h in qs && i < |qs[h]| && qs[h][i] == n
  {
    h :| h in qs && n in qs[h];
    i :| 0 <= i < |qs[h]| && qs[h][i] == n;
  }

  /** Two heaps holding the same queues agree on every word inside them. */
  lemma LinkedWordsDetermined(k: Kind, m1: Heap, m2: Heap, qs: Queues, l: Loc)
    requires Represents(k, m1, qs) && Represents(k, m2, qs) && Linked(qs, l)
    ensures l in m1.fwd && l in m2.fwd && m1.fwd[l] == m2.fwd[l]
    ensures HasBack(k, l) ==> l in m1.back && l in m2.back && m1.back[l] == m2.back[l]
  {
    match l
    case HeadSlot(h) =>
      assert Rec(h, qs[h], 0) == l;
    case NextSlot(n) =>
      var h, i := LinkedAt(qs, n);
      assert Spells(k, m1, h, qs[h]) && Spells(k, m2, h, qs[h]);
      assert Rec(h, qs[h], i + 1) == l;
  }

  /**
   The effect relation is a function: an operation's sequence meaning fixes every
   word of the resulting memory.
   */
  lemma RelinkedDetermines(k: Kind, m0: Heap, m1: Heap, m2: Heap, qs: Queues)
    requires Relinked(k, m0, m1, qs) && Relinked(k, m0, m2, qs)
    ensures m1 == m2
  {
    forall l | l in m0.fwd
      ensures m1.fwd[l] == m2.fwd[l]
      ensures l in m0.back ==> m1.back[l] == m2.back[l]
    {
      assert l in m0.back <==> l in m1.back;
      if Linked(qs, l) {
        LinkedWordsDetermined(k, m1, m2, qs, l);
      }
    }
    forall l | l in m0.back
      ensures l in m0.fwd
    {
      assert l in m1.back;
    }
    assert m1.fwd == m2.fwd;
    assert m1.back == m2.back;
  }

  /**
   Going from `qs` to other queues and back restores every word except those of
   records that only the other queues used.
   */
  lemma RelinkedBackRestores(k: Kind, m0: Heap, m1: Heap, m2: Heap, qs: Queues, other: Queues, l: Loc)
    requires Represents(k, m0, qs)
    requires Relinked(k, m0, m1, other) && Relinked(k, m1, m2, qs)
    requires Linked(other, l) ==> Linked(qs, l)
    ensures l in m0.fwd <==> l in m2.fwd
    ensures l in m0.fwd ==> m2.fwd[l] == m0.fwd[l]
    ensures l in m0.back <==> l in m2.back
    ensures l in m0.back ==> m2.back[l] == m0.back[l]
  {
    assert m0.fwd.Keys == m1.fwd.Keys == m2.fwd.Keys;
    assert m0.back.Keys == m1.back.Keys == m2.back.Keys;
    if Linked(qs, l) {
      LinkedWordsDetermined(k, m0, m2, qs, l);
      assert l in m0.back ==> HasBack(k, l);
    } else {
      assert l in m0.fwd ==> l in m0.fwd.Keys && l in m1.fwd.Keys;
      assert l in m0.back ==> l in m0.back.Keys && l in m1.back.Keys;
    }
  }

  lemma RelinkedSelf(k: Kind, m: Heap, qs: Queues)
    requires Represents(k, m, qs)
    ensures Relinked(k, m, m, qs)
  {
  }

  /** Effects compose when the second one keeps every record of the first linked. */
  lemma RelinkedCompose(k: Kind, m0: Heap, m1: Heap, m2: Heap, mid: Queues, qs: Queues)
    requires Relinked(k, m0, m1, mid) && Relinked(k, m1, m2, qs)
    requires forall l :: Linked(mid, l) ==> Linked(qs, l)
    ensures Relinked(k, m0, m2, qs)
  {
    assert m0.fwd.Keys == m1.fwd.Keys == m2.fwd.Keys;
    assert m0.back.Keys == m1.back.Keys == m2.back.Keys;
    forall l | l in m0.fwd && !Linked(qs, l)
      ensures m2.fwd[l] == m0.fwd[l]
    {
      assert l in m1.fwd.Keys;
    }
    forall l | l in m0.back && !Linked(qs, l)
      ensures m2.back[l] == m0.back[l]
    {
      assert l in m1.back.Keys;
    }
  }

  // ------------------------------------------------------------------
  // The four shapes of pointer surgery
  // ------------------------------------------------------------------

  /** The record whose second word addresses the slot holding `p`: the element pointed at, or the head. */
  function Holder(h: HeadId, p: Ptr): Loc {
    match p
    case Null => HeadSlot(h)
    case To(n) => NextSlot(n)
  }

  /** The record whose second word must change when position `i` changes. */
  function After(h: HeadId, q: seq<NodeId>, i: nat): Loc {
    Holder(h, Target(q, i))
  }

  function SetIf(b: bool, m: map<Loc, Loc>, l: Loc, v: Loc): map<Loc, Loc> {
    if b then m[l := v] else m
  }

  /** Memory after linking `e` in at position `i` of head `h`. */
  function Spliced(k: Kind, m: Heap, h: HeadId, q: seq<NodeId>, i: nat, e: NodeId): Heap
    requires i <= |q|
  {
    Heap(m.fwd[NextSlot(e) := Target(q, i)][Rec(h, q, i) := To(e)],
         SetIf(HasBack(k, After(h, q, i)),
               SetIf(HasBack(k, NextSlot(e)), m.back, NextSlot(e), Rec(h, q, i)),
               After(h, q, i), NextSlot(e)))
  }

  /** A linked-in element of a TAILQ, as words; the second words may be written in either order. */
  lemma SplicedWords(m: Heap, h: HeadId, q: seq<NodeId>, i: nat, e: NodeId)
    requires i <= |q| && e !in q
    ensures var m' := Spliced(Tailq, m, h, q, i, e);
            && m'.fwd == m.fwd[NextSlot(e) := Target(q, i)][Rec(h, q, i) := To(e)]
            && m'.back == m.back[NextSlot(e) := Rec(h, q, i)][After(h, q, i) := NextSlot(e)]
            && m'.back == m.back[After(h, q, i) := NextSlot(e)][NextSlot(e) := Rec(h, q, i)]
  {
  }

  /** Memory after unlinking position `i` of head `h`. */
  function Cut(k: Kind, m: Heap, h: HeadId, q: seq<NodeId>, i: nat): Heap
    requires i < |q|
  {
    Heap(m.fwd[Rec(h, q, i) := Target(q, i + 1)],
         SetIf(HasBack(k, After(h, q, i + 1)), m.back, After(h, q, i + 1), Rec(h, q, i)))
  }

  /** A queue none of whose words changed is still spelled. */
  lemma SpellsFrame(k: Kind, m0: Heap, m1: Heap, h: HeadId, q: seq<NodeId>)
    requires Spells(k, m0, h, q)
    requires m1.fwd.Keys >= m0.fwd.Keys && m1.back.Keys >= m0.back.Keys
    requires HeadSlot(h) in m0.fwd ==> m1.fwd[HeadSlot(h)] == m0.fwd[HeadSlot(h)]
    requires HeadSlot(h) in m0.back ==> m1.back[HeadSlot(h)] == m0.back[HeadSlot(h)]
    requires forall n | n in q && NextSlot(n) in m0.fwd :: m1.fwd[NextSlot(n)] == m0.fwd[NextSlot(n)]
    requires forall n | n in q && NextSlot(n) in m0.back :: m1.back[NextSlot(n)] == m0.back[NextSlot(n)]
    ensures Spells(k, m1, h, q)
  {
    forall i | 0 <= i <= |q|
      ensures Rec(h, q, i) in m1.fwd && m1.fwd[Rec(h, q, i)] == Target(q, i)
    {
      assert Rec(h, q, i) in m0.fwd.Keys;
    }
    assert HeadSlot(h) in m0.back ==> HeadSlot(h) in m1.back.Keys;
    forall i | 0 <= i < |q| && HasBack(k, NextSlot(q[i]))
      ensures NextSlot(q[i]) in m1.back && m1.back[NextSlot(q[i])] == Rec(h, q, i)
    {
      assert NextSlot(q[i]) in m0.back.Keys;
    }
  }

  lemma SpliceSpells(k: Kind, m: Heap, h: HeadId, q: seq<NodeId>, i: nat, e: NodeId)
    requires Spells(k, m, h, q)
    requires Distinct(q)
    requires i <= |q| && e !in q
    requires NextSlot(e) in m.fwd
    ensures Spells(k, Spliced(k, m, h, q, i, e), h, InsertAt(q, i, e))
  {
    var m', q' := Spliced(k, m, h, q, i, e), InsertAt(q, i, e);
    forall j | 0 <= j <= |q'|
      ensures Rec(h, q', j) in m'.fwd && m'.fwd[Rec(h, q', j)] == Target(q', j)
    {
      if j <= i {
        assert Rec(h, q', j) == Rec(h, q, j);
      } else if j > i + 1 {
        assert Rec(h, q', j) == Rec(h, q, j - 1);
        assert Target(q', j) == Target(q, j - 1);
      }
    }
    assert Rec(h, q', |q'|) == if i == |q| then NextSlot(e) else Rec(h, q, |q|);
    forall j | 0 <= j < |q'| && HasBack(k, NextSlot(q'[j]))
      ensures NextSlot(q'[j]) in m'.back && m'.back[NextSlot(q'[j])] == Rec(h, q', j)
    {
      if j < i {
        assert Rec(h, q', j) == Rec(h, q, j) && q'[j] == q[j];
      } else if j > i {
        assert q'[j] == q[j - 1];
        assert j > i + 1 ==> Rec(h, q', j) == Rec(h, q, j - 1);
      }
    }
  }

  lemma CutSpells(k: Kind, m: Heap, h: HeadId, q: seq<NodeId>, i: nat)
    requires Spells(k, m, h, q)
    requires Distinct(q)
    requires i < |q|
    ensures Spells(k, Cut(k, m, h, q, i), h, DropAt(q, i))
  {
    var m', q' := Cut(k, m, h, q, i), DropAt(q, i);
    forall j | 0 <= j <= |q'|
      ensures Rec(h, q', j) in m'.fwd && m'.fwd[Rec(h, q', j)] == Target(q', j)
    {
      if j <= i {
        assert Rec(h, q', j) == Rec(h, q, j);
        assert j == i ==> Target(q', j) == Target(q, i + 1);
      } else {
        assert Rec(h, q', j) == Rec(h, q, j + 1);
        assert Target(q', j) == Target(q, j + 1);
      }
    }
    assert Rec(h, q', |q'|) == if i == |q| - 1 then Rec(h, q, i) else Rec(h, q, |q|);
    forall j | 0 <= j < |q'| && HasBack(k, NextSlot(q'[j]))
      ensures NextSlot(q'[j]) in m'.back && m'.back[NextSlot(q'[j])] == Rec(h, q', j)
    {
      if j < i {
        assert Rec(h, q', j) == Rec(h, q, j) && q'[j] == q[j];
      } else {
        assert q'[j] == q[j + 1];
        assert Rec(h, q', j) == if j == i then Rec(h, q, i) else Rec(h, q, j + 1);
      }
    }
  }

  lemma Distinctness(k: Kind, m: Heap, qs: Queues, h: HeadId)
    requires Represents(k, m, qs) && h in qs
    ensures Distinct(qs[h])
  {
  }

  /** Replacing one head's queue by one with some of its members and fresh ones. */
  lemma UniqueUpdate(qs: Queues, h: HeadId, q: seq<NodeId>)
    requires Unique(qs)
    requires Distinct(q)
    requires forall n | n in q :: (h in qs && n in qs[h]) || Free(qs, n)
    ensures Unique(qs[h := q])
  {
    var qs' := qs[h := q];
    forall g, f, i, j | g in qs' && f in qs' && 0 <= i < |qs'[g]| && 0 <= j < |qs'[f]| && qs'[g][i] == qs'[f][j]
      ensures g == f && i == j
    {
      if g == h && f != h {
        NotElsewhere(qs, h, q[i], f);
      } else if g != h && f == h {
        NotElsewhere(qs, h, q[j], g);
      }
    }
  }

  lemma NotElsewhere(qs: Queues, h: HeadId, n: NodeId, g: HeadId)
    requires Unique(qs) && g in qs && g != h
    requires (h in qs && n in qs[h]) || Free(qs, n)
    ensures n !in qs[g]
  {
  }

  lemma InsertAtMembers(q: seq<NodeId>, i: nat, e: NodeId)
    requires i <= |q|
    ensures forall n :: n in InsertAt(q, i, e) <==> n == e || n in q
  {
    assert q == q[..i] + q[i..];
  }

  lemma DropAtMembers(q: seq<NodeId>, i: nat)
    requires i < |q|
    requires Distinct(q)
    ensures forall n :: n in DropAt(q, i) <==> n in q && n != q[i]
  {
    assert q == q[..i] + [q[i]] + q[i + 1..];
  }

  /** The address is inside head `h`, or inside an element of `q` that no other head's queue uses. */
  ghost predicate Local(qs: Queues, h: HeadId, q: seq<NodeId>, l: Loc) {
    match l
    case HeadSlot(g) => g == h
    case NextSlot(n) => n in q && ((h in qs && n in qs[h]) || Free(qs, n))
  }

  /** Only words of head `h`'s new queue changed, so every other head keeps its queue. */
  lemma OthersKeep(k: Kind, m0: Heap, m1: Heap, qs: Queues, h: HeadId, q: seq<NodeId>, touched: set<Loc>, g: HeadId)
    requires Unique(qs) && g in qs && g != h && Spells(k, m0, g, qs[g])
    requires Confined(m0, m1, touched)
    requires forall l | l in touched :: Local(qs, h, q, l)
    ensures Spells(k, m1, g, qs[g])
  {
    forall n | n in qs[g]
      ensures NextSlot(n) !in touched
    {
      if NextSlot(n) in touched {
        assert Local(qs, h, q, NextSlot(n));
        NotElsewhere(qs, h, n, g);
      }
    }
    assert HeadSlot(g) in touched ==> Local(qs, h, q, HeadSlot(g));
    SpellsFrame(k, m0, m1, g, qs[g]);
  }

  lemma LocalIsLinked(qs: Queues, h: HeadId, q: seq<NodeId>, l: Loc)
    requires Local(qs, h, q, l)
    ensures Linked(qs[h := q], l)
  {
    if l.NextSlot? {
      assert l.node in qs[h := q][h];
    }
  }

  /** The same records exist, and outside `touched` no word changed. */
  ghost predicate Confined(m0: Heap, m1: Heap, touched: set<Loc>) {
    && m1.fwd.Keys == m0.fwd.Keys
    && m1.back.Keys == m0.back.Keys
    && (forall l | l in m0.fwd && l !in touched :: m1.fwd[l] == m0.fwd[l])
    && (forall l | l in m0.back && l !in touched :: m1.back[l] == m0.back[l])
  }

  /** Pointer surgery confined to one head's new queue has exactly that effect. */
  lemma EditRelinks(k: Kind, m0: Heap, m1: Heap, qs: Queues, h: HeadId, q: seq<NodeId>, touched: set<Loc>)
    requires Represents(k, m0, qs)
    requires Confined(m0, m1, touched)
    requires forall l | l in touched :: Local(qs, h, q, l)
    requires Spells(k, m1, h, q)
    requires Distinct(q)
    requires forall n | n in q :: (h in qs && n in qs[h]) || Free(qs, n)
    ensures Relinked(k, m0, m1, qs[h := q]) && Represents(k, m1, qs[h := q])
  {
    var qs' := qs[h := q];
    UniqueUpdate(qs, h, q);
    forall g | g in qs'
      ensures Spells(k, m1, g, qs'[g])
    {
      if g != h {
        OthersKeep(k, m0, m1, qs, h, q, touched, g);
      }
    }
    assert Shape(k, m1) by {
      forall l
        ensures l in m1.back <==> l in m1.fwd && HasBack(k, l)
      {
        assert l in m1.fwd.Keys <==> l in m0.fwd.Keys;
        assert l in m1.back.Keys <==> l in m0.back.Keys;
      }
    }
    forall l | l in touched
      ensures Linked(qs', l)
    {
      LocalIsLinked(qs, h, q, l);
    }
  }

  lemma InsertAtDistinct(q: seq<NodeId>, i: nat, e: NodeId)
    requires i <= |q| && e !in q
    requires Distinct(q)
    ensures Distinct(InsertAt(q, i, e))
  {
    var q' := InsertAt(q, i, e);
    assert forall a | 0 <= a < |q'| :: q'[a] == if a < i then q[a] else if a == i then e else q[a - 1];
  }

  lemma DropAtDistinct(q: seq<NodeId>, i: nat)
    requires i < |q| && Distinct(q)
    ensures Distinct(DropAt(q, i))
  {
    assert forall a | 0 <= a < |q| - 1 :: DropAt(q, i)[a] == q[if a < i then a else a + 1];
  }

  lemma RecIsFwd(k: Kind, m: Heap, h: HeadId, q: seq<NodeId>, i: nat)
    requires Spells(k, m, h, q) && i <= |q|
    ensures Rec(h, q, i) in m.fwd && After(h, q, i) in m.fwd
  {
    assert Rec(h, q, if i < |q| then i + 1 else 0) == After(h, q, i);
  }

  lemma SpliceConfined(k: Kind, m: Heap, h: HeadId, q: seq<NodeId>, i: nat, e: NodeId)
    requires Shape(k, m) && i <= |q|
    requires NextSlot(e) in m.fwd && Rec(h, q, i) in m.fwd && After(h, q, i) in m.fwd
    ensures Confined(m, Spliced(k, m, h, q, i, e), {NextSlot(e), Rec(h, q, i), After(h, q, i)})
  {
    hide Rec, After, HasBack;
  }

  lemma CutConfined(k: Kind, m: Heap, h: HeadId, q: seq<NodeId>, i: nat)
    requires Shape(k, m) && i < |q| && Rec(h, q, i) in m.fwd && After(h, q, i + 1) in m.fwd
    ensures Confined(m, Cut(k, m, h, q, i), {Rec(h, q, i), After(h, q, i + 1)})
  {
    hide Rec, After, HasBack;
  }

  /** The records around a position belong to the queue's own head or members. */
  lemma AroundIsLocal(qs: Queues, h: HeadId, i: nat, q: seq<NodeId>)
    requires h in qs && i <= |qs[h]|
    ensures (i > 0 ==> qs[h][i - 1] in q) ==> Local(qs, h, q, Rec(h, qs[h], i))
    ensures (i < |qs[h]| ==> qs[h][i] in q) ==> Local(qs, h, q, After(h, qs[h], i))
  {
  }

  lemma SpliceRelinks(k: Kind, m: Heap, qs: Queues, h: HeadId, i: nat, e: NodeId)
    requires Represents(k, m, qs) && h in qs && i <= |qs[h]|
    requires Free(qs, e) && NextSlot(e) in m.fwd
    ensures Relinked(k, m, Spliced(k, m, h, qs[h], i, e), qs[h := InsertAt(qs[h], i, e)])
    ensures Represents(k, Spliced(k, m, h, qs[h], i, e), qs[h := InsertAt(qs[h], i, e)])
  {
    var q := qs[h];
    Distinctness(k, m, qs, h);
    RecIsFwd(k, m, h, q, i);
    SpliceConfined(k, m, h, q, i, e);
    SpliceSpells(k, m, h, q, i, e);
    InsertAtMembers(q, i, e);
    InsertAtDistinct(q, i, e);
    AroundIsLocal(qs, h, i, InsertAt(q, i, e));
    hide Represents, Spells, Spliced, InsertAt, Confined, Distinct, Rec, After;
    EditRelinks(k, m, Spliced(k, m, h, q, i, e), qs, h, InsertAt(q, i, e), {NextSlot(e), Rec(h, q, i), After(h, q, i)});
  }

  lemma CutRelinks(k: Kind, m: Heap, qs: Queues, h: HeadId, i: nat)
    requires Represents(k, m, qs) && h in qs && i < |qs[h]|
    ensures Relinked(k, m, Cut(k, m, h, qs[h], i), qs[h := DropAt(qs[h], i)])
    ensures Represents(k, Cut(k, m, h, qs[h], i), qs[h := DropAt(qs[h], i)])
  {
    var q := qs[h];
    Distinctness(k, m, qs, h);
    RecIsFwd(k, m, h, q, i);
    RecIsFwd(k, m, h, q, i + 1);
    CutConfined(k, m, h, q, i);
    CutSpells(k, m, h, q, i);
    DropAtMembers(q, i);
    DropAtDistinct(q, i);
    AroundIsLocal(qs, h, i, DropAt(q, i));
    AroundIsLocal(qs, h, i + 1, DropAt(q, i));
    assert i > 0 ==> q[i - 1] in DropAt(q, i);
    assert i + 1 < |q| ==> q[i + 1] in DropAt(q, i);
    hide Represents, Spells, Cut, DropAt, Confined, Distinct, Rec, After;
    EditRelinks(k, m, Cut(k, m, h, q, i), qs, h, DropAt(q, i), {Rec(h, q, i), After(h, q, i + 1)});
  }

  /** Memory after head `h` is initialized. */
  function Reset(k: Kind, m: Heap, h: HeadId): Heap {
    Heap(m.fwd[HeadSlot(h) := Null], SetIf(HasBack(k, HeadSlot(h)), m.back, HeadSlot(h), HeadSlot(h)))
  }

  lemma ResetRelinks(k: Kind, m: Heap, qs: Queues, h: HeadId)
    requires Represents(k, m, qs) && HeadSlot(h) in m.fwd
    ensures Relinked(k, m, Reset(k, m, h), qs[h := []])
    ensures Represents(k, Reset(k, m, h), qs[h := []])
  {
    assert Spells(k, Reset(k, m, h), h, []);
    assert Confined(m, Reset(k, m, h), {HeadSlot(h)});
    EditRelinks(k, m, Reset(k, m, h), qs, h, [], {HeadSlot(h)});
  }

  /** The elements of `q` are chained to one another, whatever hangs before the first. */
  ghost predicate Chained(k: Kind, m: Heap, q: seq<NodeId>) {
    && (forall i {:trigger m.fwd[NextSlot(q[i])]} {:trigger NextSlot(q[i]) in m.fwd} | 0 <= i < |q| ::
          NextSlot(q[i]) in m.fwd && m.fwd[NextSlot(q[i])] == Target(q, i + 1))
    && (forall i {:trigger m.back[NextSlot(q[i])]} {:trigger NextSlot(q[i]) in m.back} |
          0 < i < |q| && HasBack(k, NextSlot(q[i])) ::
          NextSlot(q[i]) in m.back && m.back[NextSlot(q[i])] == NextSlot(q[i - 1]))
  }

  lemma SpelledIsChained(k: Kind, m: Heap, h: HeadId, q: seq<NodeId>)
    requires Spells(k, m, h, q)
    ensures Chained(k, m, q)
  {
    forall i | 0 <= i < |q|
      ensures NextSlot(q[i]) in m.fwd && m.fwd[NextSlot(q[i])] == Target(q, i + 1)
    {
      assert Rec(h, q, i + 1) == NextSlot(q[i]);
    }
  }

  /** Memory after the chain `q` is hung behind the queue `p` of head `h`. */
  function Adopted(k: Kind, m: Heap, h: HeadId, p: seq<NodeId>, q: seq<NodeId>): Heap {
    if q == [] then m else
    Heap(m.fwd[Rec(h, p, |p|) := To(q[0])],
         SetIf(HasBack(k, HeadSlot(h)),
               SetIf(HasBack(k, NextSlot(q[0])), m.back, NextSlot(q[0]), Rec(h, p, |p|)),
               HeadSlot(h), NextSlot(q[|q| - 1])))
  }

  lemma ChainedFrame(k: Kind, m0: Heap, m1: Heap, q: seq<NodeId>)
    requires Chained(k, m0, q)
    requires m1.fwd.Keys >= m0.fwd.Keys && m1.back.Keys >= m0.back.Keys
    requires forall n | n in q && NextSlot(n) in m0.fwd :: m1.fwd[NextSlot(n)] == m0.fwd[NextSlot(n)]
    requires forall n | n in q && NextSlot(n) in m0.back :: m1.back[NextSlot(n)] == m0.back[NextSlot(n)]
    ensures Chained(k, m1, q)
  {
    forall i | 0 <= i < |q|
      ensures NextSlot(q[i]) in m1.fwd && m1.fwd[NextSlot(q[i])] == Target(q, i + 1)
    {
      assert NextSlot(q[i]) in m0.fwd.Keys && q[i] in q;
    }
    forall i | 0 < i < |q| && HasBack(k, NextSlot(q[i]))
      ensures NextSlot(q[i]) in m1.back && m1.back[NextSlot(q[i])] == NextSlot(q[i - 1])
    {
      assert NextSlot(q[i]) in m0.back.Keys && q[i] in q;
    }
  }

  lemma DisjointConcat(p: seq<NodeId>, q: seq<NodeId>)
    requires Distinct(p) && Distinct(q) && forall n | n in q :: n !in p
    ensures Distinct(p + q)
  {
    forall a, b | 0 <= a < b < |p + q|
      ensures (p + q)[a] != (p + q)[b]
    {
      if a < |p| <= b {
        assert (p + q)[b] in q;
      }
    }
  }

  lemma AdoptForward(k: Kind, m: Heap, h: HeadId, p: seq<NodeId>, q: seq<NodeId>, j: nat)
    requires Spells(k, m, h, p) && Chained(k, m, q) && q != []
    requires (forall n | n in p :: n !in q) && Distinct(p)
    requires j <= |p| + |q|
    ensures var m', r := Adopted(k, m, h, p, q), p + q;
            Rec(h, r, j) in m'.fwd && m'.fwd[Rec(h, r, j)] == Target(r, j)
  {
    var r := p + q;
    if j <= |p| {
      assert Rec(h, r, j) == Rec(h, p, j);
    } else {
      assert Rec(h, r, j) == NextSlot(q[j - 1 - |p|]);
      assert q[j - 1 - |p|] in q;
      assert Target(r, j) == Target(q, j - |p|);
    }
  }

  lemma AdoptBackward(k: Kind, m: Heap, h: HeadId, p: seq<NodeId>, q: seq<NodeId>, j: nat)
    requires Spells(k, m, h, p) && Chained(k, m, q) && q != []
    requires (forall n | n in p :: n !in q) && Distinct(q)
    requires j < |p| + |q| && HasBack(k, NextSlot((p + q)[j]))
    ensures var m', r := Adopted(k, m, h, p, q), p + q;
            NextSlot(r[j]) in m'.back && m'.back[NextSlot(r[j])] == Rec(h, r, j)
  {
    var r := p + q;
    if j <= |p| {
      assert Rec(h, r, j) == Rec(h, p, j);
      assert q[0] in q;
      assert j < |p| ==> r[j] == p[j] && p[j] in p;
    } else {
      assert r[j] == q[j - |p|] && r[j - 1] == q[j - 1 - |p|];
    }
  }

  lemma AdoptSpells(k: Kind, m: Heap, h: HeadId, p: seq<NodeId>, q: seq<NodeId>)
    requires Spells(k, m, h, p) && Chained(k, m, q) && q != []
    requires (forall n | n in p :: n !in q) && Distinct(p) && Distinct(q)
    ensures Spells(k, Adopted(k, m, h, p, q), h, p + q)
  {
    forall j | 0 <= j <= |p + q|
      ensures var m', r := Adopted(k, m, h, p, q), p + q;
              Rec(h, r, j) in m'.fwd && m'.fwd[Rec(h, r, j)] == Target(r, j)
    {
      AdoptForward(k, m, h, p, q, j);
    }
    forall j | 0 <= j < |p + q| && HasBack(k, NextSlot((p + q)[j]))
      ensures var m', r := Adopted(k, m, h, p, q), p + q;
              NextSlot(r[j]) in m'.back && m'.back[NextSlot(r[j])] == Rec(h, r, j)
    {
      AdoptBackward(k, m, h, p, q, j);
    }
  }

  lemma AdoptConfined(k: Kind, m: Heap, h: HeadId, p: seq<NodeId>, q: seq<NodeId>)
    requires Shape(k, m) && q != [] && NextSlot(q[0]) in m.fwd && Rec(h, p, |p|) in m.fwd && HeadSlot(h) in m.fwd
    ensures Confined(m, Adopted(k, m, h, p, q), {Rec(h, p, |p|), NextSlot(q[0]), HeadSlot(h)})
  {
    hide Rec, HasBack;
  }

  lemma AdoptRelinks(k: Kind, m: Heap, qs: Queues, h: HeadId, q: seq<NodeId>)
    requires Represents(k, m, qs) && h in qs && Chained(k, m, q)
    requires (forall n | n in q :: Free(qs, n)) && Distinct(q)
    ensures Relinked(k, m, Adopted(k, m, h, qs[h], q), qs[h := qs[h] + q])
    ensures Represents(k, Adopted(k, m, h, qs[h], q), qs[h := qs[h] + q])
  {
    var p := qs[h];
    if q == [] {
      assert p + q == p;
      assert qs[h := p + q] == qs;
    } else {
      Distinctness(k, m, qs, h);
      assert NextSlot(q[0]) in m.fwd && q[0] in q;
      RecIsFwd(k, m, h, p, |p|);
      assert HeadSlot(h) in m.fwd by { assert Rec(h, p, 0) == HeadSlot(h); }
      AdoptConfined(k, m, h, p, q);
      assert forall n | n in q :: n !in p;
      DisjointConcat(p, q);
      AdoptSpells(k, m, h, p, q);
      AroundIsLocal(qs, h, |p|, p + q);
      assert Local(qs, h, p + q, NextSlot(q[0]));
      hide Represents, Spells, Chained, Adopted, Confined, Distinct, Rec, Free;
      EditRelinks(k, m, Adopted(k, m, h, p, q), qs, h, p + q, {Rec(h, p, |p|), NextSlot(q[0]), HeadSlot(h)});
    }
  }

  lemma ResetFrees(k: Kind, m: Heap, qs: Queues, h: HeadId, n: NodeId)
    requires Represents(k, m, qs) && h in qs && n in qs[h]
    ensures Free(qs[h := []], n)
  {
    forall g | g in qs && g != h
      ensures n !in qs[g]
    {
      NotElsewhere(qs, h, n, g);
    }
  }

  /** The queues after head `g`'s elements are moved behind those of head `h`. */
  function Joined(qs: Queues, h: HeadId, g: HeadId): Queues
    requires h in qs && g in qs
  {
    qs[g := []][h := qs[h] + qs[g]]
  }

  /** Resetting one head and hanging its chain behind another moves the whole queue. */
  lemma ConcatRelinks(k: Kind, m: Heap, qs: Queues, h: HeadId, g: HeadId)
    requires Represents(k, m, qs) && h in qs && g in qs && h != g
    ensures Relinked(k, m, Adopted(k, Reset(k, m, g), h, qs[h], qs[g]), Joined(qs, h, g))
    ensures Represents(k, Adopted(k, Reset(k, m, g), h, qs[h], qs[g]), Joined(qs, h, g))
  {
    hide Represents, Relinked, Chained, Distinct, HasBack, Adopted, Linked, Free;
    var mid: Queues, m1 := qs[g := []], Reset(k, m, g);
    var m2 := Adopted(k, m1, h, qs[h], qs[g]);
    QueueChain(k, m, qs, g);
    ResetRelinks(k, m, qs, g);
    ResetKeepsChain(k, m, g, qs[g]);
    forall n | n in qs[g]
      ensures Free(mid, n)
    {
      ResetFrees(k, m, qs, g, n);
    }
    AdoptRelinks(k, m1, mid, h, qs[g]);
    LinkedGrows(mid, h, mid[h] + qs[g]);
    RelinkedCompose(k, m, m1, m2, mid, Joined(qs, h, g));
  }

  lemma LinkedGrows(qs: Queues, h: HeadId, q: seq<NodeId>)
    requires h in qs && forall n | n in qs[h] :: n in q
    ensures forall l :: Linked(qs, l) ==> Linked(qs[h := q], l)
  {
    forall l | Linked(qs, l)
      ensures Linked(qs[h := q], l)
    {
      if l.NextSlot? {
        var g, i := LinkedAt(qs, l.node);
        assert l.node in qs[h := q][g];
      }
    }
  }

  /** The queues after two heads exchange theirs. */
  function Exchanged(qs: Queues, h: HeadId, g: HeadId): Queues
    requires h in qs && g in qs
  {
    qs[h := qs[g]][g := qs[h]]
  }

  function ExchangedHeap(k: Kind, m: Heap, h: HeadId, g: HeadId, p: seq<NodeId>, q: seq<NodeId>): Heap {
    Adopted(k, Adopted(k, Reset(k, Reset(k, m, h), g), h, [], q), g, [], p)
  }

  /** A head's queue, as far as an exchange needs it. */
  lemma QueueChain(k: Kind, m: Heap, qs: Queues, h: HeadId)
    requires Represents(k, m, qs) && h in qs
    ensures HeadSlot(h) in m.fwd && (HasBack(k, HeadSlot(h)) ==> HeadSlot(h) in m.back)
    ensures Chained(k, m, qs[h]) && Distinct(qs[h])
  {
    Distinctness(k, m, qs, h);
    SpelledIsChained(k, m, h, qs[h]);
    assert Rec(h, qs[h], 0) == HeadSlot(h);
  }

  lemma ResetKeepsChain(k: Kind, m: Heap, h: HeadId, q: seq<NodeId>)
    requires Chained(k, m, q)
    ensures Chained(k, Reset(k, m, h), q)
  {
    ChainedFrame(k, m, Reset(k, m, h), q);
  }

  /** First half of an exchange: both heads are emptied and their chains survive. */
  lemma SwapResets(k: Kind, m: Heap, qs: Queues, h: HeadId, g: HeadId)
    requires Represents(k, m, qs) && h in qs && g in qs && h != g
    ensures var m2, qs2 := Reset(k, Reset(k, m, h), g), qs[h := []][g := []];
            Represents(k, m2, qs2) && Chained(k, m2, qs[h]) && Chained(k, m2, qs[g])
    ensures m.fwd.Keys == Reset(k, Reset(k, m, h), g).fwd.Keys
    ensures m.back.Keys == Reset(k, Reset(k, m, h), g).back.Keys
  {
    hide Represents, Relinked, Chained, Distinct, HasBack;
    var m1 := Reset(k, m, h);
    QueueChain(k, m, qs, h);
    QueueChain(k, m, qs, g);
    ResetRelinks(k, m, qs, h);
    ResetRelinks(k, m1, qs[h := []], g);
    ResetKeepsChain(k, m, h, qs[h]);
    ResetKeepsChain(k, m, h, qs[g]);
    ResetKeepsChain(k, m1, g, qs[h]);
    ResetKeepsChain(k, m1, g, qs[g]);
  }

  /** A chain disjoint from the one adopted is not disturbed. */
  lemma AdoptKeepsChain(k: Kind, m: Heap, h: HeadId, q: seq<NodeId>, p: seq<NodeId>)
    requires Chained(k, m, p) && forall n | n in p :: n !in q
    ensures Chained(k, Adopted(k, m, h, [], q), p)
  {
    assert q != [] ==> q[0] in q;
    ChainedFrame(k, m, Adopted(k, m, h, [], q), p);
  }

  /** An empty head takes over a whole chain. */
  lemma AdoptWhole(k: Kind, m: Heap, qs: Queues, h: HeadId, q: seq<NodeId>)
    requires Represents(k, m, qs) && h in qs && qs[h] == [] && Chained(k, m, q)
    requires (forall n | n in q :: Free(qs, n)) && Distinct(q)
    ensures Relinked(k, m, Adopted(k, m, h, [], q), qs[h := q])
    ensures Represents(k, Adopted(k, m, h, [], q), qs[h := q])
  {
    hide Represents, Chained, Distinct, Free, Adopted;
    assert [] + q == q;
    AdoptRelinks(k, m, qs, h, q);
  }

  /** Elements in no queue stay so when another chain is adopted. */
  lemma StillFree(qs: Queues, h: HeadId, q: seq<NodeId>, n: NodeId)
    requires Free(qs, n) && n !in q
    ensures Free(qs[h := q], n)
  {
  }

  /** Second half: each head takes over the other's chain. */
  lemma SwapAdopts(k: Kind, m: Heap, qs: Queues, h: HeadId, g: HeadId, p: seq<NodeId>, q: seq<NodeId>)
    requires Represents(k, m, qs) && h in qs && g in qs && h != g && qs[h] == [] && qs[g] == []
    requires Chained(k, m, p) && Chained(k, m, q) && Distinct(p) && Distinct(q)
    requires forall n | n in p || n in q :: Free(qs, n)
    requires forall n | n in p :: n !in q
    ensures Relinked(k, m, Adopted(k, Adopted(k, m, h, [], q), g, [], p), qs[h := q][g := p])
  {
    hide Represents, Relinked, Chained, Distinct, Free, Adopted, Linked;
    var m1, qs1: Queues := Adopted(k, m, h, [], q), qs[h := q];
    AdoptWhole(k, m, qs, h, q);
    AdoptKeepsChain(k, m, h, q, p);
    forall n | n in p
      ensures Free(qs1, n)
    {
      StillFree(qs, h, q, n);
    }
    AdoptWhole(k, m1, qs1, g, p);
    LinkedGrows(qs1, g, p);
    RelinkedCompose(k, m, m1, Adopted(k, m1, g, [], p), qs1, qs1[g := p]);
  }

  /** An exchange touches, outside the queues it leaves, nothing but the two heads. */
  lemma RelinkedAfterResets(k: Kind, m: Heap, m2: Heap, m4: Heap, qs: Queues, h: HeadId, g: HeadId)
    requires m2 == Reset(k, Reset(k, m, h), g) && Relinked(k, m2, m4, qs) && h in qs && g in qs
    requires m.fwd.Keys == m2.fwd.Keys && m.back.Keys == m2.back.Keys
    ensures Relinked(k, m, m4, qs) && Represents(k, m4, qs)
  {
    hide Represents;
    forall l | l in m.fwd && !Linked(qs, l)
      ensures m4.fwd[l] == m.fwd[l]
    {
      assert l in m2.fwd.Keys;
    }
    forall l | l in m.back && !Linked(qs, l)
      ensures m4.back[l] == m.back[l]
    {
      assert l in m2.back.Keys;
    }
  }

  lemma DisjointQueues(k: Kind, m: Heap, qs: Queues, h: HeadId, g: HeadId, n: NodeId)
    requires Represents(k, m, qs) && h in qs && g in qs && h != g && n in qs[h]
    ensures n !in qs[g]
  {
    NotElsewhere(qs, h, n, g);
  }

  /** Emptying two heads frees the elements of both. */
  lemma EmptiedFrees(k: Kind, m: Heap, qs: Queues, h: HeadId, g: HeadId, emptied: Queues, n: NodeId)
    requires Represents(k, m, qs) && h in qs && g in qs && h != g && (n in qs[h] || n in qs[g])
    requires emptied == qs[h := []][g := []]
    ensures Free(emptied, n)
  {
    var home := if n in qs[h] then h else g;
    hide Represents;
    forall f | f in emptied
      ensures n !in emptied[f]
    {
      if f != h && f != g {
        DisjointQueues(k, m, qs, home, f, n);
      }
    }
  }

  lemma SwapRelinks(k: Kind, m: Heap, qs: Queues, h: HeadId, g: HeadId)
    requires Represents(k, m, qs) && h in qs && g in qs && h != g
    ensures Relinked(k, m, ExchangedHeap(k, m, h, g, qs[h], qs[g]), Exchanged(qs, h, g))
    ensures Represents(k, ExchangedHeap(k, m, h, g, qs[h], qs[g]), Exchanged(qs, h, g))
  {
    hide Represents, Relinked, Chained, Free, Reset, Adopted, Distinct, HasBack;
    var p, q := qs[h], qs[g];
    var qs2: Queues := qs[h := []][g := []];
    var m2 := Reset(k, Reset(k, m, h), g);
    QueueChain(k, m, qs, h);
    QueueChain(k, m, qs, g);
    SwapResets(k, m, qs, h, g);
    forall n | n in p
      ensures n !in q
    {
      DisjointQueues(k, m, qs, h, g, n);
    }
    forall n | n in p || n in q
      ensures Free(qs2, n)
    {
      EmptiedFrees(k, m, qs, h, g, qs2, n);
    }
    SwapAdopts(k, m2, qs2, h, g, p, q);
    assert qs2[h := q][g := p] == Exchanged(qs, h, g);
    RelinkedAfterResets(k, m, m2, ExchangedHeap(k, m, h, g, p, q), Exchanged(qs, h, g), h, g);
  }
}
