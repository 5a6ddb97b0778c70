/**
 Runs of insertions and lookups from an initialized ring.  A lookup that misses
 resets the ring's indices (aesd-circular-buffer.c:46-48), so conservation is not
 a law of the code: it holds exactly for the runs without a harmful miss.
 */
module RingRuns {
  import opened RingBuffer

  datatype RingOp = AddOp(entry: Entry) | LookupOp(offset: nat)

  /** The ring, all entries ever added, and the entries handed back by evictions. */
  datatype History = History(ring: Ring, added: seq<Entry>, evicted: seq<Entry>)

  function Step(h: History, op: RingOp): (h': History)
    requires WellFormed(h.ring)
    ensures WellFormed(h'.ring)
  {
    match op
    case AddOp(e) =>
      History(Add(h.ring, e).0, h.added + [e],
              if h.ring.full then h.evicted + [Add(h.ring, e).1] else h.evicted)
    case LookupOp(offset) =>
      h.(ring := Lookup(h.ring, offset).0)
  }

  /** The history of a run from aesd_circular_buffer_init. */
  function Exec(ops: seq<RingOp>): (h: History)
    ensures WellFormed(h.ring)
    decreases |ops|
  {
    if ops == [] then History(EMPTY, [], [])
    else Step(Exec(ops[..|ops| - 1]), ops[|ops| - 1])
  }

  /** Checkable before the call: a lookup inside the stored bytes, or on a ring that holds nothing. */
  predicate Harmless(r: Ring, op: RingOp)
    requires WellFormed(r)
  {
    op.LookupOp? ==> op.offset < TotalSize(r.slots) || Count(r) == 0
  }

  predicate Lossless(ops: seq<RingOp>)
    decreases |ops|
  {
    ops == [] || (Lossless(ops[..|ops| - 1]) && Harmless(Exec(ops[..|ops| - 1]).ring, ops[|ops| - 1]))
  }

  /** Everything added was either handed back, in order, or is still there, in order. */
  predicate Conserved(h: History)
    requires WellFormed(h.ring)
  {
    h.added == h.evicted + Contents(h.ring)
  }

  /** How many entries the ring has lost track of. */
  function Lost(h: History): int
    requires WellFormed(h.ring)
  {
    |h.added| - |h.evicted| - Count(h.ring)
  }

  lemma LookupEffect(r: Ring, offset: nat)
    requires WellFormed(r)
    ensures var r' := Lookup(r, offset).0;
            if offset < TotalSize(r.slots) then r' == r
            else r' == Ring(r.slots, 0, 0, false) && Count(r') == 0 && Contents(r') == []
  {
    LocateIsPosition(Rotation(r), offset);
    RotationTotal(r);
  }

  lemma StepLost(h: History, op: RingOp)
    requires WellFormed(h.ring)
    ensures Lost(Step(h, op)) == Lost(h) + if Harmless(h.ring, op) then 0 else Count(h.ring)
    ensures Conserved(h) && Harmless(h.ring, op) ==> Conserved(Step(h, op))
  {
    match op
    case AddOp(e) =>
      AddIsBoundedEnqueue(h.ring, e);
      hide Add, Contents;
      if h.ring.full && Conserved(h) {
        var c := Contents(h.ring);
        assert c == [c[0]] + c[1..];
        assert h.evicted + c + [e] == (h.evicted + [c[0]]) + (c[1..] + [e]);
      }
    case LookupOp(offset) =>
      LookupEffect(h.ring, offset);
  }

  /**
   For every run: the added entries are the evicted ones followed by the contents
   if and only if no lookup missed while the ring held something.
   */
  lemma {:induction false} ConservedIffLossless(ops: seq<RingOp>)
    ensures Lossless(ops) <==> Conserved(Exec(ops))
    ensures Lost(Exec(ops)) >= 0 && (Lossless(ops) <==> Lost(Exec(ops)) == 0)
    decreases |ops|
  {
    if ops != [] {
      var front, op := ops[..|ops| - 1], ops[|ops| - 1];
      ConservedIffLossless(front);
      StepLost(Exec(front), op);
      assert Conserved(Exec(ops)) ==> Lost(Exec(ops)) == 0;
    }
  }

  /** The smallest failing run: one entry added, one lookup just past it, and the entry is lost. */
  lemma MissLosesEntry(e: Entry)
    ensures var h := Exec([AddOp(e), LookupOp(e.size)]);
            h.added == [e] && h.evicted == [] && Contents(h.ring) == [] && !Conserved(h)
  {
    var ops := [AddOp(e), LookupOp(e.size)];
    assert ops[..1] == [AddOp(e)] && [AddOp(e)][..0] == [];
    assert Exec([AddOp(e)]) == Step(Exec([]), AddOp(e));
    FirstAdd(e);
    hide Add;
    LookupEffect(Exec([AddOp(e)]).ring, e.size);
  }

  lemma FirstAdd(e: Entry)
    ensures var r := Add(EMPTY, e).0;
            r.slots != [] && TotalSize(r.slots) == e.size && !EMPTY.full
  {
    EmptyTail();
    ZerosWeighNothing(EMPTY.slots[1..]);
    hide EMPTY;
    assert Add(EMPTY, e).0.slots[1..] == EMPTY.slots[1..];
  }

  lemma EmptyTail()
    ensures |EMPTY.slots| == ENTRY_SIZE && AllZero(EMPTY.slots[1..]) && EMPTY.inOffs == 0 && !EMPTY.full
  {
  }

  predicate AllZero(es: seq<Entry>) {
    forall e | e in es :: e == ZERO_ENTRY
  }

  lemma {:induction false} ZerosWeighNothing(es: seq<Entry>)
    requires AllZero(es)
    ensures TotalSize(es) == 0
  {
    if es != [] {
      assert es[0] in es && forall e | e in es[1..] :: e in es;
      ZerosWeighNothing(es[1..]);
    }
  }

  /** Evictions start only when full, and the slots beyond the contents are still zero. */
  predicate Tidy(h: History)
    requires WellFormed(h.ring)
  {
    (h.evicted != [] ==> h.ring.full) && AllZero(Rotation(h.ring)[Count(h.ring)..])
  }

  lemma {:induction false} LosslessIsTidy(ops: seq<RingOp>)
    requires Lossless(ops)
    ensures Tidy(Exec(ops))
    decreases |ops|
  {
    if ops != [] {
      var front, op := ops[..|ops| - 1], ops[|ops| - 1];
      LosslessIsTidy(front);
      TidyStep(Exec(front), op);
    }
  }

  lemma TidyStep(h: History, op: RingOp)
    requires WellFormed(h.ring) && Tidy(h) && Harmless(h.ring, op)
    ensures Tidy(Step(h, op))
  {
    match op
    case AddOp(e) => TidyAdd(h, e);
    case LookupOp(offset) => TidyLookup(h, offset);
  }

  lemma TidyAdd(h: History, e: Entry)
    requires WellFormed(h.ring) && Tidy(h)
    ensures Tidy(Step(h, AddOp(e)))
  {
    AddCounts(h.ring, e);
    AddKeepsRest(h.ring, e);
    hide Add, Rotation;
    var rest := Rotation(h.ring)[Count(h.ring)..];
    if !h.ring.full {
      assert Rotation(h.ring)[Count(h.ring) + 1..] == rest[1..];
      assert forall z | z in rest[1..] :: z in rest;
    }
  }

  lemma TidyLookup(h: History, offset: nat)
    requires WellFormed(h.ring) && Tidy(h) && Harmless(h.ring, LookupOp(offset))
    ensures Tidy(Step(h, LookupOp(offset)))
  {
    LookupEffect(h.ring, offset);
    hide Lookup;
    if offset >= TotalSize(h.ring.slots) {
      assert Rotation(h.ring)[0..] == Rotation(h.ring);
      RotationMembers(h.ring);
      var r' := Step(h, LookupOp(offset)).ring;
      RotationMembers(r');
    }
  }

  /** Reading order rearranges the slots and nothing else. */
  lemma RotationMembers(r: Ring)
    requires WellFormed(r)
    ensures forall e :: e in Rotation(r) <==> e in r.slots
  {
    assert r.slots == r.slots[..r.outOffs] + r.slots[r.outOffs..];
  }

  lemma TidyHoldsLastTen(h: History)
    requires WellFormed(h.ring) && Conserved(h) && Tidy(h)
    ensures Contents(h.ring) == LastOf(h.added, ENTRY_SIZE)
  {
    hide Rotation, AllZero;
    assert |Contents(h.ring)| == Count(h.ring);
    if h.evicted == [] {
      assert h.added == Contents(h.ring);
    } else {
      assert h.added[|h.evicted|..] == Contents(h.ring);
    }
  }

  /** In a lossless run the ring holds exactly the last ten entries added, or all of them. */
  lemma LosslessHoldsLastTen(ops: seq<RingOp>)
    requires Lossless(ops)
    ensures var h := Exec(ops);
            && Contents(h.ring) == LastOf(h.added, ENTRY_SIZE)
            && Rotation(h.ring) == Contents(h.ring) + Rotation(h.ring)[Count(h.ring)..]
            && AllZero(Rotation(h.ring)[Count(h.ring)..])
  {
    ConservedIffLossless(ops);
    LosslessIsTidy(ops);
    hide Exec, Lossless, Conserved;
    TidyHoldsLastTen(Exec(ops));
  }

  lemma {:induction false} FlatConcat<T>(a: seq<Entry>, b: seq<Entry>, bytes: Entry -> seq<T>)
    ensures Flat(a + b, bytes) == Flat(a, bytes) + Flat(b, bytes)
  {
    if a == [] {
      assert a + b == b;
    } else {
      assert (a + b)[1..] == a[1..] + b;
      FlatConcat(a[1..], b, bytes);
    }
  }

  /**
   After a lossless run, looking up an offset is indexing into the concatenation of
   the last ten writes: same range, same bytes.
   */
  lemma LookupReadsLastTen<T>(ops: seq<RingOp>, bytes: Entry -> seq<T>, offset: nat)
    requires Lossless(ops) && Sized(Exec(ops).ring.slots, bytes)
    ensures var h := Exec(ops);
            var text := Flat(LastOf(h.added, ENTRY_SIZE), bytes);
            var f := Lookup(h.ring, offset).1;
            && (f.Hit? <==> offset < |text|)
            && (f.Hit? ==> f.index < ENTRY_SIZE && f.offset < |bytes(h.ring.slots[f.index])|
                           && bytes(h.ring.slots[f.index])[f.offset] == text[offset])
  {
    var r := Exec(ops).ring;
    var rest := Rotation(r)[Count(r)..];
    LosslessHoldsLastTen(ops);
    LookupIsIndexing(r, bytes, offset);
    RotationSized(r, bytes);
    FlatConcat(Contents(r), rest, bytes);
    FlatLength(Rotation(r), bytes);
    RotationTotal(r);
    ZerosWeighNothing(rest);
    FlatLength(rest, bytes);
  }

  lemma RotationSized<T>(r: Ring, bytes: Entry -> seq<T>)
    requires WellFormed(r) && Sized(r.slots, bytes)
    ensures Sized(Rotation(r), bytes) && Sized(Rotation(r)[Count(r)..], bytes)
  {
    RotationMembers(r);
  }

  function Adds(es: seq<Entry>): seq<RingOp> {
    if es == [] then [] else Adds(es[..|es| - 1]) + [AddOp(es[|es| - 1])]
  }

  /** A ring that lost entries recovers: after any run at all, ten insertions restore the last-ten reading. */
  lemma {:induction false} TenAddsHealAnyRun(ops: seq<RingOp>, es: seq<Entry>)
    requires |es| == ENTRY_SIZE
    ensures Rotation(Exec(ops + Adds(es)).ring) == es
  {
    ExecAdds(ops, es);
    TenAddsDetermineRing(Exec(ops).ring, es);
  }

  lemma ExecAppend(ops: seq<RingOp>, more: seq<RingOp>)
    requires |more| <= 1
    ensures Exec(ops + more) ==
            if more == [] then Exec(ops) else Step(Exec(ops), more[0])
  {
    if more == [] {
      assert ops + more == ops;
    } else {
      assert (ops + more)[..|ops + more| - 1] == ops;
    }
  }

  lemma {:induction false} ExecAdds(ops: seq<RingOp>, es: seq<Entry>)
    ensures Exec(ops + Adds(es)).ring == AddAll(Exec(ops).ring, es)
    decreases |es|
  {
    hide Exec, Add;
    if es == [] {
      assert ops + Adds(es) == ops;
    } else {
      var front, last := es[..|es| - 1], es[|es| - 1];
      ExecAdds(ops, front);
      ExecAppend(ops + Adds(front), [AddOp(last)]);
      assert ops + Adds(es) == ops + Adds(front) + [AddOp(last)];
    }
  }
}
