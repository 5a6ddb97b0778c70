/** Whole runs of driver calls from module initialization. */
module CharDriverRuns {
  import opened Basics
  import opened RingBuffer
  import opened CharDriver
  import RingRuns

  // ------------------------------------------------------------------
  // Runs of calls from module initialization
  // ------------------------------------------------------------------

  /** Each call's allocations were free when it was made. */
  ghost predicate PossibleRun(calls: seq<Call>)
    decreases |calls|, 0
  {
    calls == [] ||
    (PossibleRun(calls[..|calls| - 1]) && Possible(Exec(calls[..|calls| - 1]), calls[|calls| - 1]))
  }

  ghost function Exec(calls: seq<Call>): (d: DeviceState)
    requires PossibleRun(calls)
    ensures WellFormed(d.ring)
    decreases |calls|, 1
  {
    if calls == [] then FRESH else AfterCall(Exec(calls[..|calls| - 1]), calls[|calls| - 1])
  }

  lemma FreshIsSound()
    ensures Sound(FRESH) && Lost(FRESH) == {}
  {
    assert FRESH.ring == EMPTY;
  }

  /**
   In every run, misses included: no slot and no partial buffer points to a freed block
   and all held blocks are distinct.
   */
  lemma {:induction false} EveryRunIsSound(calls: seq<Call>)
    requires PossibleRun(calls)
    ensures Sound(Exec(calls))
    decreases |calls|
  {
    if calls == [] {
      FreshIsSound();
    } else {
      EveryRunIsSound(calls[..|calls| - 1]);
      CallKeepsSound(Exec(calls[..|calls| - 1]), calls[|calls| - 1]);
    }
  }

  /** The bytes of the newest write without a newline, as it was stored or as it was joined to the one before. */
  function Pending(calls: seq<Call>): Option<seq<Byte>>
    decreases |calls|
  {
    if calls == [] then None
    else
      var before, c := Pending(calls[..|calls| - 1]), calls[|calls| - 1];
      if Accepted(c) && !c.newline then Some(if before == None then c.data else c.joinedData)
      else before
  }

  /** In every run those bytes are in the partial buffer, untouched by all reads and ring writes since. */
  lemma {:induction false} PendingIsNewestPartial(calls: seq<Call>)
    requires PossibleRun(calls)
    ensures var d := Exec(calls);
            match Pending(calls)
            case None => d.temp == Nil
            case Some(text) => d.temp.At? && d.temp.addr in d.blocks && d.blocks[d.temp.addr] == text
    decreases |calls|
  {
    if calls != [] {
      var front, c := calls[..|calls| - 1], calls[|calls| - 1];
      PendingIsNewestPartial(front);
      EveryRunIsSound(front);
      PendingSurvives(Exec(front), c);
      hide AfterCall, Sound, Possible;
    }
  }

  ghost predicate NoLeak(calls: seq<Call>)
    requires PossibleRun(calls)
    decreases |calls|
  {
    calls == [] ||
    (NoLeak(calls[..|calls| - 1]) && !Leaks(Exec(calls[..|calls| - 1]), calls[|calls| - 1]))
  }

  lemma NothingLost(d: DeviceState)
    requires Sound(d)
    ensures Lost(d) == {} <==> Exact(d)
  {
    HeldIsLive(d);
    if Lost(d) == {} {
      assert forall a | a in d.blocks.Keys && a !in Held(d) :: a in Lost(d);
    }
  }

  /** The live blocks are exactly the held ones if and only if no call overwrote a live slot of a ring not marked full. */
  lemma {:induction false} ExactIffNoLeak(calls: seq<Call>)
    requires PossibleRun(calls)
    ensures Exact(Exec(calls)) <==> NoLeak(calls)
    ensures Lost(Exec(calls)) == {} <==> NoLeak(calls)
    decreases |calls|
  {
    EveryRunIsSound(calls);
    NothingLost(Exec(calls));
    if calls == [] {
      FreshIsSound();
    } else {
      var front, c := calls[..|calls| - 1], calls[|calls| - 1];
      ExactIffNoLeak(front);
      EveryRunIsSound(front);
      CallLost(Exec(front), c);
      if Leaks(Exec(front), c) {
        assert Exec(front).ring.slots[Exec(front).ring.inOffs].buffptr.addr in Lost(Exec(calls));
      }
    }
  }

  // ------------------------------------------------------------------
  // Runs of calls are runs of the ring
  // ------------------------------------------------------------------

  function RingOpsOf(c: Call): seq<RingRuns.RingOp> {
    if Accepted(c) && c.newline then [RingRuns.AddOp(Entry(c.block, |c.data|))]
    else if c.ReadCall? && c.lockOk then [RingRuns.LookupOp(c.pos)]
    else []
  }

  function RingOps(calls: seq<Call>): seq<RingRuns.RingOp>
    decreases |calls|
  {
    if calls == [] then [] else RingOps(calls[..|calls| - 1]) + RingOpsOf(calls[|calls| - 1])
  }

  /** A call does to the ring what its ring operation does. */
  lemma CallOnRing(d: DeviceState, h: RingRuns.History, c: Call)
    requires WellFormed(h.ring) && d.ring == h.ring
    ensures AfterCall(d, c).ring ==
            if RingOpsOf(c) == [] then h.ring else RingRuns.Step(h, RingOpsOf(c)[0]).ring
  {
  }

  lemma {:induction false} RunsOnRing(calls: seq<Call>)
    requires PossibleRun(calls)
    ensures Exec(calls).ring == RingRuns.Exec(RingOps(calls)).ring
    decreases |calls|
  {
    hide Possible, AfterCall, RingOpsOf, RingRuns.Step, RingRuns.Exec;
    if calls == [] {
      StartOnRing();
    } else {
      var front, c := calls[..|calls| - 1], calls[|calls| - 1];
      RunsOnRing(front);
      OneRingOp(c);
      RingRuns.ExecAppend(RingOps(front), RingOpsOf(c));
      CallOnRing(Exec(front), RingRuns.Exec(RingOps(front)), c);
    }
  }

  lemma StartOnRing()
    ensures FRESH.ring == RingRuns.Exec([]).ring
  {
  }

  lemma OneRingOp(c: Call)
    ensures |RingOpsOf(c)| <= 1
  {
  }

  lemma LosslessPrefix(ops: seq<RingRuns.RingOp>, more: seq<RingRuns.RingOp>)
    requires RingRuns.Lossless(ops + more) && |more| <= 1
    ensures RingRuns.Lossless(ops)
  {
    if more == [] {
      assert ops + more == ops;
    } else {
      assert (ops + more)[..|ops + more| - 1] == ops;
    }
  }

  lemma NextSlotIsZero(h: RingRuns.History)
    requires WellFormed(h.ring) && RingRuns.Tidy(h) && !h.ring.full
    ensures h.ring.slots[h.ring.inOffs] == ZERO_ENTRY
  {
    var r := h.ring;
    RotationAt(r, Count(r));
    var rest := Rotation(r)[Count(r)..];
    assert rest[0] == r.slots[r.inOffs] && rest[0] in rest;
  }

  /** Without a harmful miss nothing leaks: the slot about to be written is empty unless the ring is full. */
  lemma {:induction false} LosslessRunIsExact(calls: seq<Call>)
    requires PossibleRun(calls) && RingRuns.Lossless(RingOps(calls))
    ensures NoLeak(calls) && Exact(Exec(calls))
    decreases |calls|
  {
    if calls != [] {
      var front, c := calls[..|calls| - 1], calls[|calls| - 1];
      LosslessPrefix(RingOps(front), RingOpsOf(c));
      LosslessRunIsExact(front);
      RunsOnRing(front);
      RingRuns.LosslessIsTidy(RingOps(front));
      if !Exec(front).ring.full {
        NextSlotIsZero(RingRuns.Exec(RingOps(front)));
      }
    }
    ExactIffNoLeak(calls);
  }

  /** A miss and then a write: the first block is lost though both writes succeeded. */
  lemma MissThenWriteLeaks(text: seq<Byte>, a: nat, b: nat, j: nat)
    requires a != b && a != j && b != j
    ensures var calls := [WriteCall(text, At(a), false, true, true, j, []),
                          ReadCall(|text|, 1, true, false),
                          WriteCall(text, At(b), false, true, true, j, [])];
            PossibleRun(calls) && !NoLeak(calls) && !Exact(Exec(calls))
  {
    var w1, rd, w2 := WriteCall(text, At(a), false, true, true, j, []), ReadCall(|text|, 1, true, false),
                      WriteCall(text, At(b), false, true, true, j, []);
    var one, two, three := [w1], [w1, rd], [w1, rd, w2];
    assert one[..0] == [] && two[..1] == one && three[..2] == two;
    FirstWrite(text, a, j);
    var d1 := AfterCall(FRESH, w1);
    assert Possible(FRESH, w1);
    SecondWrite(d1, text, a, b, j);
    hide AfterCall, Possible, Leaks;
    assert Possible(d1, rd) by { PossibleRead(d1, rd); }
    assert PossibleRun([]) && PossibleRun(one) && Exec(one) == d1;
    assert PossibleRun(two) && Exec(two) == AfterCall(d1, rd);
    assert PossibleRun(three) && !NoLeak(three);
    ExactIffNoLeak(three);
  }

  lemma PossibleRead(d: DeviceState, c: Call)
    requires c.ReadCall?
    ensures Possible(d, c)
  {
  }

  lemma FirstWrite(text: seq<Byte>, a: nat, j: nat)
    ensures var d1 := AfterCall(FRESH, WriteCall(text, At(a), false, true, true, j, []));
            && d1.blocks == map[a := text] && WellFormed(d1.ring)
            && d1.ring.slots[0].buffptr == At(a) && TotalSize(d1.ring.slots) == |text|
  {
    var e := Entry(At(a), |text|);
    RingRuns.FirstAdd(e);
    AddedSlots(EMPTY, e);
  }

  lemma SecondWrite(d1: DeviceState, text: seq<Byte>, a: nat, b: nat, j: nat)
    requires a != b && a != j && b != j
    requires d1.blocks == map[a := text] && WellFormed(d1.ring)
    requires d1.ring.slots[0].buffptr == At(a) && TotalSize(d1.ring.slots) == |text|
    ensures var d2, w2 := AfterCall(d1, ReadCall(|text|, 1, true, false)), WriteCall(text, At(b), false, true, true, j, []);
            Possible(d2, w2) && Leaks(d2, w2)
  {
    RingRuns.LookupEffect(d1.ring, |text|);
  }

  // ------------------------------------------------------------------
  // The code, over a whole run
  // ------------------------------------------------------------------

  lemma {:induction false} PossiblePrefix(calls: seq<Call>, i: nat)
    requires PossibleRun(calls) && i <= |calls|
    ensures PossibleRun(calls[..i])
    decreases |calls|
  {
    if i < |calls| {
      var front := calls[..|calls| - 1];
      PossiblePrefix(front, i);
      assert front[..i] == calls[..i];
    } else {
      assert calls[..i] == calls;
    }
  }

  lemma LastCall(calls: seq<Call>)
    requires PossibleRun(calls) && calls != []
    ensures var front, c := calls[..|calls| - 1], calls[|calls| - 1];
            PossibleRun(front) && Possible(Exec(front), c) && Exec(calls) == AfterCall(Exec(front), c)
  {
    hide Possible, AfterCall;
  }

  lemma FrontOfPrefix(calls: seq<Call>, i: nat)
    requires i < |calls|
    ensures calls[..i + 1] != [] && calls[..i + 1][..|calls[..i + 1]| - 1] == calls[..i]
    ensures calls[..i + 1][|calls[..i + 1]| - 1] == calls[i]
  {
  }

  /** The state one call further on in a run. */
  lemma CallStep(calls: seq<Call>, i: nat)
    requires PossibleRun(calls) && i < |calls|
    ensures PossibleRun(calls[..i]) && PossibleRun(calls[..i + 1])
    ensures Possible(Exec(calls[..i]), calls[i])
    ensures Exec(calls[..i + 1]) == AfterCall(Exec(calls[..i]), calls[i])
  {
    hide PossibleRun, Exec;
    PossiblePrefix(calls, i + 1);
    FrontOfPrefix(calls, i);
    LastCall(calls[..i + 1]);
  }

  /** From module initialization through any possible run, every kfree on the way hits a live block. */
  method RunCalls(calls: seq<Call>) returns (device: Device)
    requires PossibleRun(calls)
    ensures fresh(device) && fresh(device.ring) && fresh(device.ring.entry)
    ensures device.Valid() && device.State() == Exec(calls)
  {
    hide Sound, AfterCall, Possible;
    device := new Device();
    PossiblePrefix(calls, 0);
    var i := 0;
    while i < |calls|
      invariant 0 <= i <= |calls| && PossibleRun(calls[..i])
      invariant fresh(device) && fresh(device.ring) && fresh(device.ring.entry)
      invariant device.Valid() && device.State() == Exec(calls[..i])
    {
      CallStep(calls, i);
      if calls[i].WriteCall? {
        var _ := device.Write(calls[i]);
      } else {
        var _ := device.Read(calls[i]);
      }
      i := i + 1;
    }
    assert calls[..i] == calls;
  }
}
