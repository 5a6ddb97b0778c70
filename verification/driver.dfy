/**
 aesd_write and aesd_read over the ring (aesd-char-driver/main.c:48-191), one call
 at a time.  What a call cannot decide by itself is part of the call: the address
 kmalloc returns, whether a copy or a trylock succeeds, and whether strstr sees a
 newline (it may run past the unterminated block).

 `blocks` is the driver's share of the kernel heap: kmalloc adds a block, kfree
 demands a block that is still there.
 */
module CharDriver {
  import opened Basics
  import opened RingBuffer

  const ENOMEM := 12
  const EFAULT := 14
  const ERESTARTSYS := 512

  datatype DeviceState = DeviceState(ring: Ring, temp: Pointer, blocks: map<nat, seq<Byte>>)

  const FRESH := DeviceState(EMPTY, Nil, map[])

  datatype Call =
    | WriteCall(data: seq<Byte>, block: Pointer, copyFails: bool, lockOk: bool, newline: bool,
                joined: nat, joinedData: seq<Byte>)
    | ReadCall(pos: nat, count: nat, lockOk: bool, copyFails: bool)

  /** kmalloc returns memory that is not in use. */
  predicate Possible(d: DeviceState, c: Call) {
    c.WriteCall? ==>
      && (c.block.At? ==> c.block.addr !in d.blocks)
      && c.joined !in d.blocks && c.block != At(c.joined)
  }

  // ------------------------------------------------------------------
  // The ledger
  // ------------------------------------------------------------------

  /** The blocks that a slot or the partial buffer points to. */
  function Held(d: DeviceState): set<nat> {
    set p | p in PointersOf(d.ring.slots) + {d.temp} && p.At? :: p.addr
  }

  function PointersOf(slots: seq<Entry>): set<Pointer> {
    set e | e in slots :: e.buffptr
  }

  /** No pointer dangles, no two coincide, and every slot's size is its block's. */
  ghost predicate Sound(d: DeviceState) {
    && WellFormed(d.ring)
    && (forall i | 0 <= i < ENTRY_SIZE :: Backed(d.ring.slots[i], d.blocks))
    && (forall i, j | 0 <= i < j < ENTRY_SIZE && d.ring.slots[i].buffptr.At? ::
          d.ring.slots[i].buffptr != d.ring.slots[j].buffptr)
    && (d.temp.At? ==> d.temp.addr in d.blocks)
    && (forall i | 0 <= i < ENTRY_SIZE && d.ring.slots[i].buffptr.At? :: d.ring.slots[i].buffptr != d.temp)
  }

  predicate Backed(e: Entry, blocks: map<nat, seq<Byte>>) {
    match e.buffptr
    case Nil => e.size == 0
    case At(a) => a in blocks && |blocks[a]| == e.size
  }

  /** Nothing is allocated that is not held. */
  ghost predicate Exact(d: DeviceState) {
    d.blocks.Keys == Held(d)
  }

  // ------------------------------------------------------------------
  // aesd_write
  // ------------------------------------------------------------------

  /** The call gets as far as the ring or the partial buffer. */
  predicate Accepted(c: Call) {
    c.WriteCall? && c.block.At? && !c.copyFails && c.lockOk
  }

  function Written(d: DeviceState, c: Call): DeviceState
    requires WellFormed(d.ring) && c.WriteCall?
  {
    if !Accepted(c) then d
    else if c.newline then
      var (ring, out) := Add(d.ring, Entry(c.block, |c.data|));
      var blocks := d.blocks[c.block.addr := c.data];
      DeviceState(ring, d.temp, if out.buffptr.At? then blocks - {out.buffptr.addr} else blocks)
    else if d.temp == Nil then
      d.(temp := c.block, blocks := d.blocks[c.block.addr := c.data])
    else
      d.(temp := At(c.joined), blocks := (d.blocks - {d.temp.addr})[c.joined := c.joinedData])
  }

  /** What the caller of write(2) is told. */
  function WriteReturns(c: Call): int
    requires c.WriteCall?
  {
    if c.block == Nil then -ENOMEM else if c.copyFails then -EFAULT else |c.data|
  }

  /** Overwriting a slot that is not handed back: the one way to lose a block.  Visible before the call. */
  predicate Leaks(d: DeviceState, c: Call)
    requires WellFormed(d.ring)
  {
    Accepted(c) && c.newline && !d.ring.full && d.ring.slots[d.ring.inOffs].buffptr.At?
  }

  // ------------------------------------------------------------------
  // aesd_read
  // ------------------------------------------------------------------

  datatype ReadResult = ReadResult(retval: int, pos: nat, copied: seq<Byte>)

  function Bytes(blocks: map<nat, seq<Byte>>): Entry -> seq<Byte> {
    (e: Entry) => if e.buffptr.At? && e.buffptr.addr in blocks then blocks[e.buffptr.addr] else []
  }

  /** The whole entry is copied whatever `count` is, and from its first byte. */
  function ReadOf(d: DeviceState, c: Call): ReadResult
    requires WellFormed(d.ring) && c.ReadCall?
  {
    if !c.lockOk then ReadResult(-ERESTARTSYS, c.pos, [])
    else
      match Lookup(d.ring, c.pos).1
      case Miss => ReadResult(0, c.pos, [])
      case Hit(i, _) =>
        var e := d.ring.slots[i];
        var n := if c.count <= e.size then c.count else e.size;
        if c.copyFails then ReadResult(-EFAULT, c.pos + n, [])
        else ReadResult(n, c.pos + n, Bytes(d.blocks)(e))
  }

  function AfterCall(d: DeviceState, c: Call): (d': DeviceState)
    requires WellFormed(d.ring)
    ensures WellFormed(d'.ring)
  {
    match c
    case WriteCall(_, _, _, _, _, _, _) => Written(d, c)
    case ReadCall(pos, _, lockOk, _) => if lockOk then d.(ring := Lookup(d.ring, pos).0) else d
  }

  // ------------------------------------------------------------------
  // What one call keeps
  // ------------------------------------------------------------------

  lemma HeldIffPointed(d: DeviceState, a: nat)
    requires |d.ring.slots| == ENTRY_SIZE
    ensures a in Held(d) <==> d.temp == At(a) || exists i :: 0 <= i < ENTRY_SIZE && d.ring.slots[i].buffptr == At(a)
  {
    if d.temp == At(a) {
      assert d.temp in PointersOf(d.ring.slots) + {d.temp};
    } else if i :| 0 <= i < ENTRY_SIZE && d.ring.slots[i].buffptr == At(a) {
      assert d.ring.slots[i] in d.ring.slots;
      assert d.ring.slots[i].buffptr in PointersOf(d.ring.slots);
    }
    if a in Held(d) && d.temp != At(a) {
      var p :| p in PointersOf(d.ring.slots) + {d.temp} && p.At? && p.addr == a;
      var e :| e in d.ring.slots && e.buffptr == p;
      var i :| 0 <= i < ENTRY_SIZE && d.ring.slots[i] == e;
    }
  }

  lemma InsertionKeepsSound(d: DeviceState, c: Call)
    requires Sound(d) && Possible(d, c) && Accepted(c) && c.newline
    ensures Sound(Written(d, c))
  {
    var e, k, d' := Entry(c.block, |c.data|), d.ring.inOffs, Written(d, c);
    AddedSlots(d.ring, e);
    hide Add;
    assert d'.ring.slots == d.ring.slots[k := e];
    forall i | 0 <= i < ENTRY_SIZE
      ensures Backed(d'.ring.slots[i], d'.blocks)
    {
      assert Backed(d.ring.slots[i], d.blocks);
      assert i != k && d.ring.slots[k].buffptr.At? ==> d.ring.slots[i].buffptr != d.ring.slots[k].buffptr;
    }
    forall i | 0 <= i < ENTRY_SIZE && i != k
      ensures d.ring.slots[i].buffptr != c.block
    {
      assert Backed(d.ring.slots[i], d.blocks);
    }
    assert Backed(d.ring.slots[k], d.blocks);
  }

  lemma PartialKeepsSound(d: DeviceState, c: Call)
    requires Sound(d) && Possible(d, c) && Accepted(c) && !c.newline
    ensures Sound(Written(d, c))
  {
    forall i | 0 <= i < ENTRY_SIZE
      ensures Backed(d.ring.slots[i], Written(d, c).blocks)
      ensures d.ring.slots[i].buffptr.At? ==> d.ring.slots[i].buffptr != Written(d, c).temp
    {
      assert Backed(d.ring.slots[i], d.blocks);
    }
  }

  /** Every call keeps the ledger sound, misses and failures included. */
  lemma CallKeepsSound(d: DeviceState, c: Call)
    requires Sound(d) && Possible(d, c)
    ensures Sound(AfterCall(d, c))
  {
    if Accepted(c) {
      if c.newline {
        InsertionKeepsSound(d, c);
      } else {
        PartialKeepsSound(d, c);
      }
    } else {
      assert AfterCall(d, c).blocks == d.blocks && AfterCall(d, c).temp == d.temp;
      assert AfterCall(d, c).ring.slots == d.ring.slots;
    }
  }

  /** The evicted slot is the overwritten one; the other nine are untouched. */
  lemma AddedSlots(r: Ring, e: Entry)
    requires WellFormed(r)
    ensures var (r', out) := Add(r, e);
            && r'.slots == r.slots[r.inOffs := e]
            && out == (if r.full then r.slots[r.inOffs] else ZERO_ENTRY)
  {
  }

  /** The blocks nobody points to any more. */
  function Lost(d: DeviceState): set<nat> {
    d.blocks.Keys - Held(d)
  }

  /** A ring insertion, address by address. */
  lemma InsertionLost(d: DeviceState, c: Call, a: nat)
    requires Sound(d) && Possible(d, c) && Accepted(c) && c.newline
    ensures a in Lost(AfterCall(d, c)) <==>
            a in Lost(d) || (Leaks(d, c) && a == d.ring.slots[d.ring.inOffs].buffptr.addr)
  {
    var d', k := AfterCall(d, c), d.ring.inOffs;
    var e := Entry(c.block, |c.data|);
    AddedSlots(d.ring, e);
    HeldIffPointed(d, a);
    HeldIffPointed(d', a);
    hide Add, Held;
    if c.block == At(a) {
      assert d'.ring.slots[k].buffptr == At(a);
      assert Backed(d.ring.slots[k], d.blocks);
    } else if d.ring.slots[k].buffptr == At(a) {
      assert Backed(d.ring.slots[k], d.blocks);
    } else {
      assert forall i | 0 <= i < ENTRY_SIZE && i != k :: d'.ring.slots[i] == d.ring.slots[i];
    }
  }

  /** A partial write moves the pending buffer on and frees the old one. */
  lemma PartialLost(d: DeviceState, c: Call, a: nat)
    requires Sound(d) && Possible(d, c) && Accepted(c) && !c.newline
    ensures a in Lost(AfterCall(d, c)) <==> a in Lost(d)
  {
    HeldIffPointed(d, a);
    HeldIffPointed(AfterCall(d, c), a);
    assert forall i | 0 <= i < ENTRY_SIZE :: Backed(d.ring.slots[i], d.blocks);
  }

  /** Every call loses exactly the block it overwrites without handing it back, if it does. */
  lemma CallLost(d: DeviceState, c: Call)
    requires Sound(d) && Possible(d, c)
    ensures Lost(AfterCall(d, c)) ==
            Lost(d) + (if Leaks(d, c) then {d.ring.slots[d.ring.inOffs].buffptr.addr} else {})
  {
    forall a: nat
      ensures a in Lost(AfterCall(d, c)) <==>
              a in Lost(d) || (Leaks(d, c) && a == d.ring.slots[d.ring.inOffs].buffptr.addr)
    {
      if Accepted(c) && c.newline {
        InsertionLost(d, c, a);
      } else if Accepted(c) {
        PartialLost(d, c, a);
      }
    }
  }

  /** What is held is allocated. */
  lemma HeldIsLive(d: DeviceState)
    requires Sound(d)
    ensures Held(d) <= d.blocks.Keys
  {
    forall a | a in Held(d)
      ensures a in d.blocks.Keys
    {
      HeldIffPointed(d, a);
    }
  }

  // ------------------------------------------------------------------
  // What each call does to the pending partial buffer, and what a read answers
  // ------------------------------------------------------------------

  /**
   The pending partial buffer, pointer and bytes, outlives every call but an accepted
   write without a newline; that one replaces it, and nothing else is allocated or freed.
   */
  lemma PendingSurvives(d: DeviceState, c: Call)
    requires Sound(d) && Possible(d, c)
    ensures var d' := AfterCall(d, c);
            if c.WriteCall? && c.block.At? && !c.copyFails && c.lockOk && !c.newline then
              && d'.ring == d.ring
              && d'.temp == (if d.temp == Nil then c.block else At(c.joined))
              && d'.blocks.Keys == d.blocks.Keys - (if d.temp == Nil then {} else {d.temp.addr}) + {d'.temp.addr}
              && d'.blocks[d'.temp.addr] == (if d.temp == Nil then c.data else c.joinedData)
              && forall a | a in d.blocks && d.temp != At(a) :: d'.blocks[a] == d.blocks[a]
            else
              && d'.temp == d.temp
              && (d.temp.At? ==> d.temp.addr in d.blocks && d.temp.addr in d'.blocks
                                 && d'.blocks[d.temp.addr] == d.blocks[d.temp.addr])
  {
    if Accepted(c) && c.newline {
      AddedSlots(d.ring, Entry(c.block, |c.data|));
      hide Add;
    }
  }

  /** An entry a read can hit has a live block of exactly its size. */
  lemma RotationBacked(d: DeviceState, i: nat)
    requires Sound(d) && i < ENTRY_SIZE
    ensures Rotation(d.ring)[i] == d.ring.slots[Slot(d.ring.outOffs + i)]
    ensures Backed(Rotation(d.ring)[i], d.blocks)
  {
    RotationAt(d.ring, i);
    assert Backed(d.ring.slots[Slot(d.ring.outOffs + i)], d.blocks);
  }

  /** The entry whose bytes cover a position of the ring read end to end. */
  ghost predicate Covers(rot: seq<Entry>, i: nat, pos: nat)
    requires i < |rot|
  {
    TotalSize(rot[..i]) <= pos < TotalSize(rot[..i]) + rot[i].size
  }

  /**
   What every read answers and leaves behind: a failed trylock and a position past the
   end deliver nothing and move nothing; otherwise some entry covers the position, and the
   position advances by the smaller of `count` and that entry's size even if the copy fails.
   */
  lemma ReadEffect(d: DeviceState, c: Call)
    requires Sound(d) && c.ReadCall?
    ensures var result, d' := ReadOf(d, c), AfterCall(d, c);
            && d'.temp == d.temp && d'.blocks == d.blocks
            && (!c.lockOk ==> result == ReadResult(-ERESTARTSYS, c.pos, []) && d' == d)
            && (c.lockOk && c.pos >= TotalSize(d.ring.slots) ==>
                  result == ReadResult(0, c.pos, []) && d'.ring == Ring(d.ring.slots, 0, 0, false))
            && (c.lockOk && c.pos < TotalSize(d.ring.slots) ==>
                  && d' == d
                  && exists i | 0 <= i < ENTRY_SIZE && Covers(Rotation(d.ring), i, c.pos) ::
                       var e := Rotation(d.ring)[i];
                       var n := if c.count <= e.size then c.count else e.size;
                       && e.buffptr.At? && e.buffptr.addr in d.blocks
                       && result == (if c.copyFails then ReadResult(-EFAULT, c.pos + n, [])
                                     else ReadResult(n, c.pos + n, d.blocks[e.buffptr.addr])))
  {
    RotationTotal(d.ring);
    LocateIsPosition(Rotation(d.ring), c.pos);
    match Locate(Rotation(d.ring), c.pos)
    case Miss =>
    case Hit(i, o) =>
      RotationBacked(d, i);
      hide Rotation, Slot, Locate;
      assert Covers(Rotation(d.ring), i, c.pos);
  }

  // ------------------------------------------------------------------
  // What the return value of a write is worth
  // ------------------------------------------------------------------

  /**
   A write reports success exactly when its block was allocated and copied.  Of those that
   do, it has an effect if and only if the trylock succeeded; the others are dropped.  A
   write that reports an error has no effect, and the code says which allocation or copy failed.
   */
  lemma ReportedWriteKeptIffLocked(d: DeviceState, c: Call)
    requires Sound(d) && Possible(d, c) && c.WriteCall?
    ensures WriteReturns(c) == |c.data| <==> c.block.At? && !c.copyFails
    ensures WriteReturns(c) == |c.data| ==> (AfterCall(d, c) == d <==> !c.lockOk)
    ensures WriteReturns(c) != |c.data| ==> WriteReturns(c) < 0 && AfterCall(d, c) == d
    ensures WriteReturns(c) == -ENOMEM <==> c.block == Nil
    ensures WriteReturns(c) == -EFAULT <==> c.block.At? && c.copyFails
  {
    if Accepted(c) {
      if c.newline {
        assert AfterCall(d, c).ring.inOffs != d.ring.inOffs;
      } else {
        assert AfterCall(d, c).temp != d.temp;
      }
    }
  }

  /** The failing call: on a fresh device, with memory and copy in order, the text is reported written and is nowhere. */
  lemma DroppedWriteReportsSuccess(text: seq<Byte>)
    ensures var c := WriteCall(text, At(0), false, false, true, 1, []);
            Possible(FRESH, c) && WriteReturns(c) == |text| && AfterCall(FRESH, c) == FRESH
  {
  }

  // ------------------------------------------------------------------
  // The code
  // ------------------------------------------------------------------

  class Device {
    const ring: CircularBuffer
    var temp: Pointer
    var blocks: map<nat, seq<Byte>>

    ghost predicate Valid()
      reads this, ring, ring.entry
    {
      ring.Valid() && Sound(State())
    }

    function State(): DeviceState
      reads this, ring, ring.entry
    {
      DeviceState(ring.Value(), temp, blocks)
    }

    /** aesd_init_module: everything zero. */
    constructor ()
      ensures Valid() && State() == FRESH && fresh(ring) && fresh(ring.entry)
    {
      ring := new CircularBuffer();
      temp, blocks := Nil, map[];
    }

    method Kfree(addr: nat)
      requires addr in blocks
      modifies this`blocks
      ensures blocks == old(blocks) - {addr}
    {
      blocks := blocks - {addr};
    }

    method Write(c: Call) returns (retval: int)
      requires Valid() && c.WriteCall? && Possible(State(), c)
      modifies this, ring, ring.entry
      ensures Valid() && State() == AfterCall(old(State()), c)
      ensures retval == WriteReturns(c)
      ensures c.block == Nil ==> retval == -ENOMEM
      ensures c.block.At? ==> retval == if c.copyFails then -EFAULT else |c.data|
      ensures c.block == Nil || c.copyFails || !c.lockOk ==> State() == old(State())
      ensures c.block.At? && !c.copyFails && c.lockOk && c.newline ==>
                var r, live := old(ring.Value()), old(blocks)[c.block.addr := c.data];
                && temp == old(temp)
                && ring.Value() == Add(r, Entry(c.block, |c.data|)).0
                && blocks == if r.full && r.slots[r.outOffs].buffptr.At?
                             then live - {r.slots[r.outOffs].buffptr.addr} else live
      ensures c.block.At? && !c.copyFails && c.lockOk && !c.newline ==>
                && ring.Value() == old(ring.Value())
                && temp == (if old(temp) == Nil then c.block else At(c.joined))
                && blocks == if old(temp) == Nil then old(blocks)[c.block.addr := c.data]
                             else (old(blocks) - {old(temp).addr})[c.joined := c.joinedData]
    {
      CallKeepsSound(State(), c);
      ghost var d := State();
      retval := -ENOMEM;
      var buffer := c.block;
      if buffer == Nil {
        return;
      }
      blocks := blocks[buffer.addr := c.data];
      if c.copyFails {
        retval := -EFAULT;
        Kfree(buffer.addr);
        assert blocks == d.blocks;
        return;
      }
      retval := |c.data|;
      if !c.lockOk {
        Kfree(buffer.addr);
        assert blocks == d.blocks;
        return;
      }
      if !c.newline {
        if temp == Nil {
          temp := buffer;
        } else {
          blocks := blocks[c.joined := c.joinedData];
          Kfree(buffer.addr);
          Kfree(temp.addr);
          temp := At(c.joined);
          assert blocks == (d.blocks - {d.temp.addr})[c.joined := c.joinedData];
        }
      } else {
        AddedSlots(d.ring, Entry(buffer, |c.data|));
        assert Backed(d.ring.slots[d.ring.inOffs], d.blocks);
        var out := ring.AddEntry(Entry(buffer, |c.data|));
        if out.buffptr != Nil {
          Kfree(out.buffptr.addr);
        }
      }
    }

    method Read(c: Call) returns (result: ReadResult)
      requires Valid() && c.ReadCall?
      modifies this, ring
      ensures Valid() && State() == AfterCall(old(State()), c)
      ensures result == ReadOf(old(State()), c)
      ensures temp == old(temp) && blocks == old(blocks)
      ensures !c.lockOk ==> result == ReadResult(-ERESTARTSYS, c.pos, []) && State() == old(State())
      ensures c.lockOk && c.pos >= TotalSize(old(ring.Value()).slots) ==>
                && result == ReadResult(0, c.pos, [])
                && ring.Value() == Ring(old(ring.Value()).slots, 0, 0, false)
      ensures c.lockOk && c.pos < TotalSize(old(ring.Value()).slots) ==>
                && State() == old(State())
                && exists i | 0 <= i < ENTRY_SIZE && Covers(Rotation(old(ring.Value())), i, c.pos) ::
                     var e := Rotation(old(ring.Value()))[i];
                     var n := if c.count <= e.size then c.count else e.size;
                     && e.buffptr.At? && e.buffptr.addr in old(blocks)
                     && result == (if c.copyFails then ReadResult(-EFAULT, c.pos + n, [])
                                   else ReadResult(n, c.pos + n, old(blocks)[e.buffptr.addr]))
    {
      ghost var d := State();
      CallKeepsSound(d, c);
      ReadEffect(d, c);
      if !c.lockOk {
        return ReadResult(-ERESTARTSYS, c.pos, []);
      }
      var found := ring.FindEntryOffsetForFpos(c.pos);
      RotationTotal(d.ring);
      LocateIsPosition(Rotation(d.ring), c.pos);
      assert d.ring.slots == ring.entry[..];
      match found
      case Miss =>
        result := ReadResult(0, c.pos, []);
      case Hit(i, _) =>
        var entry := ring.entry[i];
        var n := if c.count <= entry.size then c.count else entry.size;
        assert Backed(d.ring.slots[i], d.blocks);
        if c.copyFails {
          result := ReadResult(-EFAULT, c.pos + n, []);
        } else {
          result := ReadResult(n, c.pos + n, blocks[entry.buffptr.addr]);
        }
    }
  }
}
