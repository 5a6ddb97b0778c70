/** What readers get: sessions from position 0, reads at any position, and the text of the last ten writes. */
module CharDriverSessions {
  import opened Basics
  import opened RingBuffer
  import opened CharDriver
  import CharDriverRuns
  import RingRuns

  // ------------------------------------------------------------------
  // A reader's session
  // ------------------------------------------------------------------

  /** The entries that hold at least one byte. */
  function NonEmpty(es: seq<Entry>): (s: seq<Entry>)
    ensures |s| <= |es|
  {
    if es == [] then []
    else (if es[0].size > 0 then [es[0]] else []) + NonEmpty(es[1..])
  }

  function Concat(chunks: seq<seq<Byte>>): seq<Byte> {
    if chunks == [] then [] else Concat(chunks[..|chunks| - 1]) + chunks[|chunks| - 1]
  }

  function BytesOf(es: seq<Entry>, bytes: Entry -> seq<Byte>): seq<seq<Byte>> {
    if es == [] then [] else BytesOf(es[..|es| - 1], bytes) + [bytes(es[|es| - 1])]
  }

  /** The first position from `k` on whose entry is not empty. */
  function Skip(es: seq<Entry>, k: nat): (j: nat)
    requires k <= |es|
    ensures k <= j <= |es|
    ensures j < |es| ==> es[j].size > 0
    ensures forall i | k <= i < j :: es[i].size == 0
    decreases |es| - k
  {
    if k < |es| && es[k].size == 0 then Skip(es, k + 1) else k
  }

  /** At an entry boundary the lookup lands on the first byte of the next non-empty entry. */
  lemma {:induction false} LocateAtBoundary(es: seq<Entry>, k: nat)
    requires k <= |es|
    ensures var j := Skip(es, k);
            Locate(es, TotalSize(es[..k])) == if j == |es| then Miss else Hit(j, 0)
    decreases |es|
  {
    if es != [] {
      var tail := es[1..];
      if k > 0 {
        LocateAtBoundary(tail, k - 1);
        SkipShift(es, k - 1);
        hide Skip;
        assert es[..k][1..] == tail[..k - 1];
      } else {
        LocateAtBoundary(tail, 0);
        SkipShift(es, 0);
        assert es[..0] == [] && tail[..0] == [];
      }
    }
  }

  lemma {:induction false} SkipShift(es: seq<Entry>, k: nat)
    requires k + 1 <= |es|
    ensures Skip(es, k + 1) == Skip(es[1..], k) + 1
    decreases |es| - k
  {
    if k + 1 < |es| && es[k + 1].size == 0 {
      SkipShift(es, k + 1);
    }
  }

  lemma {:induction false} TotalUpTo(es: seq<Entry>, k: nat, j: nat)
    requires k <= j <= |es| && forall i | k <= i < j :: es[i].size == 0
    ensures TotalSize(es[..j]) == TotalSize(es[..k])
    ensures NonEmpty(es[..j]) == NonEmpty(es[..k])
    decreases j - k
  {
    if k < j {
      TotalUpTo(es, k, j - 1);
      assert es[..j] == es[..j - 1] + [es[j - 1]];
      TotalSizeConcat(es[..j - 1], [es[j - 1]]);
      NonEmptyConcat(es[..j - 1], [es[j - 1]]);
    }
  }

  lemma {:induction false} NonEmptyConcat(a: seq<Entry>, b: seq<Entry>)
    ensures NonEmpty(a + b) == NonEmpty(a) + NonEmpty(b)
  {
    if a == [] {
      assert a + b == b;
    } else {
      assert (a + b)[1..] == a[1..] + b;
      NonEmptyConcat(a[1..], b);
    }
  }

  /** One more entry has been delivered. */
  lemma Delivered(es: seq<Entry>, k: nat, bytes: Entry -> seq<Byte>)
    requires k <= |es| && Skip(es, k) < |es|
    ensures var j := Skip(es, k);
            && TotalSize(es[..j + 1]) == TotalSize(es[..k]) + es[j].size
            && NonEmpty(es[..j + 1]) == NonEmpty(es[..k]) + [es[j]]
            && BytesOf(NonEmpty(es[..j + 1]), bytes) == BytesOf(NonEmpty(es[..k]), bytes) + [bytes(es[j])]
  {
    var j := Skip(es, k);
    TotalUpTo(es, k, j);
    assert es[..j + 1] == es[..j] + [es[j]];
    TotalSizeConcat(es[..j], [es[j]]);
    NonEmptyConcat(es[..j], [es[j]]);
    assert NonEmpty([es[j]]) == [es[j]] && TotalSize([es[j]]) == es[j].size;
    hide NonEmpty, TotalSize, Skip, BytesOf;
    BytesOfAppend(NonEmpty(es[..k]), es[j], bytes);
  }

  lemma BytesOfAppend(es: seq<Entry>, e: Entry, bytes: Entry -> seq<Byte>)
    ensures BytesOf(es + [e], bytes) == BytesOf(es, bytes) + [bytes(e)]
  {
    assert (es + [e])[..|es + [e]| - 1] == es;
  }

  /** The chunks, one per non-empty entry, concatenate to the flat text. */
  lemma {:induction false} ChunksAreFlat(es: seq<Entry>, bytes: Entry -> seq<Byte>)
    requires Sized(es, bytes)
    ensures Concat(BytesOf(NonEmpty(es), bytes)) == Flat(es, bytes)
    decreases |es|
  {
    if es != [] {
      var front, e := es[..|es| - 1], es[|es| - 1];
      assert es == front + [e];
      assert forall x | x in front :: x in es;
      assert e in es;
      ChunksAreFlat(front, bytes);
      NonEmptyConcat(front, [e]);
      RingRuns.FlatConcat(front, [e], bytes);
      assert Flat([e], bytes) == bytes(e);
      var n := NonEmpty(front);
      if e.size > 0 {
        assert NonEmpty([e]) == [e];
        assert (n + [e])[..|n|] == n;
        var c := BytesOf(n, bytes);
        assert (c + [bytes(e)])[..|c|] == c;
      } else {
        assert NonEmpty([e]) == [] && n + [] == n;
      }
    }
  }

  ghost predicate Covers(slots: seq<Entry>, counts: nat -> nat) {
    forall e, i: nat | e in slots :: e.size <= counts(i)
  }

  /**
   A reader that starts at position 0, always asks for at least the largest entry and is
   not interrupted: it gets one non-empty entry per call, in reading order, and 0 after at
   most ten of them.  The final call misses, so it also resets the ring's indices.
   */
  method ReadSession(device: Device, counts: nat -> nat) returns (chunks: seq<seq<Byte>>)
    requires device.Valid() && Covers(device.State().ring.slots, counts)
    modifies device, device.ring
    ensures device.Valid()
    ensures chunks == BytesOf(NonEmpty(Rotation(old(device.State()).ring)), Bytes(device.blocks))
    ensures |chunks| <= ENTRY_SIZE
    ensures Concat(chunks) == Flat(Rotation(old(device.State()).ring), Bytes(device.blocks))
    ensures device.State() == old(device.State()).(ring := Ring(old(device.State()).ring.slots, 0, 0, false))
  {
    hide Sound, Rotation, Lookup, Skip, NonEmpty, BytesOf, Covers, ReadOf, AfterCall, TotalSize;
    ghost var d := device.State();
    ghost var rot, bytes := Rotation(d.ring), Bytes(d.blocks);
    ghost var k := 0;
    var pos: nat, n, done := 0, 0, false;
    chunks := [];
    NothingRead(rot, bytes);
    while !done
      invariant device.Valid() && k <= |rot| && |chunks| <= k
      invariant device.State() == if done then d.(ring := Ring(d.ring.slots, 0, 0, false)) else d
      invariant done ==> Skip(rot, k) == |rot|
      invariant pos == TotalSize(rot[..k])
      invariant chunks == BytesOf(NonEmpty(rot[..k]), bytes)
      decreases |rot| - k, !done
    {
      ReadAtBoundary(d, counts, k, n);
      var result := device.Read(ReadCall(pos, counts(n), true, false));
      n := n + 1;
      if result.retval == 0 {
        done := true;
      } else {
        Delivered(rot, k, bytes);
        chunks := chunks + [result.copied];
        pos := result.pos;
        k := Skip(rot, k) + 1;
      }
    }
    AllRead(d, k);
  }

  lemma NothingRead(es: seq<Entry>, bytes: Entry -> seq<Byte>)
    ensures TotalSize(es[..0]) == 0 && BytesOf(NonEmpty(es[..0]), bytes) == []
  {
  }

  lemma AllRead(d: DeviceState, k: nat)
    requires Sound(d) && k <= ENTRY_SIZE && Skip(Rotation(d.ring), k) == ENTRY_SIZE
    ensures var rot, bytes := Rotation(d.ring), Bytes(d.blocks);
            && NonEmpty(rot[..k]) == NonEmpty(rot)
            && Concat(BytesOf(NonEmpty(rot[..k]), bytes)) == Flat(rot, bytes)
  {
    var rot := Rotation(d.ring);
    TotalUpTo(rot, k, |rot|);
    assert rot[..|rot|] == rot;
    RingSized(d);
    ChunksAreFlat(rot, Bytes(d.blocks));
  }

  /** One call of the session, at an entry boundary. */
  lemma ReadAtBoundary(d: DeviceState, counts: nat -> nat, k: nat, n: nat)
    requires WellFormed(d.ring) && Covers(d.ring.slots, counts) && k <= ENTRY_SIZE
    ensures var rot := Rotation(d.ring);
            var c, j := ReadCall(TotalSize(rot[..k]), counts(n), true, false), Skip(rot, k);
            if j == ENTRY_SIZE then
              && ReadOf(d, c) == ReadResult(0, c.pos, [])
              && AfterCall(d, c) == d.(ring := Ring(d.ring.slots, 0, 0, false))
            else
              && rot[j].size > 0
              && ReadOf(d, c) == ReadResult(rot[j].size, c.pos + rot[j].size, Bytes(d.blocks)(rot[j]))
              && AfterCall(d, c) == d
  {
    LocateAtBoundary(Rotation(d.ring), k);
    WholeEntry(d, counts, Skip(Rotation(d.ring), k), n);
  }

  /** The entry at reading position `j` is a slot, and the reader's count covers it. */
  lemma WholeEntry(d: DeviceState, counts: nat -> nat, j: nat, n: nat)
    requires WellFormed(d.ring) && Covers(d.ring.slots, counts)
    requires j <= ENTRY_SIZE
    ensures j < ENTRY_SIZE ==> Rotation(d.ring)[j] == d.ring.slots[Slot(d.ring.outOffs + j)]
    ensures j < ENTRY_SIZE ==> Rotation(d.ring)[j].size <= counts(n)
  {
    if j < ENTRY_SIZE {
      RotationAt(d.ring, j);
    }
  }

  lemma RingSized(d: DeviceState)
    requires Sound(d)
    ensures Sized(Rotation(d.ring), Bytes(d.blocks))
  {
    RingRuns.RotationMembers(d.ring);
    forall e | e in d.ring.slots
      ensures |Bytes(d.blocks)(e)| == e.size
    {
      var i :| 0 <= i < ENTRY_SIZE && d.ring.slots[i] == e;
      assert Backed(d.ring.slots[i], d.blocks);
    }
  }

  /** An entry's bytes are where its predecessors' sizes say they are. */
  lemma FlatSlice(es: seq<Entry>, bytes: Entry -> seq<Byte>, i: nat)
    requires Sized(es, bytes) && i < |es|
    ensures var start := TotalSize(es[..i]);
            start + es[i].size <= |Flat(es, bytes)| && Flat(es, bytes)[start..start + es[i].size] == bytes(es[i])
  {
    var a, e, b := es[..i], es[i], es[i + 1..];
    assert es == a + ([e] + b);
    assert e in es && (forall x | x in a :: x in es);
    RingRuns.FlatConcat(a, [e] + b, bytes);
    RingRuns.FlatConcat([e], b, bytes);
    FlatLength(a, bytes);
    hide Flat, TotalSize;
    FlatOne(e, bytes);
  }

  lemma FlatOne(e: Entry, bytes: Entry -> seq<Byte>)
    ensures Flat([e], bytes) == bytes(e)
  {
  }

  /**
   A successful read at ANY position delivers the whole entry that contains it: its text
   starts `offset` bytes before the position asked for and ends with the entry, whatever
   `count` is.  So the bytes at the position itself are delivered when the position is an
   entry boundary, and are displaced by `offset` otherwise.
   */
  lemma ReadDeliversWholeEntry(d: DeviceState, c: Call)
    requires Sound(d) && c.ReadCall? && c.lockOk && !c.copyFails && c.pos < TotalSize(d.ring.slots)
    ensures var f, text, result := Lookup(d.ring, c.pos).1, Flat(Rotation(d.ring), Bytes(d.blocks)), ReadOf(d, c);
            && f.Hit? && f.index < ENTRY_SIZE
            && var size := d.ring.slots[f.index].size;
               && f.offset < size && f.offset <= c.pos && c.pos - f.offset + size <= |text|
               && result.copied == text[c.pos - f.offset..c.pos - f.offset + size]
               && result.retval == (if c.count <= size then c.count else size)
               && result.pos == c.pos + result.retval
  {
    var rot := Rotation(d.ring);
    RotationTotal(d.ring);
    LocateIsPosition(rot, c.pos);
    var i := Locate(rot, c.pos).index;
    RotationAt(d.ring, i);
    RingSized(d);
    FlatSlice(rot, Bytes(d.blocks), i);
    hide Rotation, Flat, Sound;
  }

  /** Reading to the end twice: the second time the text starts at physical slot 0, wherever the first began. */
  method ReadTwice(device: Device, counts: nat -> nat) returns (first: seq<seq<Byte>>, second: seq<seq<Byte>>)
    requires device.Valid() && Covers(device.State().ring.slots, counts)
    modifies device, device.ring
    ensures Concat(first) == Flat(Rotation(old(device.State()).ring), Bytes(device.blocks))
    ensures Concat(second) == Flat(old(device.State()).ring.slots, Bytes(device.blocks))
  {
    ghost var slots := device.State().ring.slots;
    first := ReadSession(device, counts);
    second := ReadSession(device, counts);
    assert slots[0..] + slots[..0] == slots;
  }

  // ------------------------------------------------------------------
  // When a read is a positioned read
  // ------------------------------------------------------------------

  /** Other contents for the same blocks. */
  ghost predicate SameSizes(d: DeviceState, blocks: map<nat, seq<Byte>>) {
    blocks.Keys == d.blocks.Keys && forall a | a in blocks :: |blocks[a]| == |d.blocks[a]|
  }

  /** The caller gets the bytes at the position asked for, as many as it is told. */
  ghost predicate ReadsAt(d: DeviceState, c: Call)
    requires WellFormed(d.ring) && c.ReadCall?
  {
    var text, result := Flat(Rotation(d.ring), Bytes(d.blocks)), ReadOf(d, c);
    0 <= result.retval && c.pos + result.retval <= |text| && result.copied == text[c.pos..c.pos + result.retval]
  }

  lemma SameSizesSound(d: DeviceState, blocks: map<nat, seq<Byte>>)
    requires Sound(d) && SameSizes(d, blocks)
    ensures Sound(d.(blocks := blocks))
  {
    forall i | 0 <= i < ENTRY_SIZE
      ensures Backed(d.ring.slots[i], blocks)
    {
      assert Backed(d.ring.slots[i], d.blocks);
    }
  }

  /** The entry a hit at `c.pos` copies. */
  function EntryRead(d: DeviceState, c: Call): (e: Entry)
    requires WellFormed(d.ring) && c.ReadCall? && c.pos < TotalSize(d.ring.slots)
  {
    var f := Lookup(d.ring, c.pos).1;
    if f.Hit? && f.index < ENTRY_SIZE then d.ring.slots[f.index] else ZERO_ENTRY
  }

  lemma AtBoundaryReadsAt(d: DeviceState, c: Call)
    requires Sound(d) && c.ReadCall? && c.lockOk && !c.copyFails && c.pos < TotalSize(d.ring.slots)
    requires Lookup(d.ring, c.pos).1.Hit? && Lookup(d.ring, c.pos).1.offset == 0 && EntryRead(d, c).size <= c.count
    ensures ReadsAt(d, c)
  {
    ReadDeliversWholeEntry(d, c);
    hide Sound, Lookup, Flat, Rotation;
  }

  /** A count below the entry's size is reported but not kept to. */
  lemma ShortCountIsNotKept(d: DeviceState, c: Call)
    requires Sound(d) && c.ReadCall? && c.lockOk && !c.copyFails && c.pos < TotalSize(d.ring.slots)
    requires c.count < EntryRead(d, c).size
    ensures !ReadsAt(d, c)
  {
    ReadDeliversWholeEntry(d, c);
    hide Sound, Lookup, Flat, Rotation;
  }

  /** Off a boundary there are contents that the read gets wrong in its first byte. */
  lemma OffBoundaryMisreads(d: DeviceState, c: Call) returns (blocks: map<nat, seq<Byte>>)
    requires Sound(d) && c.ReadCall? && c.lockOk && !c.copyFails && c.pos < TotalSize(d.ring.slots)
    requires Lookup(d.ring, c.pos).1.Hit? && Lookup(d.ring, c.pos).1.offset > 0
    ensures SameSizes(d, blocks) && !ReadsAt(d.(blocks := blocks), c)
  {
    ReadDeliversWholeEntry(d, c);
    var f := Lookup(d.ring, c.pos).1;
    var e := d.ring.slots[f.index];
    assert Backed(e, d.blocks);
    var a := e.buffptr.addr;
    blocks := d.blocks[a := seq(e.size, i requires 0 <= i < e.size => if i == f.offset then 1 else 0)];
    var d' := d.(blocks := blocks);
    SameSizesSound(d, blocks);
    ReadDeliversWholeEntry(d', c);
    MarkedByte(d', c);
    hide Sound, Lookup, Flat, Rotation;
    var copied := ReadOf(d', c).copied;
    assert copied == blocks[a];
    assert copied[0] == 0;
  }

  lemma MarkedByte(d: DeviceState, c: Call)
    requires Sound(d) && c.ReadCall? && c.lockOk && !c.copyFails && c.pos < TotalSize(d.ring.slots)
    ensures var f, text := Lookup(d.ring, c.pos).1, Flat(Rotation(d.ring), Bytes(d.blocks));
            && f.Hit? && f.index < ENTRY_SIZE && c.pos < |text|
            && var bytes := Bytes(d.blocks)(d.ring.slots[f.index]);
               f.offset < |bytes| && bytes[f.offset] == text[c.pos] && ReadOf(d, c).copied == bytes
  {
    RingSized(d);
    assert Sized(d.ring.slots, Bytes(d.blocks)) by { RingRuns.RotationMembers(d.ring); }
    LookupIsIndexing(d.ring, Bytes(d.blocks), c.pos);
  }

  /**
   A successful read is a positioned read, whatever the blocks contain, if and only if the
   position is an entry boundary and the count covers the entry.
   */
  lemma PositionedReadIff(d: DeviceState, c: Call)
    requires Sound(d) && c.ReadCall? && c.lockOk && !c.copyFails && c.pos < TotalSize(d.ring.slots)
    ensures Lookup(d.ring, c.pos).1.Hit?
    ensures (forall blocks | SameSizes(d, blocks) :: ReadsAt(d.(blocks := blocks), c)) <==>
            Lookup(d.ring, c.pos).1.offset == 0 && EntryRead(d, c).size <= c.count
  {
    ReadDeliversWholeEntry(d, c);
    if Lookup(d.ring, c.pos).1.offset > 0 {
      var blocks := OffBoundaryMisreads(d, c);
    } else if c.count < EntryRead(d, c).size {
      ShortCountIsNotKept(d, c);
      assert SameSizes(d, d.blocks) && d.(blocks := d.blocks) == d;
    } else {
      forall blocks | SameSizes(d, blocks)
        ensures ReadsAt(d.(blocks := blocks), c)
      {
        SameSizesSound(d, blocks);
        AtBoundaryReadsAt(d.(blocks := blocks), c);
      }
    }
  }

  /** The failing read: after one write of two bytes, reading at position 1 returns both, and the position runs past the end. */
  lemma SecondByteIsMisread(x: Byte, y: Byte)
    ensures var d := AfterCall(FRESH, WriteCall([x, y], At(0), false, true, true, 1, []));
            && Flat(Rotation(d.ring), Bytes(d.blocks)) == [x, y]
            && ReadOf(d, ReadCall(1, 1, true, false)) == ReadResult(1, 2, [x, y])
            && ReadOf(d, ReadCall(1, 2, true, false)) == ReadResult(2, 3, [x, y])
  {
    var w := WriteCall([x, y], At(0), false, true, true, 1, []);
    var d := AfterCall(FRESH, w);
    CharDriverRuns.FreshIsSound();
    CallKeepsSound(FRESH, w);
    CharDriverRuns.FirstWrite([x, y], 0, 1);
    assert d.ring.outOffs == 0 && Rotation(d.ring) == d.ring.slots;
    var e, rest := d.ring.slots[0], d.ring.slots[1..];
    assert d.ring.slots == [e] + rest;
    OneEntry(e, rest, Bytes(d.blocks));
    assert Flat(rest, Bytes(d.blocks)) == [] by {
      RingSized(d);
      assert forall z | z in rest :: z in d.ring.slots;
      FlatLength(rest, Bytes(d.blocks));
    }
  }

  lemma OneEntry(e: Entry, rest: seq<Entry>, bytes: Entry -> seq<Byte>)
    requires e.size == 2
    ensures Locate([e] + rest, 1) == Hit(0, 1)
    ensures Flat([e] + rest, bytes) == bytes(e) + Flat(rest, bytes)
    ensures TotalSize([e] + rest) == 2 + TotalSize(rest)
  {
    assert ([e] + rest)[1..] == rest;
  }

  // ------------------------------------------------------------------
  // The text of the last ten writes
  // ------------------------------------------------------------------

  /** The data of a write that reaches the ring. */
  function TextOf(c: Call): seq<seq<Byte>> {
    if Accepted(c) && c.newline then [c.data] else []
  }

  function Texts(calls: seq<Call>): seq<seq<Byte>>
    decreases |calls|
  {
    if calls == [] then [] else Texts(calls[..|calls| - 1]) + TextOf(calls[|calls| - 1])
  }

  /** What the entries between the two offsets contain, oldest first. */
  function Stored(d: DeviceState): seq<seq<Byte>>
    requires WellFormed(d.ring)
  {
    BytesOf(Contents(d.ring), Bytes(d.blocks))
  }

  lemma {:induction false} BytesOfAgree(es: seq<Entry>, b: Entry -> seq<Byte>, b': Entry -> seq<Byte>)
    requires forall e | e in es :: b(e) == b'(e)
    ensures BytesOf(es, b) == BytesOf(es, b') && |BytesOf(es, b)| == |es|
    decreases |es|
  {
    if es != [] {
      var front := es[..|es| - 1];
      assert forall e | e in front :: e in es;
      BytesOfAgree(front, b, b');
    }
  }

  lemma {:induction false} BytesOfTail(es: seq<Entry>, b: Entry -> seq<Byte>)
    requires es != []
    ensures BytesOf(es, b) != [] && BytesOf(es[1..], b) == BytesOf(es, b)[1..]
    decreases |es|
  {
    BytesOfAgree(es, b, b);
    if |es| > 1 {
      var front, last := es[..|es| - 1], es[|es| - 1];
      BytesOfTail(front, b);
      assert es[1..] == front[1..] + [last];
      BytesOfAppend(front[1..], last, b);
    }
  }

  /** A write to the ring leaves the bytes of every other slot alone. */
  lemma OtherSlotsKeepBytes(d: DeviceState, c: Call, i: nat)
    requires Sound(d) && Possible(d, c) && Accepted(c) && c.newline
    requires i < ENTRY_SIZE && i != d.ring.inOffs
    ensures Bytes(AfterCall(d, c).blocks)(d.ring.slots[i]) == Bytes(d.blocks)(d.ring.slots[i])
  {
    AddedSlots(d.ring, Entry(c.block, |c.data|));
    assert Backed(d.ring.slots[i], d.blocks);
    assert d.ring.slots[i].buffptr.At? ==> d.ring.slots[i].buffptr != d.ring.slots[d.ring.inOffs].buffptr;
  }

  /** The entries that stay are not in the slot being written. */
  lemma StayingSlot(r: Ring, j: nat)
    requires WellFormed(r) && j < Count(r) && (r.full ==> j > 0)
    ensures Slot(r.outOffs + j) != r.inOffs && Contents(r)[j] == r.slots[Slot(r.outOffs + j)]
  {
    RotationAt(r, j);
  }

  /** A write to the ring is a bounded queue's insertion of its text. */
  lemma WriteStores(d: DeviceState, c: Call)
    requires Sound(d) && Possible(d, c) && Accepted(c) && c.newline
    ensures |Stored(d)| == Count(d.ring)
    ensures Stored(AfterCall(d, c)) == (if d.ring.full then Stored(d)[1..] else Stored(d)) + [c.data]
  {
    var r, e := d.ring, Entry(c.block, |c.data|);
    var b, b' := Bytes(d.blocks), Bytes(AfterCall(d, c).blocks);
    var stay := if r.full then Contents(r)[1..] else Contents(r);
    AddIsBoundedEnqueue(r, e);
    forall x | x in stay
      ensures b(x) == b'(x)
    {
      var k :| 0 <= k < |stay| && stay[k] == x;
      var j := if r.full then k + 1 else k;
      StayingSlot(r, j);
      OtherSlotsKeepBytes(d, c, Slot(r.outOffs + j));
    }
    assert b'(e) == c.data by { NewBytes(d, c); }
    hide Contents, Add, Bytes, Sound;
    BytesOfAgree(Contents(r), b, b);
    BytesOfAgree(stay, b, b');
    BytesOfAppend(stay, e, b');
    if r.full {
      BytesOfTail(Contents(r), b);
    }
  }

  lemma NewBytes(d: DeviceState, c: Call)
    requires Sound(d) && Possible(d, c) && Accepted(c) && c.newline
    ensures Bytes(AfterCall(d, c).blocks)(Entry(c.block, |c.data|)) == c.data
  {
    AddedSlots(d.ring, Entry(c.block, |c.data|));
    assert Backed(d.ring.slots[d.ring.inOffs], d.blocks);
  }

  /** Every other call that is not a harmful miss leaves the stored texts as they are. */
  lemma OtherCallsKeepStored(d: DeviceState, c: Call)
    requires Sound(d) && Possible(d, c) && !(Accepted(c) && c.newline)
    requires c.ReadCall? && c.lockOk ==> RingRuns.Harmless(d.ring, RingRuns.LookupOp(c.pos))
    ensures Stored(AfterCall(d, c)) == Stored(d)
  {
    if c.ReadCall? {
      RingRuns.LookupEffect(d.ring, c.pos);
    } else {
      forall e | e in Contents(d.ring)
        ensures Bytes(AfterCall(d, c).blocks)(e) == Bytes(d.blocks)(e)
      {
        RingRuns.RotationMembers(d.ring);
        assert e in Rotation(d.ring);
        var i :| 0 <= i < ENTRY_SIZE && d.ring.slots[i] == e;
        assert Backed(d.ring.slots[i], d.blocks);
      }
      BytesOfAgree(Contents(d.ring), Bytes(d.blocks), Bytes(AfterCall(d, c).blocks));
    }
  }

  /** After a run without a harmful miss the ring stores the data of the last ten writes that reached it. */
  lemma {:induction false} LosslessRunStores(calls: seq<Call>)
    requires CharDriverRuns.PossibleRun(calls) && RingRuns.Lossless(CharDriverRuns.RingOps(calls))
    ensures Stored(CharDriverRuns.Exec(calls)) == LastOf(Texts(calls), ENTRY_SIZE)
    decreases |calls|
  {
    if calls != [] {
      var front, c := calls[..|calls| - 1], calls[|calls| - 1];
      var d := CharDriverRuns.Exec(front);
      CharDriverRuns.EveryRunIsSound(front);
      CharDriverRuns.LosslessPrefix(CharDriverRuns.RingOps(front), CharDriverRuns.RingOpsOf(c));
      LosslessRunStores(front);
      LastCallHarmless(calls);
      hide Sound, RingRuns.Lossless, RingRuns.Harmless, Stored, AfterCall;
      if Accepted(c) && c.newline {
        WriteStores(d, c);
        LastOfAppend(Texts(front), c.data);
      } else {
        OtherCallsKeepStored(d, c);
        assert Texts(calls) == Texts(front) + [] == Texts(front);
      }
    }
  }

  lemma LastCallHarmless(calls: seq<Call>)
    requires CharDriverRuns.PossibleRun(calls) && RingRuns.Lossless(CharDriverRuns.RingOps(calls)) && calls != []
    ensures var d, c := CharDriverRuns.Exec(calls[..|calls| - 1]), calls[|calls| - 1];
            c.ReadCall? && c.lockOk ==> RingRuns.Harmless(d.ring, RingRuns.LookupOp(c.pos))
  {
    var front, c := calls[..|calls| - 1], calls[|calls| - 1];
    CharDriverRuns.RunsOnRing(front);
    if c.ReadCall? && c.lockOk {
      var ops := CharDriverRuns.RingOps(calls);
      assert ops[..|ops| - 1] == CharDriverRuns.RingOps(front) && ops[|ops| - 1] == RingRuns.LookupOp(c.pos);
    }
  }

  /** Every entry's bytes, empty ones too, concatenate to the flat text. */
  lemma {:induction false} BytesAreFlat(es: seq<Entry>, bytes: Entry -> seq<Byte>)
    ensures Concat(BytesOf(es, bytes)) == Flat(es, bytes)
    decreases |es|
  {
    if es != [] {
      var front, e := es[..|es| - 1], es[|es| - 1];
      assert es == front + [e];
      BytesAreFlat(front, bytes);
      RingRuns.FlatConcat(front, [e], bytes);
      FlatOne(e, bytes);
      var c := BytesOf(front, bytes);
      assert (c + [bytes(e)])[..|c|] == c;
    }
  }

  /** The text a reader walks through after such a run is the last ten writes, end to end. */
  lemma LosslessTextIsLastTen(calls: seq<Call>)
    requires CharDriverRuns.PossibleRun(calls) && RingRuns.Lossless(CharDriverRuns.RingOps(calls))
    ensures var d := CharDriverRuns.Exec(calls);
            Flat(Rotation(d.ring), Bytes(d.blocks)) == Concat(LastOf(Texts(calls), ENTRY_SIZE))
  {
    var d := CharDriverRuns.Exec(calls);
    var bytes, rest := Bytes(d.blocks), Rotation(d.ring)[Count(d.ring)..];
    LosslessRunStores(calls);
    CharDriverRuns.RunsOnRing(calls);
    RingRuns.LosslessHoldsLastTen(CharDriverRuns.RingOps(calls));
    CharDriverRuns.EveryRunIsSound(calls);
    RingSized(d);
    RingRuns.ZerosWeighNothing(rest);
    assert forall e | e in rest :: e in Rotation(d.ring);
    FlatLength(rest, bytes);
    hide Sound, RingRuns.Lossless, CharDriverRuns.Exec, RingRuns.Exec, Rotation, Flat;
    RingRuns.FlatConcat(Contents(d.ring), rest, bytes);
    BytesAreFlat(Contents(d.ring), bytes);
    assert Rotation(d.ring) == Contents(d.ring) + rest;
  }

  /**
   The driver from end to end: after any possible run of calls without a harmful miss, a
   reader that asks for enough receives the data of the last ten writes that reached the
   ring, one non-empty write per call.
   */
  method RunThenRead(calls: seq<Call>, counts: nat -> nat) returns (chunks: seq<seq<Byte>>)
    requires CharDriverRuns.PossibleRun(calls) && RingRuns.Lossless(CharDriverRuns.RingOps(calls))
    requires Covers(CharDriverRuns.Exec(calls).ring.slots, counts)
    ensures Concat(chunks) == Concat(LastOf(Texts(calls), ENTRY_SIZE))
    ensures |chunks| <= ENTRY_SIZE
  {
    hide Sound;
    var device := CharDriverRuns.RunCalls(calls);
    LosslessTextIsLastTen(calls);
    chunks := ReadSession(device, counts);
  }
}
