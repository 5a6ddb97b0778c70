/**
 The ten-slot ring of write commands (aesd-char-driver/aesd-circular-buffer.c).

 `Ring` is the value of the C struct, `Add` and `Lookup` are what its two
 operations do to that value, and class `CircularBuffer` is the in-place code,
 proved to do exactly that.
 */
module RingBuffer {

  const ENTRY_SIZE: nat := 10

  datatype Pointer = Nil | At(addr: nat)

  datatype Entry = Entry(buffptr: Pointer, size: nat)

  const ZERO_ENTRY := Entry(Nil, 0)

  datatype Ring = Ring(slots: seq<Entry>, inOffs: nat, outOffs: nat, full: bool)

  predicate WellFormed(r: Ring) {
    |r.slots| == ENTRY_SIZE && r.inOffs < ENTRY_SIZE && r.outOffs < ENTRY_SIZE && (r.full ==> r.inOffs == r.outOffs)
  }

  const EMPTY := Ring([ZERO_ENTRY, ZERO_ENTRY, ZERO_ENTRY, ZERO_ENTRY, ZERO_ENTRY,
                      ZERO_ENTRY, ZERO_ENTRY, ZERO_ENTRY, ZERO_ENTRY, ZERO_ENTRY], 0, 0, false)

  /** Indices wrap around at ENTRY_SIZE. */
  function Slot(i: nat): (s: nat)
    requires i < 2 * ENTRY_SIZE
    ensures s == if i < ENTRY_SIZE then i else i - ENTRY_SIZE
  {
    i % ENTRY_SIZE
  }

  // ------------------------------------------------------------------
  // What a ring holds
  // ------------------------------------------------------------------

  /** All ten slots in reading order. */
  function Rotation(r: Ring): (s: seq<Entry>)
    requires WellFormed(r)
    ensures |s| == ENTRY_SIZE
  {
    r.slots[r.outOffs..] + r.slots[..r.outOffs]
  }

  function Count(r: Ring): (n: nat)
    requires WellFormed(r)
    ensures n <= ENTRY_SIZE && (n == ENTRY_SIZE <==> r.full)
  {
    if r.full then ENTRY_SIZE else Slot(r.inOffs + ENTRY_SIZE - r.outOffs)
  }

  /** The entries between the two offsets, oldest first. */
  function Contents(r: Ring): seq<Entry>
    requires WellFormed(r)
  {
    Rotation(r)[..Count(r)]
  }

  lemma ContentsLength(r: Ring)
    requires WellFormed(r)
    ensures |Contents(r)| == Count(r)
  {
  }

  // ------------------------------------------------------------------
  // Insertion
  // ------------------------------------------------------------------

  /** The ring after an insertion, and the entry handed back to the caller. */
  function Add(r: Ring, e: Entry): (result: (Ring, Entry))
    requires WellFormed(r)
    ensures WellFormed(result.0)
  {
    var evicted := if r.full then r.slots[r.outOffs] else ZERO_ENTRY;
    var out := if r.full then Slot(r.outOffs + 1) else r.outOffs;
    var next := Slot(r.inOffs + 1);
    (Ring(r.slots[r.inOffs := e], next, out, r.full || next == out), evicted)
  }

  lemma RotationAt(r: Ring, i: nat)
    requires WellFormed(r) && i < ENTRY_SIZE
    ensures Rotation(r)[i] == r.slots[Slot(r.outOffs + i)]
  {
  }

  lemma AddCounts(r: Ring, e: Entry)
    requires WellFormed(r)
    ensures WellFormed(Add(r, e).0)
    ensures Count(Add(r, e).0) == if r.full then ENTRY_SIZE else Count(r) + 1
  {
  }

  /** The slots after an insertion, in reading order. */
  lemma AddAt(r: Ring, e: Entry, i: nat)
    requires WellFormed(r) && i < ENTRY_SIZE
    ensures WellFormed(Add(r, e).0)
    ensures Rotation(Add(r, e).0)[i] ==
            if i == (if r.full then ENTRY_SIZE - 1 else Count(r)) then e
            else if r.full then Rotation(r)[i + 1]
            else Rotation(r)[i]
  {
    hide Slot, Rotation;
    RotationAt(Add(r, e).0, i);
    RotationAt(r, i);
    if i + 1 < ENTRY_SIZE {
      RotationAt(r, i + 1);
    }
  }

  /**
   In EVERY well-formed state, stale or not, insertion is a bounded queue's: append,
   and when all ten slots are taken hand back the oldest entry.
   */
  lemma AddIsBoundedEnqueue(r: Ring, e: Entry)
    requires WellFormed(r)
    ensures var (r', evicted) := Add(r, e);
            && WellFormed(r')
            && Count(r') == (if r.full then ENTRY_SIZE else Count(r) + 1)
            && Contents(r') == (if r.full then Contents(r)[1..] else Contents(r)) + [e]
            && evicted == (if r.full then Contents(r)[0] else ZERO_ENTRY)
  {
    var r' := Add(r, e).0;
    var want := (if r.full then Contents(r)[1..] else Contents(r)) + [e];
    hide Slot;
    AddCounts(r, e);
    hide Count;
    assert |Contents(r')| == |want|;
    forall i: nat | i < |want|
      ensures Contents(r')[i] == want[i]
    {
      AddAt(r, e, i);
    }
    RotationAt(r, 0);
  }

  /** Slots outside the contents keep their place in reading order until they are filled. */
  lemma AddKeepsRest(r: Ring, e: Entry)
    requires WellFormed(r)
    ensures var r' := Add(r, e).0;
            WellFormed(r') && Rotation(r')[Count(r')..] == Rotation(r)[if r.full then Count(r) else Count(r) + 1..]
  {
    AddCounts(r, e);
    forall i: nat | Count(Add(r, e).0) <= i < ENTRY_SIZE
      ensures Rotation(Add(r, e).0)[i] == Rotation(r)[i]
    {
      AddAt(r, e, i);
    }
  }

  function AddAll(r: Ring, es: seq<Entry>): (r': Ring)
    requires WellFormed(r)
    ensures WellFormed(r')
    decreases |es|
  {
    if es == [] then r
    else Add(AddAll(r, es[..|es| - 1]), es[|es| - 1]).0
  }

  /** The last `n` elements of a sequence, or all of it. */
  function LastOf<T>(s: seq<T>, n: nat): seq<T> {
    if |s| <= n then s else s[|s| - n..]
  }

  lemma LastOfAppend<T>(s: seq<T>, e: T)
    ensures var t := LastOf(s, ENTRY_SIZE);
            LastOf(s + [e], ENTRY_SIZE) == (if |t| == ENTRY_SIZE then t[1..] else t) + [e]
  {
  }

  lemma {:induction false} AddAllKeepsLastTen(r: Ring, es: seq<Entry>)
    requires WellFormed(r)
    ensures Contents(AddAll(r, es)) == LastOf(Contents(r) + es, ENTRY_SIZE)
    decreases |es|
  {
    var all := Contents(r) + es;
    if es == [] {
      ContentsLength(r);
      assert all == Contents(r);
    } else {
      var front, e := es[..|es| - 1], es[|es| - 1];
      AddAllKeepsLastTen(r, front);
      AddIsBoundedEnqueue(AddAll(r, front), e);
      ContentsLength(AddAll(r, front));
      hide Add, Contents, WellFormed, Count, LastOf;
      assert all == Contents(r) + front + [e];
      LastOfAppend(Contents(r) + front, e);
    }
  }

  /**
   Whatever state the ring is in, ten consecutive insertions leave it full, and
   reading from `out_offs` gives exactly those ten entries in order.
   */
  lemma TenAddsDetermineRing(r: Ring, es: seq<Entry>)
    requires WellFormed(r) && |es| == ENTRY_SIZE
    ensures AddAll(r, es).full && Rotation(AddAll(r, es)) == es
  {
    AddAllKeepsLastTen(r, es);
    var r' := AddAll(r, es);
    assert |Contents(r')| == ENTRY_SIZE;
    assert (Contents(r) + es)[|Contents(r)|..] == es;
  }

  // ------------------------------------------------------------------
  // Lookup
  // ------------------------------------------------------------------

  function TotalSize(es: seq<Entry>): nat {
    if es == [] then 0 else es[0].size + TotalSize(es[1..])
  }

  datatype Found = Miss | Hit(index: nat, offset: nat)

  /** The entry in which byte `offset` of the concatenation of `es` falls, found by walking along the sizes. */
  function Locate(es: seq<Entry>, offset: nat): (f: Found)
    ensures f.Hit? ==> f.index < |es|
  {
    if es == [] then Miss
    else if es[0].size > offset then Hit(0, offset)
    else match Locate(es[1..], offset - es[0].size)
         case Miss => Miss
         case Hit(i, o) => Hit(i + 1, o)
  }

  /** What is found `i` entries further along. */
  function Further(f: Found, i: nat): Found {
    match f
    case Miss => Miss
    case Hit(j, o) => Hit(i + j, o)
  }

  /** One entry of the walk is passed, or holds the byte. */
  lemma LocateStep(es: seq<Entry>, i: nat, rest: nat)
    requires i < |es|
    ensures Further(Locate(es[i..], rest), i) ==
            if es[i].size > rest then Hit(i, rest) else Further(Locate(es[i + 1..], rest - es[i].size), i + 1)
  {
    assert es[i..][0] == es[i] && es[i..][1..] == es[i + 1..];
  }

  lemma LocateNothing(rest: nat)
    ensures Locate([], rest) == Miss
  {
  }

  /** The concatenation of the entries' bytes, for any memory contents `bytes`. */
  function Flat<T>(es: seq<Entry>, bytes: Entry -> seq<T>): seq<T> {
    if es == [] then [] else bytes(es[0]) + Flat(es[1..], bytes)
  }

  predicate Sized<T>(es: seq<Entry>, bytes: Entry -> seq<T>) {
    forall e | e in es :: |bytes(e)| == e.size
  }

  lemma {:induction false} FlatLength<T>(es: seq<Entry>, bytes: Entry -> seq<T>)
    requires Sized(es, bytes)
    ensures |Flat(es, bytes)| == TotalSize(es)
  {
    if es != [] {
      assert forall e | e in es[1..] :: e in es;
      FlatLength(es[1..], bytes);
    }
  }

  lemma {:induction false} TotalSizeConcat(a: seq<Entry>, b: seq<Entry>)
    ensures TotalSize(a + b) == TotalSize(a) + TotalSize(b)
  {
    if a == [] {
      assert a + b == b;
    } else {
      assert (a + b)[1..] == a[1..] + b;
      TotalSizeConcat(a[1..], b);
    }
  }

  lemma RotationTotal(r: Ring)
    requires WellFormed(r)
    ensures TotalSize(Rotation(r)) == TotalSize(r.slots)
  {
    var a, b := r.slots[..r.outOffs], r.slots[r.outOffs..];
    assert r.slots == a + b;
    TotalSizeConcat(a, b);
    TotalSizeConcat(b, a);
  }

  /** The walk hits exactly when the offset is inside the concatenation, and then at the right place. */
  lemma {:induction false} LocateIsPosition(es: seq<Entry>, offset: nat)
    ensures Locate(es, offset).Hit? <==> offset < TotalSize(es)
    ensures match Locate(es, offset)
            case Miss => true
            case Hit(i, o) => i < |es| && o < es[i].size && TotalSize(es[..i]) + o == offset
  {
    if es != [] && es[0].size <= offset {
      LocateIsPosition(es[1..], offset - es[0].size);
      match Locate(es[1..], offset - es[0].size)
      case Miss =>
      case Hit(i, o) =>
        assert es[..i + 1][1..] == es[1..][..i];
    }
  }

  /** The byte found is the byte at that offset of the concatenation. */
  lemma {:induction false} LocateIsIndexing<T>(es: seq<Entry>, bytes: Entry -> seq<T>, offset: nat)
    requires Sized(es, bytes) && offset < TotalSize(es)
    ensures |Flat(es, bytes)| == TotalSize(es)
    ensures var f := Locate(es, offset);
            f.Hit? && f.index < |es| && f.offset < |bytes(es[f.index])|
            && bytes(es[f.index])[f.offset] == Flat(es, bytes)[offset]
  {
    FlatLength(es, bytes);
    LocateIsPosition(es, offset);
    assert es[0] in es;
    if es[0].size <= offset {
      assert forall e | e in es[1..] :: e in es;
      LocateIsIndexing(es[1..], bytes, offset - es[0].size);
    }
  }

  /** The ring after a lookup, and the slot and in-slot offset returned.  A miss resets the indices. */
  function Lookup(r: Ring, offset: nat): (result: (Ring, Found))
    requires WellFormed(r)
    ensures WellFormed(result.0)
  {
    match Locate(Rotation(r), offset)
    case Hit(i, o) => (r, Hit(Slot(r.outOffs + i), o))
    case Miss => (Ring(r.slots, 0, 0, false), Miss)
  }

  /**
   In every well-formed state: a lookup hits exactly below the total size of the ten
   slots, and then returns the byte at that offset of their rotated concatenation; it
   never alters a slot, and leaves a well-formed ring, the same one when it hits.
   */
  lemma LookupIsIndexing<T>(r: Ring, bytes: Entry -> seq<T>, offset: nat)
    requires WellFormed(r) && Sized(r.slots, bytes)
    ensures var (r', f) := Lookup(r, offset);
            && WellFormed(r') && r'.slots == r.slots
            && (f.Hit? <==> offset < TotalSize(r.slots))
            && (f.Hit? ==>
                  && r' == r && f.index < ENTRY_SIZE && f.offset < r.slots[f.index].size
                  && offset < |Flat(Rotation(r), bytes)|
                  && f.offset < |bytes(r.slots[f.index])|
                  && bytes(r.slots[f.index])[f.offset] == Flat(Rotation(r), bytes)[offset])
  {
    var rot := Rotation(r);
    RotationTotal(r);
    assert Sized(rot, bytes) by {
      forall e | e in rot
        ensures e in r.slots
      {
      }
    }
    LocateIsPosition(rot, offset);
    if offset < TotalSize(rot) {
      LocateIsIndexing(rot, bytes, offset);
      RotationAt(r, Locate(rot, offset).index);
    }
  }

  // ------------------------------------------------------------------
  // The code
  // ------------------------------------------------------------------

  class CircularBuffer {
    const entry: array<Entry>
    var inOffs: nat
    var outOffs: nat
    var full: bool

    ghost predicate Valid()
      reads this, entry
    {
      entry.Length == ENTRY_SIZE && WellFormed(Value())
    }

    function Value(): Ring
      reads this, entry
    {
      Ring(entry[..], inOffs, outOffs, full)
    }

    /** aesd_circular_buffer_init: memset to zero. */
    constructor ()
      ensures Valid() && Value() == EMPTY && fresh(entry)
    {
      entry := new Entry[ENTRY_SIZE](_ => ZERO_ENTRY);
      inOffs, outOffs, full := 0, 0, false;
      new;
      assert entry[..] == EMPTY.slots;
    }

    method AddEntry(e: Entry) returns (evicted: Entry)
      requires Valid()
      modifies this, entry
      ensures Valid() && (Value(), evicted) == Add(old(Value()), e)
    {
      evicted := ZERO_ENTRY;
      if full {
        evicted := entry[outOffs];
        outOffs := Slot(outOffs + 1);
      }
      entry[inOffs] := e;
      inOffs := Slot(inOffs + 1);
      if inOffs == outOffs {
        full := true;
      }
      assert entry[..] == old(entry[..])[old(inOffs) := e];
    }

    /** `found.index` is the slot whose address is returned; Miss is NULL. */
    method FindEntryOffsetForFpos(charOffset: nat) returns (found: Found)
      requires Valid()
      modifies this
      ensures Valid() && (Value(), found) == Lookup(old(Value()), charOffset)
    {
      ghost var r := Value();
      ghost var rot := Rotation(r);
      hide Rotation, Slot, Locate;
      var rest, offset, i := charOffset, outOffs, 0;
      assert rot[0..] == rot;
      while i < ENTRY_SIZE
        invariant 0 <= i <= ENTRY_SIZE && 0 <= rest
        invariant Value() == r && outOffs < ENTRY_SIZE
        invariant i < ENTRY_SIZE ==> offset == Slot(outOffs + i)
        invariant Locate(rot, charOffset) == Further(Locate(rot[i..], rest), i)
      {
        RotationAt(r, i);
        LocateStep(rot, i, rest);
        assert entry[offset] == rot[i];
        if entry[offset].size > rest {
          return Hit(offset, rest);
        } else {
          rest := rest - entry[offset].size;
          offset := Slot(offset + 1);
        }
        i := i + 1;
      }
      LocateNothing(rest);
      assert rot[ENTRY_SIZE..] == [] && Locate(rot, charOffset) == Miss;
      full := false;
      inOffs := 0;
      outOffs := 0;
      return Miss;
    }
  }
}
