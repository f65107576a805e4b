/** Relocation preserves meaning: an image loaded at a slide and rebased is the unslid image
    with every pointer moved along with what it points to. */
module Relocation {
  import opened Words
  import opened Regions
  import opened FlatMemory
  import opened Memory
  import opened Image
  import opened Loader
  import Rebase = RebaseStream

  // ---- raw contents --------------------------------------------------------------------------------------

  /** The byte at an address, whatever its protection; 0 where nothing is mapped. */
  ghost function ByteAt(rs: RegionMap, a: int): byte {
    if At(rs, a).Some? then At(rs, a).value.value else 0
  }

  ghost function BytesAt(rs: RegionMap, a: int, n: nat): (s: seq<byte>)
    ensures |s| == n
    decreases n
  {
    if n == 0 then [] else [ByteAt(rs, a)] + BytesAt(rs, a + 1, n - 1)
  }

  /** The little-endian word stored at an address. */
  ghost function Word(rs: RegionMap, a: int): (w: u64) {
    LeWord(BytesAt(rs, a, 8));
    LeValue(BytesAt(rs, a, 8))
  }

  lemma {:induction false} BytesAtIndex(rs: RegionMap, a: int, n: nat, i: nat)
    requires i < n
    ensures BytesAt(rs, a, n)[i] == ByteAt(rs, a + i)
    decreases n
  {
    if i > 0 {
      BytesAtIndex(rs, a + 1, n - 1, i - 1);
    }
  }

  lemma {:induction false} BytesAtSame(rs: RegionMap, rs': RegionMap, a: int, b: int, n: nat)
    requires forall x: int :: a <= x < a + n ==> ByteAt(rs, x) == ByteAt(rs', x - a + b)
    ensures BytesAt(rs, a, n) == BytesAt(rs', b, n)
    decreases n
  {
    if n > 0 {
      assert ByteAt(rs, a) == ByteAt(rs', a - a + b);
      BytesAtSame(rs, rs', a + 1, b + 1, n - 1);
    }
  }

  lemma {:induction false} ReadsWord(rs: RegionMap, a: u64)
    requires Ordered(rs) && ReadU64(rs, a).Ok?
    ensures ReadU64(rs, a).value == Word(rs, a)
  {
    var s := ReadBytes(rs, a, 8).value;
    forall i | 0 <= i < 8
      ensures s[i] == BytesAt(rs, a, 8)[i]
    {
      ReadAt(rs, a, 8, i);
      BytesAtIndex(rs, a, 8, i);
    }
    assert s == BytesAt(rs, a, 8);
  }

  /** One region holds the `n` bytes from `a` and grants the protection. */
  ghost predicate InOneRegion(rs: RegionMap, a: u64, n: nat, need: Protection) {
    exists b: u64 :: Inside(rs, b, a) && a + n <= b + |rs[b].data| && rs[b].prot.Contains(need)
  }

  lemma {:induction false} CanRead(rs: RegionMap, a: u64)
    requires Ordered(rs)
    ensures ReadU64(rs, a).Ok? <==> InOneRegion(rs, a, 8, READ)
    ensures ReadU64(rs, a).Ok? ==> ReadU64(rs, a).value == Word(rs, a)
  {
    SliceIff(rs, a, 8, READ);
    hide Slice, Ordered, Word;
    if ReadU64(rs, a).Ok? {
      ReadsWord(rs, a);
    }
  }

  lemma {:induction false} CanWrite(rs: RegionMap, a: u64, v: u64)
    requires Ordered(rs)
    ensures WriteU64(rs, a, v).Ok? <==> InOneRegion(rs, a, 8, WRITE)
  {
    SliceIff(rs, a, 8, WRITE);
    hide Slice, Ordered, Le;
  }

  // ---- stores leave the frame alone ------------------------------------------------------------------------

  /** Same regions, same extents, same protections: only bytes may differ. */
  ghost predicate SameFrame(rs: RegionMap, rs': RegionMap) {
    && rs.Keys == rs'.Keys
    && forall k :: k in rs ==> rs'[k].base == rs[k].base && rs'[k].prot == rs[k].prot
                               && |rs'[k].data| == |rs[k].data|
  }

  lemma {:induction false} BelowSame(rs: RegionMap, rs': RegionMap, end: int)
    requires rs.Keys == rs'.Keys
    ensures Below(rs, end) == Below(rs', end)
  {
    assert forall k :: k in rs <==> k in rs';
  }

  lemma {:induction false} SliceSame(rs: RegionMap, rs': RegionMap, a: u64, len: nat, need: Protection)
    requires SameFrame(rs, rs')
    ensures Slice(rs, a, len, need) == Slice(rs', a, len, need)
  {
    BelowSame(rs, rs', a + 1);
  }

  lemma {:induction false} WriteSameFrame(rs: RegionMap, a: u64, patch: seq<byte>)
    requires WriteBytes(rs, a, patch).Ok?
    ensures SameFrame(rs, WriteBytes(rs, a, patch).value)
  {
  }

  lemma {:induction false} SameFrameTrans(rs: RegionMap, rs': RegionMap, rs'': RegionMap)
    requires SameFrame(rs, rs') && SameFrame(rs', rs'')
    ensures SameFrame(rs, rs'')
  {
    assert forall k :: k in rs ==> k in rs';
  }

  /** What a store of one word does to every byte. */
  lemma {:induction false} StoreWord(rs: RegionMap, a: u64, v: u64)
    requires Ordered(rs) && WriteU64(rs, a, v).Ok?
    ensures var rs' := WriteU64(rs, a, v).value;
            && Ordered(rs') && SameFrame(rs, rs')
            && Word(rs', a) == v
            && forall x: int :: !(a <= x < a + 8) ==> ByteAt(rs', x) == ByteAt(rs, x)
  {
    var rs' := WriteU64(rs, a, v).value;
    WriteSameFrame(rs, a, Le(v, 8));
    hide WriteBytes, Ordered, SameFrame, Le;
    WriteAt(rs, a, Le(v, 8), 0);
    forall x: int | !(a <= x < a + 8)
      ensures ByteAt(rs', x) == ByteAt(rs, x)
    {
      WriteAt(rs, a, Le(v, 8), x);
    }
    StoredWord(rs, a, v);
  }

  lemma {:induction false} StoredWord(rs: RegionMap, a: u64, v: u64)
    requires Ordered(rs) && WriteU64(rs, a, v).Ok?
    ensures Word(WriteU64(rs, a, v).value, a) == v
  {
    Le64RoundTrip(v);
    StoredBytes(rs, a, Le(v, 8));
    hide Le, LeValue, WriteBytes, BytesAt;
  }

  lemma {:induction false} StoredBytes(rs: RegionMap, a: u64, patch: seq<byte>)
    requires Ordered(rs) && WriteBytes(rs, a, patch).Ok?
    ensures BytesAt(WriteBytes(rs, a, patch).value, a, |patch|) == patch
  {
    hide WriteBytes, Ordered, At, BytesAt;
    var rs' := WriteBytes(rs, a, patch).value;
    forall i | 0 <= i < |patch|
      ensures BytesAt(rs', a, |patch|)[i] == patch[i]
    {
      WriteAt(rs, a, patch, a + i);
      BytesAtIndex(rs', a, |patch|, i);
    }
  }

  lemma {:induction false} WordUntouched(rs: RegionMap, rs': RegionMap, a: int, b: int)
    requires forall x: int :: !(a <= x < a + 8) ==> ByteAt(rs', x) == ByteAt(rs, x)
    requires b + 8 <= a || a + 8 <= b
    ensures Word(rs', b) == Word(rs, b)
  {
    BytesAtSame(rs, rs', b, b, 8);
  }

  // ---- rebasing ----------------------------------------------------------------------------------------------

  ghost predicate Apart(a: int, b: int) {
    a + 8 <= b || b + 8 <= a
  }

  /** Every pointer slot lies in one readable and writable region, and no two overlap. */
  ghost predicate GoodSlots(rs: RegionMap, locs: seq<Rebase.Location>, bases: Bases) {
    && (forall j :: 0 <= j < |locs| && RebaseSlot(locs[j], bases).Some? ==>
          Slice(rs, RebaseSlot(locs[j], bases).value, 8, RW).Ok?)
    && (forall i, j :: 0 <= i < j < |locs| && RebaseSlot(locs[i], bases).Some? && RebaseSlot(locs[j], bases).Some? ==>
          Apart(RebaseSlot(locs[i], bases).value, RebaseSlot(locs[j], bases).value))
  }

  ghost predicate InSlot(locs: seq<Rebase.Location>, bases: Bases, j: nat, a: int)
    requires j < |locs|
  {
    RebaseSlot(locs[j], bases).Some? && RebaseSlot(locs[j], bases).value <= a < RebaseSlot(locs[j], bases).value + 8
  }

  /** The state after the first `n` locations: exactly their words have moved. */
  ghost predicate Rebased(rs: RegionMap, rs': RegionMap, locs: seq<Rebase.Location>, bases: Bases, slide: u64, n: nat)
    requires n <= |locs|
  {
    && Ordered(rs') && SameFrame(rs, rs')
    && (forall j :: 0 <= j < |locs| && RebaseSlot(locs[j], bases).Some? ==>
          var slot := RebaseSlot(locs[j], bases).value;
          Word(rs', slot) == if j < n then Wrap(Word(rs, slot) + slide) else Word(rs, slot))
    && (forall a: int :: (forall j :: 0 <= j < n ==> !InSlot(locs, bases, j, a)) ==> ByteAt(rs', a) == ByteAt(rs, a))
  }

  /** Rebasing one slot reads its word, adds the slide and stores it back. */
  lemma {:induction false} SlotMoves(rs: RegionMap, loc: Rebase.Location, bases: Bases, slide: u64)
    requires Ordered(rs) && RebaseSlot(loc, bases).Some?
    requires Slice(rs, RebaseSlot(loc, bases).value, 8, RW).Ok?
    ensures RebaseOne(rs, loc, bases, slide).Ok?
    ensures var slot, rs' := RebaseSlot(loc, bases).value, RebaseOne(rs, loc, bases, slide).value;
            && Ordered(rs') && SameFrame(rs, rs')
            && Word(rs', slot) == Wrap(Word(rs, slot) + slide)
            && forall x: int :: !(slot <= x < slot + 8) ==> ByteAt(rs', x) == ByteAt(rs, x)
  {
    hide Ordered, SameFrame, Word, ByteAt, Slice, ReadU64, WriteU64, Wrap;
    var slot := RebaseSlot(loc, bases).value;
    var v := Wrap(Word(rs, slot) + slide);
    CanReadWrite(rs, slot, v);
    ReadsWord(rs, slot);
    StoreWord(rs, slot, v);
  }

  lemma {:induction false} CanReadWrite(rs: RegionMap, a: u64, v: u64)
    requires Slice(rs, a, 8, RW).Ok?
    ensures ReadU64(rs, a).Ok? && WriteU64(rs, a, v).Ok?
  {
    hide Le, LeValue;
  }

  lemma {:induction false} RebaseStep(
    rs: RegionMap, rs': RegionMap, locs: seq<Rebase.Location>, bases: Bases, slide: u64, n: nat
  )
    requires n < |locs| && Ordered(rs) && GoodSlots(rs, locs, bases) && Rebased(rs, rs', locs, bases, slide, n)
    requires RebaseSlot(locs[n], bases).Some?
    ensures RebaseOne(rs', locs[n], bases, slide).Ok?
    ensures Rebased(rs, RebaseOne(rs', locs[n], bases, slide).value, locs, bases, slide, n + 1)
  {
    hide Ordered, SameFrame, Word, ByteAt, RebaseSlot, Slice, RebaseOne;
    var slot := RebaseSlot(locs[n], bases).value;
    SliceSame(rs, rs', slot, 8, RW);
    SlotMoves(rs', locs[n], bases, slide);
    var rs'' := RebaseOne(rs', locs[n], bases, slide).value;
    SameFrameTrans(rs, rs', rs'');
    forall j | 0 <= j < |locs| && j != n && RebaseSlot(locs[j], bases).Some?
      ensures Word(rs'', RebaseSlot(locs[j], bases).value) == Word(rs', RebaseSlot(locs[j], bases).value)
    {
      var other := RebaseSlot(locs[j], bases).value;
      assert Apart(slot, other) || Apart(other, slot);
      WordUntouched(rs', rs'', slot, other);
    }
    forall a: int | forall j :: 0 <= j < n + 1 ==> !InSlot(locs, bases, j, a)
      ensures ByteAt(rs'', a) == ByteAt(rs, a)
    {
      assert !InSlot(locs, bases, n, a);
    }
  }

  lemma {:induction false} RebaseEffect(rs: RegionMap, locs: seq<Rebase.Location>, bases: Bases, slide: u64, n: nat)
    requires n <= |locs| && Ordered(rs) && GoodSlots(rs, locs, bases)
    ensures RebaseAll(rs, locs, bases, slide, n).Ok?
    ensures Rebased(rs, RebaseAll(rs, locs, bases, slide, n).value, locs, bases, slide, n)
  {
    hide Rebased, GoodSlots, Ordered, RebaseSlot, RebaseOne;
    if n == 0 {
      RebasedAtStart(rs, locs, bases, slide);
    } else {
      RebaseEffect(rs, locs, bases, slide, n - 1);
      RebaseNext(rs, RebaseAll(rs, locs, bases, slide, n - 1).value, locs, bases, slide, n - 1);
    }
  }

  lemma {:induction false} RebaseNext(rs: RegionMap, prev: RegionMap, locs: seq<Rebase.Location>, bases: Bases,
                                      slide: u64, n: nat)
    requires n < |locs| && Ordered(rs) && GoodSlots(rs, locs, bases) && Rebased(rs, prev, locs, bases, slide, n)
    ensures RebaseOne(prev, locs[n], bases, slide).Ok?
    ensures Rebased(rs, RebaseOne(prev, locs[n], bases, slide).value, locs, bases, slide, n + 1)
  {
    hide Rebased, GoodSlots, Ordered, RebaseSlot, ReadU64, WriteU64;
    if RebaseSlot(locs[n], bases).Some? {
      RebaseStep(rs, prev, locs, bases, slide, n);
    } else {
      SkipLocation(rs, prev, locs, bases, slide, n);
    }
  }

  lemma {:induction false} RebasedAtStart(rs: RegionMap, locs: seq<Rebase.Location>, bases: Bases, slide: u64)
    requires Ordered(rs)
    ensures Rebased(rs, rs, locs, bases, slide, 0)
  {
  }

  lemma {:induction false} SkipLocation(
    rs: RegionMap, rs': RegionMap, locs: seq<Rebase.Location>, bases: Bases, slide: u64, n: nat
  )
    requires n < |locs| && Rebased(rs, rs', locs, bases, slide, n) && RebaseSlot(locs[n], bases).None?
    ensures Rebased(rs, rs', locs, bases, slide, n + 1)
  {
    assert forall a: int :: !InSlot(locs, bases, n, a);
  }

  // ---- placing the segments ----------------------------------------------------------------------------------

  predicate IsMapped(seg: MachSegment) {
    seg.name != "__PAGEZERO"
  }

  /** The bytes a segment occupies once mapped: its file contents, zero-filled to whole pages. */
  function Contents(seg: MachSegment, bytes: Buffer): (s: seq<byte>) {
    match SegmentBytes(seg, bytes)
    case Err(_) => []
    case Ok(data) =>
      var n := MapDataSize(seg.vmsize, data);
      if |data| <= n then Padded(data, n) else []
  }

  /** Every mapped segment occupies at least a page. */
  ghost predicate SolidSegments(segs: seq<MachSegment>, bytes: Buffer) {
    forall i :: 0 <= i < |segs| && IsMapped(segs[i]) ==> Contents(segs[i], bytes) != []
  }

  function Runtime(seg: MachSegment, slide: u64): u64 {
    Wrap(seg.vmaddr + slide)
  }

  function LoadedRegion(seg: MachSegment, bytes: Buffer, slide: u64): Region {
    Region(Runtime(seg, slide), RW, Segment, seg.name, Contents(seg, bytes))
  }

  /** The first `n` segments are in place. */
  ghost predicate Placed(p: Placement, segs: seq<MachSegment>, bytes: Buffer, slide: u64, n: nat)
    requires n <= |segs|
  {
    && Ordered(p.regions) && |p.bases| == n
    && forall i :: 0 <= i < n ==>
         if IsMapped(segs[i]) then
           && p.bases[i] == Some(Runtime(segs[i], slide))
           && Runtime(segs[i], slide) in p.regions
           && p.regions[Runtime(segs[i], slide)] == LoadedRegion(segs[i], bytes, slide)
         else p.bases[i] == None
  }

  /** Among the first `n`, no two mapped segments share a base. */
  ghost predicate OwnBases(segs: seq<MachSegment>, slide: u64, n: nat)
    requires n <= |segs|
  {
    forall i, j :: 0 <= i < j < n && IsMapped(segs[i]) && IsMapped(segs[j]) ==>
      Runtime(segs[i], slide) != Runtime(segs[j], slide)
  }

  lemma {:induction false} PlaceInserts(p: Placement, seg: MachSegment, bytes: Buffer, slide: u64)
    requires Ordered(p.regions) && IsMapped(seg) && Contents(seg, bytes) != []
    requires PlaceSegment(p, seg, bytes, slide).Ok?
    ensures var base := Runtime(seg, slide);
            && (base in p.regions ==> p.regions[base].data == [])
            && PlaceSegment(p, seg, bytes, slide).value
               == Placement(p.regions[base := LoadedRegion(seg, bytes, slide)], p.bases + [Some(base)])
            && Ordered(p.regions[base := LoadedRegion(seg, bytes, slide)])
            && |Contents(seg, bytes)| < TWO_64
            && CheckFree(p.regions, base, |Contents(seg, bytes)|).None?
  {
    var base := Runtime(seg, slide);
    var data := SegmentBytes(seg, bytes).value;
    var n := MapDataSize(seg.vmsize, data);
    PaddedLength(data, n);
    hide CheckFree, Ordered, MapDataSize, Padded;
    BaseHoldsNothing(p.regions, base, n);
    InsertOrdered(p.regions, base, LoadedRegion(seg, bytes, slide));
  }

  lemma {:induction false} PlaceNext(p: Placement, segs: seq<MachSegment>, bytes: Buffer, slide: u64, n: nat)
    requires n < |segs| && Placed(p, segs, bytes, slide, n) && OwnBases(segs, slide, n)
    requires SolidSegments(segs, bytes)
    requires PlaceSegment(p, segs[n], bytes, slide).Ok?
    ensures Placed(PlaceSegment(p, segs[n], bytes, slide).value, segs, bytes, slide, n + 1)
    ensures OwnBases(segs, slide, n + 1)
  {
    hide Ordered, Contents, PlaceSegment, CheckFree, Runtime;
    if IsMapped(segs[n]) {
      PlaceInserts(p, segs[n], bytes, slide);
      NewBase(p, segs, bytes, slide, n);
    } else {
      PlaceNothing(p, segs[n], bytes, slide);
    }
  }

  lemma {:induction false} PlaceNothing(p: Placement, seg: MachSegment, bytes: Buffer, slide: u64)
    requires !IsMapped(seg)
    ensures PlaceSegment(p, seg, bytes, slide) == Ok(p.(bases := p.bases + [None]))
  {
  }

  lemma {:induction false} NewBase(p: Placement, segs: seq<MachSegment>, bytes: Buffer, slide: u64, n: nat)
    requires n < |segs| && Placed(p, segs, bytes, slide, n) && SolidSegments(segs, bytes)
    requires Runtime(segs[n], slide) in p.regions ==> p.regions[Runtime(segs[n], slide)].data == []
    ensures forall i :: 0 <= i < n && IsMapped(segs[i]) ==> Runtime(segs[i], slide) != Runtime(segs[n], slide)
  {
    hide Ordered, Contents, Runtime;
    forall i | 0 <= i < n && IsMapped(segs[i])
      ensures Runtime(segs[i], slide) != Runtime(segs[n], slide)
    {
      assert LoadedRegion(segs[i], bytes, slide).data != [];
    }
  }

  lemma {:induction false} PlaceEffect(rs: RegionMap, segs: seq<MachSegment>, bytes: Buffer, slide: u64, n: nat)
    requires n <= |segs| && Ordered(rs) && SolidSegments(segs, bytes)
    requires PlaceSegments(rs, segs, bytes, slide, n).Ok?
    ensures Placed(PlaceSegments(rs, segs, bytes, slide, n).value, segs, bytes, slide, n)
    ensures OwnBases(segs, slide, n)
  {
    if n > 0 {
      PlaceEffect(rs, segs, bytes, slide, n - 1);
      hide Placed, OwnBases, SolidSegments, PlaceSegment, Ordered;
      PlaceNext(PlaceSegments(rs, segs, bytes, slide, n - 1).value, segs, bytes, slide, n - 1);
    }
  }

  lemma {:induction false} PlacedSegment(p: Placement, segs: seq<MachSegment>, bytes: Buffer, slide: u64, i: nat)
    requires Placed(p, segs, bytes, slide, |segs|) && i < |segs| && IsMapped(segs[i])
    ensures Ordered(p.regions) && |p.bases| == |segs|
    ensures var base := Runtime(segs[i], slide);
            && p.bases[i] == Some(base) && base in p.regions
            && p.regions[base] == LoadedRegion(segs[i], bytes, slide)
            && base + |Contents(segs[i], bytes)| < TWO_64
  {
  }

  /** Byte `o` of a placed segment is byte `o` of its contents, wherever it was slid. */
  lemma {:induction false} PlacedByte(p: Placement, segs: seq<MachSegment>, bytes: Buffer, slide: u64, i: nat, o: nat)
    requires Placed(p, segs, bytes, slide, |segs|) && i < |segs| && IsMapped(segs[i])
    requires o < |Contents(segs[i], bytes)|
    ensures Runtime(segs[i], slide) + |Contents(segs[i], bytes)| < TWO_64
    ensures ByteAt(p.regions, Runtime(segs[i], slide) + o) == Contents(segs[i], bytes)[o]
  {
    hide Placed, Contents, Runtime, Ordered;
    PlacedSegment(p, segs, bytes, slide, i);
    var base := Runtime(segs[i], slide);
    AtInside(p.regions, base, base + o);
  }

  // ---- the theorem ------------------------------------------------------------------------------------------------

  /** A location asks for a pointer to be moved: it is of pointer type and names a mapped segment. The
      loader skips the others. */
  predicate Asks(loc: Rebase.Location, segs: seq<MachSegment>) {
    loc.rtype == Rebase.REBASE_TYPE_POINTER && loc.segIndex < |segs| && IsMapped(segs[loc.segIndex])
  }

  /** It names a pointer that lies whole in its segment. */
  ghost predicate NamesPointer(loc: Rebase.Location, segs: seq<MachSegment>, bytes: Buffer) {
    Asks(loc, segs) && loc.segOffset + 8 <= |Contents(segs[loc.segIndex], bytes)|
  }

  /** Two named pointers never share a byte. */
  ghost predicate Distinct(a: Rebase.Location, b: Rebase.Location) {
    a.segIndex != b.segIndex || Apart(a.segOffset, b.segOffset)
  }

  ghost predicate WellFormed(locs: seq<Rebase.Location>, segs: seq<MachSegment>, bytes: Buffer) {
    && (forall j :: 0 <= j < |locs| && Asks(locs[j], segs) ==> NamesPointer(locs[j], segs, bytes))
    && (forall i, j :: 0 <= i < j < |locs| && Asks(locs[i], segs) && Asks(locs[j], segs) ==> Distinct(locs[i], locs[j]))
  }

  /** What the loader skips has no slot. */
  lemma {:induction false} SlotIff(
    loc: Rebase.Location, p: Placement, segs: seq<MachSegment>, bytes: Buffer, slide: u64
  )
    requires Placed(p, segs, bytes, slide, |segs|)
    ensures RebaseSlot(loc, p.bases).Some? <==> Asks(loc, segs)
  {
    hide Ordered, Contents, Runtime, Wrap;
  }

  lemma {:induction false} SlotOf(
    loc: Rebase.Location, p: Placement, segs: seq<MachSegment>, bytes: Buffer, slide: u64
  )
    requires Placed(p, segs, bytes, slide, |segs|) && NamesPointer(loc, segs, bytes)
    ensures RebaseSlot(loc, p.bases) == Some(Runtime(segs[loc.segIndex], slide) + loc.segOffset)
    ensures Slice(p.regions, Runtime(segs[loc.segIndex], slide) + loc.segOffset, 8, RW).Ok?
  {
    hide Placed, Ordered, Contents, Runtime, Slice;
    PlacedSegment(p, segs, bytes, slide, loc.segIndex);
    var base := Runtime(segs[loc.segIndex], slide);
    SliceInto(p.regions, base, loc.segOffset, 8, RW);
    WrapSmall(base + loc.segOffset);
  }

  /** Segments do not overlap, so offsets in different segments are different addresses. */
  lemma {:induction false} SegmentsApart(
    p: Placement, segs: seq<MachSegment>, bytes: Buffer, slide: u64, i: nat, j: nat
  )
    requires Placed(p, segs, bytes, slide, |segs|) && i < |segs| && j < |segs|
    requires IsMapped(segs[i]) && IsMapped(segs[j])
    requires Runtime(segs[i], slide) != Runtime(segs[j], slide)
    ensures var a, b := Runtime(segs[i], slide), Runtime(segs[j], slide);
            a + |Contents(segs[i], bytes)| <= b || b + |Contents(segs[j], bytes)| <= a
  {
  }

  lemma {:induction false} SlotsAreGood(
    locs: seq<Rebase.Location>, p: Placement, segs: seq<MachSegment>, bytes: Buffer, slide: u64
  )
    requires Placed(p, segs, bytes, slide, |segs|) && WellFormed(locs, segs, bytes)
    requires OwnBases(segs, slide, |segs|)
    ensures GoodSlots(p.regions, locs, p.bases)
  {
    hide Placed, Slice, RebaseSlot, Contents, Runtime, Asks;
    forall j | 0 <= j < |locs|
      ensures RebaseSlot(locs[j], p.bases).Some? ==>
                Asks(locs[j], segs) && NamesPointer(locs[j], segs, bytes) && locs[j].segIndex < |segs|
                && RebaseSlot(locs[j], p.bases) == Some(Runtime(segs[locs[j].segIndex], slide) + locs[j].segOffset)
                && Slice(p.regions, RebaseSlot(locs[j], p.bases).value, 8, RW).Ok?
    {
      SlotIff(locs[j], p, segs, bytes, slide);
      if Asks(locs[j], segs) {
        AsksMapped(locs[j], segs);
        SlotOf(locs[j], p, segs, bytes, slide);
      }
    }
    forall i, j | 0 <= i < j < |locs| && RebaseSlot(locs[i], p.bases).Some? && RebaseSlot(locs[j], p.bases).Some?
      ensures Apart(RebaseSlot(locs[i], p.bases).value, RebaseSlot(locs[j], p.bases).value)
    {
      assert Distinct(locs[i], locs[j]);
      var a, b := locs[i].segIndex, locs[j].segIndex;
      if a != b {
        AsksMapped(locs[i], segs);
        AsksMapped(locs[j], segs);
        assert Runtime(segs[a], slide) != Runtime(segs[b], slide);
        SegmentsApart(p, segs, bytes, slide, a, b);
      }
    }
  }

  lemma {:induction false} AsksMapped(loc: Rebase.Location, segs: seq<MachSegment>)
    requires Asks(loc, segs)
    ensures loc.segIndex < |segs| && IsMapped(segs[loc.segIndex])
  {
  }

  /** The slid memory carries the same image as the unslid one: outside the named pointers every
      byte is the same, and each named pointer has moved by the slide. */
  ghost predicate SameImage(unslid: RegionMap, slid: RegionMap, locs: seq<Rebase.Location>,
                            segs: seq<MachSegment>, bytes: Buffer, slide: u64)
  {
    && (forall i, o :: 0 <= i < |segs| && IsMapped(segs[i]) && 0 <= o < |Contents(segs[i], bytes)| ==>
          OutsidePointers(locs, segs, i, o) ==>
            ByteAt(slid, Runtime(segs[i], slide) + o) == ByteAt(unslid, segs[i].vmaddr + o))
    && (forall j :: 0 <= j < |locs| ==>
          PointerMoved(unslid, slid, segs, slide, locs[j]))
  }

  ghost predicate OutsidePointers(locs: seq<Rebase.Location>, segs: seq<MachSegment>, i: nat, o: int) {
    forall j :: 0 <= j < |locs| && Asks(locs[j], segs) && locs[j].segIndex == i ==>
      !(locs[j].segOffset <= o < locs[j].segOffset + 8)
  }

  ghost predicate PointerMoved(unslid: RegionMap, slid: RegionMap, segs: seq<MachSegment>, slide: u64,
                               loc: Rebase.Location)
  {
    Asks(loc, segs) ==>
      var seg := segs[loc.segIndex];
      Word(slid, Runtime(seg, slide) + loc.segOffset) == Wrap(Word(unslid, seg.vmaddr + loc.segOffset) + slide)
  }

  lemma {:induction false} UnslidRuntime(seg: MachSegment)
    ensures Runtime(seg, 0) == seg.vmaddr
  {
  }

  /** For every slide, every image and every well-formed list of locations: loading at the slide and
      rebasing gives the image that loading at the preferred address gives, with the pointers the list
      asks for moved. Locations the loader skips may be anything. The two loads may start from different
      memories. */
  lemma {:induction false} RelocationPreservesMeaning(
    rs0: RegionMap, rs1: RegionMap, segs: seq<MachSegment>, bytes: Buffer, locs: seq<Rebase.Location>,
    slide: u64
  )
    requires Ordered(rs0) && Ordered(rs1)
    requires SolidSegments(segs, bytes) && WellFormed(locs, segs, bytes)
    requires PlaceSegments(rs0, segs, bytes, 0, |segs|).Ok?
    requires PlaceSegments(rs1, segs, bytes, slide, |segs|).Ok?
    ensures var p := PlaceSegments(rs1, segs, bytes, slide, |segs|).value;
            && RebaseAll(p.regions, locs, p.bases, slide, |locs|).Ok?
            && SameImage(PlaceSegments(rs0, segs, bytes, 0, |segs|).value.regions,
                         RebaseAll(p.regions, locs, p.bases, slide, |locs|).value, locs, segs, bytes, slide)
  {
    var unslid := PlaceSegments(rs0, segs, bytes, 0, |segs|).value;
    var p := PlaceSegments(rs1, segs, bytes, slide, |segs|).value;
    PlaceEffect(rs0, segs, bytes, 0, |segs|);
    PlaceEffect(rs1, segs, bytes, slide, |segs|);
    SlotsAreGood(locs, p, segs, bytes, slide);
    assert Ordered(p.regions);
    RebaseEffect(p.regions, locs, p.bases, slide, |locs|);
    var slid := RebaseAll(p.regions, locs, p.bases, slide, |locs|).value;
    hide Placed, Ordered, Rebased, GoodSlots, PlaceSegments, RebaseAll, Contents, Runtime, Word, ByteAt;
    forall i, o | 0 <= i < |segs| && IsMapped(segs[i]) && 0 <= o < |Contents(segs[i], bytes)| && OutsidePointers(locs, segs, i, o)
      ensures ByteAt(slid, Runtime(segs[i], slide) + o) == ByteAt(unslid.regions, segs[i].vmaddr + o)
    {
      OtherBytes(unslid, p, slid, segs, bytes, locs, slide, i, o);
    }
    forall j | 0 <= j < |locs|
      ensures PointerMoved(unslid.regions, slid, segs, slide, locs[j])
    {
      MovedPointer(unslid, p, slid, segs, bytes, locs, slide, j);
    }
  }

  lemma {:induction false} OtherBytes(
    unslid: Placement, p: Placement, slid: RegionMap, segs: seq<MachSegment>, bytes: Buffer,
    locs: seq<Rebase.Location>, slide: u64, i: nat, o: nat
  )
    requires Placed(unslid, segs, bytes, 0, |segs|) && Placed(p, segs, bytes, slide, |segs|)
    requires WellFormed(locs, segs, bytes) && OwnBases(segs, slide, |segs|)
    requires Rebased(p.regions, slid, locs, p.bases, slide, |locs|)
    requires i < |segs| && IsMapped(segs[i]) && o < |Contents(segs[i], bytes)| && OutsidePointers(locs, segs, i, o)
    ensures ByteAt(slid, Runtime(segs[i], slide) + o) == ByteAt(unslid.regions, segs[i].vmaddr + o)
  {
    hide Placed, RebaseSlot, Contents, OwnBases, OutsidePointers, WellFormed, InSlot, Word, ByteAt, SameFrame, Ordered;
    UnslidRuntime(segs[i]);
    PlacedByte(unslid, segs, bytes, 0, i, o);
    PlacedByte(p, segs, bytes, slide, i, o);
    var a := Runtime(segs[i], slide) + o;
    forall j | 0 <= j < |locs|
      ensures !InSlot(locs, p.bases, j, a)
    {
      NotInSlot(p, segs, bytes, locs, slide, i, o, j);
    }
  }

  lemma {:induction false} NotInSlot(
    p: Placement, segs: seq<MachSegment>, bytes: Buffer, locs: seq<Rebase.Location>, slide: u64, i: nat, o: nat,
    j: nat
  )
    requires Placed(p, segs, bytes, slide, |segs|) && WellFormed(locs, segs, bytes)
    requires OwnBases(segs, slide, |segs|)
    requires i < |segs| && IsMapped(segs[i]) && o < |Contents(segs[i], bytes)| && OutsidePointers(locs, segs, i, o)
    requires j < |locs|
    ensures !InSlot(locs, p.bases, j, Runtime(segs[i], slide) + o)
  {
    hide Placed, RebaseSlot, Contents, Runtime, Slice, Asks;
    SlotIff(locs[j], p, segs, bytes, slide);
    if Asks(locs[j], segs) {
      AsksMapped(locs[j], segs);
      SlotOf(locs[j], p, segs, bytes, slide);
      var k := locs[j].segIndex;
      if k != i {
        assert Runtime(segs[i], slide) != Runtime(segs[k], slide);
        SegmentsApart(p, segs, bytes, slide, i, k);
      }
    }
  }

  lemma {:induction false} MovedPointer(
    unslid: Placement, p: Placement, slid: RegionMap, segs: seq<MachSegment>, bytes: Buffer,
    locs: seq<Rebase.Location>, slide: u64, j: nat
  )
    requires Placed(unslid, segs, bytes, 0, |segs|) && Placed(p, segs, bytes, slide, |segs|)
    requires WellFormed(locs, segs, bytes) && j < |locs|
    requires Rebased(p.regions, slid, locs, p.bases, slide, |locs|)
    ensures PointerMoved(unslid.regions, slid, segs, slide, locs[j])
  {
    hide Placed, RebaseSlot, Contents, Rebased, WellFormed, Runtime, Wrap, Slice, Word;
    var loc := locs[j];
    if Asks(loc, segs) {
      NamedPointer(locs, segs, bytes, j);
      SlotOf(loc, p, segs, bytes, slide);
      RebasedWord(p.regions, slid, locs, p.bases, slide, j);
      PlacedWord(unslid, p, segs, bytes, slide, loc.segIndex, loc.segOffset);
    }
  }

  lemma {:induction false} NamedPointer(locs: seq<Rebase.Location>, segs: seq<MachSegment>, bytes: Buffer, j: nat)
    requires WellFormed(locs, segs, bytes) && j < |locs| && Asks(locs[j], segs)
    ensures NamesPointer(locs[j], segs, bytes)
  {
  }

  lemma {:induction false} RebasedWord(
    rs: RegionMap, rs': RegionMap, locs: seq<Rebase.Location>, bases: Bases, slide: u64, j: nat
  )
    requires j < |locs| && Rebased(rs, rs', locs, bases, slide, |locs|) && RebaseSlot(locs[j], bases).Some?
    ensures var slot := RebaseSlot(locs[j], bases).value; Word(rs', slot) == Wrap(Word(rs, slot) + slide)
  {
  }

  /** A word of a segment reads the same in both placements. */
  lemma {:induction false} PlacedWord(
    unslid: Placement, p: Placement, segs: seq<MachSegment>, bytes: Buffer, slide: u64, i: nat, o: nat
  )
    requires Placed(unslid, segs, bytes, 0, |segs|) && Placed(p, segs, bytes, slide, |segs|)
    requires i < |segs| && IsMapped(segs[i]) && o + 8 <= |Contents(segs[i], bytes)|
    ensures Word(p.regions, Runtime(segs[i], slide) + o) == Word(unslid.regions, segs[i].vmaddr + o)
  {
    hide Placed, Contents, ByteAt, Runtime;
    UnslidRuntime(segs[i]);
    var a, b := Runtime(segs[i], slide) + o, segs[i].vmaddr + o;
    forall x: int | a <= x < a + 8
      ensures ByteAt(p.regions, x) == ByteAt(unslid.regions, x - a + b)
    {
      PlacedByte(unslid, segs, bytes, 0, i, x - a + o);
      PlacedByte(p, segs, bytes, slide, i, x - a + o);
    }
    BytesAtSame(p.regions, unslid.regions, a, b, 8);
  }

  /** Adding the slide to an address inside a segment gives the address of the same byte of the segment
      where it was slid to. */
  lemma {:induction false} TargetMoves(
    p: Placement, segs: seq<MachSegment>, bytes: Buffer, slide: u64, k: nat, o: nat
  )
    requires Placed(p, segs, bytes, slide, |segs|) && k < |segs| && IsMapped(segs[k])
    requires o < |Contents(segs[k], bytes)|
    ensures Wrap(segs[k].vmaddr + o + slide) == Runtime(segs[k], slide) + o
  {
    hide Placed, Contents, Ordered;
    PlacedSegment(p, segs, bytes, slide, k);
    WrapPlus(segs[k].vmaddr + slide, o);
    WrapSmall(Runtime(segs[k], slide) + o);
  }

  /** A byte of a region stays mapped in a memory with the same frame. */
  lemma {:induction false} TargetIsMapped(rs: RegionMap, rs': RegionMap, base: u64, o: nat)
    requires Ordered(rs') && SameFrame(rs, rs') && base in rs && o < |rs[base].data|
    ensures At(rs', base + o).Some? && At(rs', base + o).value.owner == base
  {
    hide Ordered, At;
    FrameExtent(rs, rs', base);
    hide SameFrame;
    ByteIsMapped(rs', base, o);
  }

  lemma {:induction false} FrameExtent(rs: RegionMap, rs': RegionMap, base: u64)
    requires SameFrame(rs, rs') && base in rs
    ensures base in rs' && |rs'[base].data| == |rs[base].data|
  {
  }

  lemma {:induction false} ByteIsMapped(rs: RegionMap, base: u64, o: nat)
    requires Ordered(rs) && base in rs && o < |rs[base].data|
    ensures At(rs, base + o).Some? && At(rs, base + o).value.owner == base
  {
    hide Ordered, At;
    AtInside(rs, base, base + o);
  }

  /** The word a location holds, in the unslid and in the slid memory. */
  ghost function WordBefore(unslid: RegionMap, segs: seq<MachSegment>, loc: Rebase.Location): int
    requires loc.segIndex < |segs|
  {
    Word(unslid, segs[loc.segIndex].vmaddr + loc.segOffset)
  }

  ghost function WordAfter(slid: RegionMap, segs: seq<MachSegment>, slide: u64, loc: Rebase.Location): int
    requires loc.segIndex < |segs|
  {
    Word(slid, Runtime(segs[loc.segIndex], slide) + loc.segOffset)
  }

  /** Following a pointer reaches the same place: if the word stored at a location of the unslid image is
      the address of byte `o` of segment `k`, the word stored there after sliding and rebasing is the
      address of byte `o` of the same segment, which is mapped. */
  lemma {:induction false} FollowingReachesTheSame(
    rs0: RegionMap, rs1: RegionMap, segs: seq<MachSegment>, bytes: Buffer, locs: seq<Rebase.Location>,
    slide: u64, j: nat, k: nat, o: nat
  )
    requires Ordered(rs0) && Ordered(rs1)
    requires SolidSegments(segs, bytes) && WellFormed(locs, segs, bytes)
    requires PlaceSegments(rs0, segs, bytes, 0, |segs|).Ok?
    requires PlaceSegments(rs1, segs, bytes, slide, |segs|).Ok?
    requires j < |locs| && Asks(locs[j], segs)
    requires k < |segs| && IsMapped(segs[k]) && o < |Contents(segs[k], bytes)|
    requires WordBefore(PlaceSegments(rs0, segs, bytes, 0, |segs|).value.regions, segs, locs[j]) == segs[k].vmaddr + o
    ensures var p := PlaceSegments(rs1, segs, bytes, slide, |segs|).value;
            && RebaseAll(p.regions, locs, p.bases, slide, |locs|).Ok?
            && var slid := RebaseAll(p.regions, locs, p.bases, slide, |locs|).value;
               var after := WordAfter(slid, segs, slide, locs[j]);
               && after == Runtime(segs[k], slide) + o
               && At(slid, after).Some? && At(slid, after).value.owner == Runtime(segs[k], slide)
  {
    hide Ordered, Placed, OwnBases, SolidSegments, WellFormed, PlaceSegments, RebaseAll, Contents, Runtime, Word, Wrap, At,
         Rebased, GoodSlots, IsMapped;
    AsksMapped(locs[j], segs);
    RelocationPreservesMeaning(rs0, rs1, segs, bytes, locs, slide);
    var p := PlaceSegments(rs1, segs, bytes, slide, |segs|).value;
    var slid := RebaseAll(p.regions, locs, p.bases, slide, |locs|).value;
    PlaceEffect(rs1, segs, bytes, slide, |segs|);
    SlotsAreGood(locs, p, segs, bytes, slide);
    PlacedIsOrdered(p, segs, bytes, slide);
    RebaseEffect(p.regions, locs, p.bases, slide, |locs|);
    RebasedFrame(p.regions, slid, locs, p.bases, slide);
    assert PointerMoved(PlaceSegments(rs0, segs, bytes, 0, |segs|).value.regions, slid, segs, slide, locs[j]);
    TargetMoves(p, segs, bytes, slide, k, o);
    PlacedSegment(p, segs, bytes, slide, k);
    TargetIsMapped(p.regions, slid, Runtime(segs[k], slide), o);
  }

  lemma {:induction false} PlacedIsOrdered(p: Placement, segs: seq<MachSegment>, bytes: Buffer, slide: u64)
    requires Placed(p, segs, bytes, slide, |segs|)
    ensures Ordered(p.regions)
  {
  }

  lemma {:induction false} RebasedFrame(
    rs: RegionMap, rs': RegionMap, locs: seq<Rebase.Location>, bases: Bases, slide: u64
  )
    requires Rebased(rs, rs', locs, bases, slide, |locs|)
    ensures Ordered(rs') && SameFrame(rs, rs')
  {
  }

  // ---- in a linked image ------------------------------------------------------------------------------------------

  /** Without a slide nothing is rebased. */
  lemma {:induction false} LinkedUnslid(rs: RegionMap, image: MachOImage, bytes: Buffer, cfg: Layout)
    requires cfg.slide == 0 && Link(rs, image, bytes, cfg).Ok?
    ensures var l := Link(rs, image, bytes, cfg).value;
            && PlaceSegments(rs, image.segments, bytes, 0, |image.segments|) == Ok(l.placed)
            && l.rebased == l.placed.regions
  {
    hide PlaceSegments, BindRecords, BindAll;
  }

  lemma {:induction false} LinkedSlid(rs: RegionMap, image: MachOImage, bytes: Buffer, cfg: Layout)
    requires Link(rs, image, bytes, cfg).Ok?
    ensures var l := Link(rs, image, bytes, cfg).value;
            && PlaceSegments(rs, image.segments, bytes, cfg.slide, |image.segments|) == Ok(l.placed)
            && RebaseLocations(image, bytes, cfg.slide) == Ok(l.locs)
            && RebaseAll(l.placed.regions, l.locs, l.placed.bases, cfg.slide, |l.locs|) == Ok(l.rebased)
  {
    hide PlaceSegments, RebaseLocations, RebaseAll, BindRecords, BindAll;
  }

  /** The theorem for the memory a link has when it starts to bind: the image linked at a slide is the image
      linked at its preferred addresses with the pointers its own rebase stream asks for moved. */
  lemma {:induction false} LinkPreservesMeaning(
    rs0: RegionMap, rs1: RegionMap, image: MachOImage, bytes: Buffer, cfg0: Layout, cfg1: Layout
  )
    requires Ordered(rs0) && Ordered(rs1) && SolidSegments(image.segments, bytes) && cfg0.slide == 0
    requires Link(rs0, image, bytes, cfg0).Ok? && Link(rs1, image, bytes, cfg1).Ok?
    requires WellFormed(Link(rs1, image, bytes, cfg1).value.locs, image.segments, bytes)
    ensures var l := Link(rs1, image, bytes, cfg1).value;
            && RebaseLocations(image, bytes, cfg1.slide) == Ok(l.locs)
            && SameImage(Link(rs0, image, bytes, cfg0).value.rebased, l.rebased, l.locs, image.segments, bytes, cfg1.slide)
  {
    hide Ordered, SolidSegments, WellFormed, Link, SameImage, PlaceSegments, RebaseAll, RebaseLocations;
    LinkedUnslid(rs0, image, bytes, cfg0);
    LinkedSlid(rs1, image, bytes, cfg1);
    RelocationPreservesMeaning(rs0, rs1, image.segments, bytes, Link(rs1, image, bytes, cfg1).value.locs, cfg1.slide);
  }

  /** And every pointer the stream asks for leads to the same byte in both. */
  lemma {:induction false} LinkedPointersFollow(
    rs0: RegionMap, rs1: RegionMap, image: MachOImage, bytes: Buffer, cfg0: Layout, cfg1: Layout,
    j: nat, k: nat, o: nat
  )
    requires Ordered(rs0) && Ordered(rs1) && SolidSegments(image.segments, bytes) && cfg0.slide == 0
    requires Link(rs0, image, bytes, cfg0).Ok? && Link(rs1, image, bytes, cfg1).Ok?
    requires var locs := Link(rs1, image, bytes, cfg1).value.locs;
             WellFormed(locs, image.segments, bytes) && j < |locs| && Asks(locs[j], image.segments)
    requires k < |image.segments| && IsMapped(image.segments[k]) && o < |Contents(image.segments[k], bytes)|
    requires WordBefore(Link(rs0, image, bytes, cfg0).value.rebased, image.segments,
                        Link(rs1, image, bytes, cfg1).value.locs[j]) == image.segments[k].vmaddr + o
    ensures var l := Link(rs1, image, bytes, cfg1).value;
            var after := WordAfter(l.rebased, image.segments, cfg1.slide, l.locs[j]);
            && after == Runtime(image.segments[k], cfg1.slide) + o
            && At(l.rebased, after).Some? && At(l.rebased, after).value.owner == Runtime(image.segments[k], cfg1.slide)
  {
    hide Ordered, SolidSegments, WellFormed, Link, PlaceSegments, RebaseAll, RebaseLocations, WordBefore, WordAfter, At,
         Contents, Runtime;
    LinkedUnslid(rs0, image, bytes, cfg0);
    LinkedSlid(rs1, image, bytes, cfg1);
    FollowingReachesTheSame(rs0, rs1, image.segments, bytes, Link(rs1, image, bytes, cfg1).value.locs, cfg1.slide, j, k, o);
  }
}
