/** What a loaded process consists of, said in terms of the file and the configuration alone: which file bytes are
    where, which streams were read, what the pointers, the registers and the tables hold. */
module LoadedProcess {
  import opened Words
  import opened Regions
  import opened FlatMemory
  import opened Memory
  import opened StubTable
  import opened Image
  import opened Loader
  import opened Relocation
  import opened StackLayout
  import opened LoadLayout
  import opened Imports
  import opened BuildSuccess
  import Rebase = RebaseStream
  import Dyld = BindStream

  const WORD: int := 0x1_0000_0000_0000_0000

  // ---- file bytes -----------------------------------------------------------------------------------------------

  /** The file holds all the bytes the segment names. */
  predicate InFile(seg: MachSegment, bytes: Buffer) {
    0 < seg.filesize && seg.fileoff + seg.filesize <= |bytes|
  }

  /** What a segment's memory starts with: the bytes the file has for it, or none. */
  function FilePart(seg: MachSegment, bytes: Buffer): (s: Buffer) {
    if InFile(seg, bytes) then bytes[seg.fileoff..seg.fileoff + seg.filesize] else []
  }

  lemma {:induction false} ContentsAre(seg: MachSegment, bytes: Buffer)
    requires Loadable(seg, bytes)
    ensures StartsAs(Contents(seg, bytes), FilePart(seg, bytes))
    ensures var v := Max(seg.vmsize, |FilePart(seg, bytes)|);
            v + PAGE_SIZE <= TWO_64 ==> LeastPages(|Contents(seg, bytes)|, v)
  {
    hide MapDataSize, Padded, StartsAs, LeastPages;
    FileBytesAre(seg, bytes);
    var data := SegmentBytes(seg, bytes).value;
    PaddedStarts(data, MapDataSize(seg.vmsize, data));
    if Max(seg.vmsize, |data|) + PAGE_SIZE <= TWO_64 {
      DataPages(seg.vmsize, data);
    }
  }

  lemma {:induction false} FileBytesAre(seg: MachSegment, bytes: Buffer)
    requires SegmentBytes(seg, bytes).Ok?
    ensures SegmentBytes(seg, bytes).value == FilePart(seg, bytes)
  {
    if seg.fileoff + seg.filesize < TWO_64 {
      WrapSmall(seg.fileoff + seg.filesize);
    } else {
      WrapShift(1, seg.fileoff + seg.filesize - TWO_64);
      WrapSmall(seg.fileoff + seg.filesize - TWO_64);
    }
  }

  lemma {:induction false} DataPages(size: u64, data: Buffer)
    requires Max(size, |data|) + PAGE_SIZE <= TWO_64
    ensures LeastPages(MapDataSize(size, data), Max(size, |data|))
  {
    PageUpIs(Max(size, |data|));
  }

  /** Where a byte of a segment lives. */
  function AddressOf(seg: MachSegment, slide: u64, off: nat): u64 {
    (seg.vmaddr + slide + off) % WORD
  }

  /** Every segment that keeps its base is a read-write region there that starts with the file bytes the segment names
      and is zero after them, of the least number of pages that holds its size and those bytes. */
  lemma {:induction false} SegmentHoldsFile(rs: RegionMap, segs: seq<MachSegment>, bytes: Buffer, slide: u64, i: nat)
    requires Ordered(rs) && PlaceSegments(rs, segs, bytes, slide, |segs|).Ok?
    requires i < |segs| && Last(segs, slide, |segs|, i)
    ensures var p, base, seg := PlaceSegments(rs, segs, bytes, slide, |segs|).value, AddressOf(segs[i], slide, 0), segs[i];
            && p.bases[i] == Some(base) && base in p.regions
            && p.regions[base] == Region(base, RW, Segment, seg.name, p.regions[base].data)
            && StartsAs(p.regions[base].data, FilePart(seg, bytes))
            && var v := Max(seg.vmsize, |FilePart(seg, bytes)|);
               (v + PAGE_SIZE <= TWO_64 ==> LeastPages(|p.regions[base].data|, v))
  {
    hide Ordered, PlaceSegments, Layered, SegmentsFit, Contents, StartsAs, LeastPages, FilePart, Loadable, Fits, BasesIn;
    PlacedLayered(rs, segs, bytes, slide, |segs|);
    PlaceIff(rs, segs, bytes, slide, |segs|);
    CanLoad(rs, segs, bytes, slide, i);
    ContentsAre(segs[i], bytes);
    LastIsThere(rs, PlaceSegments(rs, segs, bytes, slide, |segs|).value.regions, segs, bytes, slide, i);
    PlacedBases(rs, segs, bytes, slide, |segs|);
  }

  lemma {:induction false} CanLoad(rs: RegionMap, segs: seq<MachSegment>, bytes: Buffer, slide: u64, i: nat)
    requires i < |segs| && SegmentsFit(rs, segs, bytes, slide, |segs|) && Last(segs, slide, |segs|, i)
    ensures Loadable(segs[i], bytes)
  {
    hide Loadable, Fits;
  }

  lemma {:induction false} LastIsThere(
    rs: RegionMap, rs': RegionMap, segs: seq<MachSegment>, bytes: Buffer, slide: u64, i: nat
  )
    requires Layered(rs, rs', segs, bytes, slide, |segs|) && i < |segs| && Last(segs, slide, |segs|, i)
    ensures IsMapped(segs[i])
    ensures var base := AddressOf(segs[i], slide, 0);
            base == Runtime(segs[i], slide) && base in rs' && rs'[base] == LoadedRegion(segs[i], bytes, slide)
  {
    hide Contents, Takes, Runtime, LoadedRegion, AddressOf;
    RuntimeIs(segs[i], slide);
    assert Last(segs, slide, |segs|, i);
    LastIsMapped(segs, slide, i);
    hide Last;
  }

  lemma {:induction false} LastIsMapped(segs: seq<MachSegment>, slide: u64, i: nat)
    requires i < |segs| && Last(segs, slide, |segs|, i)
    ensures IsMapped(segs[i])
  {
  }

  lemma RuntimeIs(seg: MachSegment, slide: u64)
    ensures Runtime(seg, slide) == AddressOf(seg, slide, 0)
  {
  }

  /** Byte by byte, as the memory shows it. */
  lemma {:induction false} SegmentBytesAre(
    rs: RegionMap, segs: seq<MachSegment>, bytes: Buffer, slide: u64, i: nat, j: nat
  )
    requires Ordered(rs) && PlaceSegments(rs, segs, bytes, slide, |segs|).Ok?
    requires i < |segs| && Last(segs, slide, |segs|, i)
    requires var rs' := PlaceSegments(rs, segs, bytes, slide, |segs|).value.regions;
             AddressOf(segs[i], slide, 0) in rs' && j < |rs'[AddressOf(segs[i], slide, 0)].data|
    ensures var a := AddressOf(segs[i], slide, 0) + j;
            && At(PlaceSegments(rs, segs, bytes, slide, |segs|).value.regions, a).Some?
            && ByteAt(PlaceSegments(rs, segs, bytes, slide, |segs|).value.regions, a)
               == if InFile(segs[i], bytes) && j < segs[i].filesize then bytes[segs[i].fileoff + j] else 0
  {
    hide Ordered, PlaceSegments, Last, LeastPages, At;
    SegmentHoldsFile(rs, segs, bytes, slide, i);
    PlaceOrdered(rs, segs, bytes, slide, |segs|);
    AtInside(PlaceSegments(rs, segs, bytes, slide, |segs|).value.regions, AddressOf(segs[i], slide, 0),
             AddressOf(segs[i], slide, 0) + j);
  }

  // ---- slots ----------------------------------------------------------------------------------------------------

  /** A location names the pointer at its offset in its segment, slid. */
  lemma {:induction false} RebaseSlotIs(loc: Rebase.Location, segs: seq<MachSegment>, slide: u64)
    ensures RebaseSlot(loc, BasesOf(segs, slide))
            == if loc.rtype == 1 && NamesMapped(segs, loc.segIndex)
               then Some(AddressOf(segs[loc.segIndex], slide, loc.segOffset)) else None
  {
    hide Wrap;
    if NamesMapped(segs, loc.segIndex) {
      WrapPlus(segs[loc.segIndex].vmaddr + slide, loc.segOffset);
      WrapIs(segs[loc.segIndex].vmaddr + slide + loc.segOffset);
    }
  }

  lemma WrapIs(v: int)
    ensures Wrap(v) == v % WORD
  {
  }

  /** One location: a pointer that can be read and written moves by the slide, one that cannot be read is skipped, and
      one that can be read but not written fails the build. */
  lemma {:induction false} RebaseOneIs(rs: RegionMap, loc: Rebase.Location, bases: Bases, slide: u64)
    requires Ordered(rs) && RebaseSlot(loc, bases).Some?
    ensures var slot, r := RebaseSlot(loc, bases).value, RebaseOne(rs, loc, bases, slide);
            && (!InOneRegion(rs, slot, 8, READ) ==> r == Ok(rs))
            && (InOneRegion(rs, slot, 8, READ) && !InOneRegion(rs, slot, 8, WRITE) ==> r.Err?)
            && (InOneRegion(rs, slot, 8, READ) && InOneRegion(rs, slot, 8, WRITE) ==>
                  && r.Ok? && Ordered(r.value) && SameFrame(rs, r.value)
                  && Word(r.value, slot) == (Word(rs, slot) + slide) % WORD
                  && forall a: int :: !(slot <= a < slot + 8) ==> ByteAt(r.value, a) == ByteAt(rs, a))
  {
    hide Ordered, InOneRegion, Word, ByteAt, ReadU64, WriteU64, SameFrame, RebaseSlot, Wrap;
    var slot := RebaseSlot(loc, bases).value;
    CanRead(rs, slot);
    if ReadU64(rs, slot).Ok? {
      var v := Wrap(Word(rs, slot) + slide);
      WrapIs(Word(rs, slot) + slide);
      CanWrite(rs, slot, v);
      if WriteU64(rs, slot, v).Ok? {
        StoreWord(rs, slot, v);
      }
    }
  }

  /** One record: its symbol gets a stub whether or not the slot can be written; a slot that can holds stub plus addend
      afterwards, and no other byte changes. */
  lemma {:induction false} BindOneIs(b: Binding, rec: Dyld.Bind, bases: Bases)
    requires Ordered(b.regions) && BindSlot(rec, bases).Some?
    ensures var slot, b' := BindSlot(rec, bases).value, BindOne(b, rec, bases);
            && rec.symbol in b'.stubs.forward
            && (!InOneRegion(b.regions, slot, 8, WRITE) ==> b'.regions == b.regions)
            && (InOneRegion(b.regions, slot, 8, WRITE) ==>
                  && Ordered(b'.regions) && SameFrame(b.regions, b'.regions)
                  && Word(b'.regions, slot) == (b'.stubs.forward[rec.symbol] + rec.addend) % WORD
                  && forall a: int :: !(slot <= a < slot + 8) ==> ByteAt(b'.regions, a) == ByteAt(b.regions, a))
  {
    hide Ordered, InOneRegion, Word, ByteAt, WriteU64, SameFrame, BindSlot, Wrap;
    var slot, tramp := BindSlot(rec, bases).value, Resolve(b.stubs, rec.symbol).1;
    var v := Wrap(tramp + rec.addend);
    WrapIs(tramp + rec.addend);
    CanWrite(b.regions, slot, v);
    if WriteU64(b.regions, slot, v).Ok? {
      StoreWord(b.regions, slot, v);
    }
  }

  lemma {:induction false} BindSlotIs(rec: Dyld.Bind, segs: seq<MachSegment>, slide: u64)
    ensures BindSlot(rec, BasesOf(segs, slide))
            == if NamesMapped(segs, rec.segIndex)
               then Some(AddressOf(segs[rec.segIndex], slide, rec.segOffset)) else None
  {
    hide Wrap;
    if NamesMapped(segs, rec.segIndex) {
      WrapPlus(segs[rec.segIndex].vmaddr + slide, rec.segOffset);
      WrapIs(segs[rec.segIndex].vmaddr + slide + rec.segOffset);
    }
  }

  /** The address belongs to no pointer the streams name. */
  ghost predicate NoPointer(locs: seq<Rebase.Location>, recs: seq<Dyld.Bind>, segs: seq<MachSegment>, slide: u64, a: int) {
    && (forall j :: 0 <= j < |locs| && locs[j].rtype == 1 && NamesMapped(segs, locs[j].segIndex) ==>
          var slot := AddressOf(segs[locs[j].segIndex], slide, locs[j].segOffset); !(slot <= a < slot + 8))
    && (forall j :: 0 <= j < |recs| && NamesMapped(segs, recs[j].segIndex) ==>
          var slot := AddressOf(segs[recs[j].segIndex], slide, recs[j].segOffset); !(slot <= a < slot + 8))
  }

  lemma {:induction false} RebaseOneLeaves(rs: RegionMap, loc: Rebase.Location, bases: Bases, slide: u64, a: int)
    requires Ordered(rs) && RebaseOne(rs, loc, bases, slide).Ok?
    requires RebaseSlot(loc, bases).Some? ==> var slot := RebaseSlot(loc, bases).value; !(slot <= a < slot + 8)
    ensures ByteAt(RebaseOne(rs, loc, bases, slide).value, a) == ByteAt(rs, a)
  {
    hide Ordered, ReadU64, WriteU64, Word, ByteAt, SameFrame, RebaseSlot;
    match RebaseSlot(loc, bases)
    case None =>
    case Some(slot) =>
      match ReadU64(rs, slot)
      case Err(_) =>
      case Ok(v) => StoreWord(rs, slot, Wrap(v + slide));
  }

  lemma {:induction false} RebaseLeaves(
    rs: RegionMap, locs: seq<Rebase.Location>, bases: Bases, slide: u64, n: nat, a: int
  )
    requires n <= |locs| && Ordered(rs) && RebaseAll(rs, locs, bases, slide, n).Ok?
    requires forall j :: 0 <= j < |locs| ==> !InSlot(locs, bases, j, a)
    ensures ByteAt(RebaseAll(rs, locs, bases, slide, n).value, a) == ByteAt(rs, a)
  {
    hide Ordered, RebaseOne, ByteAt, SameFrame, RebaseSlot;
    if n > 0 {
      RebaseLeaves(rs, locs, bases, slide, n - 1, a);
      RebaseFrame(rs, locs, bases, slide, n - 1);
      assert !InSlot(locs, bases, n - 1, a);
      RebaseOneLeaves(RebaseAll(rs, locs, bases, slide, n - 1).value, locs[n - 1], bases, slide, a);
    }
  }

  lemma {:induction false} BindOneLeaves(b: Binding, rec: Dyld.Bind, bases: Bases, a: int)
    requires Ordered(b.regions)
    requires BindSlot(rec, bases).Some? ==> var slot := BindSlot(rec, bases).value; !(slot <= a < slot + 8)
    ensures ByteAt(BindOne(b, rec, bases).regions, a) == ByteAt(b.regions, a)
  {
    hide Ordered, WriteU64, Word, ByteAt, SameFrame, Resolve, BindSlot;
    match BindSlot(rec, bases)
    case None =>
    case Some(slot) =>
      var v := Wrap(Resolve(b.stubs, rec.symbol).1 + rec.addend);
      if WriteU64(b.regions, slot, v).Ok? {
        StoreWord(b.regions, slot, v);
      }
  }

  lemma {:induction false} BindLeaves(b: Binding, recs: seq<Dyld.Bind>, bases: Bases, n: nat, a: int)
    requires n <= |recs| && Ordered(b.regions)
    requires forall j :: 0 <= j < |recs| && BindSlot(recs[j], bases).Some? ==>
               var slot := BindSlot(recs[j], bases).value; !(slot <= a < slot + 8)
    ensures ByteAt(BindAll(b, recs, bases, n).regions, a) == ByteAt(b.regions, a)
  {
    hide Ordered, BindOne, ByteAt, SameFrame, BindSlot;
    if n > 0 {
      BindLeaves(b, recs, bases, n - 1, a);
      BindFrame(b, recs, bases, n - 1);
      BindOneLeaves(BindAll(b, recs, bases, n - 1), recs[n - 1], bases, a);
    }
  }

  /** Linking changes no byte outside the pointers its streams name. */
  lemma {:induction false} LinkLeaves(rs: RegionMap, image: MachOImage, bytes: Buffer, cfg: Layout, a: int)
    requires Ordered(rs) && Link(rs, image, bytes, cfg).Ok?
    requires var l := Link(rs, image, bytes, cfg).value; NoPointer(l.locs, l.records, image.segments, cfg.slide, a)
    ensures var l := Link(rs, image, bytes, cfg).value; ByteAt(l.bound.regions, a) == ByteAt(l.placed.regions, a)
  {
    hide Ordered, PlaceSegments, RebaseLocations, BindRecords, RebaseAll, BindAll, ByteAt, BasesOf, BasesIn, SameFrame,
         NamesMapped, RebaseSlot, BindSlot;
    var l, segs := Link(rs, image, bytes, cfg).value, image.segments;
    LinkFrame(rs, image, bytes, cfg);
    LinkedBases(rs, image, bytes, cfg);
    forall j | 0 <= j < |l.locs|
      ensures !InSlot(l.locs, l.placed.bases, j, a)
    {
      RebaseSlotIs(l.locs[j], segs, cfg.slide);
    }
    RebaseLeaves(l.placed.regions, l.locs, l.placed.bases, cfg.slide, |l.locs|, a);
    forall j | 0 <= j < |l.records| && BindSlot(l.records[j], l.placed.bases).Some?
      ensures var slot := BindSlot(l.records[j], l.placed.bases).value; !(slot <= a < slot + 8)
    {
      BindSlotIs(l.records[j], segs, cfg.slide);
    }
    BindLeaves(Binding(l.rebased, NewStubs(cfg.trampolineBase, cfg.trampolineStride)), l.records, l.placed.bases,
               |l.records|, a);
  }

  /** After a load, every byte of a segment that belongs to no pointer of the streams is the file's byte, or zero past
      the file's bytes. */
  lemma {:induction false} LoadedByteIs(
    rs: RegionMap, image: MachOImage, bytes: Buffer, cfg: Layout, i: nat, j: nat
  )
    requires Ordered(rs) && Load(rs, image, bytes, cfg).Ok? && StackFits(cfg)
    requires i < |image.segments| && Last(image.segments, cfg.slide, |image.segments|, i)
    requires var l, base := Load(rs, image, bytes, cfg).value.linked, AddressOf(image.segments[i], cfg.slide, 0);
             && base in l.placed.regions && j < |l.placed.regions[base].data|
             && NoPointer(l.locs, l.records, image.segments, cfg.slide, base + j)
    ensures var seg := image.segments[i];
            ByteAt(Load(rs, image, bytes, cfg).value.finished.final, AddressOf(seg, cfg.slide, 0) + j)
            == if InFile(seg, bytes) && j < seg.filesize then bytes[seg.fileoff + j] else 0
  {
    hide Ordered, Link, Finish, Describe, StackFits, ByteAt, At, NoPointer, SameFrame, FrameHolds, Last, PlaceSegments,
         AddressOf, InFile, RebaseLocations, RebaseAll;
    var s, a := Load(rs, image, bytes, cfg).value, AddressOf(image.segments[i], cfg.slide, 0) + j;
    LinkedSlid(rs, image, bytes, cfg);
    SegmentBytesAre(rs, image.segments, bytes, cfg.slide, i, j);
    LinkFrame(rs, image, bytes, cfg);
    LinkLeaves(rs, image, bytes, cfg, a);
    SameFrameMapped(s.linked.placed.regions, s.linked.bound.regions, a);
    FinishKeepsBytes(s.linked, image.segments, cfg);
  }

  lemma {:induction false} SameFrameMapped(rs: RegionMap, rs': RegionMap, a: int)
    requires Ordered(rs) && Ordered(rs') && SameFrame(rs, rs') && At(rs, a).Some?
    ensures At(rs', a).Some?
  {
    hide At;
    AtOwner(rs, a);
    AtInside(rs', At(rs, a).value.owner, a);
  }

  // ---- streams --------------------------------------------------------------------------------------------------

  /** The bytes of a stream: none of an empty one, wherever it is said to be; an error when they are not all in the
      file. */
  function StreamOf(bytes: Buffer, off: u32, size: u32): (r: Result<seq<byte>, EmuError>) {
    if size == 0 then Ok([])
    else if off + size < 0x1_0000_0000 && off + size <= |bytes| then Ok(bytes[off..off + size])
    else Err(StreamOutOfRange)
  }

  lemma {:induction false} FileRangeIs(bytes: Buffer, off: u32, size: u32)
    requires 0 < size
    ensures FileRange(bytes, off, size) == match StreamOf(bytes, off, size) case Ok(s) => Some(s) case Err(_) => None
  {
  }

  function RebaseOut(s: seq<byte>): Result<seq<Rebase.Location>, EmuError> {
    match Rebase.Decode(s, Rebase.Location(0, 0, 1)) case Ok(t) => Ok(t.out) case Err(e) => Err(e)
  }

  function BindOut(s: seq<byte>): Result<seq<Dyld.Bind>, EmuError> {
    match Dyld.Decode(s, Dyld.Bind(0, 0, "", 0, 0, Dyld.Pointer, false)) case Ok(t) => Ok(t.out) case Err(e) => Err(e)
  }

  function LazyOut(s: seq<byte>): Result<seq<Dyld.LazyBind>, EmuError> {
    match Dyld.LazyDecode(s, Dyld.LazyState(0, 0, 0, 0, "")) case Ok(t) => Ok(t.out) case Err(e) => Err(e)
  }

  /** The locations to rebase are those of the rebase stream, when there is a slide. */
  lemma {:induction false} LocationsAre(image: MachOImage, bytes: Buffer, slide: u64)
    ensures slide == 0 || image.dyldInfo.None? ==> RebaseLocations(image, bytes, slide) == Ok([])
    ensures slide != 0 && image.dyldInfo.Some? ==>
              var info := image.dyldInfo.value;
              RebaseLocations(image, bytes, slide)
              == match StreamOf(bytes, info.rebaseOff, info.rebaseSize)
                 case Ok(s) => RebaseOut(s)
                 case Err(e) => Err(e)
  {
    hide Rebase.Disassemble, Rebase.Run, FileRange;
    if image.dyldInfo.Some? && image.dyldInfo.value.rebaseSize != 0 {
      FileRangeIs(bytes, image.dyldInfo.value.rebaseOff, image.dyldInfo.value.rebaseSize);
    }
    assert Rebase.Disassemble([]) == Ok([]) && Rebase.Run([], Rebase.INITIAL) == Rebase.Trace([], Rebase.INITIAL) by {
      RebaseNothing();
    }
  }

  lemma RebaseNothing()
    ensures Rebase.Disassemble([]) == Ok([]) && Rebase.Run([], Rebase.INITIAL) == Rebase.Trace([], Rebase.INITIAL)
  {
  }

  lemma BindNothing()
    ensures Dyld.Disassemble([]) == Ok([]) && Dyld.Run([], Dyld.INITIAL) == Dyld.Trace([], Dyld.INITIAL)
    ensures Dyld.LazyDisassemble([]) == Ok([])
    ensures Dyld.LazyRun([], Dyld.LAZY_INITIAL) == Dyld.LazyTrace([], Dyld.LAZY_INITIAL)
  {
  }

  lemma {:induction false} StreamRecordsAre(bytes: Buffer, off: u32, size: u32)
    ensures StreamRecords(bytes, off, size)
            == match StreamOf(bytes, off, size) case Ok(s) => BindOut(s) case Err(e) => Err(e)
  {
    BindNothing();
    hide Dyld.Disassemble, Dyld.Run, FileRange;
    if size != 0 {
      FileRangeIs(bytes, off, size);
    }
  }

  /** The records to bind are those of the eager stream, then those of the lazy stream read in full. */
  lemma {:induction false} RecordsAre(image: MachOImage, bytes: Buffer)
    ensures image.dyldInfo.None? ==> BindRecords(image, bytes) == Ok([])
    ensures image.dyldInfo.Some? ==>
              var info := image.dyldInfo.value;
              BindRecords(image, bytes)
              == match StreamOf(bytes, info.bindOff, info.bindSize)
                 case Err(e) => Err(e)
                 case Ok(a) =>
                   match BindOut(a)
                   case Err(e) => Err(e)
                   case Ok(eager) =>
                     match StreamOf(bytes, info.lazyBindOff, info.lazyBindSize)
                     case Err(e) => Err(e)
                     case Ok(b) => match BindOut(b) case Err(e) => Err(e) case Ok(lazy) => Ok(eager + lazy)
  {
    hide BindOut, StreamOf, StreamRecords;
    if image.dyldInfo.Some? {
      var info := image.dyldInfo.value;
      StreamRecordsAre(bytes, info.bindOff, info.bindSize);
      StreamRecordsAre(bytes, info.lazyBindOff, info.lazyBindSize);
    }
  }

  /** The lazy entries are what the lazy parser makes of the lazy stream. */
  lemma {:induction false} EntriesAre(image: MachOImage, bytes: Buffer)
    ensures image.dyldInfo.None? ==> LazyRecords(image, bytes) == Ok([])
    ensures image.dyldInfo.Some? ==>
              var info := image.dyldInfo.value;
              LazyRecords(image, bytes)
              == match StreamOf(bytes, info.lazyBindOff, info.lazyBindSize)
                 case Ok(s) => LazyOut(s)
                 case Err(e) => Err(e)
  {
    BindNothing();
    hide Dyld.LazyDisassemble, Dyld.LazyRun, FileRange;
    if image.dyldInfo.Some? && image.dyldInfo.value.lazyBindSize != 0 {
      FileRangeIs(bytes, image.dyldInfo.value.lazyBindOff, image.dyldInfo.value.lazyBindSize);
    }
  }

  // ---- the entry and the registers ------------------------------------------------------------------------------

  /** The preferred address of the first segment named `__TEXT`. */
  lemma {:induction false} TextIs(segs: seq<MachSegment>, k: nat)
    requires k < |segs| && segs[k].name == "__TEXT" && forall i :: 0 <= i < k ==> segs[i].name != "__TEXT"
    ensures TextVmaddr(segs) == segs[k].vmaddr
  {
    if k > 0 {
      TextIs(segs[1..], k - 1);
    }
  }

  lemma {:induction false} NoText(segs: seq<MachSegment>)
    requires forall i :: 0 <= i < |segs| ==> segs[i].name != "__TEXT"
    ensures TextVmaddr(segs) == 0
  {
    if segs != [] {
      NoText(segs[1..]);
    }
  }

  /** `LC_MAIN` counts from the start of the text, a thread state gives an address; both are slid. */
  lemma {:induction false} EntryIs(rs: RegionMap, image: MachOImage, bytes: Buffer, cfg: Layout, k: nat)
    requires Load(rs, image, bytes, cfg).Ok?
    ensures image.entry.Some?
    ensures var p := Load(rs, image, bytes, cfg).value.process;
            match image.entry.value
            case Thread(pc) => p.entry == (pc + cfg.slide) % WORD
            case Main(off, _) =>
              && (k < |image.segments| && image.segments[k].name == "__TEXT"
                  && (forall i :: 0 <= i < k ==> image.segments[i].name != "__TEXT") ==>
                    p.entry == (image.segments[k].vmaddr + cfg.slide + off) % WORD)
              && ((forall i :: 0 <= i < |image.segments| ==> image.segments[i].name != "__TEXT") ==>
                    p.entry == (cfg.slide + off) % WORD)
  {
    hide Link, Finish, StackFrame, StubBytes, LazyRecords, LazyTableOf, Wrap;
    var segs := image.segments;
    if image.entry.Some? && image.entry.value.Main? {
      var off := image.entry.value.fileOffset;
      WrapPlus(TextVmaddr(segs) + cfg.slide, off);
      WrapIs(TextVmaddr(segs) + cfg.slide + off);
      if k < |segs| && segs[k].name == "__TEXT" && forall i :: 0 <= i < k ==> segs[i].name != "__TEXT" {
        TextIs(segs, k);
      }
      if forall i :: 0 <= i < |segs| ==> segs[i].name != "__TEXT" {
        NoText(segs);
      }
    } else if image.entry.Some? {
      WrapIs(image.entry.value.vmaddr + cfg.slide);
    }
  }

  /** The process starts with one argument, `argv` at the stack pointer, `envp` and `apple`: the first entries of `argv`
      and `apple` point at the path, and null ends each array. */
  lemma {:induction false} RegistersAre(rs: RegionMap, image: MachOImage, bytes: Buffer, cfg: Layout)
    requires Ordered(rs) && Load(rs, image, bytes, cfg).Ok? && StackFits(cfg)
    ensures var s := Load(rs, image, bytes, cfg).value;
            var p, m := s.process, s.finished.final;
            && |p.argRegs| == 4 && p.argRegs[0] == 1 && p.argRegs[1] == p.sp && p.sp % 16 == 0
            && cfg.stackTop - cfg.stackSize <= p.sp < cfg.stackTop
            && var path, argv, envp, apple := Word(m, p.sp), p.argRegs[1], p.argRegs[2], p.argRegs[3];
               && BytesAt(m, path, |cfg.argv0|) == cfg.argv0 && ByteAt(m, path + |cfg.argv0|) == 0
               && path + |cfg.argv0| < cfg.stackTop
               && Word(m, argv + 8) == 0 && Word(m, envp) == 0 && Word(m, apple) == path && Word(m, apple + 8) == 0
               && argv + 16 <= envp && envp + 8 <= apple && apple + 16 <= path
  {
    hide Ordered, Link, Finish, StackFits, ByteAt, BytesAt, Word, At, StubBytes, LazyRecords, LazyTableOf, ResolveEntry,
         Down16, Wrap, StackFrame;
    var l := Load(rs, image, bytes, cfg).value.linked;
    LinkFrame(rs, image, bytes, cfg);
    FinishKeepsBytes(l, image.segments, cfg);
    FrameIs(cfg);
    AlignedDown(StackFrame(cfg).argv, StackFrame(cfg).text);
  }

  lemma AlignedDown(v: u64, t: u64)
    requires t % 16 == 0 && v == t - 48
    ensures Down16(v) == v && v % 16 == 0
  {
  }

  // ---- the tables -------------------------------------------------------------------------------------------------

  /** The stub range is the whole pages, at least one, that the stubs take. */
  lemma {:induction false} StubRangeIs(rs: RegionMap, image: MachOImage, bytes: Buffer, cfg: Layout)
    requires Ordered(rs) && Load(rs, image, bytes, cfg).Ok?
    requires StubsFit(cfg, |Load(rs, image, bytes, cfg).value.linked.records|)
    ensures var s := Load(rs, image, bytes, cfg).value;
            var used := cfg.trampolineStride * |s.process.symbolStubs|;
            && s.process.trampolineBase == cfg.trampolineBase
            && LeastPages(s.process.trampolineEnd - cfg.trampolineBase, Max(used, PAGE_SIZE))
  {
    hide Ordered, Link, Finish, LazyRecords, LazyTableOf, ResolveEntry, StackFrame, StubBytes, Wrap, BoundSoFar;
    var l := Load(rs, image, bytes, cfg).value.linked;
    LinkBinds(rs, image, bytes, cfg);
    StubCount(l, cfg);
    StubsInPage(l.bound.stubs, cfg, |l.records|);
    PageOfStubs(l.bound.stubs);
  }

  lemma {:induction false} StubCount(l: Linked, cfg: Layout)
    requires BoundSoFar(l.rebased, l.bound, l.records, l.placed.bases, |l.records|, cfg.trampolineBase,
                        cfg.trampolineStride)
    ensures var t := l.bound.stubs;
            && Bijective(t) && t.base == cfg.trampolineBase && t.stride == cfg.trampolineStride
            && t.next <= cfg.trampolineBase + cfg.trampolineStride * |l.records|
            && t.next - t.base == cfg.trampolineStride * |t.forward|
  {
    hide Ordered, SameFrame, Bounded, Inverse;
  }

  lemma {:induction false} PageOfStubs(t: Stubs)
    requires t.base <= t.next && Max(t.next - t.base, PAGE_SIZE) + PAGE_SIZE <= TWO_64
    ensures LeastPages(StubBytes(t), Max(t.next - t.base, PAGE_SIZE))
  {
    WrapSmall(t.next - t.base);
    PageUpIs(Max(t.next - t.base, PAGE_SIZE));
  }

  /** A lazy entry that is kept is found at its offset, with its symbol and the address of its slot. */
  lemma {:induction false} LazyEntryIs(rs: RegionMap, image: MachOImage, bytes: Buffer, cfg: Layout, i: nat)
    requires Load(rs, image, bytes, cfg).Ok? && LazyRecords(image, bytes).Ok?
    requires var lazy := LazyRecords(image, bytes).value; i < |lazy| && LazyKept(image.segments, lazy, i)
    ensures var p, entry := Load(rs, image, bytes, cfg).value.process, LazyRecords(image, bytes).value[i];
            && NamesMapped(image.segments, entry.segIndex) && entry.offset in p.lazyBinds
            && p.lazyBinds[entry.offset]
               == (entry.symbol, AddressOf(image.segments[entry.segIndex], cfg.slide, entry.segOffset))
  {
    hide Load, BindRecords, LazyRecords, LazyTableOf, Imported, Kept, Wrap;
    LoadedTables(rs, image, bytes, cfg);
    var lazy, segs := LazyRecords(image, bytes).value, image.segments;
    KeptIff(segs, cfg.slide, lazy, i);
    KeptIsEntry(lazy, BasesOf(segs, cfg.slide), |lazy|, lazy[i].offset, i);
    WrapPlus(segs[lazy[i].segIndex].vmaddr + cfg.slide, lazy[i].segOffset);
    WrapIs(segs[lazy[i].segIndex].vmaddr + cfg.slide + lazy[i].segOffset);
  }

  /** A bound pointer, at its address in the loaded process, holds the stub of its symbol plus its addend. */
  lemma {:induction false} BoundWordIs(rs: RegionMap, image: MachOImage, bytes: Buffer, cfg: Layout, j: nat)
    requires Ordered(rs) && Load(rs, image, bytes, cfg).Ok? && StackFits(cfg)
    requires var l := Load(rs, image, bytes, cfg).value.linked;
             && StubsFit(cfg, |l.records|) && j < |l.records| && Stores(l.rebased, l.records[j], l.placed.bases)
             && LastWriter(l.rebased, l.records, l.placed.bases, j, |l.records|)
    ensures var s := Load(rs, image, bytes, cfg).value;
            var rec := s.linked.records[j];
            && NamesMapped(image.segments, rec.segIndex) && rec.symbol in s.process.symbolStubs
            && Word(s.finished.final, AddressOf(image.segments[rec.segIndex], cfg.slide, rec.segOffset))
               == (s.process.symbolStubs[rec.symbol] + rec.addend) % WORD
  {
    hide Ordered, Link, Finish, StackFits, BindAll, Word, At, ByteAt, FrameHolds, LastWriter, StubsFit, Resolved,
         StackFrame, LazyTableOf, StubBytes, Slice, BindSlot, SameFrame, Bijective, Wrap, BasesOf, BasesIn;
    var s := Load(rs, image, bytes, cfg).value;
    var l := s.linked;
    LinkFrame(rs, image, bytes, cfg);
    LinkBinds(rs, image, bytes, cfg);
    LinkedBases(rs, image, bytes, cfg);
    BindSlotIs(l.records[j], image.segments, cfg.slide);
    var slot := BindSlot(l.records[j], l.placed.bases).value;
    SliceSame(l.rebased, l.bound.regions, slot, 8, WRITE);
    FinishKeepsBytes(l, image.segments, cfg);
    WordKept(l.bound.regions, s.finished.final, slot);
    assert SlotHolds(l.bound, l.records[j], l.placed.bases);
    WrapIs(l.bound.stubs.forward[l.records[j].symbol] + l.records[j].addend);
  }
}
