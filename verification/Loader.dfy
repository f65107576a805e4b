/** The process builder: map the segments, relocate, bind imports to stubs, publish the stub
    page, restore protections, lay out the stack and index the lazy binds. */
module Loader {
  import opened Words
  import opened Regions
  import opened FlatMemory
  import opened Memory
  import opened StubTable
  import opened Image
  import Rebase = RebaseStream
  import Dyld = BindStream

  datatype Layout = Layout(slide: u64, stackTop: u64, stackSize: u64, trampolineBase: u64,
                           trampolineStride: u64, argv0: Buffer)

  type LazyTable = map<nat, (string, u64)>

  datatype Process = Process(entry: u64, sp: u64, argRegs: seq<u64>, trampolines: map<u64, string>,
                             trampolineBase: u64, trampolineEnd: u64, symbolStubs: map<string, u64>,
                             lazyBinds: LazyTable)

  // ---- 1. mapping the segments ---------------------------------------------------------------------

  type Bases = seq<Option<u64>>

  datatype Placement = Placement(regions: RegionMap, bases: Bases)

  /** The file bytes of a segment; none when the file does not reach its end. A range that
      wraps to an end before its start is a slice panic. */
  function SegmentBytes(seg: MachSegment, bytes: Buffer): (r: Result<Buffer, EmuError>) {
    var end := Wrap(seg.fileoff + seg.filesize);
    if seg.filesize > 0 && end <= |bytes| then
      if seg.fileoff <= end then Ok(bytes[seg.fileoff..end]) else Err(Aborted)
    else Ok([])
  }

  function PlaceSegment(p: Placement, seg: MachSegment, bytes: Buffer, slide: u64)
    : (r: Result<Placement, EmuError>)
  {
    if seg.name == "__PAGEZERO" then Ok(p.(bases := p.bases + [None]))
    else
      var base := Wrap(seg.vmaddr + slide);
      var data :- SegmentBytes(seg, bytes);
      var rs :- MapWithData(p.regions, base, seg.vmsize, data, RW, Segment, seg.name);
      Ok(Placement(rs, p.bases + [Some(base)]))
  }

  /** The layout after the first `n` segments. */
  function PlaceSegments(rs: RegionMap, segs: seq<MachSegment>, bytes: Buffer, slide: u64, n: nat)
    : (r: Result<Placement, EmuError>)
    requires n <= |segs|
    ensures r.Ok? ==> |r.value.bases| == n
  {
    if n == 0 then Ok(Placement(rs, []))
    else
      var p :- PlaceSegments(rs, segs, bytes, slide, n - 1);
      PlaceSegment(p, segs[n - 1], bytes, slide)
  }

  function BaseOf(bases: Bases, index: nat): (b: Option<u64>) {
    if index < |bases| then bases[index] else None
  }

  // ---- 1.5 rebasing -----------------------------------------------------------------------------------

  /** A byte range of the file given by 32-bit offset and size, whose sum wraps. */
  function FileRange(bytes: Buffer, off: u32, size: u32): (r: Option<seq<byte>>) {
    var end := (off + size) % 0x1_0000_0000;
    if off <= end <= |bytes| then Some(bytes[off..end]) else None
  }

  function RebaseLocations(image: MachOImage, bytes: Buffer, slide: u64)
    : (r: Result<seq<Rebase.Location>, EmuError>)
  {
    if slide == 0 || image.dyldInfo.None? || image.dyldInfo.value.rebaseSize == 0 then Ok([])
    else match FileRange(bytes, image.dyldInfo.value.rebaseOff, image.dyldInfo.value.rebaseSize)
      case None => Err(StreamOutOfRange)
      case Some(stream) =>
        var t :- Rebase.Decode(stream, Rebase.INITIAL);
        Ok(t.out)
  }

  /** Where a location lives at run time, if it names a pointer in a mapped segment. */
  function RebaseSlot(loc: Rebase.Location, bases: Bases): (slot: Option<u64>) {
    if loc.rtype != Rebase.REBASE_TYPE_POINTER then None
    else match BaseOf(bases, loc.segIndex)
      case None => None
      case Some(base) => Some(Wrap(base + loc.segOffset))
  }

  /** Adds the slide to the pointer stored at the slot; an unreadable slot is skipped. */
  function RebaseOne(rs: RegionMap, loc: Rebase.Location, bases: Bases, slide: u64)
    : (r: Result<RegionMap, EmuError>)
  {
    match RebaseSlot(loc, bases)
    case None => Ok(rs)
    case Some(slot) =>
      match ReadU64(rs, slot)
      case Err(_) => Ok(rs)
      case Ok(v) => WriteU64(rs, slot, Wrap(v + slide))
  }

  function RebaseAll(rs: RegionMap, locs: seq<Rebase.Location>, bases: Bases, slide: u64, n: nat)
    : (r: Result<RegionMap, EmuError>)
    requires n <= |locs|
  {
    if n == 0 then Ok(rs)
    else
      var prev :- RebaseAll(rs, locs, bases, slide, n - 1);
      RebaseOne(prev, locs[n - 1], bases, slide)
  }

  // ---- 2. binding ---------------------------------------------------------------------------------------

  datatype Binding = Binding(regions: RegionMap, stubs: Stubs)

  function StreamRecords(bytes: Buffer, off: u32, size: u32): (r: Result<seq<Dyld.Bind>, EmuError>) {
    if size == 0 then Ok([])
    else match FileRange(bytes, off, size)
      case None => Err(StreamOutOfRange)
      case Some(stream) =>
        var t :- Dyld.Decode(stream, Dyld.INITIAL);
        Ok(t.out)
  }

  /** The records of the eager stream followed by those of the lazy stream. */
  function BindRecords(image: MachOImage, bytes: Buffer): (r: Result<seq<Dyld.Bind>, EmuError>) {
    match image.dyldInfo
    case None => Ok([])
    case Some(info) =>
      var eager :- StreamRecords(bytes, info.bindOff, info.bindSize);
      var lazy :- StreamRecords(bytes, info.lazyBindOff, info.lazyBindSize);
      Ok(eager + lazy)
  }

  function BindSlot(rec: Dyld.Bind, bases: Bases): (slot: Option<u64>) {
    match BaseOf(bases, rec.segIndex)
    case None => None
    case Some(base) => Some(Wrap(base + rec.segOffset))
  }

  /** Resolves the symbol and stores its stub plus the addend; a failed store is skipped. */
  function BindOne(b: Binding, rec: Dyld.Bind, bases: Bases): (r: Binding) {
    match BindSlot(rec, bases)
    case None => b
    case Some(slot) =>
      var (stubs, tramp) := Resolve(b.stubs, rec.symbol);
      match WriteU64(b.regions, slot, Wrap(tramp + rec.addend))
      case Ok(rs) => Binding(rs, stubs)
      case Err(_) => Binding(b.regions, stubs)
  }

  function BindAll(b: Binding, recs: seq<Dyld.Bind>, bases: Bases, n: nat): (r: Binding)
    requires n <= |recs|
  {
    if n == 0 then b else BindOne(BindAll(b, recs, bases, n - 1), recs[n - 1], bases)
  }

  // ---- 3. the stub page -------------------------------------------------------------------------------------

  /** `BRK #0`, little-endian. */
  const BRK0: seq<byte> := [0x00, 0x00, 0x20, 0xD4]

  function StubBytes(stubs: Stubs): (n: u64)
    ensures PageMultiple(n)
  {
    PageUpIs(Max(Used(stubs), PAGE_SIZE));
    PageUp(Max(Used(stubs), PAGE_SIZE))
  }

  lemma WholePages(size: u64)
    requires PageMultiple(size)
    ensures size <= MapSize(size) && 0 < MapSize(size)
    ensures 0 < size ==> MapSize(size) == size
  {
    PageUpIs(Max(size, 1));
  }

  /** `n` bytes of trap instructions. */
  function Sled(n: nat): (s: seq<byte>)
    ensures |s| == n
  {
    seq<byte>(n, i requires 0 <= i => BRK0[i % 4])
  }

  /** The page as published: read-execute and full of traps. */
  function PublishStubs(rs: RegionMap, base: u64, size: u64): (r: Result<RegionMap, EmuError>)
    requires PageMultiple(size)
  {
    WholePages(size);
    var n := MapSize(size);
    match Reserve(rs, base, n)
    case Some(e) => Err(e)
    case None => Ok(rs[base := Region(base, RX, Segment, "__stubs", Padded(Sled(size), n))])
  }

  // ---- 4. final protections -----------------------------------------------------------------------------------

  function FinalProt(seg: MachSegment): Protection {
    if seg.initprot == NO_ACCESS then READ else seg.initprot
  }

  function RestoreAll(rs: RegionMap, segs: seq<MachSegment>, bases: Bases, n: nat)
    : (r: Result<RegionMap, EmuError>)
    requires n <= |segs| == |bases|
  {
    if n == 0 then Ok(rs)
    else
      var prev :- RestoreAll(rs, segs, bases, n - 1);
      match bases[n - 1]
      case None => Ok(prev)
      case Some(base) => Protect(prev, base, FinalProt(segs[n - 1]))
  }

  // ---- 6. the stack ---------------------------------------------------------------------------------------------

  function StackBase(cfg: Layout): u64 {
    Wrap(cfg.stackTop - cfg.stackSize)
  }

  /** Addresses of the initial stack, from the top down. Every subtraction wraps. */
  datatype Frame = Frame(text: u64, apple: u64, envp: u64, argv: u64)

  function StackFrame(cfg: Layout): Frame {
    var text := Down16(Wrap(cfg.stackTop - 16 - |cfg.argv0| - 1));
    var apple := Down16(Wrap(text - 16));
    var envp := Down16(Wrap(apple - 8));
    var argv := Down16(Wrap(envp - 16));
    Frame(text, apple, envp, argv)
  }

  function StoreText(rs: RegionMap, text: u64, path: Buffer): (r: Result<RegionMap, EmuError>) {
    var a :- WriteBytes(rs, text, path);
    WriteBytes(a, Wrap(text + |path|), [0])
  }

  function StoreArrays(rs: RegionMap, f: Frame): (r: Result<RegionMap, EmuError>) {
    var a :- WriteU64(rs, f.apple, f.text);
    var b :- WriteU64(a, Wrap(f.apple + 8), 0);
    var c :- WriteU64(b, f.envp, 0);
    var d :- WriteU64(c, f.argv, f.text);
    WriteU64(d, Wrap(f.argv + 8), 0)
  }

  function BuildStack(rs: RegionMap, cfg: Layout): (r: Result<RegionMap, EmuError>) {
    var f := StackFrame(cfg);
    var text :- StoreText(rs, f.text, cfg.argv0);
    StoreArrays(text, f)
  }

  // ---- 7. entry point -------------------------------------------------------------------------------------------

  function ResolveEntry(image: MachOImage, slide: u64): (r: Result<u64, EmuError>) {
    match image.entry
    case None => Err(NoEntryPoint)
    case Some(Main(off, _)) => Ok(Wrap(Wrap(TextVmaddr(image.segments) + slide) + off))
    case Some(Thread(vmaddr)) => Ok(Wrap(vmaddr + slide))
  }

  // ---- 8. the lazy table --------------------------------------------------------------------------------------------

  function LazyRecords(image: MachOImage, bytes: Buffer): (r: Result<seq<Dyld.LazyBind>, EmuError>) {
    if image.dyldInfo.None? || image.dyldInfo.value.lazyBindSize == 0 then Ok([])
    else match FileRange(bytes, image.dyldInfo.value.lazyBindOff, image.dyldInfo.value.lazyBindSize)
      case None => Err(StreamOutOfRange)
      case Some(stream) =>
        var t :- Dyld.LazyDecode(stream, Dyld.LAZY_INITIAL);
        Ok(t.out)
  }

  /** Entries keyed by sequence offset; a later entry replaces an earlier one. */
  function LazyTableOf(entries: seq<Dyld.LazyBind>, bases: Bases, n: nat): (t: LazyTable)
    requires n <= |entries|
  {
    if n == 0 then map[]
    else
      var t, lb := LazyTableOf(entries, bases, n - 1), entries[n - 1];
      match BaseOf(bases, lb.segIndex)
      case None => t
      case Some(base) => t[lb.offset := (lb.symbol, Wrap(base + lb.segOffset))]
  }

  // ---- the whole build ------------------------------------------------------------------------------------------------

  /** The image in memory with its pointers relocated and bound. */
  datatype Linked = Linked(placed: Placement, locs: seq<Rebase.Location>, rebased: RegionMap,
                           records: seq<Dyld.Bind>, bound: Binding)

  /** Steps 1 to 2. */
  function Link(rs: RegionMap, image: MachOImage, bytes: Buffer, cfg: Layout): (r: Result<Linked, EmuError>)
    ensures r.Ok? ==> |r.value.placed.bases| == |image.segments|
  {
    var segs := image.segments;
    var placed :- PlaceSegments(rs, segs, bytes, cfg.slide, |segs|);
    var locs :- RebaseLocations(image, bytes, cfg.slide);
    var rebased :- RebaseAll(placed.regions, locs, placed.bases, cfg.slide, |locs|);
    var records :- BindRecords(image, bytes);
    var bound := BindAll(Binding(rebased, NewStubs(cfg.trampolineBase, cfg.trampolineStride)),
                         records, placed.bases, |records|);
    Ok(Linked(placed, locs, rebased, records, bound))
  }

  /** The memory after each of the remaining steps. */
  datatype Finished = Finished(published: RegionMap, protected: RegionMap, stacked: RegionMap, final: RegionMap)

  /** Steps 3 to 6. */
  function Finish(l: Linked, segs: seq<MachSegment>, cfg: Layout): (r: Result<Finished, EmuError>)
    requires |l.placed.bases| == |segs|
  {
    var published :- PublishStubs(l.bound.regions, cfg.trampolineBase, StubBytes(l.bound.stubs));
    var protected :- RestoreAll(published, segs, l.placed.bases, |segs|);
    var stacked :- MapZeroed(protected, StackBase(cfg), cfg.stackSize, RW, Stack, "stack");
    var final :- BuildStack(stacked, cfg);
    Ok(Finished(published, protected, stacked, final))
  }

  /** Steps 7 and 8, and the result. */
  function Describe(l: Linked, image: MachOImage, bytes: Buffer, cfg: Layout): (r: Result<Process, EmuError>) {
    var entry :- ResolveEntry(image, cfg.slide);
    var lazy :- LazyRecords(image, bytes);
    var f := StackFrame(cfg);
    Ok(Process(entry, Down16(f.argv), [1, f.argv, f.envp, f.apple], l.bound.stubs.reverse,
               cfg.trampolineBase, Wrap(cfg.trampolineBase + StubBytes(l.bound.stubs)), l.bound.stubs.forward,
               LazyTableOf(lazy, l.placed.bases, |lazy|)))
  }

  datatype Stages = Stages(linked: Linked, finished: Finished, process: Process)

  function Load(rs: RegionMap, image: MachOImage, bytes: Buffer, cfg: Layout): (r: Result<Stages, EmuError>) {
    if IsEncrypted(image) then Err(Encrypted)
    else
      var linked :- Link(rs, image, bytes, cfg);
      var finished :- Finish(linked, image.segments, cfg);
      var process :- Describe(linked, image, bytes, cfg);
      Ok(Stages(linked, finished, process))
  }
}
