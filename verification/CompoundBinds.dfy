/** Lazy binding need not be total: a compound bind can lead the lazy parser to a symbol that no record imports,
    so that the condition of `Imports.LazyBindingTotalIff` fails in a process that loads. */
module CompoundBinds {
  import opened Words
  import opened Regions
  import opened FlatMemory
  import opened Memory
  import opened StubTable
  import opened Image
  import opened Loader
  import opened Relocation
  import opened StackLayout
  import opened LoadLayout
  import opened Imports
  import opened BuildSuccess
  import Dyld = BindStream

  /** Only symbols of records get stubs, and each takes at most one stride. */
  lemma {:induction false} StubsOfRecords(t: Stubs, recs: seq<Dyld.Bind>, bases: Bases, n: nat)
    requires n <= |recs| && t.next + t.stride * n < TWO_64
    ensures var t' := StubsAfter(t, recs, bases, n);
            && t'.stride == t.stride && t'.base == t.base && t.next <= t'.next <= t.next + t.stride * n
            && forall s :: s in t'.forward ==> s in t.forward || exists j :: 0 <= j < n && recs[j].symbol == s
  {
    hide BindSlot, Wrap;
    if n > 0 {
      StrideStep(t.stride, n - 1, n);
      StubsOfRecords(t, recs, bases, n - 1);
      var prev := StubsAfter(t, recs, bases, n - 1);
      WrapSmall(prev.next + prev.stride);
    }
  }

  /** A program without bursts emits at most one record per instruction. */
  lemma {:induction false} FewRecords(ops: seq<Dyld.Fetched>, at: Dyld.Bind)
    requires forall i :: 0 <= i < |ops| ==> !ops[i].insn.DoBindTimesSkipping?
    ensures |Dyld.Run(ops, at).out| <= |ops|
  {
    if ops != [] {
      FewRecords(ops[1..], Dyld.Step(ops[0].insn, at).state);
    }
  }

  // ---- the process ------------------------------------------------------------------------------------------------

  /** The five bytes of `Imports.CompoundDesynchronises`, as a file that is all lazy stream. */
  const STREAM: seq<byte> := [0xA0, 0x40, 0x51, 0x00, 0x90]

  const SEGMENT: MachSegment := MachSegment("__DATA", 0x1000_0000, 0x4000, 0, 0, RW, RW, [])

  function CompoundImage(): MachOImage {
    MachOImage(0, 0, 0, [SEGMENT], [], None, Some(Thread(0)), None, Some(DyldInfo(0, 0, 0, 0, 0, 5, 0, 0)), None, None,
               None, None)
  }

  function CompoundLayout(): Layout {
    Layout(0, 0x2000_0000, 0x4000, 0x3000_0000, 16, [])
  }

  /** The full parser resolves at most four records, all of the empty symbol. */
  lemma CompoundRecords() returns (t: Dyld.Trace)
    ensures Dyld.Decode(STREAM, Dyld.INITIAL) == Ok(t)
    ensures |t.out| <= 4 && forall r :: r in t.out ==> r.symbol == ""
  {
    hide Dyld.Disassemble, Dyld.Run, Dyld.Fetch;
    CompoundFullView(STREAM);
    CompoundProgram(STREAM);
    FewRecords(Dyld.Disassemble(STREAM).value, Dyld.INITIAL);
    t := Dyld.Decode(STREAM, Dyld.INITIAL).value;
  }

  lemma CompoundStreams() returns (recs: seq<Dyld.Bind>)
    ensures |recs| <= 4 && forall r :: r in recs ==> r.symbol == ""
    ensures RebaseLocations(CompoundImage(), STREAM, 0) == Ok([])
    ensures BindRecords(CompoundImage(), STREAM) == Ok(recs)
    ensures LazyRecords(CompoundImage(), STREAM) == Ok([Dyld.LazyBind(0, 0, 0, "Q")])
  {
    hide Dyld.Decode, Dyld.LazyDecode;
    var t := CompoundRecords();
    CompoundDesynchronises();
    assert FileRange(STREAM, 0, 5) == Some(STREAM) by {
      assert STREAM[0..5] == STREAM;
    }
    recs := t.out;
    assert [] + recs == recs;
  }

  /** Memory as `GuestMemory::new` leaves it, with the heap above everything the image asks for, as it is by default
      (`heap_base` is 0x1_2000_0000). */
  ghost predicate NewMemory(rs: RegionMap, heapBase: u64, heapSize: u64) {
    MapZeroed(map[], heapBase, PageUp(heapSize), RW, Heap, "heap") == Ok(rs) && 0x4000_0000 <= heapBase
  }

  lemma {:induction false} NewMemoryIs(rs: RegionMap, heapBase: u64, heapSize: u64)
    requires NewMemory(rs, heapBase, heapSize)
    ensures Ordered(rs) && ReadableIsWritable(rs) && 0x4000_0000 <= heapBase && forall b :: b in rs ==> b == heapBase
  {
    hide CheckFree, PageUp, Zeros;
    ZerosLength(MapSize(PageUp(heapSize)));
    InsertOrdered(map[], heapBase, rs[heapBase]);
  }

  /** Below the heap, a range fits once the segment before it is clear of it. */
  lemma {:induction false} FitsBelowHeap(rs: RegionMap, heapBase: u64, seg: MachSegment, bytes: Buffer, n: nat, e: Extent)
    requires n <= 1 && forall b :: b in rs ==> b == heapBase
    requires e.start + e.len <= heapBase
    requires n == 1 ==> Clear(SegmentExtent(seg, bytes, 0), e)
    ensures Fits(rs, [seg], bytes, 0, n, e)
  {
    hide Takes, SegmentExtent, Clear, Last;
  }

  /** An image with one segment fits below the heap when segment, stub page and stack are clear of one another. */
  lemma {:induction false} LoneSegmentFits(rs: RegionMap, heapBase: u64, image: MachOImage, seg: MachSegment,
                                           recs: seq<Dyld.Bind>, bytes: Buffer, cfg: Layout)
    requires image.segments == [seg] && cfg.slide == 0 && forall b :: b in rs ==> b == heapBase
    requires Loadable(seg, bytes) && Contents(seg, bytes) != []
    requires var e, page, stack := SegmentExtent(seg, bytes, 0), PageExtent(image, recs, cfg), StackExtent(cfg);
             && e.start + e.len <= heapBase && page.start + page.len <= heapBase && stack.start + stack.len <= heapBase
             && Clear(e, page) && Clear(e, stack) && Clear(page, stack)
             && page.len < ALLOC_LIMIT && stack.len < ALLOC_LIMIT
    ensures RangesFit(rs, image, recs, bytes, cfg)
  {
    hide PageExtent, StackExtent, Loadable, Contents, Runtime, Last, Clear, SegmentExtent, Fits;
    FitsBelowHeap(rs, heapBase, seg, bytes, 0, SegmentExtent(seg, bytes, 0));
    FitsBelowHeap(rs, heapBase, seg, bytes, 1, StackExtent(cfg));
    FitsBelowHeap(rs, heapBase, seg, bytes, 1, PageExtent(image, recs, cfg));
  }

  lemma CompoundSegment()
    ensures SegmentBytes(SEGMENT, STREAM) == Ok([]) && MapDataSize(SEGMENT.vmsize, []) == 0x4000
    ensures |Contents(SEGMENT, STREAM)| == 0x4000 && Runtime(SEGMENT, 0) == 0x1000_0000
  {
    PageUpIs(0x4000);
    hide PageUp;
    PaddedLength([], 0x4000);
  }

  lemma CompoundStack()
    ensures StackFits(CompoundLayout()) && StackExtent(CompoundLayout()) == Extent(0x1FFF_C000, 0x4000)
  {
    MapSizeIs(0x4000);
  }

  lemma {:induction false} CompoundPage(recs: seq<Dyld.Bind>)
    requires |recs| <= 4
    ensures PageExtent(CompoundImage(), recs, CompoundLayout()) == Extent(0x3000_0000, 0x4000)
  {
    hide BasesOf, StubsAfter, MapSize, PageUp, Wrap;
    var bases := BasesOf([SEGMENT], 0);
    var t := StubsAfter(NewStubs(0x3000_0000, 16), recs, bases, |recs|);
    StubsOfRecords(NewStubs(0x3000_0000, 16), recs, bases, |recs|);
    WrapSmall(t.next - t.base);
    PageUpIs(0x4000);
    MapSizeIs(0x4000);
  }

  /** From every memory with a new heap the build succeeds, and its lazy table sends offset 0 to the symbol `Q`, for
      which there is no stub: at that offset the binder of the loaded machine does meet an unresolved symbol. */
  lemma {:induction false} CompoundBreaksTotality(rs: RegionMap, heapBase: u64, heapSize: u64)
    requires NewMemory(rs, heapBase, heapSize)
    ensures Load(rs, CompoundImage(), STREAM, CompoundLayout()).Ok?
    ensures var p := Load(rs, CompoundImage(), STREAM, CompoundLayout()).value.process;
            0 in p.lazyBinds && p.lazyBinds[0].0 == "Q" && "Q" !in p.symbolStubs
  {
    hide RangesFit, Link, Load, StackFits, RebaseLocations, BindRecords, LazyRecords, NewMemory, Ordered, ReadableIsWritable,
         Imported, BasesOf, LazyTableOf, PageExtent, StackExtent, SegmentBytes, MapDataSize, Contents, Runtime;
    var recs := CompoundStreams();
    NewMemoryIs(rs, heapBase, heapSize);
    CompoundSegment();
    CompoundStack();
    CompoundPage(recs);
    assert Contents(SEGMENT, STREAM) != [];
    LoneSegmentFits(rs, heapBase, CompoundImage(), SEGMENT, recs, STREAM, CompoundLayout());
    LoadIff(rs, CompoundImage(), STREAM, CompoundLayout());
    LoadedTables(rs, CompoundImage(), STREAM, CompoundLayout());
    NotImported(recs);
    OneLazyEntry();
  }

  lemma {:induction false} NotImported(recs: seq<Dyld.Bind>)
    requires forall r :: r in recs ==> r.symbol == ""
    ensures !Imported([SEGMENT], recs, "Q")
  {
  }

  lemma OneLazyEntry()
    ensures var t := LazyTableOf([Dyld.LazyBind(0, 0, 0, "Q")], BasesOf([SEGMENT], 0), 1); 0 in t && t[0].0 == "Q"
  {
  }
}
