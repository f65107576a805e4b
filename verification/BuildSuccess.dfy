/** When a build succeeds: exactly when the streams parse and every range it asks for is free. */
module BuildSuccess {
  import opened Words
  import opened Regions
  import opened FlatMemory
  import opened Memory
  import opened StubTable
  import opened Image
  import opened Loader
  import opened Relocation
  import opened StackLayout
  import opened LoadLayout
  import Rebase = RebaseStream
  import Dyld = BindStream

  // ---- ranges -------------------------------------------------------------------------------------------------

  datatype Extent = Extent(start: u64, len: nat)

  ghost predicate Clear(a: Extent, b: Extent) {
    a.start + a.len <= b.start || b.start + b.len <= a.start
  }

  /** The range ends below the top of memory and meets no region. */
  ghost predicate Free(rs: RegionMap, e: Extent) {
    e.start + e.len < TWO_64 && forall b :: b in rs ==> !Overlaps(rs, b, e.start, e.start + e.len)
  }

  lemma {:induction false} FreeIsCheck(rs: RegionMap, base: u64, n: u64)
    requires Ordered(rs)
    ensures CheckFree(rs, base, n).None? <==> Free(rs, Extent(base, n))
  {
    CheckFreeIff(rs, base, n);
  }

  /** A region that displaces no bytes takes exactly its own extent out of the free ranges. */
  lemma {:induction false} FreeAfter(rs: RegionMap, base: u64, region: Region, e: Extent)
    requires region.data != [] && e.len > 0 && (base in rs ==> rs[base].data == [])
    ensures Free(rs[base := region], e) <==> Free(rs, e) && Clear(Extent(base, |region.data|), e)
  {
    var rs' := rs[base := region];
    var end := e.start + e.len;
    assert Overlaps(rs', base, e.start, end) <==> !Clear(Extent(base, |region.data|), e);
    assert base in rs ==> (Overlaps(rs, base, e.start, end) ==> Overlaps(rs', base, e.start, end));
    forall b | b in rs && b != base
      ensures Overlaps(rs', b, e.start, end) <==> Overlaps(rs, b, e.start, end)
    {
    }
  }

  lemma {:induction false} FreeSame(rs: RegionMap, rs': RegionMap, e: Extent)
    requires rs.Keys == rs'.Keys && forall k :: k in rs ==> |rs'[k].data| == |rs[k].data|
    ensures Free(rs, e) <==> Free(rs', e)
  {
    assert forall k :: k in rs <==> k in rs';
    forall b | b in rs
      ensures Overlaps(rs', b, e.start, e.start + e.len) <==> Overlaps(rs, b, e.start, e.start + e.len)
    {
    }
  }

  // ---- segments -------------------------------------------------------------------------------------------------

  function SegmentExtent(seg: MachSegment, bytes: Buffer, slide: u64): Extent {
    Extent(Runtime(seg, slide), |Contents(seg, bytes)|)
  }

  /** The segment's file range can be taken, its bytes fit its rounded size, and that size can be allocated. */
  predicate Loadable(seg: MachSegment, bytes: Buffer) {
    var r := SegmentBytes(seg, bytes);
    r.Ok? && |r.value| <= MapDataSize(seg.vmsize, r.value) < ALLOC_LIMIT
  }

  lemma {:induction false} PlaceOneIff(p: Placement, seg: MachSegment, bytes: Buffer, slide: u64)
    requires Ordered(p.regions) && IsMapped(seg)
    ensures PlaceSegment(p, seg, bytes, slide).Ok?
            <==> Loadable(seg, bytes) && Free(p.regions, SegmentExtent(seg, bytes, slide))
    ensures PlaceSegment(p, seg, bytes, slide).Ok? ==>
              PlaceSegment(p, seg, bytes, slide).value.regions
              == p.regions[Runtime(seg, slide) := LoadedRegion(seg, bytes, slide)]
  {
    hide Ordered, MapDataSize, Free, SegmentBytes, CheckFree, Padded;
    if SegmentBytes(seg, bytes).Ok? {
      var data := SegmentBytes(seg, bytes).value;
      var n := MapDataSize(seg.vmsize, data);
      if |data| <= n {
        PaddedLength(data, n);
        FreeIsCheck(p.regions, Runtime(seg, slide), n);
      }
    }
  }

  /** One of the first `n` segments is mapped at `b`. */
  ghost predicate Takes(segs: seq<MachSegment>, slide: u64, n: nat, b: u64)
    requires n <= |segs|
  {
    exists i :: 0 <= i < n && IsMapped(segs[i]) && Runtime(segs[i], slide) == b
  }

  /** Among the first `n`, segment `i` is mapped and the last one mapped at its base. Only an empty segment can
      have its base taken: no other is free for a second mapping, unless that one is empty. */
  ghost predicate Last(segs: seq<MachSegment>, slide: u64, n: nat, i: nat)
    requires i < n <= |segs|
  {
    IsMapped(segs[i]) && forall j :: i < j < n && IsMapped(segs[j]) ==> Runtime(segs[j], slide) != Runtime(segs[i], slide)
  }

  /** The regions after the first `n` segments: at each base the last segment there, and what was in memory
      before at the bases none of them took. */
  ghost predicate Layered(rs: RegionMap, rs': RegionMap, segs: seq<MachSegment>, bytes: Buffer, slide: u64, n: nat)
    requires n <= |segs|
  {
    && (forall i :: 0 <= i < n && Last(segs, slide, n, i) ==>
          Runtime(segs[i], slide) in rs' && rs'[Runtime(segs[i], slide)] == LoadedRegion(segs[i], bytes, slide))
    && (forall b :: b in rs && !Takes(segs, slide, n, b) ==> b in rs' && rs'[b] == rs[b])
    && (forall b :: b in rs' ==> b in rs || Takes(segs, slide, n, b))
  }

  lemma {:induction false} LayeredAtStart(rs: RegionMap, segs: seq<MachSegment>, bytes: Buffer, slide: u64)
    ensures Layered(rs, rs, segs, bytes, slide, 0)
  {
  }

  lemma {:induction false} LayeredSkip(
    rs: RegionMap, rs': RegionMap, segs: seq<MachSegment>, bytes: Buffer, slide: u64, n: nat
  )
    requires n < |segs| && Layered(rs, rs', segs, bytes, slide, n) && !IsMapped(segs[n])
    ensures Layered(rs, rs', segs, bytes, slide, n + 1)
  {
    hide IsMapped, Runtime, LoadedRegion, Takes, Last;
    forall i | 0 <= i < n + 1
      ensures Last(segs, slide, n + 1, i) <==> i < n && Last(segs, slide, n, i)
    {
      LastSkip(segs, slide, n, i);
    }
    forall b: u64
      ensures Takes(segs, slide, n + 1, b) <==> Takes(segs, slide, n, b)
    {
      TakesSkip(segs, slide, n, b);
    }
  }

  lemma {:induction false} TakesSome(segs: seq<MachSegment>, slide: u64, n: nat, b: u64)
    requires n <= |segs| && Takes(segs, slide, n, b)
    ensures n > 0
  {
  }

  lemma {:induction false} TakesSkip(segs: seq<MachSegment>, slide: u64, n: nat, b: u64)
    requires n < |segs| && !IsMapped(segs[n])
    ensures Takes(segs, slide, n + 1, b) <==> Takes(segs, slide, n, b)
  {
    hide IsMapped, Runtime;
  }

  lemma {:induction false} LastSkip(segs: seq<MachSegment>, slide: u64, n: nat, i: nat)
    requires i <= n < |segs| && !IsMapped(segs[n])
    ensures Last(segs, slide, n + 1, i) <==> i < n && Last(segs, slide, n, i)
  {
    hide IsMapped, Runtime;
  }

  lemma {:induction false} LayeredNext(
    rs: RegionMap, rs': RegionMap, segs: seq<MachSegment>, bytes: Buffer, slide: u64, n: nat
  )
    requires n < |segs| && Layered(rs, rs', segs, bytes, slide, n) && IsMapped(segs[n])
    ensures Layered(rs, rs'[Runtime(segs[n], slide) := LoadedRegion(segs[n], bytes, slide)], segs, bytes, slide, n + 1)
  {
    hide IsMapped, Runtime, LoadedRegion, Takes, Last;
    var base := Runtime(segs[n], slide);
    var rs'' := rs'[base := LoadedRegion(segs[n], bytes, slide)];
    forall b: u64
      ensures Takes(segs, slide, n + 1, b) <==> Takes(segs, slide, n, b) || b == base
    {
      TakesNext(segs, slide, n, b);
    }
    forall i | 0 <= i < n
      ensures Last(segs, slide, n + 1, i) <==> Last(segs, slide, n, i) && Runtime(segs[i], slide) != base
    {
      LastNext(segs, slide, n, i);
    }
    NewestIsLast(segs, slide, n);
    forall b | b in rs''
      ensures b in rs || Takes(segs, slide, n + 1, b)
    {
      TakesNext(segs, slide, n, b);
    }
  }

  lemma {:induction false} TakesNext(segs: seq<MachSegment>, slide: u64, n: nat, b: u64)
    requires n < |segs| && IsMapped(segs[n])
    ensures Takes(segs, slide, n + 1, b) <==> Takes(segs, slide, n, b) || b == Runtime(segs[n], slide)
  {
    hide IsMapped, Runtime;
  }

  lemma {:induction false} LastNext(segs: seq<MachSegment>, slide: u64, n: nat, i: nat)
    requires i < n < |segs| && IsMapped(segs[n])
    ensures Last(segs, slide, n + 1, i)
            <==> Last(segs, slide, n, i) && Runtime(segs[i], slide) != Runtime(segs[n], slide)
  {
    hide IsMapped, Runtime;
  }

  lemma {:induction false} NewestIsLast(segs: seq<MachSegment>, slide: u64, n: nat)
    requires n < |segs| && IsMapped(segs[n])
    ensures Last(segs, slide, n + 1, n)
  {
  }

  lemma {:induction false} PlacedLayered(rs: RegionMap, segs: seq<MachSegment>, bytes: Buffer, slide: u64, n: nat)
    requires n <= |segs| && Ordered(rs) && PlaceSegments(rs, segs, bytes, slide, n).Ok?
    ensures Layered(rs, PlaceSegments(rs, segs, bytes, slide, n).value.regions, segs, bytes, slide, n)
  {
    hide Ordered, Layered, PlaceSegment, LoadedRegion, Runtime;
    if n == 0 {
      LayeredAtStart(rs, segs, bytes, slide);
    } else {
      PlacedLayered(rs, segs, bytes, slide, n - 1);
      PlaceOrdered(rs, segs, bytes, slide, n - 1);
      var p := PlaceSegments(rs, segs, bytes, slide, n - 1).value;
      if IsMapped(segs[n - 1]) {
        PlaceOneIff(p, segs[n - 1], bytes, slide);
        LayeredNext(rs, p.regions, segs, bytes, slide, n - 1);
      } else {
        PlaceNothing(p, segs[n - 1], bytes, slide);
        LayeredSkip(rs, p.regions, segs, bytes, slide, n - 1);
      }
    }
  }

  /** The last segment at a base that was taken. */
  lemma {:induction false} LastAt(segs: seq<MachSegment>, slide: u64, n: nat, b: u64) returns (i: nat)
    requires n <= |segs| && Takes(segs, slide, n, b)
    ensures i < n && Last(segs, slide, n, i) && Runtime(segs[i], slide) == b
  {
    hide Takes, Last, Runtime, IsMapped;
    TakesSome(segs, slide, n, b);
    if IsMapped(segs[n - 1]) {
      if Runtime(segs[n - 1], slide) == b {
        i := n - 1;
        NewestIsLast(segs, slide, n - 1);
      } else {
        TakesNext(segs, slide, n - 1, b);
        i := LastAt(segs, slide, n - 1, b);
        LastNext(segs, slide, n - 1, i);
      }
    } else {
      TakesSkip(segs, slide, n - 1, b);
      i := LastAt(segs, slide, n - 1, b);
      LastSkip(segs, slide, n - 1, i);
    }
  }

  /** Once the first `n` segments are in place, the range is free: below the top of memory, and clear of the last
      segment at each base and of the earlier regions whose bases none of them took. */
  ghost predicate Fits(rs: RegionMap, segs: seq<MachSegment>, bytes: Buffer, slide: u64, n: nat, e: Extent)
    requires n <= |segs|
  {
    && e.start + e.len < TWO_64
    && (forall b :: b in rs && !Takes(segs, slide, n, b) ==> !Overlaps(rs, b, e.start, e.start + e.len))
    && (forall i :: 0 <= i < n && Last(segs, slide, n, i) ==> Clear(SegmentExtent(segs[i], bytes, slide), e))
  }

  lemma {:induction false} OverlapsIff(rs: RegionMap, b: u64, e: Extent)
    requires b in rs
    ensures Overlaps(rs, b, e.start, e.start + e.len) <==> !Clear(Extent(b, |rs[b].data|), e)
  {
  }

  lemma {:induction false} FitsIff(
    rs: RegionMap, rs': RegionMap, segs: seq<MachSegment>, bytes: Buffer, slide: u64, n: nat, e: Extent
  )
    requires n <= |segs| && Layered(rs, rs', segs, bytes, slide, n)
    ensures Free(rs', e) <==> Fits(rs, segs, bytes, slide, n, e)
  {
    hide IsMapped, Runtime, Contents, Takes, Last, Clear, Overlaps;
    forall i | 0 <= i < n && Last(segs, slide, n, i)
      ensures var b := Runtime(segs[i], slide);
              b in rs' && (Overlaps(rs', b, e.start, e.start + e.len) <==> !Clear(SegmentExtent(segs[i], bytes, slide), e))
    {
      OverlapsIff(rs', Runtime(segs[i], slide), e);
    }
    forall b | b in rs && !Takes(segs, slide, n, b)
      ensures b in rs' && (Overlaps(rs', b, e.start, e.start + e.len) <==> Overlaps(rs, b, e.start, e.start + e.len))
    {
      OverlapsIff(rs', b, e);
      OverlapsIff(rs, b, e);
    }
    forall b | b in rs' && Takes(segs, slide, n, b)
      ensures exists i :: 0 <= i < n && Last(segs, slide, n, i) && Runtime(segs[i], slide) == b
    {
      var i := LastAt(segs, slide, n, b);
    }
  }

  /** Each of the first `n` mapped segments can be loaded, and its range is free when its turn comes. */
  ghost predicate SegmentsFit(rs: RegionMap, segs: seq<MachSegment>, bytes: Buffer, slide: u64, n: nat)
    requires n <= |segs|
  {
    forall j :: 0 <= j < n && IsMapped(segs[j]) ==>
      Loadable(segs[j], bytes) && Fits(rs, segs, bytes, slide, j, SegmentExtent(segs[j], bytes, slide))
  }

  /** Placing the segments succeeds exactly when each can be loaded and fits, whatever the sizes. */
  lemma {:induction false} PlaceIff(rs: RegionMap, segs: seq<MachSegment>, bytes: Buffer, slide: u64, n: nat)
    requires n <= |segs| && Ordered(rs)
    ensures PlaceSegments(rs, segs, bytes, slide, n).Ok? <==> SegmentsFit(rs, segs, bytes, slide, n)
  {
    hide Ordered, Free, PlaceSegment, Fits, SegmentExtent, Loadable, Layered;
    if n > 0 {
      PlaceIff(rs, segs, bytes, slide, n - 1);
      if PlaceSegments(rs, segs, bytes, slide, n - 1).Ok? {
        var p := PlaceSegments(rs, segs, bytes, slide, n - 1).value;
        PlaceOrdered(rs, segs, bytes, slide, n - 1);
        if IsMapped(segs[n - 1]) {
          PlaceOneIff(p, segs[n - 1], bytes, slide);
          PlacedLayered(rs, segs, bytes, slide, n - 1);
          FitsIff(rs, p.regions, segs, bytes, slide, n - 1, SegmentExtent(segs[n - 1], bytes, slide));
        } else {
          PlaceNothing(p, segs[n - 1], bytes, slide);
        }
      }
    }
  }

  // ---- rebasing and binding do not fail --------------------------------------------------------------------------

  /** What can be read can be written, as in a memory that holds only the heap. */
  ghost predicate ReadableIsWritable(rs: RegionMap) {
    forall k :: k in rs && rs[k].prot.read ==> rs[k].prot.write
  }

  lemma {:induction false} PlaceKeepsWritable(
    rs: RegionMap, segs: seq<MachSegment>, bytes: Buffer, slide: u64, n: nat
  )
    requires n <= |segs| && ReadableIsWritable(rs) && PlaceSegments(rs, segs, bytes, slide, n).Ok?
    ensures ReadableIsWritable(PlaceSegments(rs, segs, bytes, slide, n).value.regions)
  {
    hide CheckFree, SegmentBytes, MapDataSize, Padded;
    if n > 0 {
      PlaceKeepsWritable(rs, segs, bytes, slide, n - 1);
    }
  }

  lemma {:induction false} FrameKeepsWritable(rs: RegionMap, rs': RegionMap)
    requires ReadableIsWritable(rs) && SameFrame(rs, rs')
    ensures ReadableIsWritable(rs')
  {
    assert forall k :: k in rs' ==> k in rs;
  }

  lemma {:induction false} RebaseOneOk(rs: RegionMap, loc: Rebase.Location, bases: Bases, slide: u64)
    requires ReadableIsWritable(rs)
    ensures RebaseOne(rs, loc, bases, slide).Ok?
  {
    hide Le, LeValue, AtOrBelow;
  }

  lemma {:induction false} RebaseOk(rs: RegionMap, locs: seq<Rebase.Location>, bases: Bases, slide: u64, n: nat)
    requires n <= |locs| && Ordered(rs) && ReadableIsWritable(rs)
    ensures RebaseAll(rs, locs, bases, slide, n).Ok?
  {
    hide Ordered, SameFrame, ReadableIsWritable, RebaseOne;
    if n > 0 {
      RebaseOk(rs, locs, bases, slide, n - 1);
      RebaseFrame(rs, locs, bases, slide, n - 1);
      FrameKeepsWritable(rs, RebaseAll(rs, locs, bases, slide, n - 1).value);
      RebaseOneOk(RebaseAll(rs, locs, bases, slide, n - 1).value, locs[n - 1], bases, slide);
    }
  }

  // ---- the size of the stub page -----------------------------------------------------------------------------------

  /** The stub table after the first `n` records, which does not depend on memory. */
  function StubsAfter(t: Stubs, recs: seq<Dyld.Bind>, bases: Bases, n: nat): Stubs
    requires n <= |recs|
  {
    if n == 0 then t
    else if BindSlot(recs[n - 1], bases).None? then StubsAfter(t, recs, bases, n - 1)
    else Resolve(StubsAfter(t, recs, bases, n - 1), recs[n - 1].symbol).0
  }

  lemma {:induction false} StubsAreAfter(b: Binding, recs: seq<Dyld.Bind>, bases: Bases, n: nat)
    requires n <= |recs|
    ensures BindAll(b, recs, bases, n).stubs == StubsAfter(b.stubs, recs, bases, n)
  {
    hide Resolve, WriteU64;
    if n > 0 {
      StubsAreAfter(b, recs, bases, n - 1);
    }
  }

  /** The extent of the stub page for these bind records. */
  function PageExtent(image: MachOImage, recs: seq<Dyld.Bind>, cfg: Layout): Extent {
    var stubs := StubsAfter(NewStubs(cfg.trampolineBase, cfg.trampolineStride), recs,
                            BasesOf(image.segments, cfg.slide), |recs|);
    Extent(cfg.trampolineBase, MapSize(StubBytes(stubs)))
  }

  function StackExtent(cfg: Layout): Extent {
    Extent(StackBase(cfg), MapSize(cfg.stackSize))
  }

  // ---- the theorem ----------------------------------------------------------------------------------------------------

  /** The streams the build parses are all well formed. */
  predicate StreamsParse(image: MachOImage, bytes: Buffer, cfg: Layout) {
    && RebaseLocations(image, bytes, cfg.slide).Ok?
    && BindRecords(image, bytes).Ok?
    && LazyRecords(image, bytes).Ok?
  }

  /** Every base ends up with bytes, so that its protection can be set: the last segment there has some, or the
      stub page is mapped there. */
  ghost predicate BasesHold(segs: seq<MachSegment>, bytes: Buffer, slide: u64, page: u64) {
    forall i :: 0 <= i < |segs| && Last(segs, slide, |segs|, i) ==>
      Contents(segs[i], bytes) != [] || Runtime(segs[i], slide) == page
  }

  /** Segments, stub page and stack can be allocated, each in its turn is free, and every base holds bytes. */
  ghost predicate RangesFit(rs: RegionMap, image: MachOImage, recs: seq<Dyld.Bind>, bytes: Buffer, cfg: Layout) {
    var segs, page, stack := image.segments, PageExtent(image, recs, cfg), StackExtent(cfg);
    && SegmentsFit(rs, segs, bytes, cfg.slide, |segs|)
    && Fits(rs, segs, bytes, cfg.slide, |segs|, page) && page.len < ALLOC_LIMIT
    && BasesHold(segs, bytes, cfg.slide, page.start)
    && Fits(rs, segs, bytes, cfg.slide, |segs|, stack) && Clear(page, stack) && stack.len < ALLOC_LIMIT
  }

  /** Linking succeeds exactly when the two streams it reads parse and the segments fit. */
  lemma {:induction false} LinkIff(rs: RegionMap, image: MachOImage, bytes: Buffer, cfg: Layout)
    requires Ordered(rs) && ReadableIsWritable(rs)
    ensures Link(rs, image, bytes, cfg).Ok?
            <==> RebaseLocations(image, bytes, cfg.slide).Ok? && BindRecords(image, bytes).Ok?
                 && SegmentsFit(rs, image.segments, bytes, cfg.slide, |image.segments|)
  {
    hide Ordered, ReadableIsWritable, RebaseLocations, BindRecords, SegmentsFit, PlaceSegments, RebaseAll, BindAll;
    var segs := image.segments;
    PlaceIff(rs, segs, bytes, cfg.slide, |segs|);
    if PlaceSegments(rs, segs, bytes, cfg.slide, |segs|).Ok? && RebaseLocations(image, bytes, cfg.slide).Ok? {
      var p := PlaceSegments(rs, segs, bytes, cfg.slide, |segs|).value;
      var locs := RebaseLocations(image, bytes, cfg.slide).value;
      PlaceOrdered(rs, segs, bytes, cfg.slide, |segs|);
      PlaceKeepsWritable(rs, segs, bytes, cfg.slide, |segs|);
      RebaseOk(p.regions, locs, p.bases, cfg.slide, |locs|);
    }
  }

  /** What linking leaves free, and the bases at which it leaves bytes. */
  lemma {:induction false} LinkFree(rs: RegionMap, image: MachOImage, bytes: Buffer, cfg: Layout, e: Extent)
    requires Ordered(rs) && Link(rs, image, bytes, cfg).Ok?
    ensures Free(Link(rs, image, bytes, cfg).value.bound.regions, e)
            <==> Fits(rs, image.segments, bytes, cfg.slide, |image.segments|, e)
  {
    hide Ordered, Free, Fits, Layered, RebaseLocations, BindRecords, PlaceSegments, RebaseAll, BindAll;
    var l, segs := Link(rs, image, bytes, cfg).value, image.segments;
    LinkFrame(rs, image, bytes, cfg);
    PlacedLayered(rs, segs, bytes, cfg.slide, |segs|);
    FitsIff(rs, l.placed.regions, segs, bytes, cfg.slide, |segs|, e);
    FreeSame(l.placed.regions, l.bound.regions, e);
  }

  /** The listed bases hold bytes, except that `page` need not. */
  ghost predicate SolidBut(rs: RegionMap, bases: Bases, page: u64) {
    forall i :: 0 <= i < |bases| && bases[i].Some? && bases[i].value != page ==>
      bases[i].value in rs && rs[bases[i].value].data != []
  }

  lemma {:induction false} LayeredBases(
    rs: RegionMap, rs': RegionMap, segs: seq<MachSegment>, bytes: Buffer, slide: u64, page: u64
  )
    requires Layered(rs, rs', segs, bytes, slide, |segs|)
    ensures SolidBut(rs', BasesOf(segs, slide), page) <==> BasesHold(segs, bytes, slide, page)
  {
    hide IsMapped, Runtime, Contents;
    if BasesHold(segs, bytes, slide, page) {
      forall i | 0 <= i < |segs| && IsMapped(segs[i]) && Runtime(segs[i], slide) != page
        ensures Runtime(segs[i], slide) in rs' && rs'[Runtime(segs[i], slide)].data != []
      {
        assert Takes(segs, slide, |segs|, Runtime(segs[i], slide));
        var j := LastAt(segs, slide, |segs|, Runtime(segs[i], slide));
      }
    }
    if SolidBut(rs', BasesOf(segs, slide), page) {
      forall i | 0 <= i < |segs| && Last(segs, slide, |segs|, i)
        ensures Contents(segs[i], bytes) != [] || Runtime(segs[i], slide) == page
      {
        assert BasesOf(segs, slide)[i] == Some(Runtime(segs[i], slide));
      }
    }
  }

  lemma {:induction false} FrameSolid(rs: RegionMap, rs': RegionMap, bases: Bases, page: u64)
    requires SameFrame(rs, rs')
    ensures SolidBut(rs, bases, page) <==> SolidBut(rs', bases, page)
  {
    assert forall k :: k in rs <==> k in rs';
    assert forall k :: k in rs ==> |rs'[k].data| == |rs[k].data|;
  }

  lemma {:induction false} LinkSolid(rs: RegionMap, image: MachOImage, bytes: Buffer, cfg: Layout, page: u64)
    requires Ordered(rs) && Link(rs, image, bytes, cfg).Ok?
    ensures var l := Link(rs, image, bytes, cfg).value;
            SolidBut(l.bound.regions, l.placed.bases, page) <==> BasesHold(image.segments, bytes, cfg.slide, page)
  {
    hide Ordered, Layered, SolidBut, BasesHold, BasesOf, SameFrame, RebaseLocations, BindRecords, PlaceSegments, RebaseAll,
         BindAll;
    var l, segs := Link(rs, image, bytes, cfg).value, image.segments;
    LinkFrame(rs, image, bytes, cfg);
    LinkBases(rs, image, bytes, cfg);
    PlacedLayered(rs, segs, bytes, cfg.slide, |segs|);
    LayeredBases(rs, l.placed.regions, segs, bytes, cfg.slide, page);
    FrameSolid(l.placed.regions, l.bound.regions, l.placed.bases, page);
  }

  /** The stub page of a linked image is the one known before. */
  lemma {:induction false} LinkedPage(rs: RegionMap, image: MachOImage, bytes: Buffer, cfg: Layout)
    requires Ordered(rs) && Link(rs, image, bytes, cfg).Ok?
    ensures var l := Link(rs, image, bytes, cfg).value;
            && BindRecords(image, bytes) == Ok(l.records)
            && PageExtent(image, l.records, cfg) == Extent(cfg.trampolineBase, MapSize(StubBytes(l.bound.stubs)))
  {
    hide Ordered, RebaseLocations, BindRecords, PlaceSegments, RebaseAll, BindAll, StubBytes, StubsAfter, BasesOf, BasesIn;
    var l := Link(rs, image, bytes, cfg).value;
    LinkBases(rs, image, bytes, cfg);
    StubsAreAfter(Binding(l.rebased, NewStubs(cfg.trampolineBase, cfg.trampolineStride)), l.records, l.placed.bases,
                  |l.records|);
  }

  /** The remaining steps succeed exactly when the stub page is free, every base then holds bytes, and the stack is
      free beside the page. */
  lemma {:induction false} FinishIff(l: Linked, segs: seq<MachSegment>, cfg: Layout)
    requires Ordered(l.bound.regions) && |l.placed.bases| == |segs| && StackFits(cfg)
    requires BasesIn(l.bound.regions, l.placed.bases)
    ensures var page, stack := Extent(cfg.trampolineBase, MapSize(StubBytes(l.bound.stubs))), StackExtent(cfg);
            Finish(l, segs, cfg).Ok?
            <==> Free(l.bound.regions, page) && page.len < ALLOC_LIMIT
                 && SolidBut(l.bound.regions, l.placed.bases, page.start)
                 && Free(l.bound.regions, stack) && Clear(page, stack) && stack.len < ALLOC_LIMIT
  {
    hide Ordered, PublishStubs, RestoreAll, MapZeroed, BuildStack, StackFits, StackFrame, FrameHolds, Free, Clear,
         StubBytes, StackBase, StubPage, BasesIn, SolidBases, SolidBut, SameContents, Restored, MapSize;
    var base, size := cfg.trampolineBase, StubBytes(l.bound.stubs);
    PublishIff(l.bound.regions, base, size);
    if PublishStubs(l.bound.regions, base, size).Ok? {
      var published := PublishStubs(l.bound.regions, base, size).value;
      PublishEffect(l.bound.regions, base, size);
      PageHolds(base, size);
      SolidAfterPublish(l.bound.regions, l.placed.bases, base, StubPage(base, size));
      RestoreEffect(published, segs, l.placed.bases, |segs|);
      if RestoreAll(published, segs, l.placed.bases, |segs|).Ok? {
        var protected := RestoreAll(published, segs, l.placed.bases, |segs|).value;
        RestoreContents(published, segs, l.placed.bases, |segs|);
        SameContentsOrdered(published, protected);
        StackIff(l.bound.regions, published, protected, base, size, cfg);
      }
    }
  }

  lemma {:induction false} SolidAfterPublish(rs: RegionMap, bases: Bases, base: u64, page: Region)
    requires BasesIn(rs, bases) && page.data != []
    ensures BasesIn(rs[base := page], bases)
    ensures SolidBases(rs[base := page], bases, |bases|) <==> SolidBut(rs, bases, base)
  {
  }

  lemma {:induction false} PublishIff(rs: RegionMap, base: u64, size: u64)
    requires Ordered(rs) && PageMultiple(size)
    ensures PublishStubs(rs, base, size).Ok? <==> Free(rs, Extent(base, MapSize(size))) && MapSize(size) < ALLOC_LIMIT
  {
    hide Ordered, Free, CheckFree, MapSize, Sled;
    FreeIsCheck(rs, base, MapSize(size));
  }

  lemma {:induction false} StackIff(
    bound: RegionMap, published: RegionMap, protected: RegionMap, base: u64, size: u64, cfg: Layout
  )
    requires Ordered(protected) && SameContents(published, protected) && StackFits(cfg) && PageMultiple(size)
    requires published == bound[base := StubPage(base, size)] && (base in bound ==> bound[base].data == [])
    ensures Free(bound, StackExtent(cfg)) && Clear(Extent(base, MapSize(size)), StackExtent(cfg))
            && StackExtent(cfg).len < ALLOC_LIMIT
            <==> MapZeroed(protected, StackBase(cfg), cfg.stackSize, RW, Stack, "stack").Ok?
    ensures MapZeroed(protected, StackBase(cfg), cfg.stackSize, RW, Stack, "stack").Ok? ==>
              BuildStack(MapZeroed(protected, StackBase(cfg), cfg.stackSize, RW, Stack, "stack").value, cfg).Ok?
  {
    hide Ordered, Free, Clear, CheckFree, StackFits, StackBase, BuildStack, MapSize, StubPage, FrameHolds;
    StackLength(cfg);
    PageLength(base, size);
    FreeAfter(bound, base, StubPage(base, size), StackExtent(cfg));
    FreeSame(published, protected, StackExtent(cfg));
    FreeIsCheck(protected, StackBase(cfg), MapSize(cfg.stackSize));
    if MapZeroed(protected, StackBase(cfg), cfg.stackSize, RW, Stack, "stack").Ok? {
      InitialStack(protected, cfg, MapZeroed(protected, StackBase(cfg), cfg.stackSize, RW, Stack, "stack").value);
    }
  }

  lemma {:induction false} StackLength(cfg: Layout)
    requires StackFits(cfg)
    ensures MapSize(cfg.stackSize) > 0
  {
    hide Down16;
    PageUpIs(Max(cfg.stackSize, 1));
  }

  lemma PageLength(base: u64, size: u64)
    requires PageMultiple(size)
    ensures |StubPage(base, size).data| == MapSize(size) > 0 && StubPage(base, size).data != []
  {
    hide MapSize, Sled;
    WholePages(size);
    PaddedLength(Sled(size), MapSize(size));
  }

  /** For every image, every stack that fits its frame and every memory in which what can be read can be
      written: the build succeeds if and only if the image is not encrypted and has an entry point, its streams
      parse, and segments, stub page and stack fit. */
  lemma {:induction false} LoadIff(rs: RegionMap, image: MachOImage, bytes: Buffer, cfg: Layout)
    requires Ordered(rs) && ReadableIsWritable(rs) && StackFits(cfg)
    ensures Load(rs, image, bytes, cfg).Ok?
            <==> (image.encryption.Some? ==> image.encryption.value.cryptid == 0) && image.entry.Some? && StreamsParse(image, bytes, cfg)
                 && RangesFit(rs, image, BindRecords(image, bytes).value, bytes, cfg)
  {
    hide Ordered, ReadableIsWritable, StackFits, RebaseLocations, BindRecords, LazyRecords, SegmentsFit, Link, Finish, Free,
         Clear, Fits, StubBytes, StackBase, MapSize, BasesIn, BasesHold, BasesOf, SolidBut, SameFrame;
    LinkIff(rs, image, bytes, cfg);
    if Link(rs, image, bytes, cfg).Ok? {
      var l := Link(rs, image, bytes, cfg).value;
      LinkFrame(rs, image, bytes, cfg);
      LinkBases(rs, image, bytes, cfg);
      LinkedPage(rs, image, bytes, cfg);
      FinishIff(l, image.segments, cfg);
      LinkSolid(rs, image, bytes, cfg, cfg.trampolineBase);
      LinkFree(rs, image, bytes, cfg, PageExtent(image, l.records, cfg));
      LinkFree(rs, image, bytes, cfg, StackExtent(cfg));
    }
  }

  /** The entry point moves with the slide, whichever command it comes from. */
  lemma {:induction false} EntrySlides(image: MachOImage, slide: u64)
    ensures ResolveEntry(image, slide)
            == match ResolveEntry(image, 0)
               case Ok(entry) => Ok(Wrap(entry + slide))
               case Err(e) => Err(e)
  {
    hide Wrap;
    match image.entry
    case None =>
    case Some(Main(off, _)) =>
      var text := TextVmaddr(image.segments);
      WrapPlus(text + slide, off);
      WrapPlus(text + 0, off);
      WrapPlus(text + 0 + off, slide);
    case Some(Thread(vmaddr)) =>
      WrapPlus(vmaddr + 0, slide);
  }
}
