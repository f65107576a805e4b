/** `build_process` as it runs: loops over segments, locations and records that update the
    memory object in place, each proved against the corresponding stage of `Loader.Load`. */
module ProcessBuilder {
  import opened Words
  import opened Regions
  import opened FlatMemory
  import opened Memory
  import opened StubTable
  import opened Image
  import opened Loader
  import Rebase = RebaseStream
  import Dyld = BindStream

  // ---- write xor execute ------------------------------------------------------------------------------

  ghost predicate WxFree(rs: RegionMap) {
    forall b :: b in rs ==> !(rs[b].prot.write && rs[b].prot.exec)
  }

  /** Every layout recorded from index `from` on is free of writable code. */
  ghost predicate NeverWx(history: seq<RegionMap>, from: nat) {
    forall i :: from <= i < |history| ==> WxFree(history[i])
  }

  /** The history only grew, and stays write-xor-execute if it was. */
  twostate predicate StaysWx(mem: GuestMemory)
    reads mem
  {
    && old(mem.history) <= mem.history
    && (old(WxFree(mem.regions)) ==> WxFree(mem.regions) && NeverWx(mem.history, |old(mem.history)|))
  }

  lemma {:induction false} DataKeepsWx(rs: RegionMap, addr: u64, patch: seq<byte>)
    requires WxFree(rs) && WriteBytes(rs, addr, patch).Ok?
    ensures WxFree(WriteBytes(rs, addr, patch).value)
  {
  }

  lemma {:induction false} InsertKeepsWx(rs: RegionMap, base: u64, region: Region)
    requires !(region.prot.write && region.prot.exec)
    ensures WxFree(rs) ==> WxFree(rs[base := region])
  {
  }

  lemma {:induction false} ProtectKeepsWx(rs: RegionMap, addr: u64, prot: Protection)
    requires WxFree(rs) && Protect(rs, addr, prot).Ok? && !(prot.write && prot.exec)
    ensures WxFree(Protect(rs, addr, prot).value)
  {
  }

  // ---- prefixes that fail, fail for good -----------------------------------------------------------------

  lemma {:induction false} PlaceFails(
    rs: RegionMap, segs: seq<MachSegment>, bytes: Buffer, slide: u64, i: nat, n: nat
  )
    requires i <= n <= |segs| && PlaceSegments(rs, segs, bytes, slide, i).Err?
    ensures PlaceSegments(rs, segs, bytes, slide, n) == PlaceSegments(rs, segs, bytes, slide, i)
    decreases n
  {
    if i < n {
      PlaceFails(rs, segs, bytes, slide, i, n - 1);
    }
  }

  lemma {:induction false} RebaseFails(
    rs: RegionMap, locs: seq<Rebase.Location>, bases: Bases, slide: u64, i: nat, n: nat
  )
    requires i <= n <= |locs| && RebaseAll(rs, locs, bases, slide, i).Err?
    ensures RebaseAll(rs, locs, bases, slide, n) == RebaseAll(rs, locs, bases, slide, i)
    decreases n
  {
    if i < n {
      RebaseFails(rs, locs, bases, slide, i, n - 1);
    }
  }

  lemma {:induction false} RestoreFails(rs: RegionMap, segs: seq<MachSegment>, bases: Bases, i: nat, n: nat)
    requires i <= n <= |segs| == |bases| && RestoreAll(rs, segs, bases, i).Err?
    ensures RestoreAll(rs, segs, bases, n) == RestoreAll(rs, segs, bases, i)
    decreases n
  {
    if i < n {
      RestoreFails(rs, segs, bases, i, n - 1);
    }
  }

  // ---- the steps --------------------------------------------------------------------------------------------

  method MapSegments(mem: GuestMemory, segs: seq<MachSegment>, bytes: Buffer, slide: u64)
    returns (r: Result<Bases, EmuError>)
    requires mem.Valid()
    modifies mem`regions, mem`history
    ensures mem.Valid() && StaysWx(mem)
    ensures match PlaceSegments(old(mem.regions), segs, bytes, slide, |segs|)
            case Ok(p) => r == Ok(p.bases) && mem.regions == p.regions
            case Err(e) => r == Err(e)
  {
    hide PlaceSegment, MapWithData, Ordered;
    var bases: Bases := [];
    for i := 0 to |segs|
      invariant mem.Valid() && StaysWx(mem)
      invariant PlaceSegments(old(mem.regions), segs, bytes, slide, i) == Ok(Placement(mem.regions, bases))
    {
      ghost var before := mem.regions;
      var e;
      bases, e := MapSegment(mem, segs[i], bases, bytes, slide);
      if e.Some? {
        PlaceFails(old(mem.regions), segs, bytes, slide, i + 1, |segs|);
        return Err(e.value);
      }
    }
    r := Ok(bases);
  }

  method MapSegment(mem: GuestMemory, seg: MachSegment, bases: Bases, bytes: Buffer, slide: u64)
    returns (bases': Bases, e: Option<EmuError>)
    requires mem.Valid()
    modifies mem`regions, mem`history
    ensures mem.Valid() && StaysWx(mem)
    ensures match PlaceSegment(Placement(old(mem.regions), bases), seg, bytes, slide)
            case Ok(p) => e == None && bases' == p.bases && mem.regions == p.regions
            case Err(err) => e == Some(err)
  {
    hide MapWithData, Ordered;
    bases', e := bases, None;
    if seg.name == "__PAGEZERO" {
      bases' := bases + [None];
      return;
    }
    var base := Wrap(seg.vmaddr + slide);
    var data := SegmentBytes(seg, bytes);
    if data.Err? { return bases, Some(data.error); }
    ghost var before := mem.regions;
    // Loaded read-write: never writable and executable at once.
    e := mem.MapData(base, seg.vmsize, data.value, RW, Segment, seg.name);
    if e.None? {
      bases' := bases + [Some(base)];
      MapDataKeepsWx(before, base, seg.vmsize, data.value, seg.name);
    }
  }

  lemma {:induction false} MapDataKeepsWx(rs: RegionMap, base: u64, size: u64, data: Buffer, name: string)
    requires MapWithData(rs, base, size, data, RW, Segment, name).Ok?
    ensures WxFree(rs) ==> WxFree(MapWithData(rs, base, size, data, RW, Segment, name).value)
  {
  }

  method ApplyRebases(mem: GuestMemory, locs: seq<Rebase.Location>, bases: Bases, slide: u64)
    returns (e: Option<EmuError>)
    requires mem.Valid()
    modifies mem`regions, mem`history
    ensures mem.Valid() && StaysWx(mem)
    ensures match RebaseAll(old(mem.regions), locs, bases, slide, |locs|)
            case Ok(rs) => e == None && mem.regions == rs
            case Err(err) => e == Some(err)
  {
    hide RebaseOne, Ordered;
    for i := 0 to |locs|
      invariant mem.Valid() && StaysWx(mem)
      invariant RebaseAll(old(mem.regions), locs, bases, slide, i) == Ok(mem.regions)
    {
      e := ApplyRebase(mem, locs[i], bases, slide);
      if e.Some? {
        RebaseFails(old(mem.regions), locs, bases, slide, i + 1, |locs|);
        return;
      }
    }
    e := None;
  }

  method ApplyRebase(mem: GuestMemory, loc: Rebase.Location, bases: Bases, slide: u64)
    returns (e: Option<EmuError>)
    requires mem.Valid()
    modifies mem`regions, mem`history
    ensures mem.Valid() && StaysWx(mem)
    ensures match RebaseOne(old(mem.regions), loc, bases, slide)
            case Ok(rs) => e == None && mem.regions == rs
            case Err(err) => e == Some(err)
  {
    hide Ordered, Le, LeValue, ReadBytes, WriteBytes;
    e := None;
    if loc.rtype != Rebase.REBASE_TYPE_POINTER { return; }
    var base := BaseOf(bases, loc.segIndex);
    if base.None? { return; }
    var target := Wrap(base.value + loc.segOffset);
    var bytes := mem.Read(target, 8);
    if bytes.Err? { return; }
    LeWord(bytes.value);
    ghost var before := mem.regions;
    e := mem.Write(target, Le(Wrap(LeValue(bytes.value) + slide), 8));
    if e.None? && WxFree(before) {
      DataKeepsWx(before, target, Le(Wrap(LeValue(bytes.value) + slide), 8));
    }
  }

  method ApplyBinds(mem: GuestMemory, resolver: StubResolver, recs: seq<Dyld.Bind>, bases: Bases)
    requires mem.Valid()
    modifies mem`regions, mem`history, resolver
    ensures mem.Valid() && StaysWx(mem)
    ensures Binding(mem.regions, resolver.View())
            == BindAll(Binding(old(mem.regions), old(resolver.View())), recs, bases, |recs|)
  {
    hide BindOne, Ordered, Resolve;
    ghost var start := Binding(mem.regions, resolver.View());
    for i := 0 to |recs|
      invariant mem.Valid() && StaysWx(mem)
      invariant Binding(mem.regions, resolver.View()) == BindAll(start, recs, bases, i)
    {
      ApplyBind(mem, resolver, recs[i], bases);
    }
  }

  method ApplyBind(mem: GuestMemory, resolver: StubResolver, rec: Dyld.Bind, bases: Bases)
    requires mem.Valid()
    modifies mem`regions, mem`history, resolver
    ensures mem.Valid() && StaysWx(mem)
    ensures Binding(mem.regions, resolver.View())
            == BindOne(Binding(old(mem.regions), old(resolver.View())), rec, bases)
  {
    hide Ordered, Le, WriteBytes, Resolve;
    var base := BaseOf(bases, rec.segIndex);
    if base.None? { return; }
    var target := Wrap(base.value + rec.segOffset);
    ghost var before := mem.regions;
    var tramp := resolver.ResolveSymbol(rec.symbol);
    var value := Wrap(tramp + rec.addend);
    var e := mem.Write(target, Le(value, 8));
    if e.None? && WxFree(before) {
      DataKeepsWx(before, target, Le(value, 8));
    }
  }

  method RestoreProtections(mem: GuestMemory, segs: seq<MachSegment>, bases: Bases)
    returns (e: Option<EmuError>)
    requires mem.Valid() && |segs| == |bases|
    modifies mem`regions, mem`history
    ensures mem.Valid() && old(mem.history) <= mem.history
    ensures NoWxSegments(segs) ==> StaysWx(mem)
    ensures match RestoreAll(old(mem.regions), segs, bases, |segs|)
            case Ok(rs) => e == None && mem.regions == rs
            case Err(err) => e == Some(err)
  {
    hide Ordered, Protect;
    ghost var sane := NoWxSegments(segs);
    for i := 0 to |segs|
      invariant mem.Valid() && old(mem.history) <= mem.history
      invariant sane ==> StaysWx(mem)
      invariant RestoreAll(old(mem.regions), segs, bases, i) == Ok(mem.regions)
    {
      if bases[i].Some? {
        ghost var before := mem.regions;
        e := mem.ProtectRegion(bases[i].value, FinalProt(segs[i]));
        if e.Some? {
          RestoreFails(old(mem.regions), segs, bases, i + 1, |segs|);
          return;
        }
        if sane && WxFree(before) {
          ProtectKeepsWx(before, bases[i].value, FinalProt(segs[i]));
        }
      }
    }
    e := None;
  }

  // ---- the stub page ---------------------------------------------------------------------------------------

  /** A store into a writable region lands in that region. */
  lemma {:induction false} WriteInto(rs: RegionMap, base: u64, off: nat, patch: seq<byte>)
    requires Ordered(rs) && base in rs && rs[base].prot.write
    requires patch != [] && off + |patch| <= |rs[base].data|
    ensures base + off < TWO_64
    ensures WriteBytes(rs, base + off, patch)
            == Ok(rs[base := rs[base].(data := Spliced(rs[base].data, off, patch))])
  {
    SliceInto(rs, base, off, |patch|, WRITE);
  }

  lemma SledGrows(off: nat, n: nat)
    requires off % 4 == 0 && off + 4 <= n
    ensures |Padded(Sled(off), n)| == n
    ensures Spliced(Padded(Sled(off), n), off, BRK0) == Padded(Sled(off + 4), n)
  {
    var before, after := Padded(Sled(off), n), Spliced(Padded(Sled(off), n), off, BRK0);
    forall i | 0 <= i < n
      ensures after[i] == Padded(Sled(off + 4), n)[i]
    {
      if off <= i < off + 4 {
        assert i % 4 == i - off;
      }
    }
  }

  lemma {:induction false} ProtectBase(rs: RegionMap, base: u64, prot: Protection)
    requires Ordered(rs) && base in rs && rs[base].data != []
    ensures Protect(rs, base, prot) == Ok(rs[base := rs[base].(prot := prot)])
  {
    NearestHolds(rs, base, base);
  }

  function StubRegion(base: u64, prot: Protection, filled: nat, n: nat): Region
    requires filled <= n
  {
    Region(base, prot, Segment, "__stubs", Padded(Sled(filled), n))
  }

  /** The filling loop: one trap instruction at a time. */
  method FillPage(mem: GuestMemory, base: u64, size: u64, ghost rs0: RegionMap, ghost n: u64)
    requires mem.Valid() && PageMultiple(size) && size <= n
    requires mem.regions == rs0[base := StubRegion(base, RW, 0, n)]
    modifies mem`regions, mem`history
    ensures mem.Valid() && StaysWx(mem)
    ensures mem.regions == rs0[base := StubRegion(base, RW, size, n)]
  {
    hide Ordered, Sled, Padded, WriteBytes;
    var off := 0;
    while off < size
      invariant 0 <= off <= size && off % 4 == 0
      invariant mem.Valid() && StaysWx(mem)
      invariant mem.regions == rs0[base := StubRegion(base, RW, off, n)]
    {
      WholeWord(off, size);
      ghost var rs := mem.regions;
      SledGrows(off, n);
      WriteInto(rs, base, off, BRK0);
      SmallMod(base + off, TWO_64);
      var failed := mem.Write(Wrap(base + off), BRK0);
      assert failed.None?;
      assert mem.regions[base] == StubRegion(base, RW, off + 4, n);
      assert mem.regions == rs0[base := StubRegion(base, RW, off + 4, n)];
      if WxFree(rs) {
        DataKeepsWx(rs, base + off, BRK0);
      }
      off := off + 4;
    }
  }

  method MapStubPage(mem: GuestMemory, base: u64, size: u64) returns (e: Option<EmuError>)
    requires mem.Valid()
    modifies mem`regions, mem`history
    ensures mem.Valid() && StaysWx(mem)
    ensures var n := MapSize(size);
            match Reserve(old(mem.regions), base, n)
            case None => e == None && mem.regions == old(mem.regions)[base := StubRegion(base, RW, 0, n)]
            case Some(err) => e == Some(err) && mem.regions == old(mem.regions)
  {
    hide MapSize, CheckFree, Ordered, Sled, Padded, Zeros, WxFree;
    ghost var rs0, n := mem.regions, MapSize(size);
    e := mem.Map(base, size, RW, Segment, "__stubs");
    if e.Some? { return; }
    NothingFilled(n);
    InsertKeepsWx(rs0, base, StubRegion(base, RW, 0, n));
  }

  /** Maps the page read-write, fills it, then makes it read-execute. */
  method PublishPage(mem: GuestMemory, base: u64, size: u64) returns (e: Option<EmuError>)
    requires mem.Valid() && PageMultiple(size)
    modifies mem`regions, mem`history
    ensures mem.Valid() && StaysWx(mem)
    ensures match PublishStubs(old(mem.regions), base, size)
            case Ok(rs) => e == None && mem.regions == rs
            case Err(err) => e == Some(err)
  {
    WholePages(size);
    ghost var rs0, n := mem.regions, MapSize(size);
    PublishedAs(rs0, base, size);
    hide MapSize, CheckFree, Ordered, Sled, Padded, Protect, WxFree, PublishStubs, StubRegion;
    e := MapStubPage(mem, base, size);
    if e.Some? { return; }
    FillAndSeal(mem, base, size, rs0, n);
    e := None;
  }

  lemma {:induction false} PublishedAs(rs: RegionMap, base: u64, size: u64)
    requires PageMultiple(size) && size <= MapSize(size)
    ensures PublishStubs(rs, base, size)
            == match Reserve(rs, base, MapSize(size))
               case Some(e) => Err(e)
               case None => Ok(rs[base := StubRegion(base, RX, size, MapSize(size))])
  {
  }

  method FillAndSeal(mem: GuestMemory, base: u64, size: u64, ghost rs0: RegionMap, ghost n: u64)
    requires mem.Valid() && PageMultiple(size) && size <= n && 0 < n
    requires mem.regions == rs0[base := StubRegion(base, RW, 0, n)]
    modifies mem`regions, mem`history
    ensures mem.Valid() && StaysWx(mem)
    ensures mem.regions == rs0[base := StubRegion(base, RX, size, n)]
  {
    hide Ordered, Sled, Padded, WxFree;
    FillPage(mem, base, size, rs0, n);
    FilledLength(size, n);
    SealPage(mem, base);
    assert mem.regions[base] == StubRegion(base, RX, size, n);
  }

  method SealPage(mem: GuestMemory, base: u64)
    requires mem.Valid() && base in mem.regions && mem.regions[base].data != []
    modifies mem`regions, mem`history
    ensures mem.Valid() && StaysWx(mem)
    ensures mem.regions == old(mem.regions[base := mem.regions[base].(prot := RX)])
  {
    hide Ordered, Protect, WxFree;
    ghost var before := mem.regions;
    ProtectBase(before, base, RX);
    var e := mem.ProtectRegion(base, RX);
    if WxFree(before) {
      ProtectKeepsWx(before, base, RX);
    }
  }

  lemma WholeWord(off: nat, size: nat)
    requires off < size && off % 4 == 0 && PageMultiple(size)
    ensures off + 4 <= size
  {
  }

  lemma NothingFilled(n: nat)
    ensures Padded(Sled(0), n) == Zeros(n)
  {
    assert Sled(0) == [];
  }

  lemma FilledLength(size: nat, n: nat)
    requires size <= n
    ensures |Padded(Sled(size), n)| == n
  {
  }

  // ---- the stack ----------------------------------------------------------------------------------------------

  method Store(mem: GuestMemory, addr: u64, patch: seq<byte>) returns (e: Option<EmuError>)
    requires mem.Valid()
    modifies mem`regions, mem`history
    ensures mem.Valid() && StaysWx(mem)
    ensures match WriteBytes(old(mem.regions), addr, patch)
            case Ok(rs) => e == None && mem.regions == rs
            case Err(err) => e == Some(err)
  {
    hide WriteBytes, Ordered;
    ghost var before := mem.regions;
    e := mem.Write(addr, patch);
    if e.None? && WxFree(before) {
      DataKeepsWx(before, addr, patch);
    }
  }

  /** `build_stack`: the path string, then `apple`, `envp` and `argv` below it. */
  method LayOutStack(mem: GuestMemory, cfg: Layout) returns (e: Option<EmuError>, f: Frame)
    requires mem.Valid()
    modifies mem`regions, mem`history
    ensures mem.Valid() && StaysWx(mem)
    ensures f == StackFrame(cfg)
    ensures match BuildStack(old(mem.regions), cfg)
            case Ok(rs) => e == None && mem.regions == rs
            case Err(err) => e == Some(err)
  {
    hide StoreText, StoreArrays, Ordered, StackFrame, WxFree;
    f := StackFrame(cfg);
    e := LayOutText(mem, f.text, cfg.argv0);
    if e.Some? { return; }
    e := LayOutArrays(mem, f);
  }

  method LayOutText(mem: GuestMemory, text: u64, path: Buffer) returns (e: Option<EmuError>)
    requires mem.Valid()
    modifies mem`regions, mem`history
    ensures mem.Valid() && StaysWx(mem)
    ensures match StoreText(old(mem.regions), text, path)
            case Ok(rs) => e == None && mem.regions == rs
            case Err(err) => e == Some(err)
  {
    hide WriteBytes, Ordered, Wrap, WxFree;
    e := Store(mem, text, path);
    if e.Some? { return; }
    e := Store(mem, Wrap(text + |path|), [0]);
  }

  method LayOutArrays(mem: GuestMemory, f: Frame) returns (e: Option<EmuError>)
    requires mem.Valid()
    modifies mem`regions, mem`history
    ensures mem.Valid() && StaysWx(mem)
    ensures match StoreArrays(old(mem.regions), f)
            case Ok(rs) => e == None && mem.regions == rs
            case Err(err) => e == Some(err)
  {
    hide WriteBytes, Ordered, Le, Wrap, WxFree;
    e := Store(mem, f.apple, Le(f.text, 8));
    if e.Some? { return; }
    e := Store(mem, Wrap(f.apple + 8), Le(0, 8));
    if e.Some? { return; }
    e := Store(mem, f.envp, Le(0, 8));
    if e.Some? { return; }
    e := Store(mem, f.argv, Le(f.text, 8));
    if e.Some? { return; }
    e := Store(mem, Wrap(f.argv + 8), Le(0, 8));
  }

  // ---- tables ---------------------------------------------------------------------------------------------------

  method IndexLazyBinds(entries: seq<Dyld.LazyBind>, bases: Bases) returns (t: LazyTable)
    ensures t == LazyTableOf(entries, bases, |entries|)
  {
    t := map[];
    for i := 0 to |entries|
      invariant t == LazyTableOf(entries, bases, i)
    {
      var base := BaseOf(bases, entries[i].segIndex);
      if base.Some? {
        t := t[entries[i].offset := (entries[i].symbol, Wrap(base.value + entries[i].segOffset))];
      }
    }
  }

  method ParseRecords(bytes: Buffer, off: u32, size: u32) returns (r: Result<seq<Dyld.Bind>, EmuError>)
    ensures r == StreamRecords(bytes, off, size)
  {
    if size == 0 { return Ok([]); }
    var stream := FileRange(bytes, off, size);
    if stream.None? { return Err(StreamOutOfRange); }
    r := Dyld.ParseBindInfo(stream.value);
  }

  method ParseLocations(image: MachOImage, bytes: Buffer, slide: u64)
    returns (r: Result<seq<Rebase.Location>, EmuError>)
    ensures r == RebaseLocations(image, bytes, slide)
  {
    if slide == 0 || image.dyldInfo.None? || image.dyldInfo.value.rebaseSize == 0 { return Ok([]); }
    var stream := FileRange(bytes, image.dyldInfo.value.rebaseOff, image.dyldInfo.value.rebaseSize);
    if stream.None? { return Err(StreamOutOfRange); }
    r := Rebase.ParseRebaseInfo(stream.value);
  }

  method ParseLazy(image: MachOImage, bytes: Buffer) returns (r: Result<seq<Dyld.LazyBind>, EmuError>)
    ensures r == LazyRecords(image, bytes)
  {
    if image.dyldInfo.None? || image.dyldInfo.value.lazyBindSize == 0 { return Ok([]); }
    var stream := FileRange(bytes, image.dyldInfo.value.lazyBindOff, image.dyldInfo.value.lazyBindSize);
    if stream.None? { return Err(StreamOutOfRange); }
    r := Dyld.ParseLazyBindInfo(stream.value);
  }

  // ---- the build --------------------------------------------------------------------------------------------------

  /** Steps 1 to 2: map, relocate, bind. */
  method LinkImage(image: MachOImage, bytes: Buffer, mem: GuestMemory, cfg: Layout, resolver: StubResolver)
    returns (r: Result<Bases, EmuError>)
    requires mem.Valid() && resolver.View() == NewStubs(cfg.trampolineBase, cfg.trampolineStride)
    modifies mem`regions, mem`history, resolver
    ensures mem.Valid() && StaysWx(mem)
    ensures match Link(old(mem.regions), image, bytes, cfg)
            case Ok(l) => r == Ok(l.placed.bases) && mem.regions == l.bound.regions && resolver.View() == l.bound.stubs
            case Err(e) => r == Err(e)
  {
    hide Ordered, PlaceSegments, RebaseAll, BindAll, RebaseLocations, BindRecords, WxFree;
    r := MapSegments(mem, image.segments, bytes, cfg.slide);
    if r.Err? { return; }
    var locs := ParseLocations(image, bytes, cfg.slide);
    if locs.Err? { return Err(locs.error); }
    var e := ApplyRebases(mem, locs.value, r.value, cfg.slide);
    if e.Some? { return Err(e.value); }
    var records := ParseAllRecords(image, bytes);
    if records.Err? { return Err(records.error); }
    ApplyBinds(mem, resolver, records.value, r.value);
  }

  /** Steps 3 to 6: stub page, final protections, stack. */
  method FinishImage(ghost l: Linked, segs: seq<MachSegment>, mem: GuestMemory, cfg: Layout, bases: Bases,
                     size: u64)
    returns (e: Option<EmuError>, frame: Frame)
    requires mem.Valid() && |bases| == |segs|
    requires mem.regions == l.bound.regions && bases == l.placed.bases && size == StubBytes(l.bound.stubs)
    modifies mem`regions, mem`history
    ensures mem.Valid() && old(mem.history) <= mem.history
    ensures NoWxSegments(segs) ==> StaysWx(mem)
    ensures frame == StackFrame(cfg)
    ensures match Finish(l, segs, cfg)
            case Ok(f) => e == None && mem.regions == f.final
            case Err(err) => e == Some(err)
  {
    hide Ordered, RestoreAll, MapZeroed, PublishStubs, BuildStack, StackFrame, StubBytes, WxFree;
    frame := StackFrame(cfg);
    e := PublishPage(mem, cfg.trampolineBase, size);
    if e.Some? { return; }
    e := RestoreProtections(mem, segs, bases);
    if e.Some? { return; }
    e := MapStack(mem, cfg);
    if e.Some? { return; }
    e, frame := LayOutStack(mem, cfg);
  }

  /** `build_process`. Between any two memory updates, failed builds included, no region is
      both writable and executable, provided none was before and no segment asks for it. */
  method BuildProcess(image: MachOImage, bytes: Buffer, mem: GuestMemory, cfg: Layout)
    returns (r: Result<Process, EmuError>)
    requires mem.Valid()
    modifies mem`regions, mem`history
    ensures mem.Valid() && old(mem.history) <= mem.history
    ensures old(WxFree(mem.regions)) && NoWxSegments(image.segments) ==>
              NeverWx(mem.history, |old(mem.history)|)
    ensures match Load(old(mem.regions), image, bytes, cfg)
            case Ok(stages) => r == Ok(stages.process) && mem.regions == stages.finished.final
            case Err(e) => r == Err(e)
  {
    hide Ordered, Link, Finish, WxFree, StackFrame, LazyTableOf, LazyRecords, ResolveEntry, StubBytes;
    if IsEncrypted(image) { return Err(Encrypted); }
    ghost var linked := Link(mem.regions, image, bytes, cfg);
    var resolver := new StubResolver(cfg.trampolineBase, cfg.trampolineStride);
    var bases := LinkImage(image, bytes, mem, cfg, resolver);
    if bases.Err? { return Err(bases.error); }
    var size := StubBytes(resolver.View());
    var e, frame := FinishImage(linked.value, image.segments, mem, cfg, bases.value, size);
    if e.Some? { return Err(e.value); }
    var entry := ResolveEntry(image, cfg.slide);
    if entry.Err? { return Err(entry.error); }
    var lazy := ParseLazy(image, bytes);
    if lazy.Err? { return Err(lazy.error); }
    var table := IndexLazyBinds(lazy.value, bases.value);
    r := Ok(Process(entry.value, Down16(frame.argv), [1, frame.argv, frame.envp, frame.apple],
                    resolver.reverse, cfg.trampolineBase, Wrap(cfg.trampolineBase + size), resolver.forward,
                    table));
  }

  method MapStack(mem: GuestMemory, cfg: Layout) returns (e: Option<EmuError>)
    requires mem.Valid()
    modifies mem`regions, mem`history
    ensures mem.Valid() && StaysWx(mem)
    ensures match MapZeroed(old(mem.regions), StackBase(cfg), cfg.stackSize, RW, Stack, "stack")
            case Ok(rs) => e == None && mem.regions == rs
            case Err(err) => e == Some(err)
  {
    e := mem.Map(StackBase(cfg), cfg.stackSize, RW, Stack, "stack");
  }

  method ParseAllRecords(image: MachOImage, bytes: Buffer) returns (r: Result<seq<Dyld.Bind>, EmuError>)
    ensures r == BindRecords(image, bytes)
  {
    hide StreamRecords;
    if image.dyldInfo.None? { return Ok([]); }
    var info := image.dyldInfo.value;
    var eager := ParseRecords(bytes, info.bindOff, info.bindSize);
    if eager.Err? { return eager; }
    var lazy := ParseRecords(bytes, info.lazyBindOff, info.lazyBindSize);
    if lazy.Err? { return lazy; }
    r := Ok(eager.value + lazy.value);
  }

  ghost predicate NoWxSegments(segs: seq<MachSegment>) {
    forall i :: 0 <= i < |segs| ==> !(segs[i].initprot.write && segs[i].initprot.exec)
  }
}
