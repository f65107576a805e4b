/** The memory a finished build leaves: final protections, the sealed stub page, the stack, and
    every byte bound earlier still in place. */
module LoadLayout {
  import opened Words
  import opened Regions
  import opened FlatMemory
  import opened Memory
  import opened StubTable
  import opened Image
  import opened Loader
  import opened Relocation
  import opened StackLayout
  import Rebase = RebaseStream
  import Dyld = BindStream

  // ---- linking keeps the frame ------------------------------------------------------------------------------

  lemma {:induction false} RebaseOneFrame(rs: RegionMap, loc: Rebase.Location, bases: Bases, slide: u64)
    requires Ordered(rs) && RebaseOne(rs, loc, bases, slide).Ok?
    ensures Ordered(RebaseOne(rs, loc, bases, slide).value)
    ensures SameFrame(rs, RebaseOne(rs, loc, bases, slide).value)
  {
    hide Ordered, SameFrame, ReadU64, WriteU64, Word, ByteAt;
    SameFrameSelf(rs);
    match RebaseSlot(loc, bases)
    case None =>
    case Some(slot) =>
      match ReadU64(rs, slot)
      case Err(_) =>
      case Ok(v) => StoreWord(rs, slot, Wrap(v + slide));
  }

  lemma {:induction false} SameFrameSelf(rs: RegionMap)
    ensures SameFrame(rs, rs)
  {
  }

  lemma {:induction false} RebaseFrame(rs: RegionMap, locs: seq<Rebase.Location>, bases: Bases, slide: u64, n: nat)
    requires n <= |locs| && Ordered(rs) && RebaseAll(rs, locs, bases, slide, n).Ok?
    ensures Ordered(RebaseAll(rs, locs, bases, slide, n).value)
    ensures SameFrame(rs, RebaseAll(rs, locs, bases, slide, n).value)
  {
    hide Ordered, SameFrame, RebaseOne;
    if n == 0 {
      SameFrameSelf(rs);
    } else {
      RebaseFrame(rs, locs, bases, slide, n - 1);
      var prev := RebaseAll(rs, locs, bases, slide, n - 1).value;
      RebaseOneFrame(prev, locs[n - 1], bases, slide);
      SameFrameTrans(rs, prev, RebaseAll(rs, locs, bases, slide, n).value);
    }
  }

  lemma {:induction false} BindOneFrame(b: Binding, rec: Dyld.Bind, bases: Bases)
    requires Ordered(b.regions)
    ensures Ordered(BindOne(b, rec, bases).regions) && SameFrame(b.regions, BindOne(b, rec, bases).regions)
  {
    hide Ordered, SameFrame, WriteU64, Word, ByteAt, Resolve;
    SameFrameSelf(b.regions);
    match BindSlot(rec, bases)
    case None =>
    case Some(slot) =>
      var v := Wrap(Resolve(b.stubs, rec.symbol).1 + rec.addend);
      if WriteU64(b.regions, slot, v).Ok? {
        StoreWord(b.regions, slot, v);
      }
  }

  lemma {:induction false} BindFrame(b: Binding, recs: seq<Dyld.Bind>, bases: Bases, n: nat)
    requires n <= |recs| && Ordered(b.regions)
    ensures Ordered(BindAll(b, recs, bases, n).regions) && SameFrame(b.regions, BindAll(b, recs, bases, n).regions)
  {
    hide Ordered, SameFrame, BindOne;
    if n == 0 {
      SameFrameSelf(b.regions);
    } else {
      BindFrame(b, recs, bases, n - 1);
      var prev := BindAll(b, recs, bases, n - 1);
      BindOneFrame(prev, recs[n - 1], bases);
      SameFrameTrans(b.regions, prev.regions, BindAll(b, recs, bases, n).regions);
    }
  }

  lemma {:induction false} PlaceOrdered(rs: RegionMap, segs: seq<MachSegment>, bytes: Buffer, slide: u64, n: nat)
    requires n <= |segs| && Ordered(rs) && PlaceSegments(rs, segs, bytes, slide, n).Ok?
    ensures Ordered(PlaceSegments(rs, segs, bytes, slide, n).value.regions)
  {
    hide Ordered, PlaceSegment;
    if n > 0 {
      PlaceOrdered(rs, segs, bytes, slide, n - 1);
      PlaceOneOrdered(PlaceSegments(rs, segs, bytes, slide, n - 1).value, segs[n - 1], bytes, slide);
    }
  }

  lemma {:induction false} PlaceOneOrdered(p: Placement, seg: MachSegment, bytes: Buffer, slide: u64)
    requires Ordered(p.regions) && PlaceSegment(p, seg, bytes, slide).Ok?
    ensures Ordered(PlaceSegment(p, seg, bytes, slide).value.regions)
  {
    hide Ordered, CheckFree, Padded, MapDataSize;
    if seg.name != "__PAGEZERO" {
      var base, data := Wrap(seg.vmaddr + slide), SegmentBytes(seg, bytes).value;
      var n := MapDataSize(seg.vmsize, data);
      PaddedLength(data, n);
      InsertOrdered(p.regions, base, Region(base, RW, Segment, seg.name, Padded(data, n)));
    }
  }

  /** After linking, the regions are those the segments were placed in, with edited bytes. */
  lemma {:induction false} LinkFrame(rs: RegionMap, image: MachOImage, bytes: Buffer, cfg: Layout)
    requires Ordered(rs) && Link(rs, image, bytes, cfg).Ok?
    ensures var l := Link(rs, image, bytes, cfg).value;
            && Ordered(l.placed.regions) && Ordered(l.rebased) && Ordered(l.bound.regions)
            && SameFrame(l.placed.regions, l.bound.regions)
  {
    hide Ordered, SameFrame, PlaceSegments, RebaseAll, BindAll, RebaseLocations, BindRecords;
    var l := Link(rs, image, bytes, cfg).value;
    PlaceOrdered(rs, image.segments, bytes, cfg.slide, |image.segments|);
    RebaseFrame(l.placed.regions, l.locs, l.placed.bases, cfg.slide, |l.locs|);
    BindFrame(Binding(l.rebased, NewStubs(cfg.trampolineBase, cfg.trampolineStride)), l.records, l.placed.bases, |l.records|);
    SameFrameTrans(l.placed.regions, l.rebased, l.bound.regions);
  }

  // ---- the stub page ------------------------------------------------------------------------------------------

  function StubPage(base: u64, size: u64): Region
    requires PageMultiple(size)
  {
    WholePages(size);
    Region(base, RX, Segment, "__stubs", Padded(Sled(size), MapSize(size)))
  }

  /** Publishing adds the sealed page and leaves every mapped byte as it was. */
  lemma {:induction false} PublishEffect(rs: RegionMap, base: u64, size: u64)
    requires Ordered(rs) && PageMultiple(size) && PublishStubs(rs, base, size).Ok?
    ensures var rs' := PublishStubs(rs, base, size).value;
            && Ordered(rs') && rs' == rs[base := StubPage(base, size)]
            && (base in rs ==> rs[base].data == [])
            && (forall a: int :: At(rs, a).Some? ==> At(rs', a) == At(rs, a))
  {
    hide Ordered, At, CheckFree, Padded, Sled, MapSize;
    WholePages(size);
    var n, page := MapSize(size), StubPage(base, size);
    PaddedLength(Sled(size), n);
    BaseHoldsNothing(rs, base, n);
    InsertOrdered(rs, base, page);
    forall a: int | At(rs, a).Some?
      ensures At(rs[base := page], a) == At(rs, a)
    {
      InsertAt(rs, base, page, a);
      PageWasFree(rs, base, n, a);
    }
  }

  lemma {:induction false} PageWasFree(rs: RegionMap, base: u64, n: u64, a: int)
    requires Ordered(rs) && CheckFree(rs, base, n).None? && At(rs, a).Some?
    ensures !(base <= a < base + n)
  {
    hide Ordered, At, CheckFree;
    if base <= a < base + n {
      FreeIsVacant(rs, base, n, a);
    }
  }

  /** Every instruction of the page is `BRK #0`. */
  lemma {:induction false} PageTraps(rs: RegionMap, base: u64, size: u64, off: nat)
    requires Ordered(rs) && base in rs && PageMultiple(size) && rs[base].data == StubPage(base, size).data
    requires off % 4 == 0 && off + 4 <= size
    ensures BytesAt(rs, base + off, 4) == BRK0
  {
    hide Ordered, BytesAt, MapSize, PageMultiple, Padded, Sled;
    WholePages(size);
    PaddedLength(Sled(size), MapSize(size));
    RegionBytes(rs, base, off, 4);
    TrapWord(size, MapSize(size), off);
  }

  lemma TrapWord(size: nat, n: nat, off: nat)
    requires off % 4 == 0 && off + 4 <= size <= n
    ensures Padded(Sled(size), n)[off..off + 4] == BRK0
  {
    var s := Padded(Sled(size), n);
    forall j: nat | j < 4
      ensures s[off + j] == BRK0[j]
    {
      TrapByte(off, j);
    }
  }

  lemma TrapByte(off: nat, j: nat)
    requires off % 4 == 0 && j < 4
    ensures (off + j) % 4 == j
  {
  }

  // ---- final protections ----------------------------------------------------------------------------------------

  /** Same regions with the same bytes: only protections may differ. */
  ghost predicate SameContents(rs: RegionMap, rs': RegionMap) {
    rs.Keys == rs'.Keys && forall k :: k in rs ==> rs'[k] == rs[k].(prot := rs'[k].prot)
  }

  lemma {:induction false} SameContentsOrdered(rs: RegionMap, rs': RegionMap)
    requires Ordered(rs) && SameContents(rs, rs')
    ensures Ordered(rs')
  {
    assert forall k :: k in rs' ==> k in rs;
  }

  lemma {:induction false} SameContentsBytes(rs: RegionMap, rs': RegionMap, a: int)
    requires Ordered(rs) && SameContents(rs, rs')
    ensures ByteAt(rs', a) == ByteAt(rs, a)
    ensures At(rs', a).Some? <==> At(rs, a).Some?
  {
    SameContentsOrdered(rs, rs');
    AtOwner(rs, a);
    AtOwner(rs', a);
    if At(rs, a).Some? {
      AtInside(rs', At(rs, a).value.owner, a);
    } else if At(rs', a).Some? {
      assert Inside(rs, At(rs', a).value.owner, a);
    }
  }

  lemma {:induction false} ProtectContents(rs: RegionMap, addr: u64, prot: Protection)
    requires Protect(rs, addr, prot).Ok?
    ensures SameContents(rs, Protect(rs, addr, prot).value)
  {
  }

  lemma {:induction false} SameContentsTrans(rs: RegionMap, rs': RegionMap, rs'': RegionMap)
    requires SameContents(rs, rs') && SameContents(rs', rs'')
    ensures SameContents(rs, rs'')
  {
    assert forall k :: k in rs ==> k in rs';
  }

  lemma {:induction false} RestoreContents(rs: RegionMap, segs: seq<MachSegment>, bases: Bases, n: nat)
    requires n <= |segs| == |bases| && RestoreAll(rs, segs, bases, n).Ok?
    ensures SameContents(rs, RestoreAll(rs, segs, bases, n).value)
  {
    hide SameContents, Protect;
    if n == 0 {
      SameContentsSelf(rs);
    } else {
      RestoreContents(rs, segs, bases, n - 1);
      var prev := RestoreAll(rs, segs, bases, n - 1).value;
      if bases[n - 1].Some? {
        ProtectContents(prev, bases[n - 1].value, FinalProt(segs[n - 1]));
        SameContentsTrans(rs, prev, RestoreAll(rs, segs, bases, n).value);
      }
    }
  }

  lemma {:induction false} SameContentsSelf(rs: RegionMap)
    ensures SameContents(rs, rs)
  {
  }

  /** Every listed base is the base of a region. */
  ghost predicate BasesIn(rs: RegionMap, bases: Bases) {
    forall i :: 0 <= i < |bases| && bases[i].Some? ==> bases[i].value in rs
  }

  /** The first `n` are bases of regions that hold bytes. */
  ghost predicate SolidBases(rs: RegionMap, bases: Bases, n: nat)
    requires n <= |bases|
  {
    forall i :: 0 <= i < n && bases[i].Some? ==> bases[i].value in rs && rs[bases[i].value].data != []
  }

  /** Among the first `n`, base `i` is not listed again. */
  ghost predicate LastBase(bases: Bases, n: nat, i: nat)
    requires i < n <= |bases|
  {
    forall j :: i < j < n ==> bases[j] != bases[i]
  }

  /** After the first `n`, the last segment at each base decides its protection, and nothing else changed. */
  ghost predicate Restored(rs: RegionMap, rs': RegionMap, segs: seq<MachSegment>, bases: Bases, n: nat)
    requires n <= |segs| == |bases|
  {
    && SameContents(rs, rs')
    && (forall i :: 0 <= i < n && bases[i].Some? && LastBase(bases, n, i) ==>
          bases[i].value in rs' && rs'[bases[i].value].prot == FinalProt(segs[i]))
    && (forall k :: k in rs && (forall i :: 0 <= i < n ==> bases[i] != Some(k)) ==> rs'[k] == rs[k])
  }

  /** `protect` at the base of a region fails exactly when the region is empty. */
  lemma {:induction false} ProtectIff(rs: RegionMap, base: u64, prot: Protection)
    requires Ordered(rs) && base in rs
    ensures Protect(rs, base, prot).Ok? <==> rs[base].data != []
    ensures rs[base].data != [] ==> Protect(rs, base, prot) == Ok(rs[base := rs[base].(prot := prot)])
  {
    if rs[base].data != [] {
      NearestHolds(rs, base, base);
    } else {
      var k := AtOrBelow(rs, base).value;
      assert k == base && rs[k].End() == base;
    }
  }

  lemma {:induction false} OneProtection(rs: RegionMap, rs': RegionMap, base: u64, prot: Protection)
    requires base in rs && rs' == rs[base := rs[base].(prot := prot)]
    ensures SameContents(rs, rs')
  {
  }

  lemma {:induction false} SameSolid(rs: RegionMap, rs': RegionMap, base: u64)
    requires Ordered(rs) && SameContents(rs, rs') && base in rs
    ensures Ordered(rs') && base in rs' && rs'[base].data == rs[base].data
  {
    hide Ordered;
    SameContentsOrdered(rs, rs');
  }

  lemma {:induction false} RestoredAfter(
    rs: RegionMap, rs': RegionMap, segs: seq<MachSegment>, bases: Bases, n: nat, rs'': RegionMap
  )
    requires n < |segs| == |bases| && Restored(rs, rs', segs, bases, n)
    requires bases[n].Some? && bases[n].value in rs'
    requires rs'' == rs'[bases[n].value := rs'[bases[n].value].(prot := FinalProt(segs[n]))]
    ensures Restored(rs, rs'', segs, bases, n + 1)
  {
    hide FinalProt, SameContents, LastBase;
    RestoredContents(rs, rs', segs, bases, n);
    OneProtection(rs', rs'', bases[n].value, FinalProt(segs[n]));
    SameContentsTrans(rs, rs', rs'');
    forall i | 0 <= i < n + 1 && bases[i].Some? && LastBase(bases, n + 1, i)
      ensures bases[i].value in rs'' && rs''[bases[i].value].prot == FinalProt(segs[i])
    {
      if i < n {
        EarlierProtection(rs, rs', segs, bases, n, i);
      }
    }
    forall k | k in rs && forall i :: 0 <= i < n + 1 ==> bases[i] != Some(k)
      ensures k in rs'' && rs''[k] == rs[k]
    {
      UntouchedRegion(rs, rs', segs, bases, n, k);
    }
  }

  lemma {:induction false} EarlierLast(bases: Bases, n: nat, i: nat)
    requires i < n < |bases| && LastBase(bases, n + 1, i)
    ensures LastBase(bases, n, i) && bases[i] != bases[n]
  {
  }

  lemma {:induction false} EarlierProtection(
    rs: RegionMap, rs': RegionMap, segs: seq<MachSegment>, bases: Bases, n: nat, i: nat
  )
    requires i < n < |segs| == |bases| && Restored(rs, rs', segs, bases, n)
    requires bases[i].Some? && LastBase(bases, n + 1, i)
    ensures bases[i].value in rs' && rs'[bases[i].value].prot == FinalProt(segs[i]) && bases[i] != bases[n]
  {
    hide FinalProt, SameContents;
    EarlierLast(bases, n, i);
    hide LastBase;
  }

  lemma {:induction false} UntouchedRegion(
    rs: RegionMap, rs': RegionMap, segs: seq<MachSegment>, bases: Bases, n: nat, k: u64
  )
    requires n < |segs| == |bases| && Restored(rs, rs', segs, bases, n)
    requires k in rs && forall i :: 0 <= i < n + 1 ==> bases[i] != Some(k)
    ensures k in rs' && rs'[k] == rs[k] && bases[n] != Some(k)
  {
  }

  lemma {:induction false} SolidNext(rs: RegionMap, bases: Bases, n: nat)
    requires n < |bases|
    ensures SolidBases(rs, bases, n + 1)
            <==> SolidBases(rs, bases, n) && (bases[n].Some? ==> bases[n].value in rs && rs[bases[n].value].data != [])
  {
  }

  /** Restoring succeeds exactly when every base is that of a region with bytes, and then the last segment at
      each base decides. */
  lemma {:induction false} RestoreEffect(rs: RegionMap, segs: seq<MachSegment>, bases: Bases, n: nat)
    requires n <= |segs| == |bases| && Ordered(rs) && BasesIn(rs, bases)
    ensures RestoreAll(rs, segs, bases, n).Ok? <==> SolidBases(rs, bases, n)
    ensures RestoreAll(rs, segs, bases, n).Ok? ==> Restored(rs, RestoreAll(rs, segs, bases, n).value, segs, bases, n)
  {
    hide Ordered, SolidBases, Restored, Protect;
    if n == 0 {
      RestoredAtStart(rs, segs, bases);
    } else {
      RestoreEffect(rs, segs, bases, n - 1);
      SolidNext(rs, bases, n - 1);
      if RestoreAll(rs, segs, bases, n - 1).Ok? {
        RestoreNext(rs, RestoreAll(rs, segs, bases, n - 1).value, segs, bases, n - 1);
      }
    }
  }

  lemma {:induction false} RestoreNext(rs: RegionMap, rs': RegionMap, segs: seq<MachSegment>, bases: Bases, n: nat)
    requires n < |segs| == |bases| && Ordered(rs) && BasesIn(rs, bases) && Restored(rs, rs', segs, bases, n)
    ensures bases[n].None? ==> Restored(rs, rs', segs, bases, n + 1)
    ensures bases[n].Some? ==>
              var r := Protect(rs', bases[n].value, FinalProt(segs[n]));
              && bases[n].value in rs
              && (r.Ok? <==> rs[bases[n].value].data != [])
              && (r.Ok? ==> Restored(rs, r.value, segs, bases, n + 1))
  {
    hide Ordered, FinalProt, Protect, Restored, SameContents;
    if bases[n].None? {
      RestoreSkip(rs, rs', segs, bases, n);
    } else {
      var base, prot := bases[n].value, FinalProt(segs[n]);
      RestoredContents(rs, rs', segs, bases, n);
      SameSolid(rs, rs', base);
      ProtectIff(rs', base, prot);
      RestoredAfter(rs, rs', segs, bases, n, rs'[base := rs'[base].(prot := prot)]);
    }
  }

  lemma {:induction false} RestoredContents(rs: RegionMap, rs': RegionMap, segs: seq<MachSegment>, bases: Bases, n: nat)
    requires n <= |segs| == |bases| && Restored(rs, rs', segs, bases, n)
    ensures SameContents(rs, rs')
  {
  }

  lemma {:induction false} RestoredAtStart(rs: RegionMap, segs: seq<MachSegment>, bases: Bases)
    requires |segs| == |bases|
    ensures Restored(rs, rs, segs, bases, 0) && SolidBases(rs, bases, 0)
  {
    SameContentsSelf(rs);
  }

  lemma {:induction false} RestoreSkip(rs: RegionMap, rs': RegionMap, segs: seq<MachSegment>, bases: Bases, n: nat)
    requires n < |segs| == |bases| && Restored(rs, rs', segs, bases, n) && bases[n].None?
    ensures Restored(rs, rs', segs, bases, n + 1)
  {
    hide FinalProt, SameContents, LastBase;
    RestoredContents(rs, rs', segs, bases, n);
    forall i | 0 <= i < n + 1 && bases[i].Some? && LastBase(bases, n + 1, i)
      ensures bases[i].value in rs' && rs'[bases[i].value].prot == FinalProt(segs[i])
    {
      EarlierProtection(rs, rs', segs, bases, n, i);
    }
    forall k | k in rs && forall i :: 0 <= i < n + 1 ==> bases[i] != Some(k)
      ensures k in rs' && rs'[k] == rs[k]
    {
      UntouchedRegion(rs, rs', segs, bases, n, k);
    }
  }

  // ---- the finished memory ------------------------------------------------------------------------------------------

  /** Steps 3 to 6 keep every byte that was mapped when they began. */
  lemma {:induction false} FinishKeepsBytes(l: Linked, segs: seq<MachSegment>, cfg: Layout)
    requires Ordered(l.bound.regions) && |l.placed.bases| == |segs| && StackFits(cfg)
    requires Finish(l, segs, cfg).Ok?
    ensures var f := Finish(l, segs, cfg).value;
            && Ordered(f.published) && Ordered(f.protected) && Ordered(f.final)
            && FrameHolds(f.final, StackFrame(cfg), cfg.argv0)
            && forall a: int :: At(l.bound.regions, a).Some? ==>
                 At(f.final, a).Some? && ByteAt(f.final, a) == ByteAt(l.bound.regions, a)
  {
    hide Ordered, PublishStubs, RestoreAll, MapZeroed, BuildStack, StackFits, StackFrame, FrameHolds, At, StubPage;
    var f := Finish(l, segs, cfg).value;
    PublishEffect(l.bound.regions, cfg.trampolineBase, StubBytes(l.bound.stubs));
    RestoreContents(f.published, segs, l.placed.bases, |segs|);
    SameContentsOrdered(f.published, f.protected);
    InitialStack(f.protected, cfg, f.stacked);
    forall a: int | At(l.bound.regions, a).Some?
      ensures At(f.final, a).Some? && ByteAt(f.final, a) == ByteAt(l.bound.regions, a)
    {
      SameContentsBytes(f.published, f.protected, a);
    }
  }

  /** The layout of a finished build: at each base the last segment that took it decides the protection, the
      stub page is read-execute unless a segment has its base, and the stack is read-write. */
  ghost predicate FinalLayout(final: RegionMap, l: Linked, segs: seq<MachSegment>, cfg: Layout)
    requires |l.placed.bases| == |segs|
  {
    && (forall i :: 0 <= i < |segs| && l.placed.bases[i].Some? && LastBase(l.placed.bases, |segs|, i) ==>
          && l.placed.bases[i].value in final
          && final[l.placed.bases[i].value].prot
             == (if segs[i].initprot == Protection(false, false, false) then Protection(true, false, false)
                 else segs[i].initprot)
          && final[l.placed.bases[i].value].data != [])
    && cfg.trampolineBase in final
    && final[cfg.trampolineBase].data == StubPage(cfg.trampolineBase, StubBytes(l.bound.stubs)).data
    && ((forall i :: 0 <= i < |segs| ==> l.placed.bases[i] != Some(cfg.trampolineBase)) ==>
          final[cfg.trampolineBase] == StubPage(cfg.trampolineBase, StubBytes(l.bound.stubs)))
    && StackBase(cfg) in final && final[StackBase(cfg)].prot == RW
  }

  /** Every segment ends with its declared protection (read when it declares none), the stub
      page is read-execute and all traps, and the stack is read-write. */
  lemma {:induction false} FinishProtects(l: Linked, segs: seq<MachSegment>, cfg: Layout)
    requires Ordered(l.bound.regions) && |l.placed.bases| == |segs| && StackFits(cfg)
    requires BasesIn(l.bound.regions, l.placed.bases) && Finish(l, segs, cfg).Ok?
    ensures FinalLayout(Finish(l, segs, cfg).value.final, l, segs, cfg)
  {
    hide Ordered, PublishStubs, RestoreAll, MapZeroed, BuildStack, StackFits, StackFrame, FrameHolds, At, FinalProt,
         StubBytes, StackBase, StubPage, Restored, SolidBases, SameContents, LastBase;
    var f, base := Finish(l, segs, cfg).value, cfg.trampolineBase;
    var page := StubPage(base, StubBytes(l.bound.stubs));
    PublishEffect(l.bound.regions, base, StubBytes(l.bound.stubs));
    RestoreEffect(f.published, segs, l.placed.bases, |segs|);
    ProtectedPage(f.published, f.protected, segs, l.placed.bases, base);
    PageHolds(base, StubBytes(l.bound.stubs));
    RestoredContents(f.published, f.protected, segs, l.placed.bases, |segs|);
    SameContentsOrdered(f.published, f.protected);
    InitialStack(f.protected, cfg, f.stacked);
    StackElsewhere(f.protected, cfg, f.stacked);
    forall i | 0 <= i < |segs| && l.placed.bases[i].Some? && LastBase(l.placed.bases, |segs|, i)
      ensures var b := l.placed.bases[i].value;
              b in f.final && f.final[b].prot == FinalProt(segs[i]) && f.final[b].data != []
      ensures FinalProt(segs[i]) == if segs[i].initprot == Protection(false, false, false)
                                    then Protection(true, false, false) else segs[i].initprot
    {
      FinalProtIs(segs[i]);
      ProtectedSegment(f.published, f.protected, segs, l.placed.bases, i);
    }
  }

  /** A segment that declares no access ends up readable, any other with what it declares. */
  lemma FinalProtIs(seg: MachSegment)
    ensures FinalProt(seg) == if seg.initprot == Protection(false, false, false) then Protection(true, false, false)
                              else seg.initprot
  {
  }

  lemma {:induction false} ProtectedPage(
    rs: RegionMap, rs': RegionMap, segs: seq<MachSegment>, bases: Bases, base: u64
  )
    requires |segs| == |bases| && Restored(rs, rs', segs, bases, |segs|) && base in rs
    ensures base in rs' && rs'[base].data == rs[base].data
    ensures (forall i :: 0 <= i < |segs| ==> bases[i] != Some(base)) ==> rs'[base] == rs[base]
  {
  }

  lemma {:induction false} ProtectedSegment(
    rs: RegionMap, rs': RegionMap, segs: seq<MachSegment>, bases: Bases, i: nat
  )
    requires i < |segs| == |bases| && Restored(rs, rs', segs, bases, |segs|) && SolidBases(rs, bases, |segs|)
    requires bases[i].Some? && LastBase(bases, |segs|, i)
    ensures var b := bases[i].value; b in rs' && rs'[b].prot == FinalProt(segs[i]) && rs'[b].data != []
  {
  }

  lemma PageHolds(base: u64, size: u64)
    requires PageMultiple(size)
    ensures StubPage(base, size).data != []
  {
    hide MapSize, Sled;
    WholePages(size);
    PaddedLength(Sled(size), MapSize(size));
  }

  /** The stack displaces no region that holds bytes. */
  lemma {:induction false} StackElsewhere(rs: RegionMap, cfg: Layout, rs': RegionMap)
    requires Ordered(rs) && StackFits(cfg)
    requires MapZeroed(rs, StackBase(cfg), cfg.stackSize, RW, Stack, "stack") == Ok(rs')
    ensures forall k :: k in rs && rs[k].data != [] ==> k != StackBase(cfg) && k in rs' && rs'[k] == rs[k]
  {
    hide Ordered, CheckFree, Zeros, StackBase, PageUp;
    PageUpIs(Max(cfg.stackSize, 1));
    BaseHoldsNothing(rs, StackBase(cfg), MapSize(cfg.stackSize));
  }

  // ---- bases ------------------------------------------------------------------------------------------------------

  /** The runtime bases of the segments, known before anything is mapped. */
  function BasesOf(segs: seq<MachSegment>, slide: u64): Bases {
    seq(|segs|, i requires 0 <= i < |segs| => if IsMapped(segs[i]) then Some(Runtime(segs[i], slide)) else None)
  }

  /** Placing lists those bases, each of which is the base of a region. */
  lemma {:induction false} PlacedBases(rs: RegionMap, segs: seq<MachSegment>, bytes: Buffer, slide: u64, n: nat)
    requires n <= |segs| && PlaceSegments(rs, segs, bytes, slide, n).Ok?
    ensures var p := PlaceSegments(rs, segs, bytes, slide, n).value;
            p.bases == BasesOf(segs, slide)[..n] && BasesIn(p.regions, p.bases)
  {
    hide PlaceSegment, BasesIn, Runtime;
    if n == 0 {
      NoBases(rs);
    } else {
      PlacedBases(rs, segs, bytes, slide, n - 1);
      PlacedBase(PlaceSegments(rs, segs, bytes, slide, n - 1).value, segs[n - 1], bytes, slide);
      assert BasesOf(segs, slide)[..n] == BasesOf(segs, slide)[..n - 1] + [BasesOf(segs, slide)[n - 1]];
    }
  }

  lemma {:induction false} NoBases(rs: RegionMap)
    ensures BasesIn(rs, [])
  {
  }

  lemma {:induction false} PlacedBase(p: Placement, seg: MachSegment, bytes: Buffer, slide: u64)
    requires PlaceSegment(p, seg, bytes, slide).Ok? && BasesIn(p.regions, p.bases)
    ensures var p' := PlaceSegment(p, seg, bytes, slide).value;
            && p'.bases == p.bases + [if IsMapped(seg) then Some(Runtime(seg, slide)) else None]
            && BasesIn(p'.regions, p'.bases)
  {
    hide CheckFree, Padded, MapDataSize, SegmentBytes, Wrap;
  }

  lemma {:induction false} LinkedBases(rs: RegionMap, image: MachOImage, bytes: Buffer, cfg: Layout)
    requires Link(rs, image, bytes, cfg).Ok?
    ensures var p := Link(rs, image, bytes, cfg).value.placed;
            p.bases == BasesOf(image.segments, cfg.slide) && BasesIn(p.regions, p.bases)
  {
    hide PlaceSegments, RebaseAll, BindAll, RebaseLocations, BindRecords, BasesIn, BasesOf;
    PlacedBases(rs, image.segments, bytes, cfg.slide, |image.segments|);
    BasesLength(image.segments, cfg.slide);
  }

  lemma {:induction false} LinkBases(rs: RegionMap, image: MachOImage, bytes: Buffer, cfg: Layout)
    requires Ordered(rs) && Link(rs, image, bytes, cfg).Ok?
    ensures var l := Link(rs, image, bytes, cfg).value;
            l.placed.bases == BasesOf(image.segments, cfg.slide) && BasesIn(l.bound.regions, l.placed.bases)
  {
    hide Ordered, SameFrame, PlaceSegments, RebaseAll, BindAll, RebaseLocations, BindRecords, BasesIn, BasesOf;
    var l := Link(rs, image, bytes, cfg).value;
    LinkFrame(rs, image, bytes, cfg);
    LinkedBases(rs, image, bytes, cfg);
    FrameBases(l.placed.regions, l.bound.regions, l.placed.bases);
  }

  lemma {:induction false} BasesLength(segs: seq<MachSegment>, slide: u64)
    ensures |BasesOf(segs, slide)| == |segs|
  {
  }

  lemma {:induction false} FrameBases(rs: RegionMap, rs': RegionMap, bases: Bases)
    requires SameFrame(rs, rs') && BasesIn(rs, bases)
    ensures BasesIn(rs', bases)
  {
  }

  /** For every image and every stack that fits its frame, a successful build ends in the final layout with the
      initial frame in place. */
  lemma {:induction false} LoadedLayout(rs: RegionMap, image: MachOImage, bytes: Buffer, cfg: Layout)
    requires Ordered(rs) && StackFits(cfg)
    requires Load(rs, image, bytes, cfg).Ok?
    ensures var s := Load(rs, image, bytes, cfg).value;
            && Ordered(s.finished.final)
            && s.linked.placed.bases == BasesOf(image.segments, cfg.slide)
            && FinalLayout(s.finished.final, s.linked, image.segments, cfg)
            && FrameHolds(s.finished.final, StackFrame(cfg), cfg.argv0)
  {
    hide Ordered, Link, Finish, Describe, StackFits, StackFrame, FrameHolds, FinalLayout, Runtime, SameFrame, BasesIn,
         BasesOf;
    var s := Load(rs, image, bytes, cfg).value;
    LinkFrame(rs, image, bytes, cfg);
    LinkBases(rs, image, bytes, cfg);
    FinishKeepsBytes(s.linked, image.segments, cfg);
    FinishProtects(s.linked, image.segments, cfg);
  }
}
