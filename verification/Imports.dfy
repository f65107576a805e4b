/** Imports end to end: what binding leaves in memory, and why the lazy binder can always
    resolve what the stub helper asks for. */
module Imports {
  import opened Words
  import opened Regions
  import opened FlatMemory
  import opened Memory
  import opened StubTable
  import opened Image
  import opened Loader
  import opened Relocation
  import opened StackLayout
  import opened LoadLayout
  import Dyld = BindStream
  import Leb128

  // ---- the stub table over a whole bind -------------------------------------------------------------------

  /** Room for a stub per record and a page of rounding below the top of the address space. */
  predicate StubsFit(cfg: Layout, records: nat) {
    0 < cfg.trampolineStride && cfg.trampolineBase + cfg.trampolineStride * (records + 1) + PAGE_SIZE <= TWO_64
  }

  /** The table after `n` records: a bijection holding the symbol of every record that names a
      mapped segment. */
  ghost predicate Resolved(t: Stubs, recs: seq<Dyld.Bind>, bases: Bases, n: nat, base: u64, stride: u64)
    requires n <= |recs|
  {
    && Bijective(t) && t.base == base && t.stride == stride && t.next <= base + stride * n
    && forall j :: 0 <= j < n && BindSlot(recs[j], bases).Some? ==> recs[j].symbol in t.forward
  }

  lemma StrideStep(stride: u64, n: nat, total: nat)
    requires n < total
    ensures stride * (n + 1) == stride * n + stride
    ensures stride * (n + 1) <= stride * total
  {
    MulMonotone(stride, n + 1, total);
  }

  lemma MulMonotone(stride: u64, m: nat, n: nat)
    requires m <= n
    ensures stride * m <= stride * n
  {
  }

  lemma {:induction false} ResolvedStep(
    t: Stubs, recs: seq<Dyld.Bind>, bases: Bases, n: nat, base: u64, stride: u64, total: nat
  )
    requires n < |recs| && n < total && Resolved(t, recs, bases, n, base, stride)
    requires base + stride * (total + 1) < TWO_64
    ensures var (t', addr) := Resolve(t, recs[n].symbol);
            && Resolved(t', recs, bases, n + 1, base, stride)
            && recs[n].symbol in t'.forward && t'.forward[recs[n].symbol] == addr
            && (forall s :: s in t.forward ==> s in t'.forward && t'.forward[s] == t.forward[s])
    ensures BindSlot(recs[n], bases).None? ==> Resolved(t, recs, bases, n + 1, base, stride)
  {
    StrideStep(stride, n, total);
    StrideStep(stride, n + 1, total + 1);
    hide Resolve, BindSlot;
    ResolveKeeps(t, recs[n].symbol);
  }

  // ---- what binding writes -----------------------------------------------------------------------------------

  /** Record `j` stores: its segment is mapped and its slot lies in one writable region. */
  ghost predicate Stores(rs: RegionMap, rec: Dyld.Bind, bases: Bases) {
    BindSlot(rec, bases).Some? && Slice(rs, BindSlot(rec, bases).value, 8, WRITE).Ok?
  }

  /** No record after `j` and before `n` stores into the slot of record `j`. */
  ghost predicate LastWriter(rs: RegionMap, recs: seq<Dyld.Bind>, bases: Bases, j: nat, n: nat)
    requires j < n <= |recs| && BindSlot(recs[j], bases).Some?
  {
    forall k :: j < k < n && Stores(rs, recs[k], bases) ==>
      Apart(BindSlot(recs[k], bases).value, BindSlot(recs[j], bases).value)
  }

  ghost predicate BoundSoFar(start: RegionMap, b: Binding, recs: seq<Dyld.Bind>, bases: Bases, n: nat,
                             base: u64, stride: u64)
    requires n <= |recs|
  {
    && Ordered(b.regions) && SameFrame(start, b.regions)
    && Resolved(b.stubs, recs, bases, n, base, stride)
    && forall j :: 0 <= j < n && Stores(start, recs[j], bases) && LastWriter(start, recs, bases, j, n) ==>
         SlotHolds(b, recs[j], bases)
  }

  /** The slot of a record holds its symbol's stub plus its addend. */
  ghost predicate SlotHolds(b: Binding, rec: Dyld.Bind, bases: Bases) {
    && BindSlot(rec, bases).Some? && rec.symbol in b.stubs.forward
    && Word(b.regions, BindSlot(rec, bases).value) == Wrap(b.stubs.forward[rec.symbol] + rec.addend)
  }

  /** One record: its own slot is filled if it can be, and no byte outside it changes. */
  lemma {:induction false} BindOneEffect(start: RegionMap, b: Binding, rec: Dyld.Bind, bases: Bases)
    requires Ordered(b.regions) && SameFrame(start, b.regions) && BindSlot(rec, bases).Some?
    ensures var slot, b' := BindSlot(rec, bases).value, BindOne(b, rec, bases);
            && b'.stubs == Resolve(b.stubs, rec.symbol).0
            && Ordered(b'.regions) && SameFrame(start, b'.regions)
            && (Stores(start, rec, bases) ==>
                  Word(b'.regions, slot) == Wrap(Resolve(b.stubs, rec.symbol).1 + rec.addend))
            && (Stores(start, rec, bases) ==>
                  forall x: int :: !(slot <= x < slot + 8) ==> ByteAt(b'.regions, x) == ByteAt(b.regions, x))
            && (!Stores(start, rec, bases) ==> b'.regions == b.regions)
  {
    hide Ordered, SameFrame, Word, ByteAt, Slice, Resolve, Wrap;
    var slot := BindSlot(rec, bases).value;
    var v := Wrap(Resolve(b.stubs, rec.symbol).1 + rec.addend);
    SliceSame(start, b.regions, slot, 8, WRITE);
    StoreIff(b.regions, slot, v);
    if Stores(start, rec, bases) {
      StoreWord(b.regions, slot, v);
      SameFrameTrans(start, b.regions, WriteU64(b.regions, slot, v).value);
    }
  }

  lemma {:induction false} StoreIff(rs: RegionMap, slot: u64, v: u64)
    ensures WriteU64(rs, slot, v).Ok? <==> Slice(rs, slot, 8, WRITE).Ok?
  {
  }

  lemma {:induction false} BoundNext(
    start: RegionMap, b: Binding, recs: seq<Dyld.Bind>, bases: Bases, n: nat, base: u64, stride: u64, total: nat
  )
    requires n < |recs| && n < total && BoundSoFar(start, b, recs, bases, n, base, stride)
    requires base + stride * (total + 1) < TWO_64
    ensures BoundSoFar(start, BindOne(b, recs[n], bases), recs, bases, n + 1, base, stride)
  {
    hide Ordered, SameFrame, Resolve, BindSlot, BindOne, Resolved, Slice, LastWriter, SlotHolds, Word, ByteAt;
    ResolvedStep(b.stubs, recs, bases, n, base, stride, total);
    var b' := BindOne(b, recs[n], bases);
    if BindSlot(recs[n], bases).None? {
      BindNothing(b, recs[n], bases);
      SkipsStore(start, recs[n], bases);
    } else {
      BindOneEffect(start, b, recs[n], bases);
    }
    forall j | 0 <= j < n + 1 && Stores(start, recs[j], bases) && LastWriter(start, recs, bases, j, n + 1)
      ensures SlotHolds(b', recs[j], bases)
    {
      if j < n {
        LastWriterBefore(start, recs, bases, j, n);
        if BindSlot(recs[n], bases).Some? {
          StillHolds(start, b, recs, bases, n, j);
        }
      } else {
        JustStored(start, b, recs[n], bases);
      }
    }
  }

  lemma {:induction false} LastWriterBefore(start: RegionMap, recs: seq<Dyld.Bind>, bases: Bases, j: nat, n: nat)
    requires j < n < |recs| && BindSlot(recs[j], bases).Some? && LastWriter(start, recs, bases, j, n + 1)
    ensures LastWriter(start, recs, bases, j, n)
  {
  }

  lemma {:induction false} JustStored(start: RegionMap, b: Binding, rec: Dyld.Bind, bases: Bases)
    requires Ordered(b.regions) && SameFrame(start, b.regions) && Stores(start, rec, bases)
    requires var (t, addr) := Resolve(b.stubs, rec.symbol); rec.symbol in t.forward && t.forward[rec.symbol] == addr
    ensures SlotHolds(BindOne(b, rec, bases), rec, bases)
  {
    hide Ordered, SameFrame, Resolve, BindOne, Word, BindSlot, Slice, ByteAt, Wrap;
    BindOneEffect(start, b, rec, bases);
  }

  lemma {:induction false} BindNothing(b: Binding, rec: Dyld.Bind, bases: Bases)
    requires BindSlot(rec, bases).None?
    ensures BindOne(b, rec, bases) == b
  {
  }

  lemma {:induction false} SkipsStore(start: RegionMap, rec: Dyld.Bind, bases: Bases)
    requires BindSlot(rec, bases).None?
    ensures !Stores(start, rec, bases)
  {
  }

  /** An earlier slot survives record `n`, which either stores elsewhere or not at all. */
  lemma {:induction false} StillHolds(
    start: RegionMap, b: Binding, recs: seq<Dyld.Bind>, bases: Bases, n: nat, j: nat
  )
    requires j < n < |recs| && BindSlot(recs[n], bases).Some?
    requires Ordered(b.regions) && SameFrame(start, b.regions) && SlotHolds(b, recs[j], bases)
    requires LastWriter(start, recs, bases, j, n + 1)
    requires var t := Resolve(b.stubs, recs[n].symbol).0;
             forall s :: s in b.stubs.forward ==> s in t.forward && t.forward[s] == b.stubs.forward[s]
    ensures SlotHolds(BindOne(b, recs[n], bases), recs[j], bases)
  {
    hide Ordered, SameFrame, Word, ByteAt, Resolve, BindSlot, BindOne, Stores;
    BindOneEffect(start, b, recs[n], bases);
    if Stores(start, recs[n], bases) {
      WordUntouched(b.regions, BindOne(b, recs[n], bases).regions, BindSlot(recs[n], bases).value,
                    BindSlot(recs[j], bases).value);
    }
  }

  lemma {:induction false} BoundAtStart(start: Binding, recs: seq<Dyld.Bind>, bases: Bases, cfg: Layout)
    requires Ordered(start.regions) && 0 < cfg.trampolineStride
    requires start.stubs == NewStubs(cfg.trampolineBase, cfg.trampolineStride)
    ensures BoundSoFar(start.regions, start, recs, bases, 0, cfg.trampolineBase, cfg.trampolineStride)
  {
    hide Ordered, Bijective;
    NewIsBijective(cfg.trampolineBase, cfg.trampolineStride);
    assert cfg.trampolineStride * 0 == 0;
  }

  lemma {:induction false} BindEffect(start: Binding, recs: seq<Dyld.Bind>, bases: Bases, n: nat, cfg: Layout)
    requires n <= |recs| && Ordered(start.regions)
    requires start.stubs == NewStubs(cfg.trampolineBase, cfg.trampolineStride) && StubsFit(cfg, |recs|)
    ensures BoundSoFar(start.regions, BindAll(start, recs, bases, n), recs, bases, n,
                       cfg.trampolineBase, cfg.trampolineStride)
  {
    hide BoundSoFar, BindOne, Ordered;
    if n == 0 {
      BoundAtStart(start, recs, bases, cfg);
    } else {
      BindEffect(start, recs, bases, n - 1, cfg);
      BoundNext(start.regions, BindAll(start, recs, bases, n - 1), recs, bases, n - 1,
                cfg.trampolineBase, cfg.trampolineStride, |recs|);
    }
  }

  // ---- what is left at the end of the build ---------------------------------------------------------------

  /** The words of a range inside one region are all mapped. */
  lemma {:induction false} SliceIsMapped(rs: RegionMap, a: u64, len: nat, need: Protection, i: nat)
    requires Ordered(rs) && Slice(rs, a, len, need).Ok? && i < len
    ensures At(rs, a + i).Some?
  {
    var (k, off) := Slice(rs, a, len, need).value;
    AtInside(rs, k, a + i);
  }

  lemma {:induction false} WordKept(rs: RegionMap, rs': RegionMap, slot: u64)
    requires Ordered(rs) && Slice(rs, slot, 8, WRITE).Ok?
    requires forall a: int :: At(rs, a).Some? ==> ByteAt(rs', a) == ByteAt(rs, a)
    ensures Word(rs', slot) == Word(rs, slot)
  {
    hide Ordered, Slice, At, ByteAt;
    forall x | slot <= x < slot + 8
      ensures ByteAt(rs, x) == ByteAt(rs', x - slot + slot)
    {
      SliceIsMapped(rs, slot, 8, WRITE, x - slot);
    }
    BytesAtSame(rs, rs', slot, slot, 8);
  }

  /** The stub page reaches past every stub. */
  lemma {:induction false} StubsInPage(t: Stubs, cfg: Layout, records: nat)
    requires Bijective(t) && t.base == cfg.trampolineBase && t.stride == cfg.trampolineStride
    requires StubsFit(cfg, records) && t.next <= cfg.trampolineBase + cfg.trampolineStride * records
    ensures Wrap(cfg.trampolineBase + StubBytes(t)) == cfg.trampolineBase + StubBytes(t)
    ensures t.next <= cfg.trampolineBase + StubBytes(t)
  {
    hide Bijective, Wrap, StubBytes;
    BijectiveBounds(t);
    StrideStep(cfg.trampolineStride, records, records + 1);
    PageReach(t, cfg.trampolineStride * records);
  }

  lemma {:induction false} BijectiveBounds(t: Stubs)
    requires Bijective(t)
    ensures 0 < t.stride && t.base <= t.next
  {
  }

  lemma {:induction false} PageReach(t: Stubs, span: nat)
    requires t.base <= t.next <= t.base + span && t.base + span + 1 + PAGE_SIZE <= TWO_64
    ensures Wrap(t.base + StubBytes(t)) == t.base + StubBytes(t)
    ensures t.next <= t.base + StubBytes(t)
  {
    hide Wrap, PageUp;
    var used := t.next - t.base;
    WrapSmall(used);
    PageUpIs(Max(used, PAGE_SIZE));
    PageUpIs(PAGE_SIZE);
    WrapSmall(t.base + StubBytes(t));
  }

  /** Import round trip: a record with no addend whose slot no later record stores into leaves
      there an address inside the stub page at which the executor finds exactly its symbol. */
  lemma {:induction false} ImportRoundTrip(rs: RegionMap, image: MachOImage, bytes: Buffer, cfg: Layout, j: nat)
    requires Ordered(rs) && Load(rs, image, bytes, cfg).Ok? && StackFits(cfg)
    requires var l := Load(rs, image, bytes, cfg).value.linked;
             && StubsFit(cfg, |l.records|) && j < |l.records| && l.records[j].addend == 0
             && Stores(l.rebased, l.records[j], l.placed.bases)
             && LastWriter(l.rebased, l.records, l.placed.bases, j, |l.records|)
    ensures var s := Load(rs, image, bytes, cfg).value;
            var rec := s.linked.records[j];
            var held := Word(s.finished.final, BindSlot(rec, s.linked.placed.bases).value);
            && rec.symbol in s.process.symbolStubs && held == s.process.symbolStubs[rec.symbol]
            && s.process.trampolineBase <= held < s.process.trampolineEnd
            && held in s.process.trampolines && s.process.trampolines[held] == rec.symbol
  {
    hide Ordered, Link, Finish, StackFits, BindAll, Word, At, ByteAt, FrameHolds, LastWriter, StubsFit, Resolved,
         StackFrame, LazyTableOf, StubBytes, Slice, BindSlot, SameFrame, Bijective, Wrap;
    var s := Load(rs, image, bytes, cfg).value;
    LinkFrame(rs, image, bytes, cfg);
    LinkBinds(rs, image, bytes, cfg);
    var l := s.linked;
    SliceSame(l.rebased, l.bound.regions, BindSlot(l.records[j], l.placed.bases).value, 8, WRITE);
    FinishKeepsBytes(l, image.segments, cfg);
    WordKept(l.bound.regions, s.finished.final, BindSlot(l.records[j], l.placed.bases).value);
    HeldIsStub(l, cfg, j);
    StubsInPage(l.bound.stubs, cfg, |l.records|);
  }

  /** The binding step of a link, with what it leaves. */
  lemma {:induction false} LinkBinds(rs: RegionMap, image: MachOImage, bytes: Buffer, cfg: Layout)
    requires Ordered(rs) && Link(rs, image, bytes, cfg).Ok?
    requires StubsFit(cfg, |Link(rs, image, bytes, cfg).value.records|)
    ensures var l := Link(rs, image, bytes, cfg).value;
            BoundSoFar(l.rebased, l.bound, l.records, l.placed.bases, |l.records|,
                       cfg.trampolineBase, cfg.trampolineStride)
  {
    hide Ordered, BoundSoFar, PlaceSegments, RebaseAll, BindAll, RebaseLocations, BindRecords, SameFrame, StubsFit;
    LinkFrame(rs, image, bytes, cfg);
    var l := Link(rs, image, bytes, cfg).value;
    BindEffect(Binding(l.rebased, NewStubs(cfg.trampolineBase, cfg.trampolineStride)), l.records, l.placed.bases,
               |l.records|, cfg);
  }

  lemma {:induction false} HeldIsStub(l: Linked, cfg: Layout, j: nat)
    requires BoundSoFar(l.rebased, l.bound, l.records, l.placed.bases, |l.records|, cfg.trampolineBase, cfg.trampolineStride)
    requires j < |l.records| && l.records[j].addend == 0
    requires Stores(l.rebased, l.records[j], l.placed.bases)
    requires LastWriter(l.rebased, l.records, l.placed.bases, j, |l.records|)
    ensures var t, rec := l.bound.stubs, l.records[j];
            var held := Word(l.bound.regions, BindSlot(rec, l.placed.bases).value);
            && Bijective(t) && t.base == cfg.trampolineBase && t.stride == cfg.trampolineStride
            && t.next <= cfg.trampolineBase + cfg.trampolineStride * |l.records|
            && rec.symbol in t.forward && held == t.forward[rec.symbol]
            && t.base <= held < t.next && held in t.reverse && t.reverse[held] == rec.symbol
  {
    hide Ordered, Word, BindSlot, Slice, LastWriter, SameFrame;
    assert SlotHolds(l.bound, l.records[j], l.placed.bases);
    WrapSmall(l.bound.stubs.forward[l.records[j].symbol]);
  }

  // ---- when lazy binding is total --------------------------------------------------------------------------------------

  /** Some of the first `n` records has a slot and names the symbol. */
  ghost predicate NamedBy(recs: seq<Dyld.Bind>, bases: Bases, n: nat, symbol: string)
    requires n <= |recs|
  {
    exists j :: 0 <= j < n && BindSlot(recs[j], bases).Some? && recs[j].symbol == symbol
  }

  lemma {:induction false} NamedByNext(recs: seq<Dyld.Bind>, bases: Bases, n: nat, symbol: string)
    requires n < |recs|
    ensures NamedBy(recs, bases, n + 1, symbol)
            <==> NamedBy(recs, bases, n, symbol) || (BindSlot(recs[n], bases).Some? && recs[n].symbol == symbol)
  {
    hide BindSlot;
  }

  /** Binding gives a symbol a stub exactly when a record with a slot names it. */
  lemma {:induction false} ForwardIff(b: Binding, recs: seq<Dyld.Bind>, bases: Bases, n: nat, symbol: string)
    requires n <= |recs|
    ensures symbol in BindAll(b, recs, bases, n).stubs.forward
            <==> symbol in b.stubs.forward || NamedBy(recs, bases, n, symbol)
  {
    hide WriteU64, BindSlot, Wrap, NamedBy;
    if n == 0 {
      NobodyNames(recs, bases, symbol);
    } else {
      ForwardIff(b, recs, bases, n - 1, symbol);
      NamedByNext(recs, bases, n - 1, symbol);
    }
  }

  lemma {:induction false} NobodyNames(recs: seq<Dyld.Bind>, bases: Bases, symbol: string)
    ensures !NamedBy(recs, bases, 0, symbol)
  {
  }

  /** Entry `i` is the one the table keeps for its offset. */
  ghost predicate Kept(entries: seq<Dyld.LazyBind>, bases: Bases, n: nat, o: nat, i: nat)
    requires i < n <= |entries|
  {
    && entries[i].offset == o && BaseOf(bases, entries[i].segIndex).Some?
    && forall k :: i < k < n && entries[k].offset == o ==> BaseOf(bases, entries[k].segIndex).None?
  }

  lemma {:induction false} LazyEntry(entries: seq<Dyld.LazyBind>, bases: Bases, n: nat, o: nat) returns (i: nat)
    requires n <= |entries| && o in LazyTableOf(entries, bases, n)
    ensures i < n && Kept(entries, bases, n, o, i)
    ensures LazyTableOf(entries, bases, n)[o]
            == (entries[i].symbol, Wrap(BaseOf(bases, entries[i].segIndex).value + entries[i].segOffset))
  {
    hide Wrap;
    if entries[n - 1].offset == o && BaseOf(bases, entries[n - 1].segIndex).Some? {
      i := n - 1;
    } else {
      i := LazyEntry(entries, bases, n - 1, o);
    }
  }

  /** The lazy stream of the image, when it has one. */
  function LazyStream(image: MachOImage, bytes: Buffer): (s: seq<byte>) {
    if image.dyldInfo.None? || image.dyldInfo.value.lazyBindSize == 0 then []
    else match FileRange(bytes, image.dyldInfo.value.lazyBindOff, image.dyldInfo.value.lazyBindSize)
      case None => []
      case Some(stream) => stream
  }

  /** The lazy stream decodes and uses no compound bind. */
  ghost predicate SimpleLazyStream(image: MachOImage, bytes: Buffer) {
    var ops := Dyld.Disassemble(LazyStream(image, bytes));
    ops.Ok? && Dyld.Simple(ops.value)
  }

  /** Number of records the eager stream contributes. */
  function EagerCount(image: MachOImage, bytes: Buffer): nat {
    match image.dyldInfo
    case None => 0
    case Some(info) =>
      match StreamRecords(bytes, info.bindOff, info.bindSize)
      case Ok(recs) => |recs|
      case Err(_) => 0
  }

  /** The lazy entries and the tail of the bind records come from one stream, bind by bind. */
  lemma {:induction false} LazyMatchesRecords(image: MachOImage, bytes: Buffer)
    requires SimpleLazyStream(image, bytes)
    requires BindRecords(image, bytes).Ok? && LazyRecords(image, bytes).Ok?
    ensures var recs, lazy, e := BindRecords(image, bytes).value, LazyRecords(image, bytes).value, EagerCount(image, bytes);
            && |recs| == e + |lazy|
            && Dyld.Matches(recs[e..], lazy, Dyld.Drifts(Dyld.Disassemble(LazyStream(image, bytes)).value, 0))
  {
    hide Dyld.Disassemble, Dyld.LazyDisassemble, Dyld.Run, Dyld.LazyRun, Dyld.Drifts, Dyld.Matches, Dyld.Simple, FileRange;
    var stream := LazyStream(image, bytes);
    if stream == [] {
      NothingMatches();
      if image.dyldInfo.Some? && image.dyldInfo.value.lazyBindSize != 0 {
        Dyld.LazyParserAgrees(stream);
      }
    } else {
      Dyld.LazyParserAgrees(stream);
    }
  }

  lemma NothingMatches()
    ensures Dyld.Disassemble([]) == Ok([])
    ensures Dyld.Matches([], [], Dyld.Drifts([], 0))
  {
  }

  /** The index names a segment that gets mapped. */
  predicate NamesMapped(segs: seq<MachSegment>, index: nat) {
    index < |segs| && IsMapped(segs[index])
  }

  /** A lazy entry that the table keeps: it names a mapped segment, and no later entry that does has its offset. */
  ghost predicate LazyKept(segs: seq<MachSegment>, lazy: seq<Dyld.LazyBind>, i: nat)
    requires i < |lazy|
  {
    && NamesMapped(segs, lazy[i].segIndex)
    && forall k :: i < k < |lazy| && lazy[k].offset == lazy[i].offset ==> !NamesMapped(segs, lazy[k].segIndex)
  }

  /** Some record names both a mapped segment and the symbol. */
  ghost predicate Imported(segs: seq<MachSegment>, recs: seq<Dyld.Bind>, symbol: string) {
    exists j :: 0 <= j < |recs| && NamesMapped(segs, recs[j].segIndex) && recs[j].symbol == symbol
  }

  /** Every lazy entry the table keeps names an imported symbol. This can be read from the file: it says nothing of
      addresses, memory or stubs. */
  ghost predicate LazyImported(segs: seq<MachSegment>, lazy: seq<Dyld.LazyBind>, recs: seq<Dyld.Bind>) {
    forall i :: 0 <= i < |lazy| && LazyKept(segs, lazy, i) ==> Imported(segs, recs, lazy[i].symbol)
  }

  /** Every entry of the loaded table has a stub, so the binder cannot meet an unresolved symbol. */
  ghost predicate TotalTable(p: Process) {
    forall o :: o in p.lazyBinds ==> p.lazyBinds[o].0 in p.symbolStubs
  }

  lemma {:induction false} BaseIff(segs: seq<MachSegment>, slide: u64, index: nat)
    ensures BaseOf(BasesOf(segs, slide), index).Some? <==> NamesMapped(segs, index)
  {
  }

  lemma {:induction false} NamedIff(segs: seq<MachSegment>, slide: u64, recs: seq<Dyld.Bind>, symbol: string)
    ensures NamedBy(recs, BasesOf(segs, slide), |recs|, symbol) <==> Imported(segs, recs, symbol)
  {
    hide NamesMapped, BasesOf;
    forall j | 0 <= j < |recs|
      ensures BindSlot(recs[j], BasesOf(segs, slide)).Some? <==> NamesMapped(segs, recs[j].segIndex)
    {
      BaseIff(segs, slide, recs[j].segIndex);
    }
  }

  lemma {:induction false} KeptIff(segs: seq<MachSegment>, slide: u64, lazy: seq<Dyld.LazyBind>, i: nat)
    requires i < |lazy|
    ensures Kept(lazy, BasesOf(segs, slide), |lazy|, lazy[i].offset, i) <==> LazyKept(segs, lazy, i)
  {
    hide NamesMapped, BasesOf, BaseOf;
    forall k | 0 <= k < |lazy|
      ensures BaseOf(BasesOf(segs, slide), lazy[k].segIndex).Some? <==> NamesMapped(segs, lazy[k].segIndex)
    {
      BaseIff(segs, slide, lazy[k].segIndex);
    }
  }

  /** What a loaded process knows of symbols and lazy binds. */
  lemma {:induction false} LoadedTables(rs: RegionMap, image: MachOImage, bytes: Buffer, cfg: Layout)
    requires Load(rs, image, bytes, cfg).Ok?
    ensures BindRecords(image, bytes).Ok? && LazyRecords(image, bytes).Ok?
    ensures var p, bases := Load(rs, image, bytes, cfg).value.process, BasesOf(image.segments, cfg.slide);
            var recs, lazy := BindRecords(image, bytes).value, LazyRecords(image, bytes).value;
            && p.lazyBinds == LazyTableOf(lazy, bases, |lazy|)
            && forall s :: s in p.symbolStubs <==> Imported(image.segments, recs, s)
  {
    hide PlaceSegments, RebaseAll, BindAll, RebaseLocations, Finish, StackFrame, LazyTableOf, BasesIn, BasesOf, StubBytes,
         BindRecords, LazyRecords, NamedBy, Imported;
    var l := Load(rs, image, bytes, cfg).value.linked;
    var start := Binding(l.rebased, NewStubs(cfg.trampolineBase, cfg.trampolineStride));
    LinkedBases(rs, image, bytes, cfg);
    forall s
      ensures s in l.bound.stubs.forward <==> Imported(image.segments, l.records, s)
    {
      ForwardIff(start, l.records, l.placed.bases, |l.records|, s);
      NamedIff(image.segments, cfg.slide, l.records, s);
    }
  }

  /** Lazy binding is total exactly when every lazy entry the table keeps names a symbol that some record of a
      mapped segment imports. */
  lemma {:induction false} LazyBindingTotalIff(rs: RegionMap, image: MachOImage, bytes: Buffer, cfg: Layout)
    requires Load(rs, image, bytes, cfg).Ok?
    ensures BindRecords(image, bytes).Ok? && LazyRecords(image, bytes).Ok?
    ensures TotalTable(Load(rs, image, bytes, cfg).value.process)
            <==> LazyImported(image.segments, LazyRecords(image, bytes).value, BindRecords(image, bytes).value)
  {
    hide Load, BindRecords, LazyRecords, LazyTableOf, Imported, LazyKept, Kept, BasesOf;
    LoadedTables(rs, image, bytes, cfg);
    var p, bases := Load(rs, image, bytes, cfg).value.process, BasesOf(image.segments, cfg.slide);
    var lazy, recs := LazyRecords(image, bytes).value, BindRecords(image, bytes).value;
    forall i | 0 <= i < |lazy| && LazyKept(image.segments, lazy, i)
      ensures lazy[i].offset in p.lazyBinds && p.lazyBinds[lazy[i].offset].0 == lazy[i].symbol
    {
      KeptIff(image.segments, cfg.slide, lazy, i);
      KeptIsEntry(lazy, bases, |lazy|, lazy[i].offset, i);
    }
    forall o | o in p.lazyBinds
      ensures exists i :: 0 <= i < |lazy| && LazyKept(image.segments, lazy, i) && lazy[i].symbol == p.lazyBinds[o].0
    {
      var i := LazyEntry(lazy, bases, |lazy|, o);
      KeptOffset(lazy, bases, o, i);
      KeptIff(image.segments, cfg.slide, lazy, i);
    }
  }

  lemma {:induction false} KeptOffset(lazy: seq<Dyld.LazyBind>, bases: Bases, o: nat, i: nat)
    requires i < |lazy| && Kept(lazy, bases, |lazy|, o, i)
    ensures lazy[i].offset == o
  {
  }

  /** The offsets of a loaded table fit the 32 bits the stub helper passes. */
  lemma {:induction false} LazyOffsetsFit(image: MachOImage, bytes: Buffer, i: nat)
    requires LazyRecords(image, bytes).Ok? && i < |LazyRecords(image, bytes).value|
    ensures LazyRecords(image, bytes).value[i].offset < 0x1_0000_0000
  {
    hide Dyld.LazyDecode;
    var stream := FileRange(bytes, image.dyldInfo.value.lazyBindOff, image.dyldInfo.value.lazyBindSize).value;
    Dyld.OffsetsInStream(stream, Dyld.LAZY_INITIAL);
  }

  /** A stream without compound binds meets the condition: the full parser reads the same binds. */
  lemma {:induction false} SimpleStreamsImport(image: MachOImage, bytes: Buffer)
    requires SimpleLazyStream(image, bytes)
    requires BindRecords(image, bytes).Ok? && LazyRecords(image, bytes).Ok?
    ensures LazyImported(image.segments, LazyRecords(image, bytes).value, BindRecords(image, bytes).value)
  {
    hide SimpleLazyStream, BindRecords, LazyRecords, Dyld.Drifts, Dyld.Disassemble, EagerCount, NamesMapped;
    var recs, lazy, e := BindRecords(image, bytes).value, LazyRecords(image, bytes).value, EagerCount(image, bytes);
    LazyMatchesRecords(image, bytes);
    forall i | 0 <= i < |lazy| && LazyKept(image.segments, lazy, i)
      ensures Imported(image.segments, recs, lazy[i].symbol)
    {
      assert recs[e..][i] == recs[e + i];
    }
  }

  /** So lazy binding of such a stream is total: whatever offset the table answers, its symbol has a stub. */
  lemma {:induction false} LazyBindingIsTotal(rs: RegionMap, image: MachOImage, bytes: Buffer, cfg: Layout, o: nat)
    requires Load(rs, image, bytes, cfg).Ok? && SimpleLazyStream(image, bytes)
    requires o in Load(rs, image, bytes, cfg).value.process.lazyBinds
    ensures var p := Load(rs, image, bytes, cfg).value.process;
            p.lazyBinds[o].0 in p.symbolStubs
  {
    hide Load, SimpleLazyStream, LazyImported, BindRecords, LazyRecords;
    LazyBindingTotalIff(rs, image, bytes, cfg);
    SimpleStreamsImport(image, bytes);
  }

  /** When nothing separates a lazy bind from the setting of its slot, it carries no addend and
      no later record stores there, the slot the binder patches already holds what it writes. */
  lemma {:induction false} LazyPatchIsIdempotent(
    rs: RegionMap, image: MachOImage, bytes: Buffer, cfg: Layout, o: nat, i: nat
  )
    requires Ordered(rs) && Load(rs, image, bytes, cfg).Ok? && StackFits(cfg) && SimpleLazyStream(image, bytes)
    requires LazyRecords(image, bytes).Ok? && BindRecords(image, bytes).Ok?
    requires var l := Load(rs, image, bytes, cfg).value.linked;
             var lazy := LazyRecords(image, bytes).value;
             i < |lazy| && Kept(lazy, l.placed.bases, |lazy|, o, i)
    requires var l := Load(rs, image, bytes, cfg).value.linked;
             var j := EagerCount(image, bytes) + i;
             && StubsFit(cfg, |l.records|) && j < |l.records| && l.records[j].addend == 0
             && l.records[j].segOffset == LazyRecords(image, bytes).value[i].segOffset
             && Stores(l.rebased, l.records[j], l.placed.bases)
             && LastWriter(l.rebased, l.records, l.placed.bases, j, |l.records|)
    ensures var s := Load(rs, image, bytes, cfg).value;
            && o in s.process.lazyBinds && s.process.lazyBinds[o].0 in s.process.symbolStubs
            && Word(s.finished.final, s.process.lazyBinds[o].1) == s.process.symbolStubs[s.process.lazyBinds[o].0]
  {
    hide Link, Finish, Ordered, StackFits, SimpleLazyStream, StackFrame, LazyTableOf, Wrap, StubBytes, BindRecords,
         LazyRecords, Dyld.Drifts, Dyld.Disassemble, EagerCount, Word, StubsFit, LastWriter, Slice, Kept;
    var s := Load(rs, image, bytes, cfg).value;
    var l, lazy := s.linked, LazyRecords(image, bytes).value;
    KeptIsEntry(lazy, l.placed.bases, |lazy|, o, i);
    LazyMatchesRecords(image, bytes);
    var j := EagerCount(image, bytes) + i;
    LinkRecords(rs, image, bytes, cfg);
    assert l.records[EagerCount(image, bytes)..][i] == l.records[j];
    ImportRoundTrip(rs, image, bytes, cfg, j);
  }

  lemma {:induction false} LinkRecords(rs: RegionMap, image: MachOImage, bytes: Buffer, cfg: Layout)
    requires Link(rs, image, bytes, cfg).Ok?
    ensures BindRecords(image, bytes) == Ok(Link(rs, image, bytes, cfg).value.records)
  {
    hide PlaceSegments, RebaseAll, BindAll, RebaseLocations, BindRecords;
  }

  lemma {:induction false} KeptIsEntry(entries: seq<Dyld.LazyBind>, bases: Bases, n: nat, o: nat, i: nat)
    requires i < n <= |entries| && Kept(entries, bases, n, o, i)
    ensures o in LazyTableOf(entries, bases, n)
    ensures LazyTableOf(entries, bases, n)[o]
            == (entries[i].symbol, Wrap(BaseOf(bases, entries[i].segIndex).value + entries[i].segOffset))
  {
    hide Wrap;
    if i < n - 1 {
      KeptIsEntry(entries, bases, n - 1, o, i);
    }
  }

  // ---- compound binds break the lock-step ----------------------------------------------------------------------

  /** Five bytes the full parser reads as two binds of the empty symbol and the lazy parser as
      one bind of `Q`: with a compound bind in the stream a lazy entry can name a symbol that no
      record resolves. */
  lemma CompoundDesynchronises()
    ensures var s: seq<byte> := [0xA0, 0x40, 0x51, 0x00, 0x90];
            && Dyld.Decode(s, Dyld.INITIAL).Ok?
            && (forall r :: r in Dyld.Decode(s, Dyld.INITIAL).value.out ==> r.symbol == "")
            && Dyld.LazyDecode(s, Dyld.LAZY_INITIAL)
               == Ok(Dyld.LazyTrace([Dyld.LazyBind(0, 0, 0, "Q")], Dyld.LazyState(5, 0, 0, 0, "Q")))
  {
    var s: seq<byte> := [0xA0, 0x40, 0x51, 0x00, 0x90];
    CompoundFullView(s);
    CompoundLazyView(s);
  }

  lemma {:induction false} CompoundProgram(s: seq<byte>)
    requires s == [0xA0, 0x40, 0x51, 0x00, 0x90]
    ensures Dyld.Disassemble(s) == Ok([Dyld.Fetched(Dyld.DoBindAddAddr(0x40), 2), Dyld.Fetched(Dyld.SetType(1), 1),
                                       Dyld.Fetched(Dyld.Done, 1), Dyld.Fetched(Dyld.DoBind, 1)])
  {
    hide Dyld.Disassemble, Dyld.LazyDisassemble, Dyld.Fetch, Dyld.LazyFetch;
    var a, b, c: seq<byte> := [0x51, 0x00, 0x90], [0x00, 0x90], [0x90];
    assert s[2..] == a && a[1..] == b && b[1..] == c && c[1..] == [];
    var i1, i2, i3, i4 := Dyld.Fetched(Dyld.DoBindAddAddr(0x40), 2), Dyld.Fetched(Dyld.SetType(1), 1),
                          Dyld.Fetched(Dyld.Done, 1), Dyld.Fetched(Dyld.DoBind, 1);
    OperandForty(s);
    PlainOpcodes(a);
    PlainOpcodes(b);
    PlainOpcodes(c);
    DisassembleNil();
    DisassembleCons(c, i4, []);
    DisassembleCons(b, i3, [i4] + []);
    DisassembleCons(a, i2, [i3] + ([i4] + []));
    DisassembleCons(s, i1, [i2] + ([i3] + ([i4] + [])));
    assert [i1] + ([i2] + ([i3] + ([i4] + []))) == [i1, i2, i3, i4];
  }

  lemma {:induction false} CompoundFullView(s: seq<byte>)
    requires s == [0xA0, 0x40, 0x51, 0x00, 0x90]
    ensures Dyld.Decode(s, Dyld.INITIAL).Ok?
    ensures forall r :: r in Dyld.Decode(s, Dyld.INITIAL).value.out ==> r.symbol == ""
  {
    hide Dyld.Disassemble, Dyld.Run;
    CompoundProgram(s);
    NoSymbolSet(Dyld.Disassemble(s).value, Dyld.INITIAL);
  }

  lemma DisassembleNil()
    ensures Dyld.Disassemble([]) == Ok([]) && Dyld.LazyDisassemble([]) == Ok([])
  {
  }

  lemma {:induction false} PlainOpcodes(s: seq<byte>)
    requires s != []
    ensures s[0] == 0x00 ==> Dyld.Fetch(s) == Ok(Dyld.Fetched(Dyld.Done, 1))
    ensures s[0] == 0x51 ==> Dyld.Fetch(s) == Ok(Dyld.Fetched(Dyld.SetType(1), 1))
    ensures s[0] == 0x90 ==> Dyld.Fetch(s) == Ok(Dyld.Fetched(Dyld.DoBind, 1))
    ensures s[0] == 0xA0 ==> Dyld.LazyFetch(s) == Ok(Dyld.Fetched(Dyld.Ignored, 1))
    ensures s[0] < 0xA0 ==> Dyld.LazyFetch(s) == Dyld.Fetch(s)
  {
  }

  lemma {:induction false} OperandForty(s: seq<byte>)
    requires |s| >= 2 && s[0] == 0xA0 && s[1] == 0x40
    ensures Dyld.Fetch(s) == Ok(Dyld.Fetched(Dyld.DoBindAddAddr(0x40), 2))
  {
    assert s[1..][..1] == [0x40];
    assert [0x40][1..] == [];
    assert Leb128.Base128([0x40]) == 0x40;
  }

  lemma {:induction false} DisassembleCons(s: seq<byte>, op: Dyld.Fetched, rest: seq<Dyld.Fetched>)
    requires s != [] && op.size <= |s|
    ensures Dyld.Fetch(s) == Ok(op) && Dyld.Disassemble(s[op.size..]) == Ok(rest) ==>
              Dyld.Disassemble(s) == Ok([op] + rest)
    ensures Dyld.LazyFetch(s) == Ok(op) && Dyld.LazyDisassemble(s[op.size..]) == Ok(rest) ==>
              Dyld.LazyDisassemble(s) == Ok([op] + rest)
  {
    hide Dyld.Fetch, Dyld.LazyFetch;
  }

  /** A program without bursts that sets no symbol binds the one it started with. */
  lemma {:induction false} NoSymbolSet(ops: seq<Dyld.Fetched>, at: Dyld.Bind)
    requires forall i :: 0 <= i < |ops| ==> !ops[i].insn.SetSymbol? && !ops[i].insn.DoBindTimesSkipping?
    ensures forall r :: r in Dyld.Run(ops, at).out ==> r.symbol == at.symbol
  {
    if ops != [] {
      NoSymbolSet(ops[1..], Dyld.Step(ops[0].insn, at).state);
    }
  }

  lemma {:induction false} CompoundLazyView(s: seq<byte>)
    requires s == [0xA0, 0x40, 0x51, 0x00, 0x90]
    ensures Dyld.LazyDecode(s, Dyld.LAZY_INITIAL)
            == Ok(Dyld.LazyTrace([Dyld.LazyBind(0, 0, 0, "Q")], Dyld.LazyState(5, 0, 0, 0, "Q")))
  {
    hide Dyld.Disassemble, Dyld.LazyDisassemble, Dyld.Fetch, Dyld.LazyFetch;
    var a, b: seq<byte> := [0x40, 0x51, 0x00, 0x90], [0x90];
    assert s[1..] == a && a[3..] == b && b[1..] == [];
    var skip, name, bind := Dyld.Fetched(Dyld.Ignored, 1), Dyld.Fetched(Dyld.SetSymbol(0, "Q"), 3), Dyld.Fetched(Dyld.DoBind, 1);
    QIsRead(a);
    PlainOpcodes(a);
    PlainOpcodes(b);
    PlainOpcodes(s);
    DisassembleNil();
    DisassembleCons(b, bind, []);
    DisassembleCons(a, name, [bind] + []);
    DisassembleCons(s, skip, [name] + ([bind] + []));
    SkipNameBind(skip, name, bind);
  }

  lemma {:induction false} SkipNameBind(skip: Dyld.Fetched, name: Dyld.Fetched, bind: Dyld.Fetched)
    requires skip == Dyld.Fetched(Dyld.Ignored, 1) && name == Dyld.Fetched(Dyld.SetSymbol(0, "Q"), 3)
    requires bind == Dyld.Fetched(Dyld.DoBind, 1)
    ensures Dyld.LazyRun([skip] + ([name] + ([bind] + [])), Dyld.LAZY_INITIAL)
            == Dyld.LazyTrace([Dyld.LazyBind(0, 0, 0, "Q")], Dyld.LazyState(5, 0, 0, 0, "Q"))
  {
    var ops := [skip] + ([name] + ([bind] + []));
    assert ops[1..] == [name, bind] && [name, bind][1..] == [bind] && [bind][1..] == [];
    var at1, at4 := Dyld.LazyState(1, 0, 0, 0, ""), Dyld.LazyState(4, 0, 0, 0, "Q");
    assert Dyld.LazyRun([bind], at4) == Dyld.LazyTrace([Dyld.LazyBind(0, 0, 0, "Q")], Dyld.LazyState(5, 0, 0, 0, "Q"));
    assert Dyld.LazyRun([name, bind], at1) == Dyld.LazyRun([bind], at4);
  }

  lemma {:induction false} QIsRead(a: seq<byte>)
    requires a == [0x40, 0x51, 0x00, 0x90]
    ensures Dyld.Fetch(a) == Ok(Dyld.Fetched(Dyld.SetSymbol(0, "Q"), 3))
  {
    Dyld.NulIndexIs(a[1..], 1);
    assert a[1..][..1] == [0x51];
    assert Dyld.Text([0x51]) == "Q";
  }
}
