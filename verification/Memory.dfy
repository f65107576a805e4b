/** The memory manager object: the region map, the anonymous-mapping cursor and the bump heap,
    updated in place. */
module Memory {
  import opened Words
  import opened Regions
  import opened FlatMemory

  const MMAP_TOP: u64 := 0x2_0000_0000

  datatype Bump = Bump(base: u64, limit: u64, cursor: u64)

  /** `BumpAllocator::alloc`: the address handed out, and the allocator after it. */
  function Alloc(h: Bump, size: u64, align: u64): (r: Result<(Bump, u64), EmuError>) {
    var start := AlignUp(h.cursor, Max(align, 1));
    var end := start + Max(size, 1);
    if end >= TWO_64 then Err(HeapOverflow)
    else if end > h.limit then Err(HeapExhausted)
    else Ok((h.(cursor := end), start))
  }

  /** The block every client asks for: sixteen-byte aligned. */
  function Block16(h: Bump, size: u64): (r: Result<(Bump, u64), EmuError>) {
    var start := Up16(h.cursor);
    var end := start + Max(size, 1);
    if end >= TWO_64 then Err(HeapOverflow)
    else if end > h.limit then Err(HeapExhausted)
    else Ok((h.(cursor := end), start))
  }

  lemma {:induction false} Block16Is(h: Bump, size: u64)
    ensures Alloc(h, size, 16) == Block16(h, size)
  {
    hide AlignUp, Up16;
    AlignmentsInUse(h.cursor);
  }

  /** Where rounding does not wrap, an allocation succeeds exactly when some aligned block of the size fits between
      the cursor and the limit; it takes the lowest one, and the cursor moves to its end. */
  lemma {:induction false} AllocIff(h: Bump, size: u64, align: u64)
    requires h.cursor + Max(align, 1) <= TWO_64
    ensures Alloc(h, size, align).Ok?
            <==> exists start: nat :: start % Max(align, 1) == 0 && h.cursor <= start && start + Max(size, 1) <= h.limit
    ensures Alloc(h, size, align).Ok? ==>
              var (h', start) := Alloc(h, size, align).value;
              && start % Max(align, 1) == 0 && h.cursor <= start && start + Max(size, 1) <= h.limit
              && h' == h.(cursor := start + Max(size, 1))
              && forall other: nat :: other % Max(align, 1) == 0 && h.cursor <= other ==> start <= other
  {
    hide AlignUp;
    var a := Max(align, 1);
    var start := AlignUp(h.cursor, a);
    AlignUpIs(h.cursor, a);
    forall other: nat | other % a == 0 && h.cursor <= other
      ensures start <= other
    {
      NextAligned(start, other, a);
    }
  }

  lemma AlignUpIs(v: u64, a: u64)
    requires 0 < a && v + a <= TWO_64
    ensures AlignUp(v, a) % a == 0 && v <= AlignUp(v, a) < v + a
  {
    hide Wrap;
    WrapSmall(v + (a - 1));
    var x := v + (a - 1);
    ModSplit(x, a);
    ModUnique(x - x % a, a, x / a, 0);
  }

  /** No multiple lies between two that are less than one step apart. */
  lemma NextAligned(start: nat, other: nat, a: nat)
    requires 0 < a && start % a == 0 && other % a == 0 && start < other + a
    ensures start <= other
  {
    ModSplit(start, a);
    ModSplit(other, a);
    if other < start {
      var d := start / a - other / a;
      assert d * a == start / a * a - other / a * a;
      SmallMultiple(d, a);
      assert false;
    }
  }

  class BumpAllocator {
    const base: u64
    const limit: u64
    var cursor: u64

    function View(): Bump
      reads this
    {
      Bump(base, limit, cursor)
    }

    constructor (base: u64, size: u64)
      ensures View() == Bump(base, Wrap(base + size), base)
    {
      this.base, limit, cursor := base, Wrap(base + size), base;
    }

    method Allocate(size: u64, align: u64) returns (r: Result<u64, EmuError>)
      modifies this
      ensures match Alloc(old(View()), size, align)
              case Ok(done) => r == Ok(done.1) && View() == done.0
              case Err(e) => r == Err(e) && View() == old(View())
    {
      var align' := Max(align, 1);
      var start := AlignUp(cursor, align');
      var end := start + Max(size, 1);
      if end >= TWO_64 { return Err(HeapOverflow); }
      if end > limit { return Err(HeapExhausted); }
      cursor := end;
      r := Ok(start);
    }
  }

  class GuestMemory {
    var regions: RegionMap
    var mmapCursor: u64
    const heap: BumpAllocator
    /** Every region map this object has held, oldest first. */
    ghost var history: seq<RegionMap>

    ghost predicate Valid()
      reads this
    {
      Ordered(regions) && history != [] && history[|history| - 1] == regions
    }

    constructor Empty(heapBase: u64, heapSize: u64)
      ensures Valid() && fresh(heap)
      ensures regions == map[] && mmapCursor == MMAP_TOP && history == [regions]
      ensures heap.View() == Bump(heapBase, Wrap(heapBase + heapSize), heapBase)
    {
      regions, mmapCursor, history := map[], MMAP_TOP, [map[]];
      heap := new BumpAllocator(heapBase, heapSize);
    }

    /** `GuestMemory::new`: an empty space with the heap arena mapped read-write. */
    static method New(heapBase: u64, heapSize: u64) returns (r: Result<GuestMemory, EmuError>)
      ensures match MapZeroed(map[], heapBase, PageUp(heapSize), RW, Heap, "heap")
              case Ok(rs) =>
                && r.Ok? && fresh(r.value) && fresh(r.value.heap) && r.value.Valid()
                && r.value.regions == rs && r.value.mmapCursor == MMAP_TOP
                && r.value.heap.View() == Bump(heapBase, Wrap(heapBase + heapSize), heapBase)
              case Err(e) => r == Err(e)
    {
      var mem := new GuestMemory.Empty(heapBase, heapSize);
      var mapped := mem.Map(heapBase, PageUp(heapSize), RW, Heap, "heap");
      if mapped.Some? { return Err(mapped.value); }
      r := Ok(mem);
    }

    /** `map`. A failed call changes nothing. A successful one gives at least `size` bytes and at least a
        page, and keeps every mapped byte, unless rounding the size up wraps; then the region is empty. */
    method Map(base: u64, size: u64, prot: Protection, kind: RegionKind, name: string)
      returns (e: Option<EmuError>)
      requires Valid()
      modifies this`regions, this`history
      ensures Valid()
      ensures match MapZeroed(old(regions), base, size, prot, kind, name)
              case Ok(rs) => e == None && regions == rs && history == old(history) + [rs]
              case Err(err) => e == Some(err) && regions == old(regions) && history == old(history)
      ensures e == None ==>
                && base in regions && regions == old(regions)[base := regions[base]]
                && regions[base] == Region(base, prot, kind, name, regions[base].data) && StartsAs(regions[base].data, [])
                && if size + PAGE_SIZE <= TWO_64
                   then LeastPages(|regions[base].data|, Max(size, 1)) && Keeps(old(regions), regions)
                   else regions[base].data == []
    {
      hide CheckFree, Zeros, MapSize, Ordered, Keeps, LeastPages, StartsAs;
      var n := MapSize(size);
      e := CheckFree(regions, base, n);
      if e.Some? { return; }
      if n >= ALLOC_LIMIT { return Some(Aborted); }
      ZerosLength(n);
      MapSizeIs(size);
      MapGivesIff(regions, base, size, prot, kind, name);
      MapKeepsBytesIff(regions, base, size, prot, kind, name);
      var region := Region(base, prot, kind, name, Zeros(n));
      InsertOrdered(regions, base, region);
      regions := regions[base := region];
      history := history + [regions];
    }

    /** `map_with_data`. A failed call changes nothing. A successful one gives a region that starts with the data, is
        zero after it, and holds both size and data, unless rounding wraps; then it is empty. */
    method MapData(base: u64, size: u64, data: Buffer, prot: Protection, kind: RegionKind, name: string)
      returns (e: Option<EmuError>)
      requires Valid()
      modifies this`regions, this`history
      ensures Valid()
      ensures match MapWithData(old(regions), base, size, data, prot, kind, name)
              case Ok(rs) => e == None && regions == rs && history == old(history) + [rs]
              case Err(err) => e == Some(err) && regions == old(regions) && history == old(history)
      ensures e == None ==>
                && base in regions && regions == old(regions)[base := regions[base]]
                && regions[base] == Region(base, prot, kind, name, regions[base].data)
                && StartsAs(regions[base].data, data)
                && if Max(size, |data|) + PAGE_SIZE <= TWO_64
                   then LeastPages(|regions[base].data|, Max(size, |data|)) else regions[base].data == []
    {
      hide MapDataSize, Padded, CheckFree, StartsAs, LeastPages;
      var n := MapDataSize(size, data);
      e := CheckFree(regions, base, n);
      if e.Some? { return; }
      if |data| > n { return Some(InitExceedsRegion); }
      if n >= ALLOC_LIMIT { return Some(Aborted); }
      PaddedLength(data, n);
      MapDataGivesIff(regions, base, size, data, prot, kind, name);
      var region := Region(base, prot, kind, name, Padded(data, n));
      InsertOrdered(regions, base, region);
      regions := regions[base := region];
      history := history + [regions];
    }

    /** `mmap_anon`: takes the highest page-aligned range of the rounded size below the cursor, unless
        rounding wraps; then a page at the cursor. A failed call leaves the cursor where it was. */
    method MapAnonymous(size: u64, prot: Protection) returns (r: Result<u64, EmuError>)
      requires Valid()
      modifies this`regions, this`mmapCursor, this`history
      ensures Valid()
      ensures match MmapAnon(old(regions), old(mmapCursor), size, prot)
              case Ok(done) => r == Ok(done.1) && regions == done.0 && mmapCursor == done.1
                               && history == old(history) + [regions]
              case Err(err) => r == Err(err) && regions == old(regions) && mmapCursor == old(mmapCursor)
                               && history == old(history)
      ensures r.Ok? ==>
                && r.value in regions && PageMultiple(r.value) && regions == old(regions)[r.value := regions[r.value]]
                && regions[r.value] == Region(r.value, prot, Anonymous, "mmap", regions[r.value].data)
                && StartsAs(regions[r.value].data, [])
                && if size + PAGE_SIZE <= TWO_64
                   then LeastPages(|regions[r.value].data|, Max(size, 1)) && r.value + |regions[r.value].data| <= old(mmapCursor)
                        && forall b: int :: PageMultiple(b) && b + |regions[r.value].data| <= old(mmapCursor) ==> b <= r.value
                   else r.value == PageDown(old(mmapCursor)) && |regions[r.value].data| == PAGE_SIZE
    {
      hide MapSize, MapZeroed, Ordered, PageDown, Keeps, PageMultiple, LeastPages, StartsAs;
      var n := MapSize(size);
      if mmapCursor < n { return Err(ArenaExhausted); }
      var base := PageDown(mmapCursor - n);
      var e := Map(base, n, prot, Anonymous, "mmap");
      if e.Some? { return Err(e.value); }
      MmapGivesIff(old(regions), mmapCursor, size, prot);
      mmapCursor := base;
      r := Ok(base);
    }

    method ProtectRegion(addr: u64, prot: Protection) returns (e: Option<EmuError>)
      requires Valid()
      modifies this`regions, this`history
      ensures Valid()
      ensures match Protect(old(regions), addr, prot)
              case Ok(rs) => e == None && regions == rs && history == old(history) + [rs]
              case Err(err) => e == Some(err) && regions == old(regions) && history == old(history)
    {
      var k := RegionBase(regions, addr);
      if k.Err? { return Some(k.error); }
      ProtectAt(regions, addr, prot, 0);
      regions := regions[k.value := regions[k.value].(prot := prot)];
      history := history + [regions];
      e := None;
    }

    method Read(addr: u64, len: nat) returns (r: Result<seq<byte>, EmuError>)
      requires Valid()
      ensures r == ReadBytes(regions, addr, len)
    {
      var at := Slice(regions, addr, len, READ);
      if at.Err? { return Err(at.error); }
      r := Ok(regions[at.value.0].data[at.value.1..at.value.1 + len]);
    }

    /** `write`: copies into the backing bytes of one region, or changes nothing. */
    method Write(addr: u64, patch: seq<byte>) returns (e: Option<EmuError>)
      requires Valid()
      modifies this`regions, this`history
      ensures Valid()
      ensures match WriteBytes(old(regions), addr, patch)
              case Ok(rs) => e == None && regions == rs && history == old(history) + [rs]
              case Err(err) => e == Some(err) && regions == old(regions) && history == old(history)
    {
      var at := Slice(regions, addr, |patch|, WRITE);
      if at.Err? { return Some(at.error); }
      WriteAt(regions, addr, patch, 0);
      var (k, off) := at.value;
      regions := regions[k := regions[k].(data := Spliced(regions[k].data, off, patch))];
      history := history + [regions];
      e := None;
    }

    method HeapAlloc(size: u64, align: u64) returns (r: Result<u64, EmuError>)
      modifies heap
      ensures match Alloc(old(heap.View()), size, align)
              case Ok(done) => r == Ok(done.1) && heap.View() == done.0
              case Err(e) => r == Err(e) && heap.View() == old(heap.View())
    {
      r := heap.Allocate(size, align);
    }
  }

  function MmapAnon(rs: RegionMap, cursor: u64, size: u64, prot: Protection)
    : (r: Result<(RegionMap, u64), EmuError>)
  {
    var n := MapSize(size);
    if cursor < n then Err(ArenaExhausted)
    else
      var base := PageDown(cursor - n);
      var rs' :- MapZeroed(rs, base, n, prot, Anonymous, "mmap");
      Ok((rs', base))
  }

  // ---- refinement over every run ----------------------------------------------------------------------

  datatype Op =
    | OpMap(base: u64, size: u64, prot: Protection)
    | OpMapData(base: u64, size: u64, data: Buffer, prot: Protection)
    | OpMmapAnon(size: u64, prot: Protection)
    | OpProtect(addr: u64, prot: Protection)
    | OpRead(addr: u64, len: nat)
    | OpWrite(addr: u64, patch: seq<byte>)

  /** `Crashed` is a panic, after which there is no process to ask anything of. */
  datatype Reply = Failed | Crashed | Done | Mapped(base: u64) | Bytes(bytes: seq<byte>)

  datatype Manager = Manager(regions: RegionMap, cursor: u64)
  datatype Reference = Reference(cells: Flat, pins: Pins, cursor: u64)

  function Perform(m: Manager, op: Op): (Manager, Reply) {
    match op
    case OpMap(base, size, prot) =>
      Outcome(m, MapZeroed(m.regions, base, size, prot, Segment, ""))
    case OpMapData(base, size, data, prot) =>
      Outcome(m, MapWithData(m.regions, base, size, data, prot, Segment, ""))
    case OpMmapAnon(size, prot) =>
      (match MmapAnon(m.regions, m.cursor, size, prot)
       case Ok(done) => (Manager(done.0, done.1), Mapped(done.1))
       case Err(e) => (m, Refusal(e)))
    case OpProtect(addr, prot) => Outcome(m, Protect(m.regions, addr, prot))
    case OpRead(addr, len) =>
      (match ReadBytes(m.regions, addr, len)
       case Ok(bytes) => (m, Bytes(bytes))
       case Err(_) => (m, Failed))
    case OpWrite(addr, patch) => Outcome(m, WriteBytes(m.regions, addr, patch))
  }

  function Outcome(m: Manager, r: Result<RegionMap, EmuError>): (Manager, Reply) {
    match r
    case Ok(rs) => (m.(regions := rs), Done)
    case Err(e) => (m, Refusal(e))
  }

  function Refusal(e: EmuError): Reply {
    if e == Aborted then Crashed else Failed
  }

  ghost function PerformFlat(s: Reference, op: Op): (Reference, Reply) {
    match op
    case OpMap(base, size, prot) => FlatZeros(s, base, size, prot)
    case OpMapData(base, size, data, prot) =>
      var n := Rounded(if size < |data| then |data| else size);
      if |data| <= n then FlatInsert(s, base, Filled(data, n), prot) else (s, Failed)
    case OpMmapAnon(size, prot) =>
      var n := Rounded(if size < 1 then 1 else size);
      if s.cursor < n then (s, Failed)
      else
        var base: u64 := (s.cursor - n) / 0x4000 * 0x4000;
        var (s', reply) := FlatZeros(s, base, n, prot);
        if reply == Done then (s'.(cursor := base), Mapped(base)) else (s, reply)
    case OpProtect(addr, prot) =>
      if s.cells(addr).Some? then (s.(cells := FlatProtect(s.cells, addr, prot)), Done) else (s, Failed)
    case OpRead(addr, len) =>
      if Accessible(s.cells, s.pins, addr, len, READ) then (s, Bytes(FlatRead(s.cells, addr, len))) else (s, Failed)
    case OpWrite(addr, patch) =>
      if Accessible(s.cells, s.pins, addr, |patch|, WRITE) then (s.(cells := FlatWrite(s.cells, addr, patch)), Done)
      else (s, Failed)
  }

  /** A request for zeros is never smaller than a byte, so never less than a page. */
  ghost function FlatZeros(s: Reference, base: u64, size: nat, prot: Protection): (Reference, Reply) {
    FlatInsert(s, base, Filled([], Rounded(if size < 1 then 1 else size)), prot)
  }

  ghost function FlatInsert(s: Reference, base: u64, data: seq<byte>, prot: Protection): (Reference, Reply) {
    if !Placeable(s.cells, s.pins, base, |data|) then (s, Failed)
    else if |data| >= ALLOC_LIMIT then (s, Crashed)
    else (Reference(FlatMap(s.cells, base, data, prot), PinMap(s.pins, base, data, prot), s.cursor), Done)
  }

  function ValueAt(f: Flat, a: int): byte {
    if f(a).Some? then f(a).value.value else 0
  }

  function FlatRead(f: Flat, addr: int, len: nat): (bytes: seq<byte>) {
    seq<byte>(len, i => ValueAt(f, addr + i))
  }

  ghost predicate Simulates(m: Manager, s: Reference) {
    Ordered(m.regions) && Refines(m.regions, s.cells) && s.pins == PinsOf(m.regions) && m.cursor == s.cursor
  }

  /** Every well laid out manager has a reference, an empty one the empty memory. */
  lemma {:induction false} HasReference(m: Manager)
    requires Ordered(m.regions)
    ensures exists s :: Simulates(m, s)
    ensures m.regions == map[] ==> Simulates(m, Reference(a => None, map[], m.cursor))
  {
    var rs := m.regions;
    var s := Reference(a => At(rs, a), PinsOf(rs), m.cursor);
    assert Simulates(m, s);
    if rs == map[] {
      forall a: int
        ensures At(rs, a) == None
      {
        AtOwner(rs, a);
      }
    }
  }

  /** The one-neighbour test accepts exactly the ranges the reference accepts. */
  lemma {:induction false} FreeIsPlaceable(rs: RegionMap, f: Flat, base: u64, n: u64)
    requires Ordered(rs) && Refines(rs, f)
    ensures CheckFree(rs, base, n).None? <==> Placeable(f, PinsOf(rs), base, n)
  {
    CheckFreeIff(rs, base, n);
    hide CheckFree;
    if base + n < TWO_64 {
      if Placeable(f, PinsOf(rs), base, n) {
        forall b | b in rs
          ensures !Overlaps(rs, b, base, base + n)
        {
          PlaceableMisses(rs, f, base, n, b);
        }
      } else {
        NotPlaceable(rs, f, base, n);
      }
    }
  }

  lemma {:induction false} PlaceableMisses(rs: RegionMap, f: Flat, base: u64, n: u64, b: u64)
    requires Ordered(rs) && Refines(rs, f) && Placeable(f, PinsOf(rs), base, n) && b in rs
    ensures !Overlaps(rs, b, base, base + n)
  {
    var a := if base < b then b else base as int;
    assert f(a) == At(rs, a);
    if rs[b].data == [] {
      assert b in PinsOf(rs);
    } else if a < b + |rs[b].data| {
      AtInside(rs, b, a);
    }
  }

  lemma {:induction false} NotPlaceable(rs: RegionMap, f: Flat, base: u64, n: u64)
    requires Ordered(rs) && Refines(rs, f) && base + n < TWO_64 && !Placeable(f, PinsOf(rs), base, n)
    ensures exists b :: b in rs && Overlaps(rs, b, base, base + n)
  {
    if p :| p in PinsOf(rs) && base < p < base + n {
      assert Overlaps(rs, p, base, base + n);
    } else {
      var a: int :| (if n == 0 then a == base && f(a).Some? && f(a).value.owner != base
                     else base <= a < base + n && f(a).Some?);
      assert f(a) == At(rs, a);
      AtOwner(rs, a);
      assert Overlaps(rs, At(rs, a).value.owner, base, base + n);
    }
  }

  lemma {:induction false} InsertSimulates(m: Manager, s: Reference, base: u64, region: Region)
    requires Simulates(m, s) && region.base == base && |region.data| < TWO_64
    ensures CheckFree(m.regions, base, |region.data|).None? <==> Placeable(s.cells, s.pins, base, |region.data|)
    ensures CheckFree(m.regions, base, |region.data|).None? ==>
              Simulates(m.(regions := m.regions[base := region]),
                        Reference(FlatMap(s.cells, base, region.data, region.prot),
                                  PinMap(s.pins, base, region.data, region.prot), s.cursor))
  {
    hide CheckFree, Placeable;
    var rs := m.regions;
    FreeIsPlaceable(rs, s.cells, base, |region.data|);
    if CheckFree(rs, base, |region.data|).None? {
      OverwriteAt(rs, base, region, 0);
      InsertPins(rs, base, region);
      hide Ordered, At;
      forall a: int
        ensures At(rs[base := region], a) == FlatMap(s.cells, base, region.data, region.prot)(a)
      {
        assert At(rs, a) == s.cells(a);
        OverwriteAt(rs, base, region, a);
      }
    }
  }

  lemma {:induction false} InsertPins(rs: RegionMap, base: u64, region: Region)
    ensures PinsOf(rs[base := region]) == PinMap(PinsOf(rs), base, region.data, region.prot)
  {
  }

  lemma {:induction false} ProtectSimulates(m: Manager, s: Reference, addr: u64, prot: Protection)
    requires Simulates(m, s)
    ensures Protect(m.regions, addr, prot).Ok? <==> s.cells(addr).Some?
    ensures Protect(m.regions, addr, prot).Ok? ==>
              Simulates(m.(regions := Protect(m.regions, addr, prot).value),
                        s.(cells := FlatProtect(s.cells, addr, prot)))
  {
    RegionBaseIff(m.regions, addr);
    if Protect(m.regions, addr, prot).Ok? {
      ProtectPins(m.regions, addr, prot);
      hide Protect, RegionBase;
      forall a: int
        ensures At(Protect(m.regions, addr, prot).value, a) == FlatProtect(s.cells, addr, prot)(a)
      {
        assert At(m.regions, a) == s.cells(a);
        ProtectAt(m.regions, addr, prot, a);
      }
      ProtectAt(m.regions, addr, prot, 0);
    }
  }

  /** Only a mapping that holds the address changes, so no pin does. */
  lemma {:induction false} ProtectPins(rs: RegionMap, addr: u64, prot: Protection)
    requires Ordered(rs) && Protect(rs, addr, prot).Ok?
    ensures PinsOf(Protect(rs, addr, prot).value) == PinsOf(rs)
  {
    RegionBaseIff(rs, addr);
    AtOwner(rs, addr);
    SamePins(rs, Protect(rs, addr, prot).value, RegionBase(rs, addr).value);
  }

  lemma {:induction false} SamePins(rs: RegionMap, rs': RegionMap, k: u64)
    requires k in rs && k in rs' && rs' == rs[k := rs'[k]]
    requires rs[k].data == [] <==> rs'[k].data == []
    requires rs[k].data == [] ==> rs'[k].prot == rs[k].prot
    ensures PinsOf(rs') == PinsOf(rs)
  {
  }

  lemma {:induction false} WritePins(rs: RegionMap, addr: u64, patch: seq<byte>)
    requires WriteBytes(rs, addr, patch).Ok?
    ensures PinsOf(WriteBytes(rs, addr, patch).value) == PinsOf(rs)
  {
    hide Slice;
    var (k, off) := Slice(rs, addr, |patch|, WRITE).value;
    var rs' := WriteBytes(rs, addr, patch).value;
    assert |rs'[k].data| == |rs[k].data|;
    SamePins(rs, rs', k);
  }

  lemma {:induction false} WriteCell(rs: RegionMap, f: Flat, addr: u64, patch: seq<byte>, a: int)
    requires Ordered(rs) && WriteBytes(rs, addr, patch).Ok? && At(rs, a) == f(a)
    ensures At(WriteBytes(rs, addr, patch).value, a) == FlatWrite(f, addr, patch)(a)
  {
    hide Ordered, At, WriteBytes;
    WriteAt(rs, addr, patch, a);
  }

  lemma {:induction false} WriteSimulates(m: Manager, s: Reference, addr: u64, patch: seq<byte>)
    requires Simulates(m, s)
    ensures WriteBytes(m.regions, addr, patch).Ok? <==> Accessible(s.cells, s.pins, addr, |patch|, WRITE)
    ensures WriteBytes(m.regions, addr, patch).Ok? ==>
              Simulates(m.(regions := WriteBytes(m.regions, addr, patch).value),
                        s.(cells := FlatWrite(s.cells, addr, patch)))
  {
    hide Ordered, At, Slice, Accessible, FlatWrite, PinsOf;
    AccessIff(m.regions, s.cells, addr, |patch|, WRITE);
    if WriteBytes(m.regions, addr, patch).Ok? {
      hide WriteBytes;
      WritePins(m.regions, addr, patch);
      WriteAt(m.regions, addr, patch, 0);
      forall a: int
        ensures At(WriteBytes(m.regions, addr, patch).value, a) == FlatWrite(s.cells, addr, patch)(a)
      {
        assert At(m.regions, a) == s.cells(a);
        WriteCell(m.regions, s.cells, addr, patch, a);
      }
    }
  }

  lemma {:induction false} ReadSimulates(m: Manager, s: Reference, addr: u64, len: nat)
    requires Simulates(m, s)
    ensures ReadBytes(m.regions, addr, len).Ok? <==> Accessible(s.cells, s.pins, addr, len, READ)
    ensures ReadBytes(m.regions, addr, len).Ok? ==>
              ReadBytes(m.regions, addr, len).value == FlatRead(s.cells, addr, len)
  {
    hide Ordered, At, Slice, Accessible, PinsOf;
    AccessIff(m.regions, s.cells, addr, len, READ);
    if ReadBytes(m.regions, addr, len).Ok? {
      forall i | 0 <= i < len
        ensures ReadBytes(m.regions, addr, len).value[i] == ValueAt(s.cells, addr + i)
      {
        assert At(m.regions, addr + i) == s.cells(addr + i);
        ReadAt(m.regions, addr, len, i);
      }
    }
  }

  /** One operation answers alike in the manager and in the reference, and keeps them related. */
  lemma {:induction false} StepSimulates(m: Manager, s: Reference, op: Op)
    requires Simulates(m, s)
    ensures Perform(m, op).1 == PerformFlat(s, op).1
    ensures Simulates(Perform(m, op).0, PerformFlat(s, op).0)
  {
    hide Simulates, MapSize, MapDataSize, Zeros, Padded, Filled, Rounded, PageDown, CheckFree, Placeable, FlatMap, PinMap;
    match op
    case OpMap(base, size, prot) => MapSimulates(m, s, base, size, prot, Segment, "");
    case OpMapData(base, size, data, prot) =>
      DataSizeIs(size, data);
      if |data| <= MapDataSize(size, data) {
        PaddedIs(data, MapDataSize(size, data));
        PaddedLength(data, MapDataSize(size, data));
        InsertSimulates(m, s, base, Region(base, prot, Segment, "", Padded(data, MapDataSize(size, data))));
      }
    case OpMmapAnon(size, prot) => MmapSimulates(m, s, size, prot);
    case OpProtect(addr, prot) => ProtectSimulates(m, s, addr, prot);
    case OpRead(addr, len) => ReadSimulates(m, s, addr, len);
    case OpWrite(addr, patch) => WriteSimulates(m, s, addr, patch);
  }

  lemma {:induction false} MmapSimulates(m: Manager, s: Reference, size: u64, prot: Protection)
    requires Simulates(m, s)
    ensures Perform(m, OpMmapAnon(size, prot)).1 == PerformFlat(s, OpMmapAnon(size, prot)).1
    ensures Simulates(Perform(m, OpMmapAnon(size, prot)).0, PerformFlat(s, OpMmapAnon(size, prot)).0)
  {
    hide Simulates, MapSize, Zeros, Filled, Rounded, PageDown, CheckFree, Placeable, FlatMap, PinMap, FlatInsert;
    SameCursor(m, s);
    var n := MapSize(size);
    SizeIs(size);
    if n <= m.cursor {
      PageDownByDivision(m.cursor - n);
      var base := PageDown(m.cursor - n);
      MapSimulates(m, s, base, n, prot, Anonymous, "mmap");
      if MapZeroed(m.regions, base, n, prot, Anonymous, "mmap").Ok? {
        MoveCursor(Outcome(m, MapZeroed(m.regions, base, n, prot, Anonymous, "mmap")).0, FlatZeros(s, base, n, prot).0, base);
      }
    }
  }

  lemma {:induction false} MapSimulates(m: Manager, s: Reference, base: u64, size: u64, prot: Protection,
                     kind: RegionKind, name: string)
    requires Simulates(m, s)
    ensures var (m', reply) := Outcome(m, MapZeroed(m.regions, base, size, prot, kind, name));
            var (s', reply') := FlatZeros(s, base, size, prot);
            reply == reply' && Simulates(m', s')
  {
    hide Simulates, MapSize, Zeros, Filled, Rounded, CheckFree, Placeable, FlatMap, PinMap;
    SizeIs(size);
    ZerosAre(MapSize(size));
    ZerosLength(MapSize(size));
    InsertSimulates(m, s, base, Region(base, prot, kind, name, Zeros(MapSize(size))));
  }

  /** The reference's sizes and bytes are the manager's. */
  lemma SizeIs(size: u64)
    ensures MapSize(size) == Rounded(if size < 1 then 1 else size)
  {
    RoundedIs(if size < 1 then 1 else size);
  }

  lemma {:induction false} DataSizeIs(size: u64, data: Buffer)
    ensures MapDataSize(size, data) == Rounded(if size < |data| then |data| else size)
  {
    RoundedIs(if size < |data| then |data| else size);
  }

  lemma RoundedIs(v: u64)
    ensures PageUp(v) == Rounded(v)
  {
    PageUpIs(v);
    hide PageUp;
  }

  lemma PageDownByDivision(v: u64)
    ensures PageDown(v) == v / 0x4000 * 0x4000
  {
  }

  lemma ZerosAre(n: nat)
    ensures Zeros(n) == Filled([], n)
  {
  }

  lemma {:induction false} PaddedIs(data: seq<byte>, n: nat)
    requires |data| <= n
    ensures Padded(data, n) == Filled(data, n)
  {
  }

  lemma ZerosLength(n: nat)
    ensures |Zeros(n)| == n
  {
  }

  lemma {:induction false} PaddedLength(data: seq<byte>, n: nat)
    requires |data| <= n
    ensures |Padded(data, n)| == n
  {
  }

  lemma {:induction false} SameCursor(m: Manager, s: Reference)
    requires Simulates(m, s)
    ensures m.cursor == s.cursor
  {
  }

  lemma {:induction false} MoveCursor(m: Manager, s: Reference, cursor: u64)
    requires Simulates(m, s)
    ensures Simulates(m.(cursor := cursor), s.(cursor := cursor))
  {
  }

  /** The answers to a list of requests, up to a crash. */
  function Replies(m: Manager, ops: seq<Op>): seq<Reply>
    decreases |ops|
  {
    if ops == [] then []
    else
      var (m', reply) := Perform(m, ops[0]);
      if reply == Crashed then [Crashed] else [reply] + Replies(m', ops[1..])
  }

  ghost function FlatReplies(s: Reference, ops: seq<Op>): seq<Reply>
    decreases |ops|
  {
    if ops == [] then []
    else
      var (s', reply) := PerformFlat(s, ops[0]);
      if reply == Crashed then [Crashed] else [reply] + FlatReplies(s', ops[1..])
  }

  /** Over every sequence of requests, whatever their sizes, no client can tell the region map from the
      flat memory. */
  lemma {:induction false} RunSimulates(m: Manager, s: Reference, ops: seq<Op>)
    requires Simulates(m, s)
    ensures Replies(m, ops) == FlatReplies(s, ops)
    decreases |ops|
  {
    if ops != [] {
      StepSimulates(m, s, ops[0]);
      hide Perform, PerformFlat, Simulates;
      RunSimulates(Perform(m, ops[0]).0, PerformFlat(s, ops[0]).0, ops[1..]);
    }
  }

  // ---- when mapping keeps what is mapped -------------------------------------------------------------

  /** A fresh region of at least one byte lands where at most an empty region was. */
  lemma {:induction false} BaseHoldsNothing(rs: RegionMap, base: u64, size: u64)
    requires Ordered(rs) && 0 < size && CheckFree(rs, base, size).None?
    ensures base in rs ==> rs[base].data == []
  {
    CheckFreeIff(rs, base, size);
    assert base in rs ==> !Overlaps(rs, base, base, base + size);
  }

  ghost predicate Keeps(rs: RegionMap, rs': RegionMap) {
    forall a: int :: At(rs, a).Some? ==> At(rs', a) == At(rs, a)
  }

  /** Mapping keeps every mapped byte exactly when it does not put an empty region at the base of a
      region that holds bytes. */
  lemma {:induction false} InsertKeepsIff(rs: RegionMap, base: u64, region: Region)
    requires Ordered(rs) && region.base == base && |region.data| < TWO_64
    requires CheckFree(rs, base, |region.data|).None?
    ensures Keeps(rs, rs[base := region]) <==> !(region.data == [] && base in rs && rs[base].data != [])
  {
    hide CheckFree;
    if region.data == [] && base in rs && rs[base].data != [] {
      AtInside(rs, base, base);
      OverwriteAt(rs, base, region, base);
      hide At, Ordered;
      assert !Keeps(rs, rs[base := region]);
    } else {
      if region.data != [] {
        BaseHoldsNothing(rs, base, |region.data|);
      }
      forall a: int | At(rs, a).Some?
        ensures At(rs[base := region], a) == At(rs, a)
      {
        if base <= a < base + |region.data| {
          FreeIsVacant(rs, base, |region.data|, a);
        }
        InsertAt(rs, base, region, a);
      }
    }
  }

  /** `map_with_data` and an empty request: it succeeds at the base of a region and unmaps it. */
  lemma {:induction false} MapDataKeepsBytesIff(rs: RegionMap, base: u64, size: u64, data: Buffer, prot: Protection,
                                                kind: RegionKind, name: string)
    requires Ordered(rs) && MapWithData(rs, base, size, data, prot, kind, name).Ok?
    ensures Keeps(rs, MapWithData(rs, base, size, data, prot, kind, name).value)
            <==> !(MapDataSize(size, data) == 0 && base in rs && rs[base].data != [])
  {
    hide CheckFree, Ordered, MapDataSize, Keeps, Padded;
    var n := MapDataSize(size, data);
    PaddedLength(data, n);
    InsertKeepsIff(rs, base, Region(base, prot, kind, name, Padded(data, n)));
  }

  /** `map` and a request that rounding wraps to nothing, likewise. */
  lemma {:induction false} MapKeepsBytesIff(rs: RegionMap, base: u64, size: u64, prot: Protection,
                                            kind: RegionKind, name: string)
    requires Ordered(rs) && MapZeroed(rs, base, size, prot, kind, name).Ok?
    ensures Keeps(rs, MapZeroed(rs, base, size, prot, kind, name).value)
            <==> !(MapSize(size) == 0 && base in rs && rs[base].data != [])
  {
    hide CheckFree, Ordered, MapSize, Keeps, Zeros;
    var n := MapSize(size);
    ZerosLength(n);
    InsertKeepsIff(rs, base, Region(base, prot, kind, name, Zeros(n)));
  }

  /** The bytes given, and zeros after them. */
  ghost predicate StartsAs(s: seq<byte>, data: seq<byte>) {
    |data| <= |s| && s[..|data|] == data && forall i :: |data| <= i < |s| ==> s[i] == 0
  }

  /** The least whole number of pages that holds `v` bytes. */
  predicate LeastPages(n: int, v: int) {
    n % 0x4000 == 0 && v <= n < v + 0x4000
  }

  /** A successful `map_with_data` gives a region that starts with the data and is zero after it. It holds the size
      asked for, and then it is the least whole number of pages that holds size and data, exactly when rounding does
      not wrap; when it wraps there was no data and the region is empty. */
  lemma {:induction false} MapDataGivesIff(rs: RegionMap, base: u64, size: u64, data: Buffer, prot: Protection,
                                           kind: RegionKind, name: string)
    requires MapWithData(rs, base, size, data, prot, kind, name).Ok?
    ensures var rs' := MapWithData(rs, base, size, data, prot, kind, name).value;
            && base in rs' && rs'[base] == Region(base, prot, kind, name, rs'[base].data)
            && rs' == rs[base := rs'[base]] && StartsAs(rs'[base].data, data)
            && var fits := Max(size, |data|) + PAGE_SIZE <= TWO_64;
               && (size <= |rs'[base].data| <==> fits)
               && (fits ==> LeastPages(|rs'[base].data|, Max(size, |data|)))
               && (!fits ==> rs'[base].data == [] && data == [])
  {
    hide CheckFree, Padded;
    var n := MapDataSize(size, data);
    PaddedStarts(data, n);
    PageUpIs(Max(size, |data|));
  }

  lemma {:induction false} PaddedStarts(data: seq<byte>, n: nat)
    requires |data| <= n
    ensures |Padded(data, n)| == n && StartsAs(Padded(data, n), data)
  {
  }

  /** A successful `map` gives a zeroed region of at least `size` bytes and at least a page exactly when
      rounding the size up does not wrap; when it wraps the region is empty. */
  lemma {:induction false} MapGivesIff(rs: RegionMap, base: u64, size: u64, prot: Protection, kind: RegionKind,
                                       name: string)
    requires MapZeroed(rs, base, size, prot, kind, name).Ok?
    ensures var rs' := MapZeroed(rs, base, size, prot, kind, name).value;
            && base in rs' && rs'[base] == Region(base, prot, kind, name, rs'[base].data)
            && rs' == rs[base := rs'[base]] && StartsAs(rs'[base].data, [])
            && (size + PAGE_SIZE <= TWO_64 ==> LeastPages(|rs'[base].data|, Max(size, 1)))
            && (size <= |rs'[base].data| && PAGE_SIZE <= |rs'[base].data| <==> size + PAGE_SIZE <= TWO_64)
            && (rs'[base].data == [] <==> size + PAGE_SIZE > TWO_64)
  {
    hide CheckFree, Zeros;
    ZerosLength(MapSize(size));
    ZerosStart(MapSize(size));
    MapSizeIs(size);
    PageUpIs(Max(size, 1));
  }

  lemma ZerosStart(n: nat)
    ensures StartsAs(Zeros(n), [])
  {
  }

  lemma MapSizeIs(size: u64)
    ensures if size + PAGE_SIZE <= TWO_64 then size <= MapSize(size) && PAGE_SIZE <= MapSize(size) else MapSize(size) == 0
    ensures PageMultiple(MapSize(size)) && (0 < size && PageMultiple(size) ==> MapSize(size) == size)
  {
    PageUpIs(Max(size, 1));
  }

  /** A successful `mmap_anon` answers the highest whole page below which the request fits under the
      old cursor, and puts at least `size` bytes there, exactly when rounding the size up does not
      wrap. When it wraps, one page appears that reaches past the old cursor. */
  lemma {:induction false} MmapGivesIff(rs: RegionMap, cursor: u64, size: u64, prot: Protection)
    requires MmapAnon(rs, cursor, size, prot).Ok?
    ensures var (rs', base) := MmapAnon(rs, cursor, size, prot).value;
            && PageMultiple(base) && base in rs' && rs' == rs[base := rs'[base]]
            && rs'[base] == Region(base, prot, Anonymous, "mmap", rs'[base].data) && StartsAs(rs'[base].data, [])
            && (size <= |rs'[base].data| && base + |rs'[base].data| <= cursor <==> size + PAGE_SIZE <= TWO_64)
            && (size + PAGE_SIZE <= TWO_64 ==> LeastPages(|rs'[base].data|, Max(size, 1)))
            && (size + PAGE_SIZE <= TWO_64 ==>
                  forall b: int :: PageMultiple(b) && b + |rs'[base].data| <= cursor ==> b <= base)
            && (size + PAGE_SIZE > TWO_64 ==> base == PageDown(cursor) && |rs'[base].data| == PAGE_SIZE)
  {
    hide CheckFree, Zeros, MapSize, PageDown, PageMultiple;
    var n := MapSize(size);
    var base := PageDown(cursor - n);
    MapSizeIs(size);
    MapSizeIs(n);
    OnePage();
    ZerosLength(MapSize(n));
    ZerosStart(MapSize(n));
    if size + PAGE_SIZE <= TWO_64 {
      SameSize(size);
    }
    PageDownIs(cursor - n);
    forall b: int | PageMultiple(b) && b + n <= cursor
      ensures b <= base
    {
      HighestPage(cursor - n, b);
    }
  }

  lemma SameSize(size: u64)
    requires size + PAGE_SIZE <= TWO_64
    ensures MapSize(MapSize(size)) == MapSize(size) && LeastPages(MapSize(size), Max(size, 1))
  {
    PageUpIs(Max(size, 1));
    hide PageUp;
    var n := MapSize(size);
    PageUpIs(Max(n, 1));
  }

  lemma HighestPage(v: u64, b: int)
    requires PageMultiple(b) && b <= v
    ensures b <= PageDown(v)
  {
    PageDownIs(v);
    hide PageDown;
  }

  /** The failing inputs: at the base of any region that holds bytes an empty `map_with_data` request and a
      `map` of 2^64 - 1 bytes are both accepted, and bytes are gone. */
  lemma {:induction false} EmptyRequestUnmaps(
    rs: RegionMap, base: u64, prot: Protection, kind: RegionKind, name: string
  )
    requires Ordered(rs) && base in rs && rs[base].data != []
    ensures MapWithData(rs, base, 0, [], prot, kind, name).Ok?
    ensures !Keeps(rs, MapWithData(rs, base, 0, [], prot, kind, name).value)
    ensures MapZeroed(rs, base, TWO_64 - 1, prot, kind, name).Ok?
    ensures !Keeps(rs, MapZeroed(rs, base, TWO_64 - 1, prot, kind, name).value)
  {
    hide CheckFree, Ordered, MapDataSize, MapSize, Keeps, Zeros, Padded;
    EmptyIsFree(rs, base);
    MapSizeIs(TWO_64 - 1);
    NothingToMap();
    MapKeepsBytesIff(rs, base, TWO_64 - 1, prot, kind, name);
    MapDataKeepsBytesIff(rs, base, 0, [], prot, kind, name);
  }

  lemma {:induction false} EmptyIsFree(rs: RegionMap, base: u64)
    requires Ordered(rs) && base in rs
    ensures CheckFree(rs, base, 0).None?
  {
    CheckFreeIff(rs, base, 0);
  }

  lemma NothingToMap()
    ensures MapDataSize(0, []) == 0
  {
    PageUpIs(0);
  }

  /** Where nothing is mapped at the arena's top, `mmap_anon` of 2^64 - 1 bytes answers the top itself, so
      one page lies past the cursor, which does not move. */
  lemma {:induction false} HugeMmapAnswersTheTop(rs: RegionMap, prot: Protection)
    requires CheckFree(rs, MMAP_TOP, PAGE_SIZE).None?
    ensures MmapAnon(rs, MMAP_TOP, TWO_64 - 1, prot).Ok?
    ensures MmapAnon(rs, MMAP_TOP, TWO_64 - 1, prot).value.1 == MMAP_TOP
  {
    hide CheckFree, Zeros, MapSize;
    MapSizeIs(TWO_64 - 1);
    OnePage();
  }

  lemma OnePage()
    ensures MapSize(0) == PAGE_SIZE && PageDown(MMAP_TOP) == MMAP_TOP
  {
    PageUpIs(1);
    hide PageUp;
    var r := PageUp(1);
    assert r == PAGE_SIZE by {
      assert 1 <= r < 1 + PAGE_SIZE;
    }
  }
}
