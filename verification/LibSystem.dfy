/** The guest allocator: `malloc`, `calloc` and `realloc` over the bump heap, with guest stores
    in between. Nothing is ever reclaimed, which is what makes the blocks trustworthy. */
module LibSystem {
  import opened Words
  import opened Regions
  import opened FlatMemory
  import opened Memory
  import opened Relocation
  import opened StackLayout

  datatype Arena = Arena(regions: RegionMap, heap: Bump)

  // ---- the shims -------------------------------------------------------------------------------------------

  /** `malloc`: the block's address, or 0. */
  function Malloc(a: Arena, size: u64): (r: (Arena, u64)) {
    match Block16(a.heap, size)
    case Ok(done) => (a.(heap := done.0), done.1)
    case Err(_) => (a, 0)
  }

  /** Saturating product, so an overflowing request cannot shrink. */
  function CallocTotal(count: u64, each: u64): (n: u64)
    ensures n <= count * each
  {
    assert count * each >= 0;
    if count * each < TWO_64 then count * each else TWO_64 - 1
  }

  /** `realloc`: a fresh block and, when the old pointer is not null and `size` bytes can be read
      there, a copy of them. */
  function Realloc(a: Arena, p: u64, size: u64): (r: Result<(Arena, u64), EmuError>) {
    match Block16(a.heap, size)
    case Err(_) => Ok((a, 0))
    case Ok(done) =>
      if p == 0 then Ok((a.(heap := done.0), done.1))
      else
        var rs :- Copy(a.regions, done.1, p, size);
        Ok((Arena(rs, done.0), done.1))
  }

  /** `memcpy`: allocates a buffer for `n` bytes, reads the whole source into it before writing, and does
      nothing if either end fails. */
  function Copy(rs: RegionMap, dst: u64, src: u64, n: u64): (r: Result<RegionMap, EmuError>) {
    if n >= ALLOC_LIMIT then Err(Aborted)
    else match ReadBytes(rs, src, n)
      case Err(_) => Ok(rs)
      case Ok(bytes) =>
        match WriteBytes(rs, dst, bytes)
        case Err(_) => Ok(rs)
        case Ok(rs') => Ok(rs')
  }

  /** The source can be read and the destination written, each within one region. */
  ghost predicate CopyFits(rs: RegionMap, dst: u64, src: u64, n: u64) {
    Slice(rs, src, n, READ).Ok? && Slice(rs, dst, n, WRITE).Ok?
  }

  /** In the destination an address holds what its place in the source held before, also where the two
      overlap; elsewhere it is as it was. Protections and mappings do not change. */
  ghost predicate CopiedAt(rs: RegionMap, rs': RegionMap, dst: u64, src: u64, n: u64, a: int) {
    if dst <= a < dst + n then
      && At(rs, a).Some? && At(rs, src + (a - dst)).Some?
      && At(rs', a) == Some(At(rs, a).value.(value := At(rs, src + (a - dst)).value.value))
    else At(rs', a) == At(rs, a)
  }

  ghost predicate Copied(rs: RegionMap, rs': RegionMap, dst: u64, src: u64, n: u64) {
    forall a: int :: CopiedAt(rs, rs', dst, src, n, a)
  }

  lemma {:induction false} CopyAt(rs: RegionMap, dst: u64, src: u64, n: u64, a: int)
    requires Ordered(rs) && CopyFits(rs, dst, src, n) && n < ALLOC_LIMIT
    ensures CopiedAt(rs, Copy(rs, dst, src, n).value, dst, src, n, a)
  {
    hide Ordered, At, Slice;
    var bytes := ReadBytes(rs, src, n).value;
    assert WriteBytes(rs, dst, bytes).Ok?;
    hide ReadBytes, WriteBytes;
    WriteAt(rs, dst, bytes, a);
    if dst <= a < dst + n {
      ReadAt(rs, src, n, a - dst);
    }
  }

  /** A length no buffer can have ends the process. Any other copy is done exactly when it fits, and
      otherwise nothing changes. */
  lemma {:induction false} CopyIff(rs: RegionMap, dst: u64, src: u64, n: u64)
    requires Ordered(rs)
    ensures Copy(rs, dst, src, n).Err? <==> n >= ALLOC_LIMIT
    ensures n < ALLOC_LIMIT ==>
              if CopyFits(rs, dst, src, n) then Copied(rs, Copy(rs, dst, src, n).value, dst, src, n)
              else Copy(rs, dst, src, n) == Ok(rs)
  {
    hide Ordered, CopiedAt, Slice;
    if CopyFits(rs, dst, src, n) && n < ALLOC_LIMIT {
      forall a: int
        ensures CopiedAt(rs, Copy(rs, dst, src, n).value, dst, src, n, a)
      {
        CopyAt(rs, dst, src, n, a);
      }
    }
  }

  method MallocShim(mem: GuestMemory, size: u64) returns (ret: u64)
    modifies mem.heap
    ensures (Arena(mem.regions, mem.heap.View()), ret) == Malloc(Arena(old(mem.regions), old(mem.heap.View())), size)
  {
    hide Alloc, Block16;
    Block16Is(mem.heap.View(), size);
    var addr := mem.HeapAlloc(size, 16);
    ret := if addr.Ok? then addr.value else 0;
  }

  method CallocShim(mem: GuestMemory, count: u64, each: u64) returns (ret: u64)
    modifies mem.heap
    ensures (Arena(mem.regions, mem.heap.View()), ret)
            == Malloc(Arena(old(mem.regions), old(mem.heap.View())), CallocTotal(count, each))
  {
    hide Alloc, Block16, CallocTotal;
    Block16Is(mem.heap.View(), CallocTotal(count, each));
    var addr := mem.HeapAlloc(CallocTotal(count, each), 16);
    ret := if addr.Ok? then addr.value else 0;
  }

  method ReallocShim(mem: GuestMemory, p: u64, size: u64) returns (r: Result<u64, EmuError>)
    requires mem.Valid()
    modifies mem`regions, mem`history, mem.heap
    ensures mem.Valid()
    ensures match Realloc(Arena(old(mem.regions), old(mem.heap.View())), p, size)
            case Ok(done) => r == Ok(done.1) && Arena(mem.regions, mem.heap.View()) == done.0
            case Err(e) => r == Err(e) && mem.regions == old(mem.regions)
  {
    hide Alloc, Block16, ReadBytes, WriteBytes, Ordered;
    Block16Is(mem.heap.View(), size);
    var addr := mem.HeapAlloc(size, 16);
    if addr.Err? { return Ok(0); }
    if p != 0 {
      if size >= ALLOC_LIMIT { return Err(Aborted); }
      var tmp := mem.Read(p, size);
      if tmp.Ok? {
        var _ := mem.Write(addr.value, tmp.value);
      }
    }
    r := Ok(addr.value);
  }

  method MemcpyShim(mem: GuestMemory, dst: u64, src: u64, n: u64) returns (r: Result<u64, EmuError>)
    requires mem.Valid()
    modifies mem`regions, mem`history
    ensures mem.Valid()
    ensures match Copy(old(mem.regions), dst, src, n)
            case Ok(rs) => r == Ok(dst) && mem.regions == rs
            case Err(e) => r == Err(e) && mem.regions == old(mem.regions)
    ensures r.Err? <==> n >= ALLOC_LIMIT
    ensures if n < ALLOC_LIMIT && old(CopyFits(mem.regions, dst, src, n))
            then Copied(old(mem.regions), mem.regions, dst, src, n)
            else mem.regions == old(mem.regions)
  {
    hide ReadBytes, WriteBytes, Ordered, CopyFits, Copied;
    CopyIff(mem.regions, dst, src, n);
    if n >= ALLOC_LIMIT { return Err(Aborted); }
    var tmp := mem.Read(src, n);
    if tmp.Ok? {
      var _ := mem.Write(dst, tmp.value);
    }
    r := Ok(dst);
  }

  // ---- the heap invariant ----------------------------------------------------------------------------------

  datatype Block = Block(addr: u64, size: u64)

  /** First address past a block; an empty request still takes a byte. */
  function BlockEnd(b: Block): int {
    b.addr + Max(b.size, 1)
  }

  ghost predicate BlocksOk(h: Bump, blocks: seq<Block>) {
    && (forall i :: 0 <= i < |blocks| ==>
          h.base <= blocks[i].addr && blocks[i].addr % 16 == 0 && BlockEnd(blocks[i]) <= h.cursor)
    && (forall i, j :: 0 <= i < j < |blocks| ==> BlockEnd(blocks[i]) <= blocks[j].addr)
  }

  /** The arena region is mapped read-write and covers the heap up to its limit; it is backed by one buffer,
      so it is smaller than an allocation can be. */
  ghost predicate ArenaOk(a: Arena) {
    && Ordered(a.regions) && 0 < a.heap.base <= a.heap.cursor <= a.heap.limit
    && a.heap.limit + 16 <= TWO_64 && a.heap.limit - a.heap.base < ALLOC_LIMIT
    && a.heap.base in a.regions && a.regions[a.heap.base].prot == RW
    && a.heap.limit <= a.heap.base + |a.regions[a.heap.base].data|
  }

  /** Everything not yet handed out is still zero. */
  ghost predicate FreshIsZero(a: Arena)
    requires a.heap.base in a.regions
  {
    forall i :: a.heap.cursor - a.heap.base <= i < |a.regions[a.heap.base].data| && 0 <= i ==>
      a.regions[a.heap.base].data[i] == 0
  }

  ghost predicate HeapOk(a: Arena, blocks: seq<Block>) {
    ArenaOk(a) && FreshIsZero(a) && BlocksOk(a.heap, blocks)
  }

  /** `GuestMemory::new` establishes it for every arena that does not reach the top of memory. */
  lemma {:induction false} NewHeapOk(base: u64, size: u64, rs: RegionMap)
    requires 0 < base && base + size + 16 <= TWO_64 && size + PAGE_SIZE <= TWO_64
    requires MapZeroed(map[], base, PageUp(size), RW, Heap, "heap") == Ok(rs)
    ensures HeapOk(Arena(rs, Bump(base, Wrap(base + size), base)), [])
  {
    hide CheckFree, PageUp;
    PageUpIs(size);
    PageUpIs(Max(PageUp(size), 1));
    ZerosLength(MapSize(PageUp(size)));
    WrapSmall(base + size);
    InsertOrdered(map[], base, rs[base]);
  }

  lemma {:induction false} AllocBounds(h: Bump, size: u64)
    requires h.cursor <= h.limit && h.limit + 16 <= TWO_64 && Block16(h, size).Ok?
    ensures var (h', start) := Block16(h, size).value;
            && h.cursor <= start && start % 16 == 0
            && h' == h.(cursor := start + Max(size, 1)) && h'.cursor <= h.limit
  {
    WrapSmall(h.cursor + 15);
    Aligned(h.cursor + 15);
    hide Wrap;
  }

  /** A new block starts at or past everything handed out before it. */
  lemma {:induction false} NewBlock(h: Bump, blocks: seq<Block>, size: u64)
    requires BlocksOk(h, blocks) && h.base <= h.cursor <= h.limit && h.limit + 16 <= TWO_64
    requires Block16(h, size).Ok?
    ensures var (h', start) := Block16(h, size).value;
            BlocksOk(h', blocks + [Block(start, size)])
  {
    hide Alloc, Block16;
    AllocBounds(h, size);
    var (h', start) := Block16(h, size).value;
    var more := blocks + [Block(start, size)];
    forall i, j | 0 <= i < j < |more|
      ensures BlockEnd(more[i]) <= more[j].addr
    {
      if j == |blocks| {
        assert BlockEnd(blocks[i]) <= h.cursor;
      }
    }
  }

  // ---- one operation -------------------------------------------------------------------------------------------

  datatype HeapOp =
    | DoMalloc(size: u64)
    | DoCalloc(count: u64, each: u64)
    | DoRealloc(p: u64, size: u64)
    | DoStore(addr: u64, patch: seq<byte>)
    | Elsewhere(regions: RegionMap)

  function Perform(a: Arena, op: HeapOp): (r: Result<(Arena, u64), EmuError>) {
    match op
    case DoMalloc(size) => Ok(Malloc(a, size))
    case DoCalloc(count, each) => Ok(Malloc(a, CallocTotal(count, each)))
    case DoRealloc(p, size) => Realloc(a, p, size)
    case DoStore(addr, patch) =>
      (match WriteBytes(a.regions, addr, patch)
       case Ok(rs) => Ok((a.(regions := rs), 0))
       case Err(_) => Ok((a, 0)))
    case Elsewhere(rs) => Ok((a.(regions := rs), 0))
  }

  function RequestSize(op: HeapOp): (n: u64) {
    match op
    case DoMalloc(size) => size
    case DoCalloc(count, each) => CallocTotal(count, each)
    case DoRealloc(_, size) => size
    case _ => 0
  }

  function BlocksAfter(blocks: seq<Block>, op: HeapOp, ret: u64): (r: seq<Block>) {
    if ret == 0 then blocks else blocks + [Block(ret, RequestSize(op))]
  }

  ghost predicate InsideBlock(blocks: seq<Block>, addr: u64, len: nat) {
    exists i :: 0 <= i < |blocks| && blocks[i].addr <= addr && addr + len <= BlockEnd(blocks[i])
  }

  /** The guest stores inside a block it was given; the rest of the system leaves the arena be. */
  ghost predicate Disciplined(a: Arena, blocks: seq<Block>, op: HeapOp) {
    match op
    case DoStore(addr, patch) => InsideBlock(blocks, addr, |patch|)
    case Elsewhere(rs) =>
      Ordered(rs) && a.heap.base in rs && a.heap.base in a.regions && rs[a.heap.base] == a.regions[a.heap.base]
    case _ => true
  }

  /** A store that stays below `cursor` keeps the fresh part zero. */
  lemma {:induction false} StoreBelow(a: Arena, addr: u64, patch: seq<byte>, limit: int)
    requires ArenaOk(a) && FreshIsZero(a) && a.heap.base <= addr && addr + |patch| <= limit <= a.heap.cursor
    ensures match WriteBytes(a.regions, addr, patch)
            case Ok(rs) => ArenaOk(a.(regions := rs)) && FreshIsZero(a.(regions := rs))
            case Err(_) => true
  {
    if WriteBytes(a.regions, addr, patch).Ok? {
      WriteAt(a.regions, addr, patch, 0);
      hide Ordered;
      var (k, off) := Slice(a.regions, addr, |patch|, WRITE).value;
      OtherOrSame(a, addr, patch, k, off);
    }
  }

  /** Below the arena's end, a store at or above its base goes to the arena region, unless it is
      empty and so changes nothing. */
  lemma {:induction false} OtherOrSame(a: Arena, addr: u64, patch: seq<byte>, k: u64, off: nat)
    requires ArenaOk(a) && a.heap.base <= addr && addr + |patch| <= a.heap.cursor
    requires Slice(a.regions, addr, |patch|, WRITE) == Ok((k, off))
    ensures patch == [] || (k == a.heap.base && off == addr - k)
  {
    if patch != [] {
      hide Ordered, Slice;
      SliceInto(a.regions, a.heap.base, addr - a.heap.base, |patch|, WRITE);
    }
  }

  lemma {:induction false} MallocKeeps(a: Arena, blocks: seq<Block>, size: u64)
    requires HeapOk(a, blocks)
    ensures var (a', ret) := Malloc(a, size);
            && HeapOk(a', if ret == 0 then blocks else blocks + [Block(ret, size)])
            && (ret == 0 <==> Block16(a.heap, size).Err?)
            && a'.regions == a.regions
            && (ret != 0 ==> a.heap.cursor <= ret && a'.heap == a.heap.(cursor := ret + Max(size, 1))
                             && a'.heap.cursor <= a.heap.limit)
  {
    hide Block16, Ordered;
    if Block16(a.heap, size).Ok? {
      AllocBounds(a.heap, size);
      NewBlock(a.heap, blocks, size);
    }
  }

  /** `realloc` stores only into the block it returns, and a block that was found is never too large for
      the buffer it copies through. */
  lemma {:induction false} ReallocKeeps(a: Arena, blocks: seq<Block>, p: u64, size: u64)
    requires HeapOk(a, blocks)
    ensures Realloc(a, p, size).Ok?
    ensures var (a', ret) := Realloc(a, p, size).value;
            HeapOk(a', if ret == 0 then blocks else blocks + [Block(ret, size)])
  {
    hide Block16, Ordered, ReadBytes, WriteBytes, BlocksOk, ArenaOk, FreshIsZero;
    MallocKeeps(a, blocks, size);
    var (mid, ret) := Malloc(a, size);
    ArenaBounds(a);
    if ret != 0 && p != 0 && ReadBytes(a.regions, p, size).Ok? {
      StoreBelow(mid, ret, ReadBytes(a.regions, p, size).value, ret + size);
    }
  }

  lemma {:induction false} ArenaBounds(a: Arena)
    requires ArenaOk(a)
    ensures 0 < a.heap.base <= a.heap.cursor <= a.heap.limit && a.heap.limit + 16 <= TWO_64
    ensures a.heap.limit - a.heap.base < ALLOC_LIMIT
  {
  }

  /** Every operation completes and keeps the heap: blocks aligned, in the arena and pairwise apart, and
      everything beyond them zero. */
  lemma {:induction false} HeapStep(a: Arena, blocks: seq<Block>, op: HeapOp)
    requires HeapOk(a, blocks) && Disciplined(a, blocks, op)
    ensures Perform(a, op).Ok?
    ensures var (a', ret) := Perform(a, op).value;
            HeapOk(a', BlocksAfter(blocks, op, ret))
  {
    hide Malloc, Realloc, WriteBytes, Ordered;
    match op
    case DoMalloc(size) => MallocKeeps(a, blocks, size);
    case DoCalloc(count, each) => MallocKeeps(a, blocks, CallocTotal(count, each));
    case DoRealloc(p, size) => ReallocKeeps(a, blocks, p, size);
    case DoStore(addr, patch) =>
      var i :| 0 <= i < |blocks| && blocks[i].addr <= addr && addr + |patch| <= BlockEnd(blocks[i]);
      StoreBelow(a, addr, patch, BlockEnd(blocks[i]));
    case Elsewhere(rs) =>
  }

  // ---- runs ---------------------------------------------------------------------------------------------------------

  function RunHeap(a: Arena, blocks: seq<Block>, ops: seq<HeapOp>): (r: Result<(Arena, seq<Block>), EmuError>)
    decreases |ops|
  {
    if ops == [] then Ok((a, blocks))
    else
      var (a', ret) :- Perform(a, ops[0]);
      RunHeap(a', BlocksAfter(blocks, ops[0], ret), ops[1..])
  }

  ghost predicate DisciplinedRun(a: Arena, blocks: seq<Block>, ops: seq<HeapOp>)
    decreases |ops|
  {
    ops != [] ==>
      && Disciplined(a, blocks, ops[0])
      && match Perform(a, ops[0])
         case Ok(done) => DisciplinedRun(done.0, BlocksAfter(blocks, ops[0], done.1), ops[1..])
         case Err(_) => true
  }

  /** Heap safety over whole runs, none of which aborts. */
  lemma {:induction false} HeapRun(a: Arena, blocks: seq<Block>, ops: seq<HeapOp>)
    requires HeapOk(a, blocks) && DisciplinedRun(a, blocks, ops)
    ensures RunHeap(a, blocks, ops).Ok?
    ensures var (a', blocks') := RunHeap(a, blocks, ops).value; HeapOk(a', blocks')
    decreases |ops|
  {
    hide HeapOk, Disciplined, Perform;
    if ops != [] {
      HeapStep(a, blocks, ops[0]);
      var (a', ret) := Perform(a, ops[0]).value;
      HeapRun(a', BlocksAfter(blocks, ops[0], ret), ops[1..]);
    }
  }

  // ---- what the shims promise in a sound heap ---------------------------------------------------------------------

  /** `calloc` returns zeroed memory, though it never clears any. */
  lemma {:induction false} CallocIsZero(a: Arena, blocks: seq<Block>, count: u64, each: u64)
    requires HeapOk(a, blocks)
    ensures var (a', ret) := Malloc(a, CallocTotal(count, each));
            ret != 0 ==> BytesAt(a'.regions, ret, CallocTotal(count, each)) == Zeros(CallocTotal(count, each))
  {
    hide Block16, Ordered, CallocTotal, BytesAt;
    ArenaBounds(a);
    var n := CallocTotal(count, each);
    var (a', ret) := Malloc(a, n);
    MallocKeeps(a, blocks, n);
    if ret != 0 {
      RegionBytes(a.regions, a.heap.base, ret - a.heap.base, n);
      assert BytesAt(a.regions, ret, n) == Zeros(n);
    }
  }

  /** In a sound heap an allocation fails exactly when no sixteen-byte aligned block of the size is left below the
      limit; otherwise it gives the lowest one, and an empty request takes a byte. */
  lemma {:induction false} MallocIff(a: Arena, blocks: seq<Block>, size: u64)
    requires HeapOk(a, blocks)
    ensures var (a', ret) := Malloc(a, size);
            && (ret != 0 <==> exists p: nat :: p % 16 == 0 && a.heap.cursor <= p && p + Max(size, 1) <= a.heap.limit)
            && (ret == 0 ==> a' == a)
            && (ret != 0 ==>
                  && ret % 16 == 0 && a.heap.cursor <= ret && ret + Max(size, 1) <= a.heap.limit
                  && a'.regions == a.regions && a'.heap == a.heap.(cursor := ret + Max(size, 1))
                  && forall p: nat :: p % 16 == 0 && a.heap.cursor <= p ==> ret <= p)
  {
    hide Alloc, Block16, Ordered, BlocksOk, FreshIsZero;
    ArenaBounds(a);
    Block16Is(a.heap, size);
    AllocIff(a.heap, size, 16);
    MallocKeeps(a, blocks, size);
  }

  /** A block from `calloc` is all of `count * each` bytes, and they are zero. */
  lemma {:induction false} CallocGives(a: Arena, blocks: seq<Block>, count: u64, each: u64)
    requires HeapOk(a, blocks)
    ensures var (a', ret) := Malloc(a, CallocTotal(count, each));
            ret != 0 ==>
              && ret + count * each <= a.heap.limit
              && forall x: int :: ret <= x < ret + count * each ==> At(a'.regions, x).Some? && ByteAt(a'.regions, x) == 0
  {
    hide Malloc, HeapOk, CallocTotal, At, ByteAt;
    HeapLimits(a, blocks);
    MallocIff(a, blocks, CallocTotal(count, each));
    TotalIs(count, each);
    var (a', ret) := Malloc(a, CallocTotal(count, each));
    var n := CallocTotal(count, each);
    if ret != 0 {
      assert n < TWO_64 - 1;
      forall x: int | ret <= x < ret + n
        ensures At(a'.regions, x).Some? && ByteAt(a'.regions, x) == 0
      {
        FreshByte(a, blocks, x);
      }
    }
  }

  lemma {:induction false} HeapLimits(a: Arena, blocks: seq<Block>)
    requires HeapOk(a, blocks)
    ensures 0 < a.heap.base <= a.heap.cursor <= a.heap.limit && a.heap.limit + 16 <= TWO_64
  {
  }

  lemma TotalIs(count: u64, each: u64)
    ensures 0 <= count * each
    ensures CallocTotal(count, each) < TWO_64 - 1 ==> CallocTotal(count, each) == count * each
  {
  }

  /** A byte not yet handed out is mapped and zero. */
  lemma {:induction false} FreshByte(a: Arena, blocks: seq<Block>, x: int)
    requires HeapOk(a, blocks) && a.heap.cursor <= x < a.heap.limit
    ensures At(a.regions, x).Some? && ByteAt(a.regions, x) == 0
  {
    hide BlocksOk;
    AtInside(a.regions, a.heap.base, x);
    hide Ordered, At;
  }

  /** In a sound heap `realloc` answers as an allocation of the new size does. From null it copies nothing; from any
      other pointer it copies `size` bytes into the new block when they can be read, and else leaves memory alone. */
  lemma {:induction false} ReallocIs(a: Arena, blocks: seq<Block>, p: u64, size: u64)
    requires HeapOk(a, blocks)
    ensures Realloc(a, p, size).Ok?
    ensures var (a', ret) := Realloc(a, p, size).value;
            && ret == Malloc(a, size).1 && a'.heap == Malloc(a, size).0.heap
            && (ret == 0 || p == 0 ==> a'.regions == a.regions)
            && (ret != 0 && p != 0 ==>
                  if CopyFits(a.regions, ret, p, size) then Copied(a.regions, a'.regions, ret, p, size)
                  else a'.regions == a.regions)
  {
    hide Block16, CopyFits, Copied, Ordered, BlocksOk, FreshIsZero, ReadBytes, WriteBytes;
    MallocKeeps(a, blocks, size);
    ArenaBounds(a);
    if Malloc(a, size).1 != 0 && p != 0 {
      CopyIff(a.regions, Malloc(a, size).1, p, size);
    }
  }

  /** `realloc` of a pointer into the allocated heap always completes its copy: the new block
      starts with the `size` bytes found at the old pointer, so with all of the old block up to
      the smaller of the two sizes, and every block allocated before is unchanged. */
  lemma {:induction false} ReallocPreserves(a: Arena, blocks: seq<Block>, p: u64, size: u64)
    requires HeapOk(a, blocks) && a.heap.base <= p < a.heap.cursor
    ensures Realloc(a, p, size).Ok?
    ensures var (a', ret) := Realloc(a, p, size).value;
            && (ret != 0 ==> BytesAt(a'.regions, ret, size) == BytesAt(a.regions, p, size))
            && forall x: int :: x < a.heap.cursor ==> At(a'.regions, x) == At(a.regions, x)
  {
    hide Block16, Ordered, ReadBytes, WriteBytes, BytesAt, At, FreshIsZero, BlocksOk;
    var (mid, ret) := Malloc(a, size);
    MallocKeeps(a, blocks, size);
    ArenaBounds(a);
    if ret != 0 {
      HeapReads(a, p, size, mid.heap.cursor);
      var bytes := ReadBytes(a.regions, p, size).value;
      HeapWrites(mid, ret, bytes);
      StoredBytes(a.regions, ret, bytes);
      forall x: int | x < a.heap.cursor
        ensures At(Realloc(a, p, size).value.0.regions, x) == At(a.regions, x)
      {
        WriteAt(a.regions, ret, bytes, x);
      }
    }
  }

  /** Any range between a heap pointer and the new cursor can be read. */
  lemma {:induction false} HeapReads(a: Arena, p: u64, size: u64, cursor: u64)
    requires ArenaOk(a) && a.heap.base <= p && p + size <= cursor <= a.heap.limit && p < a.heap.limit
    ensures ReadBytes(a.regions, p, size) == Ok(BytesAt(a.regions, p, size))
  {
    hide Ordered, BytesAt;
    var k, off := a.heap.base, p - a.heap.base;
    HeapSlice(a, p, size, READ);
    RegionBytes(a.regions, k, off, size);
  }

  lemma {:induction false} HeapSlice(a: Arena, p: u64, size: nat, need: Protection)
    requires ArenaOk(a) && a.heap.base <= p && p + size <= a.heap.limit && p < a.heap.limit
    requires RW.Contains(need)
    ensures Slice(a.regions, p, size, need) == Ok((a.heap.base, p - a.heap.base))
  {
    assert a.regions[a.heap.base].base == a.heap.base;
    NearestHolds(a.regions, a.heap.base, p);
  }

  lemma {:induction false} HeapWrites(a: Arena, p: u64, bytes: seq<byte>)
    requires ArenaOk(a) && a.heap.base <= p && p + |bytes| <= a.heap.limit && p < a.heap.limit
    ensures WriteBytes(a.regions, p, bytes).Ok?
  {
    hide Slice, Ordered;
    HeapSlice(a, p, |bytes|, WRITE);
  }
}
