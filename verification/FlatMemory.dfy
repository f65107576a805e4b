/** The reference the memory manager refines: one flat partial map from addresses to cells.
    It knows nothing of sorted keys, neighbours or offsets. */
module FlatMemory {
  import opened Words
  import opened Regions

  /** A mapped byte: its value, its protection, and the mapping it belongs to. */
  datatype Cell = Cell(owner: u64, prot: Protection, value: byte)

  type Flat = int -> Option<Cell>

  /** Mappings that hold no byte. They cannot be read or written beyond an empty access at their very
      address, but a later mapping may not span one. */
  type Pins = map<u64, Protection>

  // ---- the reference operations -------------------------------------------------------------------

  ghost predicate Vacant(f: Flat, start: int, end: int) {
    forall a: int :: start <= a < end ==> f(a).None?
  }

  /** Where a mapping of `n` bytes may go: below the top of memory, over vacant cells, spanning no pin.
      A mapping without bytes may also go where a mapping starts. */
  ghost predicate Placeable(f: Flat, pins: Pins, base: u64, n: nat) {
    && base + n < TWO_64
    && (if n == 0 then f(base).None? || f(base).value.owner == base else Vacant(f, base, base + n))
    && forall p :: p in pins ==> !(base < p < base + n)
  }

  /** The length a mapping gets that must hold `v` bytes: the least whole number of pages, or nothing where
      rounding leaves the machine word. */
  function Rounded(v: nat): (n: nat) {
    if v + 0x4000 <= TWO_64 then (v + 0x3FFF) / 0x4000 * 0x4000 else 0
  }

  /** The bytes a mapping starts with: those given, then zeros. */
  function Filled(data: seq<byte>, n: nat): (s: seq<byte>) {
    seq<byte>(n, i requires 0 <= i => if i < |data| then data[i] else 0)
  }

  /** The new cells, instead of those of a mapping that had the same address. */
  function FlatMap(f: Flat, base: u64, data: seq<byte>, prot: Protection): Flat {
    a => if base <= a < base + |data| then Some(Cell(base, prot, data[a - base]))
         else if f(a).Some? && f(a).value.owner == base then None
         else f(a)
  }

  function PinMap(pins: Pins, base: u64, data: seq<byte>, prot: Protection): Pins {
    if data == [] then pins[base := prot] else pins - {base}
  }

  /** Every cell of the mapping `addr` belongs to changes protection. */
  function FlatProtect(f: Flat, addr: int, prot: Protection): Flat {
    a => if f(a).Some? && f(addr).Some? && f(a).value.owner == f(addr).value.owner
         then Some(f(a).value.(prot := prot)) else f(a)
  }

  /** A non-empty range is accessible when it lies in one mapping that grants `need`. An empty
      range is judged by the byte at its address, or else by the pin there, or else by the byte just
      before it. */
  ghost predicate Accessible(f: Flat, pins: Pins, addr: u64, len: nat, need: Protection) {
    if len == 0 then
      if f(addr).Some? then f(addr).value.prot.Contains(need)
      else if addr in pins then pins[addr].Contains(need)
      else f(addr - 1).Some? && f(addr - 1).value.prot.Contains(need)
    else
      && f(addr).Some? && f(addr).value.prot.Contains(need)
      && forall a: int :: addr <= a < addr + len ==> f(a).Some? && f(a).value.owner == f(addr).value.owner
  }

  function FlatWrite(f: Flat, addr: int, patch: seq<byte>): Flat {
    a => if f(a).Some? && addr <= a < addr + |patch|
         then Some(f(a).value.(value := patch[a - addr])) else f(a)
  }

  // ---- the abstraction ------------------------------------------------------------------------------

  ghost predicate Inside(rs: RegionMap, b: u64, a: int) {
    b in rs && b <= a < b + |rs[b].data|
  }

  ghost predicate Mapped(rs: RegionMap, a: int) {
    exists b :: Inside(rs, b, a)
  }

  ghost function CellIn(rs: RegionMap, b: u64, a: int): (c: Cell)
    requires Inside(rs, b, a)
  {
    Cell(b, rs[b].prot, rs[b].data[a - b])
  }

  /** What the layout holds at an address. */
  ghost function At(rs: RegionMap, a: int): (c: Option<Cell>) {
    if Mapped(rs, a) then
      var b :| Inside(rs, b, a);
      Some(CellIn(rs, b, a))
    else None
  }

  ghost predicate Refines(rs: RegionMap, f: Flat) {
    forall a: int :: At(rs, a) == f(a)
  }

  ghost function PinsOf(rs: RegionMap): Pins {
    map b | b in rs && rs[b].data == [] :: rs[b].prot
  }

  lemma {:induction false} AtInside(rs: RegionMap, b: u64, a: int)
    requires Ordered(rs) && Inside(rs, b, a)
    ensures At(rs, a) == Some(CellIn(rs, b, a))
  {
    forall c | Inside(rs, c, a)
      ensures c == b
    {
    }
  }

  lemma {:induction false} AtOwner(rs: RegionMap, a: int)
    requires Ordered(rs)
    ensures At(rs, a).Some? ==> Inside(rs, At(rs, a).value.owner, a)
                                && At(rs, a).value == CellIn(rs, At(rs, a).value.owner, a)
    ensures At(rs, a).None? ==> forall b :: !Inside(rs, b, a)
  {
  }

  // ---- lookups ---------------------------------------------------------------------------------------------

  lemma {:induction false} NearestHolds(rs: RegionMap, b: u64, addr: u64)
    requires Ordered(rs) && Inside(rs, b, addr)
    ensures AtOrBelow(rs, addr) == Some(b)
  {
    var k := AtOrBelow(rs, addr).value;
    assert b <= k <= addr;
  }

  lemma {:induction false} NearestMisses(rs: RegionMap, addr: u64)
    requires Ordered(rs) && At(rs, addr).None? && AtOrBelow(rs, addr).Some?
    ensures var k := AtOrBelow(rs, addr).value; k + |rs[k].data| <= addr
  {
    var k := AtOrBelow(rs, addr).value;
    assert !Inside(rs, k, addr);
  }

  /** `region_base` finds the owner of every mapped address and fails on the others. */
  lemma {:induction false} RegionBaseIff(rs: RegionMap, addr: u64)
    requires Ordered(rs)
    ensures RegionBase(rs, addr).Ok? <==> At(rs, addr).Some?
    ensures At(rs, addr).Some? ==> RegionBase(rs, addr) == Ok(At(rs, addr).value.owner)
  {
    AtOwner(rs, addr);
    if At(rs, addr).Some? {
      NearestHolds(rs, At(rs, addr).value.owner, addr);
    } else if AtOrBelow(rs, addr).Some? {
      NearestMisses(rs, addr);
    }
  }

  /** A non-empty access succeeds exactly when one mapping holds the whole range and grants
      the protection asked for. */
  lemma {:induction false} SliceIff(rs: RegionMap, addr: u64, len: nat, need: Protection)
    requires Ordered(rs) && 0 < len
    ensures Slice(rs, addr, len, need).Ok? <==>
            exists b: u64 :: Inside(rs, b, addr) && addr + len <= b + |rs[b].data| && rs[b].prot.Contains(need)
  {
    AtOwner(rs, addr);
    if At(rs, addr).Some? {
      NearestHolds(rs, At(rs, addr).value.owner, addr);
      forall b | Inside(rs, b, addr)
        ensures b == At(rs, addr).value.owner
      {
        AtInside(rs, b, addr);
      }
    } else if AtOrBelow(rs, addr).Some? {
      NearestMisses(rs, addr);
    }
  }

  /** An access inside a known region resolves to that region. */
  lemma {:induction false} SliceInto(rs: RegionMap, base: u64, off: nat, len: nat, need: Protection)
    requires Ordered(rs) && base in rs && 0 < len && off + len <= |rs[base].data|
    requires rs[base].prot.Contains(need)
    ensures base + off < TWO_64
    ensures Slice(rs, base + off, len, need) == Ok((base, off))
  {
    NearestHolds(rs, base, base + off);
  }

  lemma {:induction false} AccessIff(rs: RegionMap, f: Flat, addr: u64, len: nat, need: Protection)
    requires Ordered(rs) && Refines(rs, f)
    ensures Slice(rs, addr, len, need).Ok? <==> Accessible(f, PinsOf(rs), addr, len, need)
  {
    if len == 0 {
      EmptyAccessIff(rs, f, addr, need);
    } else if At(rs, addr).None? {
      SliceIff(rs, addr, len, need);
      AtOwner(rs, addr);
    } else {
      AtOwner(rs, addr);
      var b := At(rs, addr).value.owner;
      NearestHolds(rs, b, addr);
      if addr + len <= b + |rs[b].data| {
        forall a: int | addr <= a < addr + len
          ensures f(a).Some? && f(a).value.owner == b
        {
          AtInside(rs, b, a);
        }
      } else {
        var past := b + |rs[b].data|;
        AtOwner(rs, past);
        assert f(past) == At(rs, past);
      }
    }
  }

  lemma {:induction false} EmptyAccessIff(rs: RegionMap, f: Flat, addr: u64, need: Protection)
    requires Ordered(rs) && Refines(rs, f)
    ensures Slice(rs, addr, 0, need).Ok? <==> Accessible(f, PinsOf(rs), addr, 0, need)
  {
    assert f(addr) == At(rs, addr) && f(addr - 1) == At(rs, addr - 1);
    if At(rs, addr).Some? {
      AtOwner(rs, addr);
      NearestHolds(rs, At(rs, addr).value.owner, addr);
    } else {
      EmptyGap(rs, addr, need);
    }
  }

  /** Where no byte is mapped, an empty access finds the pin there, or the region that ends there. */
  lemma {:induction false} EmptyGap(rs: RegionMap, addr: u64, need: Protection)
    requires Ordered(rs) && At(rs, addr).None?
    ensures Slice(rs, addr, 0, need).Ok?
            <==> if addr in PinsOf(rs) then PinsOf(rs)[addr].Contains(need)
                 else At(rs, addr - 1).Some? && At(rs, addr - 1).value.prot.Contains(need)
  {
    hide At, Mapped;
    AtOwner(rs, addr);
    AtOwner(rs, addr - 1);
    if AtOrBelow(rs, addr).Some? {
      NearestMisses(rs, addr);
      var k := AtOrBelow(rs, addr).value;
      if addr == k + |rs[k].data| && rs[k].data != [] {
        AtInside(rs, k, addr - 1);
      }
    }
  }

  // ---- transitions, one address at a time ------------------------------------------------------------

  lemma {:induction false} FreeIsVacant(rs: RegionMap, base: u64, size: u64, a: int)
    requires Ordered(rs) && CheckFree(rs, base, size).None? && base <= a < base + size
    ensures At(rs, a).None?
  {
    CheckFreeIff(rs, base, size);
    assert forall b :: Inside(rs, b, a) ==> Overlaps(rs, b, base, base + size);
  }

  /** Inserting a region that displaces no bytes adds its cells and changes no others. */
  lemma {:induction false} InsertAt(rs: RegionMap, base: u64, region: Region, a: int)
    requires Ordered(rs) && region.base == base
    requires |region.data| < TWO_64 && CheckFree(rs, base, |region.data|).None?
    requires base in rs ==> rs[base].data == []
    ensures Ordered(rs[base := region])
    ensures At(rs[base := region], a)
            == if base <= a < base + |region.data| then Some(Cell(base, region.prot, region.data[a - base]))
               else At(rs, a)
  {
    var rs' := rs[base := region];
    InsertOrdered(rs, base, region);
    AtOwner(rs, a);
    if base <= a < base + |region.data| {
      AtInside(rs', base, a);
    } else if At(rs, a).Some? {
      AtInside(rs', At(rs, a).value.owner, a);
    } else {
      assert forall b :: Inside(rs', b, a) ==> b != base && Inside(rs, b, a);
    }
  }

  /** In general, inserting also takes away the cells of the region that had the base. */
  lemma {:induction false} OverwriteAt(rs: RegionMap, base: u64, region: Region, a: int)
    requires Ordered(rs) && region.base == base
    requires |region.data| < TWO_64 && CheckFree(rs, base, |region.data|).None?
    ensures Ordered(rs[base := region])
    ensures At(rs[base := region], a)
            == if base <= a < base + |region.data| then Some(Cell(base, region.prot, region.data[a - base]))
               else if At(rs, a).Some? && At(rs, a).value.owner == base then None
               else At(rs, a)
  {
    hide CheckFree;
    var rs' := rs[base := region];
    InsertOrdered(rs, base, region);
    AtOwner(rs, a);
    AtOwner(rs', a);
    if base <= a < base + |region.data| {
      AtInside(rs', base, a);
    } else if At(rs, a).Some? && At(rs, a).value.owner != base {
      AtInside(rs', At(rs, a).value.owner, a);
    } else if At(rs', a).Some? {
      AtInside(rs, At(rs', a).value.owner, a);
    }
  }

  lemma {:induction false} ReplaceOrdered(rs: RegionMap, k: u64, region: Region)
    requires Ordered(rs) && k in rs && region.base == k && |region.data| == |rs[k].data|
    ensures Ordered(rs[k := region])
  {
  }

  /** Replacing a region by one of the same extent changes only that region's cells. */
  lemma {:induction false} ReplaceAt(rs: RegionMap, k: u64, region: Region, a: int)
    requires Ordered(rs) && k in rs && region.base == k && |region.data| == |rs[k].data|
    ensures Ordered(rs[k := region])
    ensures At(rs[k := region], a)
            == if k <= a < k + |region.data| then Some(Cell(k, region.prot, region.data[a - k]))
               else At(rs, a)
  {
    hide Ordered, At;
    var rs' := rs[k := region];
    ReplaceOrdered(rs, k, region);
    AtOwner(rs, a);
    AtOwner(rs', a);
    if k <= a < k + |region.data| {
      AtInside(rs', k, a);
    } else if At(rs, a).Some? {
      AtInside(rs', At(rs, a).value.owner, a);
    } else if At(rs', a).Some? {
      AtInside(rs, At(rs', a).value.owner, a);
    }
  }

  lemma {:induction false} RegionBaseIs(rs: RegionMap, addr: u64)
    requires Ordered(rs) && RegionBase(rs, addr).Ok?
    ensures rs[RegionBase(rs, addr).value].base == RegionBase(rs, addr).value
  {
  }

  lemma {:induction false} ProtectAt(rs: RegionMap, addr: u64, prot: Protection, a: int)
    requires Ordered(rs) && Protect(rs, addr, prot).Ok?
    ensures Ordered(Protect(rs, addr, prot).value)
    ensures At(rs, addr).Some?
    ensures At(Protect(rs, addr, prot).value, a)
            == if At(rs, a).Some? && At(rs, a).value.owner == At(rs, addr).value.owner
               then Some(At(rs, a).value.(prot := prot)) else At(rs, a)
  {
    hide Ordered, At, RegionBase;
    RegionBaseIff(rs, addr);
    var k := RegionBase(rs, addr).value;
    RegionBaseIs(rs, addr);
    ReplaceAt(rs, k, rs[k].(prot := prot), a);
    AtOwner(rs, a);
    if k <= a < k + |rs[k].data| {
      AtInside(rs, k, a);
    }
  }

  lemma {:induction false} WriteAt(rs: RegionMap, addr: u64, patch: seq<byte>, a: int)
    requires Ordered(rs) && WriteBytes(rs, addr, patch).Ok?
    ensures Ordered(WriteBytes(rs, addr, patch).value)
    ensures addr <= a < addr + |patch| ==> At(rs, a).Some?
    ensures At(WriteBytes(rs, addr, patch).value, a)
            == if addr <= a < addr + |patch| then Some(At(rs, a).value.(value := patch[a - addr]))
               else At(rs, a)
  {
    hide Ordered, At, Slice;
    SliceOffset(rs, addr, |patch|, WRITE);
    var (k, off) := Slice(rs, addr, |patch|, WRITE).value;
    var data := Spliced(rs[k].data, off, patch);
    ReplaceAt(rs, k, rs[k].(data := data), a);
    if k <= a < k + |rs[k].data| {
      AtInside(rs, k, a);
    }
  }

  /** A slice starts in the region it names, at its distance from the base. */
  lemma {:induction false} SliceOffset(rs: RegionMap, addr: u64, len: nat, need: Protection)
    requires Ordered(rs) && Slice(rs, addr, len, need).Ok?
    ensures var (k, off) := Slice(rs, addr, len, need).value; k in rs && rs[k].base == k && off == addr - k
  {
  }

  /** Bytes read are the cells' values. */
  lemma {:induction false} ReadAt(rs: RegionMap, addr: u64, len: nat, i: nat)
    requires Ordered(rs) && ReadBytes(rs, addr, len).Ok? && i < len
    ensures At(rs, addr + i).Some?
    ensures ReadBytes(rs, addr, len).value[i] == At(rs, addr + i).value.value
  {
    var (k, off) := Slice(rs, addr, len, READ).value;
    AtInside(rs, k, addr + i);
  }
}
