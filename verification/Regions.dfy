/** The guest address space as a value: a sparse map of regions keyed by base address, with
    the nearest-predecessor lookups the memory manager performs on it. */
module Regions {
  import opened Words

  datatype Protection = Protection(read: bool, write: bool, exec: bool) {
    predicate Contains(need: Protection) {
      (need.read ==> read) && (need.write ==> write) && (need.exec ==> exec)
    }
  }

  const NO_ACCESS := Protection(false, false, false)
  const READ := Protection(true, false, false)
  const WRITE := Protection(false, true, false)
  const RW := Protection(true, true, false)
  const RX := Protection(true, false, true)

  datatype RegionKind = Segment | Stack | Heap | Anonymous | Commpage

  datatype Region = Region(base: u64, prot: Protection, kind: RegionKind, name: string, data: seq<byte>) {
    function End(): u64 {
      Wrap(base + |data|)
    }

    predicate Holds(addr: u64) {
      base <= addr < End()
    }
  }

  type RegionMap = map<u64, Region>

  // ---- nearest predecessor -------------------------------------------------------------------

  lemma {:induction false} Maximum(s: set<u64>) returns (m: u64)
    requires s != {}
    ensures m in s && forall k :: k in s ==> k <= m
    decreases |s|
  {
    m :| m in s;
    var rest := s - {m};
    assert forall k :: k in s ==> k == m || k in rest;
    if rest != {} {
      assert |rest| < |s|;
      var top := Maximum(rest);
      m := if m < top then top else m;
    }
  }

  lemma {:induction false} MaximumExists(s: set<u64>)
    requires s != {}
    ensures exists m :: m in s && forall k :: k in s ==> k <= m
  {
    var m := Maximum(s);
  }

  /** The greatest key below `end`: `range(..end).next_back()`. */
  function Below(rs: RegionMap, end: int): (r: Option<u64>)
    ensures r.None? ==> forall k :: k in rs ==> end <= k
    ensures r.Some? ==> r.value in rs && r.value < end
                        && forall k :: k in rs && k < end ==> k <= r.value
  {
    var keys := set k | k in rs && k < end;
    if keys == {} then
      assert forall k :: k in rs && k < end ==> k in keys;
      None
    else
      MaximumExists(keys);
      var m :| m in keys && forall k :: k in keys ==> k <= m;
      assert forall k :: k in rs && k < end ==> k in keys;
      Some(m)
  }

  /** The greatest key at or below `addr`: `range(..=addr).next_back()`. */
  function AtOrBelow(rs: RegionMap, addr: u64): (r: Option<u64>) {
    Below(rs, addr + 1)
  }

  // ---- read-only queries -------------------------------------------------------------------------

  /** `check_free`: looks at one neighbour only. */
  function CheckFree(rs: RegionMap, base: u64, size: u64): (r: Option<EmuError>)
    ensures r != Some(Aborted)
  {
    if base + size >= TWO_64 then Some(MapOverflow)
    else
      var end := base + size;
      match Below(rs, end)
      case None => None
      case Some(k) => if rs[k].base < end && base < rs[k].End() then Some(MapOverlap) else None
  }

  /** `region_base`: the key of the region containing `addr`. */
  function RegionBase(rs: RegionMap, addr: u64): (r: Result<u64, EmuError>)
    ensures r.Ok? ==> r.value in rs
    ensures r.Err? ==> r.error == Unmapped
  {
    match AtOrBelow(rs, addr)
    case None => Err(Unmapped)
    case Some(k) => if rs[k].Holds(addr) then Ok(k) else Err(Unmapped)
  }

  /** `slice`: the region key and the offset at which `[addr, addr + len)` starts in it. */
  function Slice(rs: RegionMap, addr: u64, len: nat, need: Protection): (r: Result<(u64, nat), EmuError>)
    ensures r.Ok? ==> r.value.0 in rs && r.value.1 + len <= |rs[r.value.0].data|
    ensures r.Err? ==> r.error != Aborted
  {
    match AtOrBelow(rs, addr)
    case None => Err(Unmapped)
    case Some(k) =>
      var region := rs[k];
      if addr < region.base then Err(BeforeRegion)
      else
        var off := addr - region.base;
        if off + len >= TWO_64 then Err(LengthOverflow)
        else if off + len > |region.data| then Err(PastRegionEnd)
        else if !region.prot.Contains(need) then Err(ProtectionViolation)
        else Ok((k, off))
  }

  function ReadBytes(rs: RegionMap, addr: u64, len: nat): (r: Result<seq<byte>, EmuError>)
    ensures r.Ok? ==> |r.value| == len
  {
    var (k, off) :- Slice(rs, addr, len, READ);
    Ok(rs[k].data[off..off + len])
  }

  function ReadU64(rs: RegionMap, addr: u64): (r: Result<u64, EmuError>) {
    var bytes :- ReadBytes(rs, addr, 8);
    LeWord(bytes);
    Ok(LeValue(bytes))
  }

  lemma {:induction false} LeWord(s: seq<byte>)
    requires |s| == 8
    ensures LeValue(s) < TWO_64
  {
    LeValueBound(s);
    Pow2SixtyFour();
  }

  // ---- transitions -----------------------------------------------------------------------------------

  function Zeros(n: nat): (s: seq<byte>) {
    seq(n, i => 0)
  }

  function Padded(data: seq<byte>, n: nat): (s: seq<byte>)
    requires |data| <= n
  {
    data + Zeros(n - |data|)
  }

  /** The size `map` gives a region, after the rounding that may wrap. */
  function MapSize(size: u64): (n: u64) {
    PageUp(Max(size, 1))
  }

  /** The size `map_with_data` gives a region; it does not force a page for an empty request. */
  function MapDataSize(size: u64, data: Buffer): (n: u64) {
    PageUp(Max(size, |data|))
  }

  /** What both kinds of mapping need: a free range, and a backing buffer that can be allocated. */
  function Reserve(rs: RegionMap, base: u64, n: u64): (r: Option<EmuError>) {
    match CheckFree(rs, base, n)
    case Some(e) => Some(e)
    case None => if n < ALLOC_LIMIT then None else Some(Aborted)
  }

  function MapZeroed(rs: RegionMap, base: u64, size: u64, prot: Protection, kind: RegionKind, name: string)
    : (r: Result<RegionMap, EmuError>)
  {
    var n := MapSize(size);
    match Reserve(rs, base, n)
    case Some(e) => Err(e)
    case None => Ok(rs[base := Region(base, prot, kind, name, Zeros(n))])
  }

  function MapWithData(rs: RegionMap, base: u64, size: u64, data: Buffer, prot: Protection,
                       kind: RegionKind, name: string)
    : (r: Result<RegionMap, EmuError>)
  {
    var n := MapDataSize(size, data);
    match Reserve(rs, base, n)
    case Some(e) => Err(e)
    case None =>
      if |data| > n then Err(InitExceedsRegion)
      else Ok(rs[base := Region(base, prot, kind, name, Padded(data, n))])
  }

  function Protect(rs: RegionMap, addr: u64, prot: Protection): (r: Result<RegionMap, EmuError>) {
    var k :- RegionBase(rs, addr);
    Ok(rs[k := rs[k].(prot := prot)])
  }

  /** `data` with `patch` laid over it from `off`. */
  function Spliced(data: seq<byte>, off: nat, patch: seq<byte>): (s: seq<byte>)
    requires off + |patch| <= |data|
    ensures |s| == |data|
    ensures forall i :: 0 <= i < |data| ==>
              s[i] == if off <= i < off + |patch| then patch[i - off] else data[i]
  {
    data[..off] + patch + data[off + |patch|..]
  }

  function WriteBytes(rs: RegionMap, addr: u64, patch: seq<byte>): (r: Result<RegionMap, EmuError>) {
    var (k, off) :- Slice(rs, addr, |patch|, WRITE);
    Ok(rs[k := rs[k].(data := Spliced(rs[k].data, off, patch))])
  }

  function WriteU64(rs: RegionMap, addr: u64, v: u64): (r: Result<RegionMap, EmuError>) {
    WriteBytes(rs, addr, Le(v, 8))
  }

  // ---- the layout invariant ------------------------------------------------------------------------------

  /** Keys are bases, no region reaches the top of the address space, and in address order no
      region reaches past the next one's base. */
  ghost predicate Ordered(rs: RegionMap) {
    && (forall b :: b in rs ==> rs[b].base == b && b + |rs[b].data| < TWO_64)
    && (forall b, c :: b in rs && c in rs && b < c ==> b + |rs[b].data| <= c)
  }

  ghost predicate Overlaps(rs: RegionMap, b: u64, start: int, end: int)
    requires b in rs
  {
    b < end && start < b + |rs[b].data|
  }

  /** The one-neighbour test decides overlap with every region. */
  lemma {:induction false} CheckFreeIff(rs: RegionMap, base: u64, size: u64)
    requires Ordered(rs)
    ensures CheckFree(rs, base, size).None? <==>
            base + size < TWO_64 && forall b :: b in rs ==> !Overlaps(rs, b, base, base + size)
  {
    if base + size < TWO_64 {
      var end := base + size;
      match Below(rs, end)
      case None =>
      case Some(k) =>
        assert rs[k].End() == k + |rs[k].data|;
        forall b | b in rs && Overlaps(rs, b, base, end)
          ensures Overlaps(rs, k, base, end)
        {
          assert b <= k;
        }
    }
  }

  lemma {:induction false} InsertOrdered(rs: RegionMap, base: u64, region: Region)
    requires Ordered(rs) && region.base == base
    requires |region.data| < TWO_64 && CheckFree(rs, base, |region.data|).None?
    ensures Ordered(rs[base := region])
  {
    CheckFreeIff(rs, base, |region.data|);
    var end := base + |region.data|;
    forall b | b in rs && b != base
      ensures b < base ==> b + |rs[b].data| <= base
      ensures base < b ==> end <= b
    {
      assert !Overlaps(rs, b, base, end);
      if b < base && base in rs {
        assert b + |rs[b].data| <= base;
      }
    }
  }
}
