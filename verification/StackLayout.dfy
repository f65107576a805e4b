/** The initial stack: what `build_stack` leaves below the stack top. */
module StackLayout {
  import opened Words
  import opened Regions
  import opened FlatMemory
  import opened Memory
  import opened Loader
  import opened Relocation

  /** The stack is large enough for the path, its alignment and the three pointer arrays. */
  predicate StackFits(cfg: Layout) {
    && cfg.stackSize <= cfg.stackTop && cfg.stackSize + PAGE_SIZE <= TWO_64
    && 17 + |cfg.argv0| <= cfg.stackTop
    && cfg.stackTop - cfg.stackSize + 48 <= Down16(cfg.stackTop - 17 - |cfg.argv0|)
  }

  /** Where the four areas are: 16-aligned, one below the other, all inside the stack. */
  lemma {:induction false} FrameIs(cfg: Layout)
    requires StackFits(cfg)
    ensures StackBase(cfg) == cfg.stackTop - cfg.stackSize
    ensures var f := StackFrame(cfg);
            && f.text % 16 == 0 && f.text + |cfg.argv0| + 1 + 16 <= cfg.stackTop
            && f.apple == f.text - 16 && f.envp == f.text - 32 && f.argv == f.text - 48
            && StackBase(cfg) <= f.argv
  {
    hide Wrap, Down16;
    var top := cfg.stackTop - 17 - |cfg.argv0|;
    var t := Down16(top);
    WrapSmall(cfg.stackTop - cfg.stackSize);
    WrapSmall(top);
    Aligned(top);
    AlignedBelow(t, 16);
    AlignedBelow(t - 16, 8);
    AlignedBelow(t - 32, 16);
  }

  lemma Aligned(v: u64)
    ensures Down16(v) % 16 == 0
  {
  }

  lemma AlignedBelow(t: u64, d: nat)
    requires t % 16 == 0 && 0 < d <= 16 <= t
    ensures Down16(Wrap(t - d)) == t - 16
  {
    WrapSmall(t - d);
  }

  // ---- stores into one region ---------------------------------------------------------------------------------

  function WithData(rs: RegionMap, k: u64, data: seq<byte>): RegionMap
    requires k in rs
  {
    rs[k := rs[k].(data := data)]
  }

  /** A store into region `k`, given as an edit of its bytes. */
  lemma {:induction false} StoreIn(rs: RegionMap, k: u64, data: seq<byte>, addr: u64, patch: seq<byte>)
    requires Ordered(rs) && k in rs && rs[k].prot.write && |data| == |rs[k].data|
    requires k <= addr < k + |data| && addr + |patch| <= k + |data|
    ensures WriteBytes(WithData(rs, k, data), addr, patch) == Ok(WithData(rs, k, Spliced(data, addr - k, patch)))
  {
    var rs' := WithData(rs, k, data);
    ReplaceAt(rs, k, rs'[k], 0);
    NearestHolds(rs', k, addr);
    var after := WithData(rs, k, Spliced(data, addr - k, patch));
    assert WriteBytes(rs', addr, patch) == Ok(rs'[k := rs'[k].(data := Spliced(data, addr - k, patch))]);
    assert rs'[k := rs'[k].(data := Spliced(data, addr - k, patch))] == after;
  }

  /** The seven edits: path, NUL, `apple`, `envp` and `argv`, with `w` the pointer to the path
      and `z` the null pointer. */
  function StackData(data: seq<byte>, t: nat, w: seq<byte>, z: seq<byte>, path: seq<byte>): (d: seq<byte>)
    requires 48 <= t && t + |path| + 1 <= |data| && |w| == |z| == 8
    ensures |d| == |data|
  {
    var d1 := Spliced(data, t, path);
    var d2 := Spliced(d1, t + |path|, [0]);
    var d3 := Spliced(d2, t - 16, w);
    var d4 := Spliced(d3, t - 8, z);
    var d5 := Spliced(d4, t - 32, z);
    var d6 := Spliced(d5, t - 48, w);
    Spliced(d6, t - 40, z)
  }

  function StackByte(data: seq<byte>, t: nat, w: seq<byte>, z: seq<byte>, path: seq<byte>, i: nat): byte
    requires 48 <= t && t + |path| + 1 <= |data| && |w| == |z| == 8 && i < |data|
  {
    if i < t - 48 then data[i]
    else if i < t - 40 then w[i - (t - 48)]
    else if i < t - 32 then z[i - (t - 40)]
    else if i < t - 24 then z[i - (t - 32)]
    else if i < t - 16 then data[i]
    else if i < t - 8 then w[i - (t - 16)]
    else if i < t then z[i - (t - 8)]
    else if i < t + |path| then path[i - t]
    else if i == t + |path| then 0
    else data[i]
  }

  /** The edits do not disturb one another. */
  lemma {:induction false} StackDataAt(data: seq<byte>, t: nat, w: seq<byte>, z: seq<byte>, path: seq<byte>, i: nat)
    requires 48 <= t && t + |path| + 1 <= |data| && |w| == |z| == 8 && i < |data|
    ensures StackData(data, t, w, z, path)[i] == StackByte(data, t, w, z, path, i)
  {
    hide Spliced;
  }

  /** Each area of the edited bytes holds what was stored there. */
  lemma {:induction false} StackDataAreas(data: seq<byte>, t: nat, w: seq<byte>, z: seq<byte>, path: seq<byte>)
    requires 48 <= t && t + |path| + 1 <= |data| && |w| == |z| == 8
    ensures var d := StackData(data, t, w, z, path);
            && d[t..t + |path|] == path && d[t + |path|] == 0
            && d[t - 16..t - 8] == w && d[t - 8..t] == z && d[t - 32..t - 24] == z
            && d[t - 48..t - 40] == w && d[t - 40..t - 32] == z
  {
    var d := StackData(data, t, w, z, path);
    hide StackData;
    forall i | 0 <= i < |data|
      ensures d[i] == StackByte(data, t, w, z, path, i)
    {
      StackDataAt(data, t, w, z, path, i);
    }
  }

  // ---- the frame in memory --------------------------------------------------------------------------------------

  lemma {:induction false} RegionBytes(rs: RegionMap, k: u64, off: nat, n: nat)
    requires Ordered(rs) && k in rs && off + n <= |rs[k].data|
    ensures BytesAt(rs, k + off, n) == rs[k].data[off..off + n]
    decreases n
  {
    if n > 0 {
      hide Ordered;
      AtInside(rs, k, k + off);
      RegionBytes(rs, k, off + 1, n - 1);
      assert rs[k].data[off..off + n] == [rs[k].data[off]] + rs[k].data[off + 1..off + 1 + (n - 1)];
    }
  }

  /** `build_stack` succeeds on a stack that fits and edits that region alone. */
  lemma {:induction false} BuildStackIs(rs: RegionMap, cfg: Layout)
    requires StackFits(cfg) && Ordered(rs) && StackBase(cfg) in rs
    requires rs[StackBase(cfg)].prot.write && cfg.stackSize <= |rs[StackBase(cfg)].data|
    ensures var k, f := StackBase(cfg), StackFrame(cfg);
            && 48 <= f.text - k && f.text - k + |cfg.argv0| + 1 <= |rs[k].data|
            && BuildStack(rs, cfg)
               == Ok(WithData(rs, k, StackData(rs[k].data, f.text - k, Le(f.text, 8), Le(0, 8), cfg.argv0)))
  {
    hide StackFits, StackFrame, StackBase, Ordered, StoreText, StoreArrays, Le, Spliced, Wrap, WithData;
    FrameIs(cfg);
    var k, f, path := StackBase(cfg), StackFrame(cfg), cfg.argv0;
    var data := rs[k].data;
    StackRoom(rs, k, |path|, f.text, cfg.stackTop, cfg.stackSize);
    SameData(rs, k);
    TextStores(rs, k, data, f.text, path);
    ArrayStores(rs, k, Spliced(Spliced(data, f.text - k, path), f.text - k + |path|, [0]), f);
  }

  lemma {:induction false} TextStores(rs: RegionMap, k: u64, data: seq<byte>, text: u64, path: Buffer)
    requires Ordered(rs) && k in rs && rs[k].prot.write && |data| == |rs[k].data| && k + |data| < TWO_64
    requires k <= text && text + |path| + 1 <= k + |data|
    ensures StoreText(WithData(rs, k, data), text, path)
            == Ok(WithData(rs, k, Spliced(Spliced(data, text - k, path), text - k + |path|, [0])))
  {
    hide Ordered, WriteBytes, Wrap, WithData, Spliced;
    StoreIn(rs, k, data, text, path);
    WrapSmall(text + |path|);
    StoreIn(rs, k, Spliced(data, text - k, path), text + |path|, [0]);
  }

  lemma {:induction false} ArrayStores(rs: RegionMap, k: u64, d2: seq<byte>, f: Frame)
    requires Ordered(rs) && k in rs && rs[k].prot.write && |d2| == |rs[k].data| && k + |d2| < TWO_64
    requires k + 48 <= f.text <= k + |d2|
    requires f.apple == f.text - 16 && f.envp == f.text - 32 && f.argv == f.text - 48
    ensures var t, w, z := f.text - k, Le(f.text, 8), Le(0, 8);
            StoreArrays(WithData(rs, k, d2), f)
            == Ok(WithData(rs, k, Spliced(Spliced(Spliced(Spliced(Spliced(d2, t - 16, w), t - 8, z), t - 32, z),
                                                  t - 48, w), t - 40, z)))
  {
    hide Ordered, WriteBytes, Wrap, WithData, Spliced, Le;
    var t, w, z := f.text - k, Le(f.text, 8), Le(0, 8);
    var d3 := Spliced(d2, t - 16, w);
    var d4 := Spliced(d3, t - 8, z);
    var d5 := Spliced(d4, t - 32, z);
    var d6 := Spliced(d5, t - 48, w);
    StoreIn(rs, k, d2, f.apple, w);
    WrapSmall(f.apple + 8);
    StoreIn(rs, k, d3, f.apple + 8, z);
    StoreIn(rs, k, d4, f.envp, z);
    StoreIn(rs, k, d5, f.argv, w);
    WrapSmall(f.argv + 8);
    StoreIn(rs, k, d6, f.argv + 8, z);
  }

  lemma {:induction false} SameData(rs: RegionMap, k: u64)
    requires k in rs
    ensures WithData(rs, k, rs[k].data) == rs
  {
  }

  lemma {:induction false} StackRoom(rs: RegionMap, k: u64, len: nat, text: u64, top: u64, size: u64)
    requires Ordered(rs) && k in rs && k == top - size && size <= |rs[k].data|
    requires text + len + 17 <= top && k + 48 <= text
    ensures text - k + len + 1 <= |rs[k].data| && text + len + 1 < TWO_64
    ensures k + |rs[k].data| < TWO_64
  {
  }

  /** The frame at its addresses: the path with its NUL, and the arrays whose first entries
      point back at it and whose last entries are null. */
  ghost predicate FrameHolds(rs: RegionMap, f: Frame, path: seq<byte>) {
    && BytesAt(rs, f.text, |path|) == path && ByteAt(rs, f.text + |path|) == 0
    && Word(rs, f.argv) == f.text && Word(rs, f.argv + 8) == 0
    && Word(rs, f.envp) == 0
    && Word(rs, f.apple) == f.text && Word(rs, f.apple + 8) == 0
  }

  lemma {:induction false} RegionWord(rs: RegionMap, k: u64, off: nat, v: u64)
    requires Ordered(rs) && k in rs && off + 8 <= |rs[k].data| && rs[k].data[off..off + 8] == Le(v, 8)
    ensures Word(rs, k + off) == v
  {
    hide Ordered, Le, LeValue, BytesAt;
    RegionBytes(rs, k, off, 8);
    Le64RoundTrip(v);
  }

  lemma {:induction false} FrameInRegion(rs: RegionMap, k: u64, data: seq<byte>, f: Frame, path: seq<byte>)
    requires Ordered(rs) && k in rs && k + 48 <= f.text && f.text - k + |path| + 1 <= |data|
    requires f.apple == f.text - 16 && f.envp == f.text - 32 && f.argv == f.text - 48
    requires rs[k].data == StackData(data, f.text - k, Le(f.text, 8), Le(0, 8), path)
    ensures FrameHolds(rs, f, path)
  {
    hide Ordered, Le, StackData, BytesAt, Word;
    var t := f.text - k;
    StackDataAreas(data, t, Le(f.text, 8), Le(0, 8), path);
    RegionBytes(rs, k, t, |path|);
    RegionByte(rs, k, t + |path|);
    RegionWord(rs, k, t - 48, f.text);
    RegionWord(rs, k, t - 40, 0);
    RegionWord(rs, k, t - 32, 0);
    RegionWord(rs, k, t - 16, f.text);
    RegionWord(rs, k, t - 8, 0);
  }

  lemma {:induction false} RegionByte(rs: RegionMap, k: u64, off: nat)
    requires Ordered(rs) && k in rs && off < |rs[k].data|
    ensures ByteAt(rs, k + off) == rs[k].data[off]
  {
    AtInside(rs, k, k + off);
  }

  /** The fresh stack region: at its base, writable, at least the configured size. */
  lemma {:induction false} FreshStack(rs0: RegionMap, cfg: Layout, rs: RegionMap)
    requires StackFits(cfg) && Ordered(rs0)
    requires MapZeroed(rs0, StackBase(cfg), cfg.stackSize, RW, Stack, "stack") == Ok(rs)
    ensures Ordered(rs) && StackBase(cfg) in rs && rs[StackBase(cfg)].prot == RW
    ensures rs[StackBase(cfg)].base == StackBase(cfg)
    ensures cfg.stackSize <= |rs[StackBase(cfg)].data| == MapSize(cfg.stackSize)
    ensures forall a: int :: At(rs0, a).Some? ==> At(rs, a) == At(rs0, a)
    ensures forall a: int :: !(StackBase(cfg) <= a < StackBase(cfg) + MapSize(cfg.stackSize)) ==> At(rs, a) == At(rs0, a)
  {
    hide Ordered, At, Zeros, CheckFree, PageUp;
    var k: u64, n: nat := StackBase(cfg), MapSize(cfg.stackSize);
    PageUpIs(Max(cfg.stackSize, 1));
    ZerosLength(n);
    BaseHoldsNothing(rs0, k, n);
    InsertOrdered(rs0, k, rs[k]);
    forall a: int
      ensures At(rs0, a).Some? ==> At(rs, a) == At(rs0, a)
      ensures !(k <= a && a - k < n) ==> At(rs, a) == At(rs0, a)
    {
      InsertAt(rs0, k, rs[k], a);
      if k <= a && a - k < n {
        FreeIsVacant(rs0, k, n, a);
      }
    }
  }

  /** For every path and every stack that fits it, mapping the stack and laying it out succeeds,
      the frame reads back, and no byte outside the stack region changes. */
  lemma {:induction false} InitialStack(rs0: RegionMap, cfg: Layout, rs: RegionMap)
    requires StackFits(cfg) && Ordered(rs0)
    requires MapZeroed(rs0, StackBase(cfg), cfg.stackSize, RW, Stack, "stack") == Ok(rs)
    ensures BuildStack(rs, cfg).Ok?
    ensures var final := BuildStack(rs, cfg).value;
            && Ordered(final) && FrameHolds(final, StackFrame(cfg), cfg.argv0)
            && (forall a: int :: At(rs0, a).Some? ==> At(final, a) == At(rs0, a))
            && (forall a: int :: !(StackBase(cfg) <= a < StackBase(cfg) + MapSize(cfg.stackSize)) ==> At(final, a) == At(rs0, a))
            && final.Keys == rs.Keys
            && (forall k :: k in rs && k != StackBase(cfg) ==> final[k] == rs[k])
            && StackBase(cfg) in rs && rs[StackBase(cfg)].prot == final[StackBase(cfg)].prot == RW
  {
    hide StackFits, StackFrame, StackBase, Ordered, BuildStack, At, MapZeroed, MapSize, StackData, FrameHolds, Le;
    var k: u64, f := StackBase(cfg), StackFrame(cfg);
    FreshStack(rs0, cfg, rs);
    FrameIs(cfg);
    BuildStackIs(rs, cfg);
    var final := BuildStack(rs, cfg).value;
    ReplaceAt(rs, k, final[k], 0);
    FrameInRegion(final, k, rs[k].data, f, cfg.argv0);
    forall a: int
      ensures !(k <= a < k + MapSize(cfg.stackSize)) ==> At(final, a) == At(rs0, a)
      ensures At(rs0, a).Some? ==> At(final, a) == At(rs0, a)
    {
      ReplaceAt(rs, k, final[k], a);
      if At(rs0, a).Some? {
        StackWasFree(rs0, cfg, rs, a);
      }
    }
  }

  lemma {:induction false} StackWasFree(rs0: RegionMap, cfg: Layout, rs: RegionMap, a: int)
    requires StackFits(cfg) && Ordered(rs0) && At(rs0, a).Some?
    requires MapZeroed(rs0, StackBase(cfg), cfg.stackSize, RW, Stack, "stack") == Ok(rs)
    ensures !(StackBase(cfg) <= a < StackBase(cfg) + MapSize(cfg.stackSize))
  {
    hide Ordered, At, Zeros, CheckFree, MapSize, StackBase, StackFits;
    if StackBase(cfg) <= a < StackBase(cfg) + MapSize(cfg.stackSize) {
      FreeIsVacant(rs0, StackBase(cfg), MapSize(cfg.stackSize), a);
    }
  }
}
