/** Import stubs: every imported symbol gets one address in a reserved page, and the executor
    turns that address back into the symbol. */
module StubTable {
  import opened Words

  datatype Stubs = Stubs(base: u64, stride: u64, next: u64, forward: map<string, u64>,
                         reverse: map<u64, string>)

  function NewStubs(base: u64, stride: u64): Stubs {
    Stubs(base, stride, base, map[], map[])
  }

  /** `resolve`: the stub of a known symbol, or a new one at the cursor. */
  function Resolve(t: Stubs, symbol: string): (r: (Stubs, u64)) {
    if symbol in t.forward then (t, t.forward[symbol])
    else
      (t.(next := Wrap(t.next + t.stride), forward := t.forward[symbol := t.next],
          reverse := t.reverse[t.next := symbol]), t.next)
  }

  function Used(t: Stubs): u64 {
    Wrap(t.next - t.base)
  }

  class StubResolver {
    const base: u64
    const stride: u64
    var next: u64
    var forward: map<string, u64>
    var reverse: map<u64, string>

    function View(): Stubs
      reads this
    {
      Stubs(base, stride, next, forward, reverse)
    }

    constructor (base: u64, stride: u64)
      ensures View() == NewStubs(base, stride)
    {
      this.base, this.stride, next, forward, reverse := base, stride, base, map[], map[];
    }

    method ResolveSymbol(symbol: string) returns (addr: u64)
      modifies this
      ensures (View(), addr) == Resolve(old(View()), symbol)
    {
      if symbol in forward {
        return forward[symbol];
      }
      addr := next;
      next := Wrap(next + stride);
      forward := forward[symbol := addr];
      reverse := reverse[addr := symbol];
    }
  }

  // ---- the table is a bijection -------------------------------------------------------------------

  /** The two maps invert each other. */
  ghost predicate Inverse(t: Stubs) {
    && (forall s :: s in t.forward ==>
          t.forward[s] in t.reverse && t.reverse[t.forward[s]] == s)
    && (forall a :: a in t.reverse ==> t.reverse[a] in t.forward && t.forward[t.reverse[a]] == a)
  }

  /** Every stub lies whole between the base and the cursor. */
  ghost predicate Bounded(t: Stubs) {
    forall s :: s in t.forward ==> t.base <= t.forward[s] && t.forward[s] + t.stride <= t.next
  }

  /** The cursor has moved one stride for each symbol and has not wrapped. */
  ghost predicate Counted(t: Stubs) {
    0 < t.stride && t.base <= t.next && t.next == t.base + t.stride * |t.forward|
  }

  ghost predicate Bijective(t: Stubs) {
    Counted(t) && Bounded(t) && Inverse(t)
  }

  /** Room for one more stub below the top of the address space. */
  predicate HasRoom(t: Stubs) {
    t.next + t.stride < TWO_64
  }

  lemma NewIsBijective(base: u64, stride: u64)
    requires 0 < stride
    ensures Bijective(NewStubs(base, stride))
  {
    var none: map<string, u64> := map[];
    assert stride * |none| == 0;
  }

  lemma {:induction false} ResolveCounts(t: Stubs, symbol: string)
    requires Counted(t) && HasRoom(t)
    ensures var t' := Resolve(t, symbol).0;
            && Counted(t') && t'.base == t.base && t'.stride == t.stride
            && t'.next == (if symbol in t.forward then t.next else t.next + t.stride)
  {
    hide Wrap;
    WrapSmall(t.next + t.stride);
    if symbol !in t.forward {
      var t' := Resolve(t, symbol).0;
      assert |t'.forward| == |t.forward| + 1;
      OneMoreStride(t.stride, |t.forward|);
    }
  }

  lemma OneMoreStride(stride: u64, n: nat)
    ensures stride * (n + 1) == stride * n + stride
  {
  }

  lemma {:induction false} ResolveInverts(t: Stubs, symbol: string)
    requires Bounded(t) && Inverse(t) && 0 < t.stride
    ensures Inverse(Resolve(t, symbol).0)
  {
    hide Wrap;
    if symbol !in t.forward {
      assert forall s :: s in t.forward ==> t.forward[s] != t.next;
    }
  }

  /** Resolving keeps the bijection, answers with the symbol's stub, and never moves a stub
      handed out before. */
  lemma {:induction false} ResolveKeeps(t: Stubs, symbol: string)
    requires Bijective(t) && HasRoom(t)
    ensures var (t', addr) := Resolve(t, symbol);
            && Bijective(t')
            && symbol in t'.forward && t'.forward[symbol] == addr && t'.reverse[addr] == symbol
            && (symbol !in t.forward ==> addr == t.base + t.stride * |t.forward|)
            && (forall s :: s in t.forward ==> s in t'.forward && t'.forward[s] == t.forward[s])
            && t.next <= t'.next <= t.next + t.stride
            && t'.base == t.base && t'.stride == t.stride
  {
    ResolveCounts(t, symbol);
    CountedCursor(t);
    hide Wrap, Counted;
    CountedBounds(t);
    ResolveInverts(t, symbol);
  }

  lemma {:induction false} CountedCursor(t: Stubs)
    requires Counted(t)
    ensures t.next == t.base + t.stride * |t.forward|
  {
  }

  lemma {:induction false} CountedBounds(t: Stubs)
    requires Counted(t)
    ensures 0 < t.stride && t.base <= t.next
  {
  }
}
