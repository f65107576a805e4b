/** dyld's compressed rebase opcodes (`<mach-o/loader.h>`): a bytecode whose meaning is the
    list of pointer slots to relocate. */
module RebaseStream {
  import opened Words
  import opened Leb128
  import opened Opcodes

  const REBASE_TYPE_POINTER: nibble := 1

  datatype Location = Location(segIndex: nibble, segOffset: u64, rtype: nibble)

  datatype Insn =
    | Done
    | SetType(rtype: nibble)
    | SetSegmentAndOffset(segIndex: nibble, offset: u64)
    | AddAddr(delta: u64)
    | AddAddrScaled(imm: nibble)
    | DoImmTimes(imm: nibble)
    | DoTimes(count: u64)
    | DoAddAddr(delta: u64)
    | DoTimesSkipping(count: u64, skip: u64)

  datatype Fetched = Fetched(insn: Insn, size: nat)

  /** What a piece of bytecode emits, and the cursor it leaves behind. The cursor is the
      location the next rebase would name. */
  datatype Trace = Trace(out: seq<Location>, cursor: Location)

  const INITIAL: Location := Location(0, 0, REBASE_TYPE_POINTER)

  // ---- decoding one instruction ----------------------------------------------------------------

  function Fetch(s: seq<byte>): (r: Result<Fetched, EmuError>)
    requires s != []
    ensures r.Ok? ==> 0 < r.value.size <= |s|
  {
    var opcode, imm := s[0] / 16, s[0] % 16;
    var rest := s[1..];
    match opcode
    case 0 => Ok(Fetched(Done, 1))
    case 1 => Ok(Fetched(SetType(imm), 1))
    case 2 =>
      var off :- ReadUleb(rest);
      Ok(Fetched(SetSegmentAndOffset(imm, off.value), 1 + off.size))
    case 3 =>
      var delta :- ReadUleb(rest);
      Ok(Fetched(AddAddr(delta.value), 1 + delta.size))
    case 4 => Ok(Fetched(AddAddrScaled(imm), 1))
    case 5 => Ok(Fetched(DoImmTimes(imm), 1))
    case 6 =>
      var count :- ReadUleb(rest);
      Ok(Fetched(DoTimes(count.value), 1 + count.size))
    case 7 =>
      var delta :- ReadUleb(rest);
      Ok(Fetched(DoAddAddr(delta.value), 1 + delta.size))
    case 8 =>
      var count :- ReadUleb(rest);
      var skip :- ReadUleb(rest[count.size..]);
      Ok(Fetched(DoTimesSkipping(count.value, skip.value), 1 + count.size + skip.size))
    case _ => Err(UnknownOpcode(opcode * 16))
  }

  function Disassemble(s: seq<byte>): (r: Result<seq<Insn>, EmuError>) {
    if s == [] then Ok([])
    else
      var first :- Fetch(s);
      var rest :- Disassemble(s[first.size..]);
      Ok([first.insn] + rest)
  }

  // ---- executing -----------------------------------------------------------------------------------

  function Advance(at: Location, delta: u64): (next: Location) {
    at.(segOffset := Wrap(at.segOffset + delta))
  }

  function Burst(at: Location, count: nat, skip: u64): (t: Trace)
    decreases count
  {
    if count == 0 then Trace([], at)
    else
      var t := Burst(Advance(Advance(at, PTR), skip), count - 1, skip);
      Trace([at] + t.out, t.cursor)
  }

  function Step(insn: Insn, at: Location): (t: Trace) {
    match insn
    case Done => Trace([], at)
    case SetType(rtype) => Trace([], at.(rtype := rtype))
    case SetSegmentAndOffset(seg, off) => Trace([], Location(seg, off, at.rtype))
    case AddAddr(delta) => Trace([], Advance(at, delta))
    case AddAddrScaled(imm) => Trace([], Advance(at, imm * PTR))
    case DoImmTimes(imm) => Burst(at, imm, 0)
    case DoTimes(count) => Burst(at, count, 0)
    case DoAddAddr(delta) => Trace([at], Advance(Advance(at, PTR), delta))
    case DoTimesSkipping(count, skip) => Burst(at, count, skip)
  }

  function Run(insns: seq<Insn>, at: Location): (t: Trace) {
    if insns == [] then Trace([], at)
    else
      var first := Step(insns[0], at);
      var rest := Run(insns[1..], first.cursor);
      Trace(first.out + rest.out, rest.cursor)
  }

  /** Meaning of a stream entered with the cursor at `at`. */
  function Decode(s: seq<byte>, at: Location): (r: Result<Trace, EmuError>) {
    var insns :- Disassemble(s);
    Ok(Run(insns, at))
  }

  // ---- the interpreter ------------------------------------------------------------------------------

  /** The emitting loop shared by the four `DO_REBASE` forms. */
  method Emit(out: seq<Location>, at: Location, count: u64, skip: u64)
    returns (out': seq<Location>, at': Location)
    ensures out' == out + Burst(at, count, skip).out
    ensures at' == Burst(at, count, skip).cursor
  {
    out', at' := out, at;
    var i: u64 := 0;
    while i < count
      invariant 0 <= i <= count
      invariant out' + Burst(at', count - i, skip).out == out + Burst(at, count, skip).out
      invariant Burst(at', count - i, skip).cursor == Burst(at, count, skip).cursor
    {
      out', at', i := out' + [at'], Advance(Advance(at', PTR), skip), i + 1;
    }
  }

  /** Reads one opcode and its operands at the cursor `p`. */
  method FetchAt(stream: seq<byte>, start: nat) returns (r: Result<Insn, EmuError>, p: nat)
    requires start < |stream|
    ensures p <= |stream|
    ensures match Fetch(stream[start..])
            case Ok(f) => r == Ok(f.insn) && p == start + f.size
            case Err(e) => r == Err(e)
  {
    hide ReadUleb;
    var opcode, imm := stream[start] / 16, stream[start] % 16;
    ghost var rest := stream[start..][1..];
    p := start + 1;
    assert rest == stream[p..];
    if opcode == 0 {
      r := Ok(Done);
    } else if opcode == 1 {
      r := Ok(SetType(imm));
    } else if opcode == 4 {
      r := Ok(AddAddrScaled(imm));
    } else if opcode == 5 {
      r := Ok(DoImmTimes(imm));
    } else if opcode > 8 {
      r := Err(UnknownOpcode(opcode * 16));
    } else {
      var operand;
      operand, p := ReadUlebAt(stream, p);
      if operand.Err? { return Err(operand.error), p; }
      if opcode == 2 {
        r := Ok(SetSegmentAndOffset(imm, operand.value));
      } else if opcode == 3 {
        r := Ok(AddAddr(operand.value));
      } else if opcode == 6 {
        r := Ok(DoTimes(operand.value));
      } else if opcode == 7 {
        r := Ok(DoAddAddr(operand.value));
      } else {
        assert rest[p - start - 1..] == stream[p..];
        var skip;
        skip, p := ReadUlebAt(stream, p);
        if skip.Err? { return Err(skip.error), p; }
        r := Ok(DoTimesSkipping(operand.value, skip.value));
      }
    }
  }

  /** `parse_rebase_info`: one loop that moves the cursor and pushes locations. */
  method ParseRebaseInfo(stream: seq<byte>) returns (r: Result<seq<Location>, EmuError>)
    ensures match Decode(stream, INITIAL)
            case Ok(t) => r == Ok(t.out)
            case Err(e) => r == Err(e)
  {
    var out: seq<Location> := [];
    var at := INITIAL;
    var p := 0;
    ContinuesFromStart(stream);
    hide Decode, Continues, Burst, Fetch, Advance;
    while p < |stream|
      invariant p <= |stream|
      invariant Continues(stream, out, at, p)
    {
      ghost var out0, at0, p0 := out, at, p;
      FetchFailure(stream, out, at, p);
      var insn;
      insn, p := FetchAt(stream, p);
      if insn.Err? { return Err(insn.error); }
      match insn.value {
        case Done =>
        case SetType(rtype) => at := at.(rtype := rtype);
        case SetSegmentAndOffset(seg, off) => at := Location(seg, off, at.rtype);
        case AddAddr(delta) => at := Advance(at, delta);
        case AddAddrScaled(imm) => at := Advance(at, imm * PTR);
        case DoImmTimes(imm) => out, at := Emit(out, at, imm, 0);
        case DoTimes(count) => out, at := Emit(out, at, count, 0);
        case DoAddAddr(delta) => out, at := out + [at], Advance(Advance(at, PTR), delta);
        case DoTimesSkipping(count, skip) => out, at := Emit(out, at, count, skip);
      }
      assert out == out0 + Step(insn.value, at0).out && at == Step(insn.value, at0).cursor;
      ContinuesAfter(stream, out0, at0, p0, insn.value, p);
    }
    ContinuesToEnd(stream, out, at);
    r := Ok(out);
  }

  /** The loop invariant: what was emitted, plus what the rest will emit, is the whole. */
  ghost predicate Continues(stream: seq<byte>, out: seq<Location>, at: Location, p: nat)
    requires p <= |stream|
  {
    match Decode(stream[p..], at)
    case Ok(t) => Decode(stream, INITIAL) == Ok(Trace(out + t.out, t.cursor))
    case Err(e) => Decode(stream, INITIAL) == Err(e)
  }

  lemma {:induction false} ContinuesFromStart(stream: seq<byte>)
    ensures Continues(stream, [], INITIAL, 0)
  {
    assert stream[0..] == stream;
    var all := Decode(stream, INITIAL);
    assert all.Ok? ==> [] + all.value.out == all.value.out;
  }

  lemma {:induction false} ContinuesAfter(stream: seq<byte>, out: seq<Location>, at: Location, p: nat,
                       insn: Insn, next: nat)
    requires p < next <= |stream| && Continues(stream, out, at, p)
    requires Fetch(stream[p..]) == Ok(Fetched(insn, next - p))
    ensures Continues(stream, out + Step(insn, at).out, Step(insn, at).cursor, next)
  {
    hide Fetch, Step;
    assert stream[p..][next - p..] == stream[next..];
    if Disassemble(stream[next..]).Ok? {
      var more := Disassemble(stream[next..]).value;
      assert Disassemble(stream[p..]).value == [insn] + more;
      var t := Run(more, Step(insn, at).cursor);
      assert (out + Step(insn, at).out) + t.out == out + (Step(insn, at).out + t.out);
    }
  }

  lemma {:induction false} ContinuesToEnd(stream: seq<byte>, out: seq<Location>, at: Location)
    requires Continues(stream, out, at, |stream|)
    ensures Decode(stream, INITIAL) == Ok(Trace(out, at))
  {
    assert stream[|stream|..] == [];
    assert out + [] == out;
  }

  lemma {:induction false} FetchFailure(stream: seq<byte>, out: seq<Location>, at: Location, p: nat)
    requires p < |stream| && Continues(stream, out, at, p)
    ensures Fetch(stream[p..]).Err? ==> Decode(stream, INITIAL) == Err(Fetch(stream[p..]).error)
  {
  }

  // ---- streams compose ----------------------------------------------------------------------------------

  lemma {:induction false} FetchExtends(a: seq<byte>, b: seq<byte>)
    requires a != [] && Fetch(a).Ok?
    ensures Fetch(a + b) == Fetch(a)
  {
    var s, rest := a + b, a[1..];
    assert s[1..] == rest + b && s[0] == a[0];
    ReadsOperands(a);
    if a[0] / 16 in {2, 3, 6, 7, 8} {
      OperandExtends(rest, b);
      if a[0] / 16 == 8 {
        OperandExtends(rest[LebLength(rest).value..], b);
      }
    }
    hide ReadUleb, LebLength, Fetch;
    SameFetch(a, s);
  }

  /** An instruction that is fetched had its operands. */
  lemma {:induction false} ReadsOperands(a: seq<byte>)
    requires a != [] && Fetch(a).Ok?
    ensures a[0] / 16 in {2, 3, 6, 7, 8} ==> LebLength(a[1..]).Some?
    ensures a[0] / 16 == 8 ==> LebLength(a[1..][LebLength(a[1..]).value..]).Some?
  {
  }

  /** An instruction is fixed by its first byte and what its operands read. */
  lemma {:induction false} SameFetch(a: seq<byte>, s: seq<byte>)
    requires a != [] && s != [] && s[0] == a[0]
    requires a[0] / 16 in {2, 3, 6, 7, 8} ==> ReadUleb(s[1..]) == ReadUleb(a[1..])
    requires a[0] / 16 == 8 && ReadUleb(a[1..]).Ok? ==>
               var n := ReadUleb(a[1..]).value.size; ReadUleb(s[1..][n..]) == ReadUleb(a[1..][n..])
    ensures Fetch(s) == Fetch(a)
  {
    hide ReadUleb;
  }

  lemma {:induction false} DisassembleAppend(a: seq<byte>, b: seq<byte>)
    requires Disassemble(a).Ok?
    ensures Disassemble(a + b)
            == match Disassemble(b)
               case Ok(insns) => Ok(Disassemble(a).value + insns)
               case Err(e) => Err(e)
    decreases |a|
  {
    if a == [] {
      assert a + b == b;
      assert Disassemble(b).Ok? ==> [] + Disassemble(b).value == Disassemble(b).value;
    } else {
      FetchExtends(a, b);
      var first := Fetch(a).value;
      assert (a + b)[first.size..] == a[first.size..] + b;
      DisassembleAppend(a[first.size..], b);
      assert Disassemble(b).Ok? ==>
          [first.insn] + (Disassemble(a[first.size..]).value + Disassemble(b).value)
          == Disassemble(a).value + Disassemble(b).value;
    }
  }

  lemma {:induction false} RunAppend(a: seq<Insn>, b: seq<Insn>, at: Location)
    ensures var first, second := Run(a, at), Run(b, Run(a, at).cursor);
            Run(a + b, at) == Trace(first.out + second.out, second.cursor)
  {
    if a == [] {
      assert a + b == b;
    } else {
      var t := Step(a[0], at);
      assert (a + b)[1..] == a[1..] + b;
      RunAppend(a[1..], b, t.cursor);
    }
  }

  /** Decoding a complete stream followed by anything is decoding the two in sequence, the
      second entered where the first left the cursor. */
  lemma {:induction false} DecodeAppend(a: seq<byte>, b: seq<byte>, at: Location)
    requires Decode(a, at).Ok?
    ensures var first := Decode(a, at).value;
            Decode(a + b, at)
            == match Decode(b, first.cursor)
               case Ok(second) => Ok(Trace(first.out + second.out, second.cursor))
               case Err(e) => Err(e)
  {
    DisassembleAppend(a, b);
    if Disassemble(b).Ok? {
      RunAppend(Disassemble(a).value, Disassemble(b).value, at);
    }
  }

  // ---- the compressed opcodes are macros -----------------------------------------------------------------

  function Moved(at: Location, k: int): (r: Location) {
    at.(segOffset := Wrap(at.segOffset + k))
  }

  /** The i-th location of a burst is `i` strides past the first, modulo 2^64. */
  lemma {:induction false} BurstAt(at: Location, count: nat, skip: u64)
    ensures var t := Burst(at, count, skip);
            && |t.out| == count
            && t.cursor == Moved(at, Span(count, skip))
            && forall i :: 0 <= i < count ==> t.out[i] == Moved(at, Span(i, skip))
    decreases count
  {
    SpanStep(0, skip);
    MovedByOne(at, skip);
    hide Moved, Span, Advance;
    if count > 0 {
      var next := Advance(Advance(at, PTR), skip);
      BurstAt(next, count - 1, skip);
      var t := Burst(at, count, skip);
      SpanStep(count - 1, skip);
      MovedTwice(at, PTR + skip, Span(count - 1, skip));
      forall i | 0 < i < count
        ensures t.out[i] == Moved(at, Span(i, skip))
      {
        SpanStep(i - 1, skip);
        MovedTwice(at, PTR + skip, Span(i - 1, skip));
      }
    }
  }

  lemma {:induction false} MovedByOne(at: Location, skip: u64)
    ensures Moved(at, 0) == at
    ensures Advance(Advance(at, PTR), skip) == Moved(at, PTR + skip)
  {
    WrapPlus(at.segOffset + PTR, skip);
  }

  lemma {:induction false} MovedTwice(at: Location, j: int, k: int)
    ensures Moved(Moved(at, j), k) == Moved(at, j + k)
  {
  }

  lemma {:induction false} RunCopies(n: nat, k: u64, at: Location)
    ensures Run(Copies([DoAddAddr(k)], n), at) == Burst(at, n, k)
  {
    if n > 0 {
      var one := [DoAddAddr(k)];
      assert Copies(one, n)[1..] == Copies(one, n - 1);
      RunCopies(n - 1, k, Advance(Advance(at, PTR), k));
    }
  }

  lemma {:induction false} FetchAddAddr(e: seq<byte>, k: u64, rest: seq<byte>)
    requires Encodes(e, k)
    ensures Fetch([0x70] + e + rest) == Ok(Fetched(DoAddAddr(k), 1 + |e|)) && ([0x70] + e + rest)[1 + |e|..] == rest
  {
    hide ReadUleb;
    FetchOperand(0x70, e, rest, k);
  }

  lemma {:induction false} DisassembleCopies(e: seq<byte>, k: u64, n: nat)
    requires Encodes(e, k)
    ensures Disassemble(Copies([0x70] + e, n)) == Ok(Copies([DoAddAddr(k)], n))
  {
    hide ReadUleb, Fetch, Encodes;
    if n > 0 {
      FetchAddAddr(e, k, Copies([0x70] + e, n - 1));
      DisassembleCopies(e, k, n - 1);
    }
  }

  lemma {:induction false} DisassembleTimesSkipping(en: seq<byte>, n: u64, ek: seq<byte>, k: u64)
    requires Encodes(en, n) && Encodes(ek, k)
    ensures Disassemble([0x80] + en + ek) == Ok([DoTimesSkipping(n, k)])
  {
    var s := [0x80] + en + ek;
    FetchOperand(0x80, en, ek, n);
    assert s[1..][|en|..] == ek;
    SingleInsn(s, DoTimesSkipping(n, k));
  }

  /** `DO_REBASE_ULEB_TIMES_SKIPPING_ULEB(n, k)` means `n` copies of
      `DO_REBASE_ADD_ADDR_ULEB(k)`: between any complete prefix and any suffix the two
      spellings decode alike, failures included. */
  lemma {:induction false} TimesSkippingIsMacro(pre: seq<byte>, en: seq<byte>, n: u64, ek: seq<byte>, k: u64,
                             post: seq<byte>, at: Location)
    requires Decode(pre, at).Ok? && Encodes(en, n) && Encodes(ek, k)
    ensures Decode(pre + ([0x80] + en + ek) + post, at)
            == Decode(pre + Copies([0x70] + ek, n) + post, at)
  {
    hide ReadUleb, Burst;
    DisassembleTimesSkipping(en, n, ek, k);
    DisassembleCopies(ek, k, n);
    var mid := Decode(pre, at).value.cursor;
    RunCopies(n, k, mid);
    RunSingle(DoTimesSkipping(n, k), mid);
    hide Disassemble, Run;
    Interchangeable(pre, [0x80] + en + ek, Copies([0x70] + ek, n), post, at);
  }

  lemma {:induction false} RunSingle(insn: Insn, at: Location)
    ensures Run([insn], at) == Step(insn, at)
  {
    hide Step;
    assert [insn][1..] == [];
    assert Step(insn, at).out + [] == Step(insn, at).out;
  }

  /** Fragments with one meaning at a cursor can replace each other there. */
  lemma {:induction false} Interchangeable(pre: seq<byte>, a: seq<byte>, b: seq<byte>, post: seq<byte>, at: Location)
    requires Decode(pre, at).Ok?
    requires Decode(a, Decode(pre, at).value.cursor).Ok?
    requires Decode(a, Decode(pre, at).value.cursor) == Decode(b, Decode(pre, at).value.cursor)
    ensures Decode(pre + a + post, at) == Decode(pre + b + post, at)
  {
    DecodeAppend(pre, a, at);
    DecodeAppend(pre, b, at);
    DecodeAppend(pre + a, post, at);
    DecodeAppend(pre + b, post, at);
  }

  /** The immediate forms abbreviate their ULEB128 forms wherever they occur. */
  lemma {:induction false} ImmediateFormsAreMacros(
    pre: seq<byte>, imm: nibble, e: seq<byte>, post: seq<byte>, at: Location
  )
    requires Decode(pre, at).Ok?
    ensures Encodes(e, imm * PTR) ==>
              Decode(pre + [0x40 + imm] + post, at) == Decode(pre + ([0x30] + e) + post, at)
    ensures Encodes(e, imm) ==>
              Decode(pre + [0x50 + imm] + post, at) == Decode(pre + ([0x60] + e) + post, at)
  {
    hide ReadUleb, Burst, Disassemble, Run;
    var mid := Decode(pre, at).value.cursor;
    if Encodes(e, imm * PTR) {
      FetchOperand(0x30, e, [], imm * PTR);
      assert [0x30] + e + [] == [0x30] + e;
      SingleInsn([0x40 + imm], AddAddrScaled(imm));
      SingleInsn([0x30] + e, AddAddr(imm * PTR));
      SameStep(AddAddrScaled(imm), AddAddr(imm * PTR), mid);
      Interchangeable(pre, [0x40 + imm], [0x30] + e, post, at);
    }
    if Encodes(e, imm) {
      FetchOperand(0x60, e, [], imm);
      assert [0x60] + e + [] == [0x60] + e;
      SingleInsn([0x50 + imm], DoImmTimes(imm));
      SingleInsn([0x60] + e, DoTimes(imm));
      SameStep(DoImmTimes(imm), DoTimes(imm), mid);
      Interchangeable(pre, [0x50 + imm], [0x60] + e, post, at);
    }
  }

  lemma {:induction false} SingleInsn(s: seq<byte>, insn: Insn)
    requires s != [] && Fetch(s) == Ok(Fetched(insn, |s|))
    ensures Disassemble(s) == Ok([insn])
  {
    assert s[|s|..] == [];
    assert [insn] + [] == [insn];
  }

  lemma {:induction false} SameStep(a: Insn, b: Insn, at: Location)
    requires Step(a, at) == Step(b, at)
    ensures Run([a], at) == Run([b], at)
  {
    assert [a][1..] == [] && [b][1..] == [];
  }

  // ---- encoding and the round trip ---------------------------------------------------------------------------

  function Assemble(insn: Insn): (s: seq<byte>)
    ensures s != []
  {
    match insn
    case Done => [0x00]
    case SetType(rtype) => [0x10 + rtype]
    case SetSegmentAndOffset(seg, off) => [0x20 + seg] + EncodeUleb(off)
    case AddAddr(delta) => [0x30] + EncodeUleb(delta)
    case AddAddrScaled(imm) => [0x40 + imm]
    case DoImmTimes(imm) => [0x50 + imm]
    case DoTimes(count) => [0x60] + EncodeUleb(count)
    case DoAddAddr(delta) => [0x70] + EncodeUleb(delta)
    case DoTimesSkipping(count, skip) => [0x80] + EncodeUleb(count) + EncodeUleb(skip)
  }

  function AssembleAll(insns: seq<Insn>): (s: seq<byte>) {
    if insns == [] then [] else Assemble(insns[0]) + AssembleAll(insns[1..])
  }

  lemma {:induction false} FetchAssembled(insn: Insn)
    ensures Fetch(Assemble(insn)) == Ok(Fetched(insn, |Assemble(insn)|))
  {
    hide EncodeUleb, ReadUleb;
    var s := Assemble(insn);
    match insn {
      case SetSegmentAndOffset(seg, off) => FetchOneOperand(0x20 + seg, off);
      case AddAddr(delta) => FetchOneOperand(0x30, delta);
      case DoTimes(count) => FetchOneOperand(0x60, count);
      case DoAddAddr(delta) => FetchOneOperand(0x70, delta);
      case DoTimesSkipping(count, skip) =>
        EncodedOperand(count);
        EncodedOperand(skip);
        FetchOperand(0x80, EncodeUleb(count), EncodeUleb(skip), count);
        assert s[1..][|EncodeUleb(count)|..] == EncodeUleb(skip);
      case _ =>
    }
  }

  /** The disassembler inverts the assembler on every program. */
  lemma {:induction false} DisassembleAssembled(insns: seq<Insn>)
    ensures Disassemble(AssembleAll(insns)) == Ok(insns)
  {
    if insns != [] {
      var s, rest := Assemble(insns[0]), AssembleAll(insns[1..]);
      FetchAssembled(insns[0]);
      FetchExtends(s, rest);
      assert (s + rest)[|s|..] == rest;
      DisassembleAssembled(insns[1..]);
      assert [insns[0]] + insns[1..] == insns;
    }
  }

  /** A run: `n` locations of one segment and type, each `PTR + skip` past the last. */
  ghost predicate IsRun(locs: seq<Location>, n: nat, skip: u64)
    requires n <= |locs|
  {
    forall i :: 0 <= i < n ==> locs[i] == Moved(locs[0], Span(i, skip))
  }

  /** How far the run with this skip reaches, scanning from the location before `from`. */
  function RunLength(locs: seq<Location>, from: nat, skip: u64): (n: nat)
    requires 0 < from <= |locs|
    ensures from <= n <= |locs|
    decreases |locs| - from
  {
    if from < |locs| && locs[from] == Advance(Advance(locs[from - 1], PTR), skip)
    then RunLength(locs, from + 1, skip)
    else from
  }

  function SkipOf(locs: seq<Location>): (skip: u64) {
    if |locs| < 2 then 0 else Wrap(locs[1].segOffset - locs[0].segOffset - PTR)
  }

  /** Greedy compression: each maximal run becomes one `TIMES_SKIPPING` instruction. A run
      longer than a 64-bit count is cut to what the operand can carry. */
  function Compress(locs: seq<Location>): (insns: seq<Insn>) {
    if locs == [] then []
    else
      var skip := SkipOf(locs);
      var n := RunLength(locs, 1, skip);
      var count: u64 := if n < TWO_64 then n else TWO_64 - 1;
      [SetType(locs[0].rtype), SetSegmentAndOffset(locs[0].segIndex, locs[0].segOffset),
       DoTimesSkipping(count, skip)] + Compress(locs[count..])
  }

  lemma {:induction false} RunLengthIsRun(locs: seq<Location>, from: nat, skip: u64)
    requires 0 < from <= |locs| && IsRun(locs, from, skip)
    ensures IsRun(locs, RunLength(locs, from, skip), skip)
    decreases |locs| - from
  {
    hide Moved, Span, Advance;
    if from < |locs| && locs[from] == Advance(Advance(locs[from - 1], PTR), skip) {
      MovedByOne(locs[from - 1], skip);
      SpanStep(from - 1, skip);
      MovedTwice(locs[0], Span(from - 1, skip), PTR + skip);
      RunLengthIsRun(locs, from + 1, skip);
    }
  }

  lemma {:induction false} RunOfTriple(first: Location, count: u64, skip: u64, rest: seq<Insn>, at: Location)
    ensures var burst := Burst(first, count, skip);
            var tail := Run(rest, burst.cursor);
            Run([SetType(first.rtype), SetSegmentAndOffset(first.segIndex, first.segOffset),
                 DoTimesSkipping(count, skip)] + rest, at)
            == Trace(burst.out + tail.out, tail.cursor)
  {
    var a, b, c := SetType(first.rtype), SetSegmentAndOffset(first.segIndex, first.segOffset),
                   DoTimesSkipping(count, skip);
    var all := [a, b, c] + rest;
    assert all[1..] == [b, c] + rest;
    assert ([b, c] + rest)[1..] == [c] + rest;
    assert ([c] + rest)[1..] == rest;
    var at1 := Step(a, at).cursor;
    assert Step(b, at1) == Trace([], first);
    var r3 := Run([c] + rest, first);
    assert Run([b, c] + rest, at1) == Trace([] + r3.out, r3.cursor) == r3;
    assert Run(all, at) == Trace([] + r3.out, r3.cursor);
  }

  /** The burst of a maximal run, or of a start of it, is that part of the list. */
  lemma {:induction false} BurstIsRun(locs: seq<Location>, count: nat)
    requires locs != [] && count <= RunLength(locs, 1, SkipOf(locs))
    ensures Burst(locs[0], count, SkipOf(locs)).out == locs[..count]
  {
    hide Burst, Moved, RunLength, SkipOf, Span, Advance;
    var skip := SkipOf(locs);
    SpanStep(0, skip);
    MovedByOne(locs[0], skip);
    RunLengthIsRun(locs, 1, skip);
    BurstAt(locs[0], count, skip);
  }

  /** Compression preserves meaning: the compressed program emits exactly the given list,
      whatever the cursor it starts from. */
  lemma {:induction false} CompressMeans(locs: seq<Location>, at: Location)
    ensures Run(Compress(locs), at).out == locs
    decreases |locs|
  {
    hide Burst, Run, Compress;
    if locs == [] {
      NothingToCompress(at);
    } else {
      var count := FirstRun(locs);
      var skip := SkipOf(locs);
      hide SkipOf;
      RunOfTriple(locs[0], count, skip, Compress(locs[count..]), at);
      CompressMeans(locs[count..], Burst(locs[0], count, skip).cursor);
      assert locs[..count] + locs[count..] == locs;
    }
  }

  lemma NothingToCompress(at: Location)
    ensures Run(Compress([]), at).out == []
  {
  }

  /** The first instructions of a compressed list are for its first run. */
  lemma {:induction false} FirstRun(locs: seq<Location>) returns (count: u64)
    requires locs != []
    ensures 0 < count <= |locs| && Burst(locs[0], count, SkipOf(locs)).out == locs[..count]
    ensures Compress(locs)
            == [SetType(locs[0].rtype), SetSegmentAndOffset(locs[0].segIndex, locs[0].segOffset),
                DoTimesSkipping(count, SkipOf(locs))] + Compress(locs[count..])
  {
    var n := RunLength(locs, 1, SkipOf(locs));
    count := if n < TWO_64 then n else TWO_64 - 1;
    BurstIsRun(locs, count);
    hide Burst, RunLength, SkipOf;
  }

  /** Decoding inverts encoding for every list of locations. */
  lemma {:induction false} RebaseRoundTrip(locs: seq<Location>)
    ensures Decode(AssembleAll(Compress(locs)), INITIAL).Ok?
    ensures Decode(AssembleAll(Compress(locs)), INITIAL).value.out == locs
  {
    DisassembleAssembled(Compress(locs));
    CompressMeans(locs, INITIAL);
  }
}
