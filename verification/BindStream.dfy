/** dyld's compressed bind opcodes and the two parsers that read them: the full interpreter,
    and the reduced one that indexes the lazy stream by sequence offset. */
module BindStream {
  import opened Words
  import opened Leb128
  import opened Opcodes
  import opened ByteText

  datatype BindKind = Pointer | Other(code: nibble)

  function KindOf(imm: nibble): BindKind {
    if imm == 1 then Pointer else Other(imm)
  }

  /** A record awaiting a pointer. The interpreter's current state has the same fields, and
      each bind emits a copy of it. */
  datatype Bind = Bind(segIndex: nibble, segOffset: u64, symbol: string, libOrdinal: i64,
                       addend: i64, kind: BindKind, weak: bool)

  datatype LazyBind = LazyBind(offset: nat, segIndex: nibble, segOffset: u64, symbol: string)

  const INITIAL: Bind := Bind(0, 0, "", 0, 0, Pointer, false)

  datatype Insn =
    | Done
    | SetOrdinalImm(imm: nibble)
    | SetOrdinal(ordinal: u64)
    | SetSpecial(imm: nibble)
    | SetSymbol(flags: nibble, name: string)
    | SetType(imm: nibble)
    | SetAddend(addend: i64)
    | SetSegmentAndOffset(segIndex: nibble, offset: u64)
    | AddAddr(delta: u64)
    | DoBind
    | DoBindAddAddr(delta: u64)
    | DoBindScaled(imm: nibble)
    | DoBindTimesSkipping(count: u64, skip: u64)
    | Ignored

  datatype Fetched = Fetched(insn: Insn, size: nat)

  // ---- decoding one instruction ---------------------------------------------------------------

  function NulIndex(s: seq<byte>): (r: Option<nat>)
    ensures r.Some? ==> r.value < |s|
  {
    if s == [] then None
    else if s[0] == 0 then Some(0)
    else match NulIndex(s[1..])
      case None => None
      case Some(n) => Some(n + 1)
  }

  /** Bytes as text, one character each. */
  function Text(s: seq<byte>): (t: string) {
    seq(|s|, i requires 0 <= i < |s| => s[i] as char)
  }

  /** The text before the first NUL. */
  function ReadCstr(s: seq<byte>): (r: Result<Reading<string>, EmuError>)
    ensures r.Ok? ==> 0 < r.value.size <= |s|
  {
    match NulIndex(s)
    case None => Err(SymbolUnterminated)
    case Some(n) => Ok(Reading(Text(s[..n]), n + 1))
  }

  function Fetch(s: seq<byte>): (r: Result<Fetched, EmuError>)
    requires s != []
    ensures r.Ok? ==> 0 < r.value.size <= |s|
    ensures r.Ok? ==> r.value.insn != Ignored
  {
    var opcode, imm := s[0] / 16, s[0] % 16;
    var rest := s[1..];
    match opcode
    case 0x0 => Ok(Fetched(Done, 1))
    case 0x1 => Ok(Fetched(SetOrdinalImm(imm), 1))
    case 0x2 =>
      var v :- ReadUleb(rest);
      Ok(Fetched(SetOrdinal(v.value), 1 + v.size))
    case 0x3 => Ok(Fetched(SetSpecial(imm), 1))
    case 0x4 =>
      var name :- ReadCstr(rest);
      Ok(Fetched(SetSymbol(imm, name.value), 1 + name.size))
    case 0x5 => Ok(Fetched(SetType(imm), 1))
    case 0x6 =>
      var v :- ReadSleb(rest);
      Ok(Fetched(SetAddend(v.value), 1 + v.size))
    case 0x7 =>
      var v :- ReadUleb(rest);
      Ok(Fetched(SetSegmentAndOffset(imm, v.value), 1 + v.size))
    case 0x8 =>
      var v :- ReadUleb(rest);
      Ok(Fetched(AddAddr(v.value), 1 + v.size))
    case 0x9 => Ok(Fetched(DoBind, 1))
    case 0xA =>
      var v :- ReadUleb(rest);
      Ok(Fetched(DoBindAddAddr(v.value), 1 + v.size))
    case 0xB => Ok(Fetched(DoBindScaled(imm), 1))
    case 0xC =>
      var count :- ReadUleb(rest);
      var skip :- ReadUleb(rest[count.size..]);
      Ok(Fetched(DoBindTimesSkipping(count.value, skip.value), 1 + count.size + skip.size))
    case _ => Err(UnknownOpcode(opcode * 16))
  }

  /** The lazy parser's view: from `DO_BIND_ADD_ADDR_ULEB` up it skips the opcode byte alone,
      leaving any operands to be read as opcodes. */
  function LazyFetch(s: seq<byte>): (r: Result<Fetched, EmuError>)
    requires s != []
    ensures r.Ok? ==> 0 < r.value.size <= |s|
  {
    if s[0] / 16 >= 0xA then Ok(Fetched(Ignored, 1)) else Fetch(s)
  }

  function Disassemble(s: seq<byte>): (r: Result<seq<Fetched>, EmuError>) {
    if s == [] then Ok([])
    else
      var first :- Fetch(s);
      var rest :- Disassemble(s[first.size..]);
      Ok([first] + rest)
  }

  function LazyDisassemble(s: seq<byte>): (r: Result<seq<Fetched>, EmuError>) {
    if s == [] then Ok([])
    else
      var first :- LazyFetch(s);
      var rest :- LazyDisassemble(s[first.size..]);
      Ok([first] + rest)
  }

  // ---- executing ------------------------------------------------------------------------------------

  datatype Trace = Trace(out: seq<Bind>, state: Bind)

  function Advance(at: Bind, delta: u64): (next: Bind) {
    at.(segOffset := Wrap(at.segOffset + delta))
  }

  function Burst(at: Bind, count: nat, skip: u64): (t: Trace)
    decreases count
  {
    if count == 0 then Trace([], at)
    else
      var t := Burst(Advance(Advance(at, PTR), skip), count - 1, skip);
      Trace([at] + t.out, t.state)
  }

  function Step(insn: Insn, at: Bind): (t: Trace) {
    match insn
    case Done => Trace([], at)
    case SetOrdinalImm(imm) => Trace([], at.(libOrdinal := imm))
    case SetOrdinal(v) => Trace([], at.(libOrdinal := Signed(v)))
    case SetSpecial(imm) => Trace([], at.(libOrdinal := if imm == 0 then 0 else imm - 16))
    case SetSymbol(flags, name) => Trace([], at.(weak := flags % 2 == 1, symbol := name))
    case SetType(imm) => Trace([], at.(kind := KindOf(imm)))
    case SetAddend(v) => Trace([], at.(addend := v))
    case SetSegmentAndOffset(seg, off) => Trace([], at.(segIndex := seg, segOffset := off))
    case AddAddr(delta) => Trace([], Advance(at, delta))
    case DoBind => Trace([at], Advance(at, PTR))
    case DoBindAddAddr(delta) => Trace([at], Advance(Advance(at, PTR), delta))
    case DoBindScaled(imm) => Trace([at], Advance(Advance(at, PTR), imm * PTR))
    case DoBindTimesSkipping(count, skip) => Burst(at, count, skip)
    case Ignored => Trace([], at)
  }

  function Run(ops: seq<Fetched>, at: Bind): (t: Trace) {
    if ops == [] then Trace([], at)
    else
      var first := Step(ops[0].insn, at);
      var rest := Run(ops[1..], first.state);
      Trace(first.out + rest.out, rest.state)
  }

  function Decode(s: seq<byte>, at: Bind): (r: Result<Trace, EmuError>) {
    var ops :- Disassemble(s);
    Ok(Run(ops, at))
  }

  /** The lazy parser's state: the read position, where the current sequence began, and the
      slot and symbol last set. It does not move past a slot it has bound. */
  datatype LazyState = LazyState(pos: nat, seqStart: nat, segIndex: nibble, segOffset: u64,
                                 symbol: string)

  const LAZY_INITIAL: LazyState := LazyState(0, 0, 0, 0, "")

  datatype LazyTrace = LazyTrace(out: seq<LazyBind>, state: LazyState)

  function LazyStep(op: Fetched, at: LazyState): (t: LazyTrace) {
    var next := at.(pos := at.pos + op.size);
    match op.insn
    case Done => LazyTrace([], next.(seqStart := next.pos))
    case SetSymbol(_, name) => LazyTrace([], next.(symbol := name))
    case SetSegmentAndOffset(seg, off) => LazyTrace([], next.(segIndex := seg, segOffset := off))
    case AddAddr(delta) => LazyTrace([], next.(segOffset := Wrap(at.segOffset + delta)))
    case DoBind => LazyTrace([LazyBind(at.seqStart, at.segIndex, at.segOffset, at.symbol)], next)
    case _ => LazyTrace([], next)
  }

  function LazyRun(ops: seq<Fetched>, at: LazyState): (t: LazyTrace) {
    if ops == [] then LazyTrace([], at)
    else
      var first := LazyStep(ops[0], at);
      var rest := LazyRun(ops[1..], first.state);
      LazyTrace(first.out + rest.out, rest.state)
  }

  function LazyDecode(s: seq<byte>, at: LazyState): (r: Result<LazyTrace, EmuError>) {
    var ops :- LazyDisassemble(s);
    Ok(LazyRun(ops, at))
  }

  // ---- the interpreters -------------------------------------------------------------------------------

  /** `read_cstr`. */
  method ReadCstrAt(buf: seq<byte>, start: nat) returns (r: Result<string, EmuError>, p: nat)
    requires start <= |buf|
    ensures p <= |buf|
    ensures match ReadCstr(buf[start..])
            case Ok(reading) => r == Ok(reading.value) && p == start + reading.size
            case Err(e) => r == Err(e)
  {
    p := start;
    while p < |buf| && buf[p] != 0
      invariant start <= p <= |buf|
      invariant forall i :: start <= i < p ==> buf[i] != 0
    {
      p := p + 1;
    }
    NulIndexIs(buf[start..], p - start);
    if p >= |buf| {
      return Err(SymbolUnterminated), p;
    }
    assert buf[start..][..p - start] == buf[start..p];
    r := Ok(Text(buf[start..p]));
    p := p + 1;
  }

  lemma {:induction false} NulIndexIs(s: seq<byte>, n: nat)
    requires n <= |s| && (forall i :: 0 <= i < n ==> s[i] != 0)
    requires n == |s| || s[n] == 0
    ensures NulIndex(s) == if n == |s| then None else Some(n)
  {
    if n > 0 {
      NulIndexIs(s[1..], n - 1);
    }
  }

  method FetchAt(stream: seq<byte>, start: nat) returns (r: Result<Insn, EmuError>, p: nat)
    requires start < |stream|
    ensures p <= |stream|
    ensures match Fetch(stream[start..])
            case Ok(f) => r == Ok(f.insn) && p == start + f.size
            case Err(e) => r == Err(e)
  {
    hide ReadUleb, ReadSleb, ReadCstr;
    var opcode, imm := stream[start] / 16, stream[start] % 16;
    ghost var rest := stream[start..][1..];
    p := start + 1;
    assert rest == stream[p..];
    if opcode == 0x0 {
      r := Ok(Done);
    } else if opcode == 0x1 {
      r := Ok(SetOrdinalImm(imm));
    } else if opcode == 0x3 {
      r := Ok(SetSpecial(imm));
    } else if opcode == 0x4 {
      var name;
      name, p := ReadCstrAt(stream, p);
      if name.Err? { return Err(name.error), p; }
      r := Ok(SetSymbol(imm, name.value));
    } else if opcode == 0x5 {
      r := Ok(SetType(imm));
    } else if opcode == 0x6 {
      var addend;
      addend, p := ReadSlebAt(stream, p);
      if addend.Err? { return Err(addend.error), p; }
      r := Ok(SetAddend(addend.value));
    } else if opcode == 0x9 {
      r := Ok(DoBind);
    } else if opcode == 0xB {
      r := Ok(DoBindScaled(imm));
    } else if opcode > 0xC {
      r := Err(UnknownOpcode(opcode * 16));
    } else {
      var operand;
      operand, p := ReadUlebAt(stream, p);
      if operand.Err? { return Err(operand.error), p; }
      if opcode == 0x2 {
        r := Ok(SetOrdinal(operand.value));
      } else if opcode == 0x7 {
        r := Ok(SetSegmentAndOffset(imm, operand.value));
      } else if opcode == 0x8 {
        r := Ok(AddAddr(operand.value));
      } else if opcode == 0xA {
        r := Ok(DoBindAddAddr(operand.value));
      } else {
        assert rest[p - start - 1..] == stream[p..];
        var skip;
        skip, p := ReadUlebAt(stream, p);
        if skip.Err? { return Err(skip.error), p; }
        r := Ok(DoBindTimesSkipping(operand.value, skip.value));
      }
    }
  }

  method Emit(out: seq<Bind>, at: Bind, count: u64, skip: u64)
    returns (out': seq<Bind>, at': Bind)
    ensures out' == out + Burst(at, count, skip).out
    ensures at' == Burst(at, count, skip).state
  {
    out', at' := out, at;
    var i: u64 := 0;
    while i < count
      invariant 0 <= i <= count
      invariant out' + Burst(at', count - i, skip).out == out + Burst(at, count, skip).out
      invariant Burst(at', count - i, skip).state == Burst(at, count, skip).state
    {
      out', at', i := out' + [at'], Advance(Advance(at', PTR), skip), i + 1;
    }
  }

  /** `parse_bind_info`. */
  method ParseBindInfo(stream: seq<byte>) returns (r: Result<seq<Bind>, EmuError>)
    ensures match Decode(stream, INITIAL)
            case Ok(t) => r == Ok(t.out)
            case Err(e) => r == Err(e)
  {
    var records: seq<Bind> := [];
    var at := INITIAL;
    var p := 0;
    ContinuesFromStart(stream);
    hide Decode, Continues, Burst, Fetch, Advance;
    while p < |stream|
      invariant p <= |stream|
      invariant Continues(stream, records, at, p)
    {
      ghost var out0, at0, p0 := records, at, p;
      FetchFailure(stream, records, at, p);
      var insn;
      insn, p := FetchAt(stream, p);
      if insn.Err? { return Err(insn.error); }
      match insn.value {
        case Done =>
        case SetOrdinalImm(imm) => at := at.(libOrdinal := imm);
        case SetOrdinal(v) => at := at.(libOrdinal := Signed(v));
        case SetSpecial(imm) => at := at.(libOrdinal := if imm == 0 then 0 else imm - 16);
        case SetSymbol(flags, name) => at := at.(weak := flags % 2 == 1, symbol := name);
        case SetType(imm) => at := at.(kind := KindOf(imm));
        case SetAddend(v) => at := at.(addend := v);
        case SetSegmentAndOffset(seg, off) => at := at.(segIndex := seg, segOffset := off);
        case AddAddr(delta) => at := Advance(at, delta);
        case DoBind => records, at := records + [at], Advance(at, PTR);
        case DoBindAddAddr(delta) =>
          records, at := records + [at], Advance(Advance(at, PTR), delta);
        case DoBindScaled(imm) =>
          records, at := records + [at], Advance(Advance(at, PTR), imm * PTR);
        case DoBindTimesSkipping(count, skip) => records, at := Emit(records, at, count, skip);
        case Ignored =>
      }
      assert records == out0 + Step(insn.value, at0).out && at == Step(insn.value, at0).state;
      ContinuesAfter(stream, out0, at0, p0, insn.value, p);
    }
    ContinuesToEnd(stream, records, at);
    r := Ok(records);
  }

  ghost predicate Continues(stream: seq<byte>, out: seq<Bind>, at: Bind, p: nat)
    requires p <= |stream|
  {
    match Decode(stream[p..], at)
    case Ok(t) => Decode(stream, INITIAL) == Ok(Trace(out + t.out, t.state))
    case Err(e) => Decode(stream, INITIAL) == Err(e)
  }

  lemma {:induction false} ContinuesFromStart(stream: seq<byte>)
    ensures Continues(stream, [], INITIAL, 0)
  {
    assert stream[0..] == stream;
    var all := Decode(stream, INITIAL);
    assert all.Ok? ==> [] + all.value.out == all.value.out;
  }

  lemma {:induction false} ContinuesAfter(stream: seq<byte>, out: seq<Bind>, at: Bind, p: nat, insn: Insn, next: nat)
    requires p < next <= |stream| && Continues(stream, out, at, p)
    requires Fetch(stream[p..]) == Ok(Fetched(insn, next - p))
    ensures Continues(stream, out + Step(insn, at).out, Step(insn, at).state, next)
  {
    hide Fetch, Step;
    assert stream[p..][next - p..] == stream[next..];
    if Disassemble(stream[next..]).Ok? {
      var more := Disassemble(stream[next..]).value;
      assert Disassemble(stream[p..]).value == [Fetched(insn, next - p)] + more;
      var t := Run(more, Step(insn, at).state);
      assert (out + Step(insn, at).out) + t.out == out + (Step(insn, at).out + t.out);
    }
  }

  lemma {:induction false} ContinuesToEnd(stream: seq<byte>, out: seq<Bind>, at: Bind)
    requires Continues(stream, out, at, |stream|)
    ensures Decode(stream, INITIAL) == Ok(Trace(out, at))
  {
    assert stream[|stream|..] == [];
    assert out + [] == out;
  }

  lemma {:induction false} FetchFailure(stream: seq<byte>, out: seq<Bind>, at: Bind, p: nat)
    requires p < |stream| && Continues(stream, out, at, p)
    ensures Fetch(stream[p..]).Err? ==> Decode(stream, INITIAL) == Err(Fetch(stream[p..]).error)
  {
  }

  /** `parse_lazy_bind_info`. */
  method ParseLazyBindInfo(stream: seq<byte>) returns (r: Result<seq<LazyBind>, EmuError>)
    ensures match LazyDecode(stream, LAZY_INITIAL)
            case Ok(t) => r == Ok(t.out)
            case Err(e) => r == Err(e)
  {
    var out: seq<LazyBind> := [];
    var at := LAZY_INITIAL;
    LazyContinuesFromStart(stream);
    hide LazyDecode, LazyContinues, Fetch;
    while at.pos < |stream|
      invariant at.pos <= |stream|
      invariant LazyContinues(stream, out, at)
      decreases |stream| - at.pos
    {
      ghost var out0, at0 := out, at;
      LazyFetchFailure(stream, out, at);
      var insn, p := Ok(Ignored), at.pos + 1;
      if stream[at.pos] / 16 < 0xA {
        insn, p := FetchAt(stream, at.pos);
        if insn.Err? { return Err(insn.error); }
      }
      at := at.(pos := p);
      match insn.value {
        case Done => at := at.(seqStart := p);
        case SetSymbol(_, name) => at := at.(symbol := name);
        case SetSegmentAndOffset(seg, off) => at := at.(segIndex := seg, segOffset := off);
        case AddAddr(delta) => at := at.(segOffset := Wrap(at.segOffset + delta));
        case DoBind =>
          out := out + [LazyBind(at.seqStart, at.segIndex, at.segOffset, at.symbol)];
        case _ =>
      }
      ghost var op := Fetched(insn.value, p - at0.pos);
      assert LazyFetch(stream[at0.pos..]) == Ok(op);
      assert out == out0 + LazyStep(op, at0).out && at == LazyStep(op, at0).state;
      LazyContinuesAfter(stream, out0, at0, op);
    }
    LazyContinuesToEnd(stream, out, at);
    r := Ok(out);
  }

  ghost predicate LazyContinues(stream: seq<byte>, out: seq<LazyBind>, at: LazyState)
    requires at.pos <= |stream|
  {
    match LazyDecode(stream[at.pos..], at)
    case Ok(t) => LazyDecode(stream, LAZY_INITIAL) == Ok(LazyTrace(out + t.out, t.state))
    case Err(e) => LazyDecode(stream, LAZY_INITIAL) == Err(e)
  }

  lemma {:induction false} LazyContinuesFromStart(stream: seq<byte>)
    ensures LazyContinues(stream, [], LAZY_INITIAL)
  {
    assert stream[0..] == stream;
    var all := LazyDecode(stream, LAZY_INITIAL);
    assert all.Ok? ==> [] + all.value.out == all.value.out;
  }

  lemma {:induction false} LazyContinuesAfter(stream: seq<byte>, out: seq<LazyBind>, at: LazyState, op: Fetched)
    requires at.pos < at.pos + op.size <= |stream| && LazyContinues(stream, out, at)
    requires LazyFetch(stream[at.pos..]) == Ok(op)
    ensures LazyStep(op, at).state.pos == at.pos + op.size
    ensures LazyContinues(stream, out + LazyStep(op, at).out, LazyStep(op, at).state)
  {
    hide Fetch, LazyFetch;
    var next := at.pos + op.size;
    assert stream[at.pos..][op.size..] == stream[next..];
    LazyStepMoves(op, at);
    hide LazyStep;
    if LazyDisassemble(stream[next..]).Ok? {
      var more := LazyDisassemble(stream[next..]).value;
      assert LazyDisassemble(stream[at.pos..]).value == [op] + more;
      var t := LazyRun(more, LazyStep(op, at).state);
      assert (out + LazyStep(op, at).out) + t.out == out + (LazyStep(op, at).out + t.out);
    }
  }

  lemma {:induction false} LazyStepMoves(op: Fetched, at: LazyState)
    ensures LazyStep(op, at).state.pos == at.pos + op.size
  {
  }

  /** Lazy entries are keyed by positions in the stream. */
  lemma {:induction false} OffsetsInStream(s: seq<byte>, at: LazyState)
    requires LazyDecode(s, at).Ok? && at.seqStart <= at.pos
    ensures forall r :: r in LazyDecode(s, at).value.out ==> r.offset <= at.pos + |s|
    decreases |s|
  {
    hide LazyFetch;
    if s != [] {
      var op := LazyFetch(s).value;
      var ops := LazyDisassemble(s).value;
      assert ops[1..] == LazyDisassemble(s[op.size..]).value;
      LazyStepMoves(op, at);
      LazyStepStarts(op, at);
      hide LazyStep;
      OffsetsInStream(s[op.size..], LazyStep(op, at).state);
    }
  }

  lemma {:induction false} LazyStepStarts(op: Fetched, at: LazyState)
    requires at.seqStart <= at.pos
    ensures LazyStep(op, at).state.seqStart <= LazyStep(op, at).state.pos
    ensures forall r :: r in LazyStep(op, at).out ==> r.offset <= at.pos
  {
  }

  lemma {:induction false} LazyContinuesToEnd(stream: seq<byte>, out: seq<LazyBind>, at: LazyState)
    requires at.pos == |stream| && LazyContinues(stream, out, at)
    ensures LazyDecode(stream, LAZY_INITIAL) == Ok(LazyTrace(out, at))
  {
    assert stream[|stream|..] == [];
    assert out + [] == out;
  }

  lemma {:induction false} LazyFetchFailure(stream: seq<byte>, out: seq<LazyBind>, at: LazyState)
    requires at.pos < |stream| && LazyContinues(stream, out, at)
    ensures LazyFetch(stream[at.pos..]).Err? ==>
              LazyDecode(stream, LAZY_INITIAL) == Err(LazyFetch(stream[at.pos..]).error)
  {
  }

  // ---- the compressed forms are macros ----------------------------------------------------------------

  function Moved(at: Bind, k: int): (r: Bind) {
    at.(segOffset := Wrap(at.segOffset + k))
  }

  lemma {:induction false} MovedTwice(at: Bind, j: int, k: int)
    ensures Moved(Moved(at, j), k) == Moved(at, j + k)
  {
    WrapPlus(at.segOffset + j, k);
  }

  lemma {:induction false} MovedByOne(at: Bind, skip: u64)
    ensures Moved(at, 0) == at
    ensures Advance(Advance(at, PTR), skip) == Moved(at, PTR + skip)
  {
    WrapPlus(at.segOffset + PTR, skip);
  }

  /** The i-th record of a burst differs from the first only in lying `i` strides further on. */
  lemma {:induction false} BurstAt(at: Bind, count: nat, skip: u64)
    ensures var t := Burst(at, count, skip);
            && |t.out| == count
            && t.state == Moved(at, Span(count, skip))
            && forall i :: 0 <= i < count ==> t.out[i] == Moved(at, Span(i, skip))
    decreases count
  {
    SpanStep(0, skip);
    MovedByOne(at, skip);
    hide Moved, Span, Advance;
    if count > 0 {
      var next := Advance(Advance(at, PTR), skip);
      BurstAt(next, count - 1, skip);
      var t := Burst(at, count, skip);
      SpanStep(count - 1, skip);
      MovedTwice(at, PTR + skip, Span(count - 1, skip));
      forall i | 0 < i < count
        ensures t.out[i] == Moved(at, Span(i, skip))
      {
        SpanStep(i - 1, skip);
        MovedTwice(at, PTR + skip, Span(i - 1, skip));
      }
    }
  }

  // ---- streams compose ----------------------------------------------------------------------------------

  lemma {:induction false} NulIndexExtends(a: seq<byte>, b: seq<byte>)
    requires NulIndex(a).Some?
    ensures NulIndex(a + b) == NulIndex(a)
    decreases |a|
  {
    if a[0] != 0 {
      assert (a + b)[1..] == a[1..] + b;
      NulIndexExtends(a[1..], b);
    }
  }

  lemma {:induction false} CstrExtends(a: seq<byte>, b: seq<byte>)
    requires ReadCstr(a).Ok?
    ensures ReadCstr(a + b) == ReadCstr(a)
  {
    NulIndexExtends(a, b);
    var n := NulIndex(a).value;
    assert (a + b)[..n] == a[..n];
  }

  lemma {:induction false} FetchExtends(a: seq<byte>, b: seq<byte>)
    requires a != [] && Fetch(a).Ok?
    ensures Fetch(a + b) == Fetch(a)
  {
    var s, rest := a + b, a[1..];
    assert s[1..] == rest + b && s[0] == a[0];
    ReadsOperands(a);
    if a[0] / 16 == 4 {
      CstrExtends(rest, b);
    } else if a[0] / 16 in {2, 6, 7, 8, 0xA, 0xC} {
      OperandExtends(rest, b);
      if a[0] / 16 == 0xC {
        OperandExtends(rest[LebLength(rest).value..], b);
      }
    }
    hide ReadUleb, ReadSleb, ReadCstr, LebLength, Fetch;
    SameFetch(a, s);
  }

  /** An instruction is fixed by its first byte and what its operands read. */
  lemma {:induction false} SameFetch(a: seq<byte>, s: seq<byte>)
    requires a != [] && s != [] && s[0] == a[0]
    requires a[0] / 16 == 4 ==> ReadCstr(s[1..]) == ReadCstr(a[1..])
    requires a[0] / 16 == 6 ==> ReadSleb(s[1..]) == ReadSleb(a[1..])
    requires a[0] / 16 in {2, 7, 8, 0xA, 0xC} ==> ReadUleb(s[1..]) == ReadUleb(a[1..])
    requires a[0] / 16 == 0xC && ReadUleb(a[1..]).Ok? ==>
               var n := ReadUleb(a[1..]).value.size; ReadUleb(s[1..][n..]) == ReadUleb(a[1..][n..])
    ensures Fetch(s) == Fetch(a)
  {
    hide ReadUleb, ReadSleb, ReadCstr;
  }

  /** An instruction that is fetched had its operands. */
  lemma {:induction false} ReadsOperands(a: seq<byte>)
    requires a != [] && Fetch(a).Ok?
    ensures a[0] / 16 in {2, 6, 7, 8, 0xA, 0xC} ==> LebLength(a[1..]).Some?
    ensures a[0] / 16 == 0xC ==> LebLength(a[1..][LebLength(a[1..]).value..]).Some?
    ensures a[0] / 16 == 4 ==> ReadCstr(a[1..]).Ok?
  {
  }

  lemma {:induction false} DisassembleAppend(a: seq<byte>, b: seq<byte>)
    requires Disassemble(a).Ok?
    ensures Disassemble(a + b)
            == match Disassemble(b)
               case Ok(ops) => Ok(Disassemble(a).value + ops)
               case Err(e) => Err(e)
    decreases |a|
  {
    hide Fetch;
    if a == [] {
      assert a + b == b;
      assert Disassemble(b).Ok? ==> [] + Disassemble(b).value == Disassemble(b).value;
    } else {
      FetchExtends(a, b);
      var first := Fetch(a).value;
      assert (a + b)[first.size..] == a[first.size..] + b;
      DisassembleAppend(a[first.size..], b);
      assert Disassemble(b).Ok? ==>
          [first] + (Disassemble(a[first.size..]).value + Disassemble(b).value)
          == Disassemble(a).value + Disassemble(b).value;
    }
  }

  lemma {:induction false} RunAppend(a: seq<Fetched>, b: seq<Fetched>, at: Bind)
    ensures var first, second := Run(a, at), Run(b, Run(a, at).state);
            Run(a + b, at) == Trace(first.out + second.out, second.state)
  {
    hide Step;
    if a == [] {
      assert a + b == b;
    } else {
      var t := Step(a[0].insn, at);
      assert (a + b)[1..] == a[1..] + b;
      RunAppend(a[1..], b, t.state);
    }
  }

  /** Decoding a complete stream followed by anything is decoding the two in sequence, the second
      entered in the state the first left. */
  lemma {:induction false} DecodeAppend(a: seq<byte>, b: seq<byte>, at: Bind)
    requires Decode(a, at).Ok?
    ensures var first := Decode(a, at).value;
            Decode(a + b, at)
            == match Decode(b, first.state)
               case Ok(second) => Ok(Trace(first.out + second.out, second.state))
               case Err(e) => Err(e)
  {
    hide Disassemble, Run;
    DisassembleAppend(a, b);
    if Disassemble(b).Ok? {
      RunAppend(Disassemble(a).value, Disassemble(b).value, at);
    }
  }

  lemma {:induction false} LazyFetchExtends(a: seq<byte>, b: seq<byte>)
    requires a != [] && LazyFetch(a).Ok?
    ensures LazyFetch(a + b) == LazyFetch(a)
  {
    hide Fetch;
    assert (a + b)[0] == a[0];
    if a[0] / 16 < 0xA {
      FetchExtends(a, b);
    }
  }

  lemma {:induction false} LazyDisassembleAppend(a: seq<byte>, b: seq<byte>)
    requires LazyDisassemble(a).Ok?
    ensures LazyDisassemble(a + b)
            == match LazyDisassemble(b)
               case Ok(ops) => Ok(LazyDisassemble(a).value + ops)
               case Err(e) => Err(e)
    decreases |a|
  {
    hide LazyFetch;
    if a == [] {
      assert a + b == b;
      assert LazyDisassemble(b).Ok? ==> [] + LazyDisassemble(b).value == LazyDisassemble(b).value;
    } else {
      LazyFetchExtends(a, b);
      var first := LazyFetch(a).value;
      assert (a + b)[first.size..] == a[first.size..] + b;
      LazyDisassembleAppend(a[first.size..], b);
      assert LazyDisassemble(b).Ok? ==>
          [first] + (LazyDisassemble(a[first.size..]).value + LazyDisassemble(b).value)
          == LazyDisassemble(a).value + LazyDisassemble(b).value;
    }
  }

  lemma {:induction false} LazyRunAppend(a: seq<Fetched>, b: seq<Fetched>, at: LazyState)
    ensures var first, second := LazyRun(a, at), LazyRun(b, LazyRun(a, at).state);
            LazyRun(a + b, at) == LazyTrace(first.out + second.out, second.state)
  {
    hide LazyStep;
    if a == [] {
      assert a + b == b;
    } else {
      var t := LazyStep(a[0], at);
      assert (a + b)[1..] == a[1..] + b;
      LazyRunAppend(a[1..], b, t.state);
    }
  }

  /** The lazy parser is sequential too. */
  lemma {:induction false} LazyDecodeAppend(a: seq<byte>, b: seq<byte>, at: LazyState)
    requires LazyDecode(a, at).Ok?
    ensures var first := LazyDecode(a, at).value;
            LazyDecode(a + b, at)
            == match LazyDecode(b, first.state)
               case Ok(second) => Ok(LazyTrace(first.out + second.out, second.state))
               case Err(e) => Err(e)
  {
    hide LazyDisassemble, LazyRun;
    LazyDisassembleAppend(a, b);
    if LazyDisassemble(b).Ok? {
      LazyRunAppend(LazyDisassemble(a).value, LazyDisassemble(b).value, at);
    }
  }

  /** Fragments with one meaning in a state can replace each other there. */
  lemma {:induction false} Interchangeable(pre: seq<byte>, a: seq<byte>, b: seq<byte>, post: seq<byte>, at: Bind)
    requires Decode(pre, at).Ok?
    requires Decode(a, Decode(pre, at).value.state).Ok?
    requires Decode(a, Decode(pre, at).value.state) == Decode(b, Decode(pre, at).value.state)
    ensures Decode(pre + a + post, at) == Decode(pre + b + post, at)
  {
    hide Decode;
    DecodeAppend(pre, a, at);
    DecodeAppend(pre, b, at);
    DecodeAppend(pre + a, post, at);
    DecodeAppend(pre + b, post, at);
  }

  // ---- the compressed opcodes are macros ---------------------------------------------------------------

  lemma {:induction false} RunCopies(op: Fetched, n: nat, skip: u64, at: Bind)
    requires op.insn == DoBindAddAddr(skip)
    ensures Run(Copies([op], n), at) == Burst(at, n, skip)
  {
    hide Advance;
    if n > 0 {
      assert Copies([op], n)[1..] == Copies([op], n - 1);
      RunCopies(op, n - 1, skip, Advance(Advance(at, PTR), skip));
    }
  }

  lemma {:induction false} RunOne(op: Fetched, at: Bind)
    ensures Run([op], at) == Step(op.insn, at)
  {
    assert [op][1..] == [];
    assert Step(op.insn, at).out + [] == Step(op.insn, at).out;
  }

  lemma {:induction false} SingleInsn(s: seq<byte>, op: Fetched, at: Bind)
    requires s != [] && Fetch(s) == Ok(op) && op.size == |s|
    ensures Disassemble(s) == Ok([op]) && Decode(s, at) == Ok(Step(op.insn, at))
  {
    hide Fetch, Step, Run;
    assert s[|s|..] == [] && [op] + [] == [op];
    RunOne(op, at);
  }

  lemma {:induction false} FetchAddAddr(e: seq<byte>, k: u64, rest: seq<byte>)
    requires Encodes(e, k)
    ensures Fetch([0xA0] + e + rest) == Ok(Fetched(DoBindAddAddr(k), 1 + |e|)) && ([0xA0] + e + rest)[1 + |e|..] == rest
  {
    hide ReadUleb, ReadSleb, ReadCstr;
    FetchOperand(0xA0, e, rest, k);
  }

  lemma {:induction false} DisassembleCopies(e: seq<byte>, k: u64, n: nat)
    requires Encodes(e, k)
    ensures Disassemble(Copies([0xA0] + e, n)) == Ok(Copies([Fetched(DoBindAddAddr(k), 1 + |e|)], n))
  {
    hide ReadUleb, Fetch, Encodes;
    if n > 0 {
      FetchAddAddr(e, k, Copies([0xA0] + e, n - 1));
      DisassembleCopies(e, k, n - 1);
    }
  }

  /** `DO_BIND_ULEB_TIMES_SKIPPING_ULEB(n, k)` means `n` copies of `DO_BIND_ADD_ADDR_ULEB(k)`: between any
      complete prefix and any suffix the two spellings decode alike, failures included. */
  lemma {:induction false} TimesSkippingIsMacro(pre: seq<byte>, en: seq<byte>, n: u64, ek: seq<byte>, k: u64,
                                                post: seq<byte>, at: Bind)
    requires Decode(pre, at).Ok? && Encodes(en, n) && Encodes(ek, k)
    ensures Decode(pre + ([0xC0] + en + ek) + post, at) == Decode(pre + Copies([0xA0] + ek, n) + post, at)
  {
    var mid := Decode(pre, at).value.state;
    var wide, long := [0xC0] + en + ek, Copies([0xA0] + ek, n);
    WideIsBurst(en, n, ek, k, mid);
    DisassembleCopies(ek, k, n);
    RunCopies(Fetched(DoBindAddAddr(k), 1 + |ek|), n, k, mid);
    assert Decode(long, mid) == Ok(Burst(mid, n, k));
    hide Decode, Burst;
    Interchangeable(pre, wide, long, post, at);
  }

  lemma {:induction false} WideIsBurst(en: seq<byte>, n: u64, ek: seq<byte>, k: u64, at: Bind)
    requires Encodes(en, n) && Encodes(ek, k)
    ensures Decode([0xC0] + en + ek, at) == Ok(Burst(at, n, k))
  {
    hide ReadUleb, ReadSleb, ReadCstr, Burst, Disassemble, Run;
    var s := [0xC0] + en + ek;
    FetchOperand(0xC0, en, ek, n);
    assert s[1..][|en|..] == ek;
    SingleInsn(s, Fetched(DoBindTimesSkipping(n, k), |s|), at);
  }

  /** The scaled immediate abbreviates the ULEB128 form wherever it occurs. */
  lemma {:induction false} ScaledFormIsMacro(pre: seq<byte>, imm: nibble, e: seq<byte>, post: seq<byte>, at: Bind)
    requires Decode(pre, at).Ok? && Encodes(e, imm * PTR)
    ensures Decode(pre + [0xB0 + imm] + post, at) == Decode(pre + ([0xA0] + e) + post, at)
  {
    hide ReadUleb, ReadSleb, ReadCstr, Disassemble, Run;
    var mid := Decode(pre, at).value.state;
    SingleInsn([0xB0 + imm], Fetched(DoBindScaled(imm), 1), mid);
    FetchOperand(0xA0, e, [], imm * PTR);
    assert [0xA0] + e + [] == [0xA0] + e;
    SingleInsn([0xA0] + e, Fetched(DoBindAddAddr(imm * PTR), 1 + |e|), mid);
    hide Decode;
    Interchangeable(pre, [0xB0 + imm], [0xA0] + e, post, at);
  }

  // ---- encoding and the round trip ---------------------------------------------------------------------------

  /** Instructions that have bytes: a symbol must be text a NUL can end. */
  ghost predicate Writable(insn: Insn) {
    !insn.Ignored? && (insn.SetSymbol? ==> Plain(insn.name))
  }

  function Assemble(insn: Insn): (s: seq<byte>)
    ensures s != []
  {
    match insn
    case Done => [0x00]
    case SetOrdinalImm(imm) => [0x10 + imm]
    case SetOrdinal(v) => [0x20] + EncodeUleb(v)
    case SetSpecial(imm) => [0x30 + imm]
    case SetSymbol(flags, name) => [0x40 + flags] + (Chars(name) + [0])
    case SetType(imm) => [0x50 + imm]
    case SetAddend(v) => [0x60] + EncodeSleb(v)
    case SetSegmentAndOffset(seg, off) => [0x70 + seg] + EncodeUleb(off)
    case AddAddr(delta) => [0x80] + EncodeUleb(delta)
    case DoBind => [0x90]
    case DoBindAddAddr(delta) => [0xA0] + EncodeUleb(delta)
    case DoBindScaled(imm) => [0xB0 + imm]
    case DoBindTimesSkipping(count, skip) => [0xC0] + EncodeUleb(count) + EncodeUleb(skip)
    case Ignored => [0x00]
  }

  function AssembleAll(insns: seq<Insn>): (s: seq<byte>) {
    if insns == [] then [] else Assemble(insns[0]) + AssembleAll(insns[1..])
  }

  /** The instructions with the sizes they are written in. */
  function Sized(insns: seq<Insn>): (ops: seq<Fetched>)
    ensures |ops| == |insns|
  {
    if insns == [] then [] else [Fetched(insns[0], |Assemble(insns[0])|)] + Sized(insns[1..])
  }

  lemma {:induction false} CstrBack(name: string, rest: seq<byte>)
    requires Plain(name)
    ensures ReadCstr(Chars(name) + [0] + rest) == Ok(Reading(name, |name| + 1))
  {
    var s := Chars(name) + [0] + rest;
    forall k | 0 <= k < |name|
      ensures s[k] == name[k] as int && s[k] != 0
    {
      CharsAt(name, k);
    }
    NulIndexIs(s, |name|);
    assert Text(s[..|name|]) == name;
  }

  lemma SlebOperand(op: byte, v: i64)
    ensures ReadSleb(([op] + EncodeSleb(v))[1..]) == Ok(Reading(v, |EncodeSleb(v)|))
  {
    SlebRoundTrip(v, []);
    assert ([op] + EncodeSleb(v))[1..] == EncodeSleb(v) + [];
  }

  lemma {:induction false} FetchAssembled(insn: Insn)
    requires Writable(insn)
    ensures Fetch(Assemble(insn)) == Ok(Fetched(insn, |Assemble(insn)|))
  {
    hide Plain, Fetch;
    match insn {
      case SetSymbol(flags, name) => SymbolBack(flags, name);
      case DoBindTimesSkipping(count, skip) => BurstBack(count, skip);
      case SetOrdinal(_) => OperandBack(insn);
      case SetAddend(_) => OperandBack(insn);
      case SetSegmentAndOffset(_, _) => OperandBack(insn);
      case AddAddr(_) => OperandBack(insn);
      case DoBindAddAddr(_) => OperandBack(insn);
      case _ => ImmediateBack(insn);
    }
  }

  lemma {:induction false} ImmediateBack(insn: Insn)
    requires insn.Done? || insn.SetOrdinalImm? || insn.SetSpecial? || insn.SetType? || insn.DoBind? || insn.DoBindScaled?
    ensures Fetch(Assemble(insn)) == Ok(Fetched(insn, |Assemble(insn)|))
  {
    hide ReadUleb, ReadSleb, ReadCstr;
  }

  lemma {:induction false} OperandBack(insn: Insn)
    requires insn.SetOrdinal? || insn.SetAddend? || insn.SetSegmentAndOffset? || insn.AddAddr? || insn.DoBindAddAddr?
    ensures Fetch(Assemble(insn)) == Ok(Fetched(insn, |Assemble(insn)|))
  {
    hide EncodeUleb, EncodeSleb, ReadUleb, ReadSleb, ReadCstr;
    match insn {
      case SetOrdinal(v) => FetchOneOperand(0x20, v);
      case SetAddend(v) => SlebOperand(0x60, v);
      case SetSegmentAndOffset(seg, off) => FetchOneOperand(0x70 + seg, off);
      case AddAddr(delta) => FetchOneOperand(0x80, delta);
      case DoBindAddAddr(delta) => FetchOneOperand(0xA0, delta);
    }
  }

  lemma {:induction false} SymbolBack(flags: nibble, name: string)
    requires Plain(name)
    ensures Fetch([0x40 + flags] + (Chars(name) + [0])) == Ok(Fetched(SetSymbol(flags, name), |name| + 2))
  {
    hide ReadUleb, ReadSleb, ReadCstr, Chars, Plain;
    CstrBack(name, []);
    assert ([0x40 + flags] + (Chars(name) + [0]))[1..] == Chars(name) + [0] + [];
  }

  lemma BurstBack(count: u64, skip: u64)
    ensures var s := [0xC0] + EncodeUleb(count) + EncodeUleb(skip);
            Fetch(s) == Ok(Fetched(DoBindTimesSkipping(count, skip), |s|))
  {
    hide EncodeUleb, ReadUleb, ReadSleb, ReadCstr;
    var s := [0xC0] + EncodeUleb(count) + EncodeUleb(skip);
    EncodedOperand(count);
    EncodedOperand(skip);
    FetchOperand(0xC0, EncodeUleb(count), EncodeUleb(skip), count);
    assert s[1..][|EncodeUleb(count)|..] == EncodeUleb(skip);
  }

  /** The disassembler inverts the assembler on every program that has bytes. */
  lemma {:induction false} DisassembleAssembled(insns: seq<Insn>)
    requires forall i :: 0 <= i < |insns| ==> Writable(insns[i])
    ensures Disassemble(AssembleAll(insns)) == Ok(Sized(insns))
    decreases |insns|
  {
    hide Fetch, Assemble, Writable;
    if insns != [] {
      var s, rest := Assemble(insns[0]), AssembleAll(insns[1..]);
      FetchAssembled(insns[0]);
      FetchExtends(s, rest);
      assert (s + rest)[|s|..] == rest;
      DisassembleAssembled(insns[1..]);
    }
  }

  /** Records that the opcodes can express: the kind has one code, and the symbol has bytes. */
  ghost predicate Expressible(r: Bind) {
    Plain(r.symbol) && r.kind != Other(1)
  }

  /** One record as opcodes that do not depend on the state before it. */
  function EncodeRecord(r: Bind): (insns: seq<Insn>) {
    [SetOrdinal(Wrap(r.libOrdinal))] + ([SetSymbol(if r.weak then 1 else 0, r.symbol)]
    + ([SetType(if r.kind.Pointer? then 1 else r.kind.code)] + ([SetAddend(r.addend)]
    + ([SetSegmentAndOffset(r.segIndex, r.segOffset)] + [DoBind]))))
  }

  function EncodeRecords(rs: seq<Bind>): (insns: seq<Insn>) {
    if rs == [] then [] else EncodeRecord(rs[0]) + EncodeRecords(rs[1..])
  }

  lemma {:induction false} SizedAppend(a: seq<Insn>, b: seq<Insn>)
    ensures Sized(a + b) == Sized(a) + Sized(b)
    decreases |a|
  {
    hide Assemble;
    if a == [] {
      assert a + b == b && [] + Sized(b) == Sized(b);
    } else {
      assert (a + b)[1..] == a[1..] + b;
      SizedAppend(a[1..], b);
    }
  }

  /** The six opcodes emit their record from any state. */
  lemma {:induction false} RecordMeans(r: Bind, at: Bind)
    requires Expressible(r)
    ensures Run(Sized(EncodeRecord(r)), at).out == [r]
  {
    hide Plain, Run, Sized, Wrap;
    SignedOfWrap(r.libOrdinal);
    var rest5 := [SetSegmentAndOffset(r.segIndex, r.segOffset)] + [DoBind];
    var rest4 := [SetAddend(r.addend)] + rest5;
    var rest3 := [SetType(if r.kind.Pointer? then 1 else r.kind.code)] + rest4;
    var rest2 := [SetSymbol(if r.weak then 1 else 0, r.symbol)] + rest3;
    var at1 := at.(libOrdinal := r.libOrdinal);
    var at2 := at1.(weak := r.weak, symbol := r.symbol);
    var at3 := at2.(kind := r.kind);
    var at4 := at3.(addend := r.addend);
    SetThen(SetOrdinal(Wrap(r.libOrdinal)), rest2, at, at1);
    SetThen(SetSymbol(if r.weak then 1 else 0, r.symbol), rest3, at1, at2);
    SetThen(SetType(if r.kind.Pointer? then 1 else r.kind.code), rest4, at2, at3);
    SetThen(SetAddend(r.addend), rest5, at3, at4);
    SetThen(SetSegmentAndOffset(r.segIndex, r.segOffset), [DoBind], at4, r);
    BindOnce(r);
  }

  /** An instruction that only sets state passes it on. */
  lemma {:induction false} SetThen(insn: Insn, rest: seq<Insn>, at: Bind, next: Bind)
    requires Step(insn, at) == Trace([], next)
    ensures Run(Sized([insn] + rest), at).out == Run(Sized(rest), next).out
  {
    hide Assemble, Step;
    assert ([insn] + rest)[1..] == rest;
    var ops := Sized([insn] + rest);
    assert ops[0].insn == insn && ops[1..] == Sized(rest);
  }

  lemma {:induction false} BindOnce(at: Bind)
    ensures Run(Sized([DoBind]), at).out == [at]
  {
    hide Advance;
    assert [DoBind][1..] == [];
    var ops := Sized([DoBind]);
    assert ops[0].insn == DoBind && ops[1..] == [];
  }

  lemma {:induction false} RecordsMean(rs: seq<Bind>, at: Bind)
    requires forall i :: 0 <= i < |rs| ==> Expressible(rs[i])
    ensures Run(Sized(EncodeRecords(rs)), at).out == rs
    decreases |rs|
  {
    hide Expressible, EncodeRecord, Assemble, Step;
    if rs != [] {
      var a, b := EncodeRecord(rs[0]), EncodeRecords(rs[1..]);
      SizedAppend(a, b);
      RunAppend(Sized(a), Sized(b), at);
      RecordMeans(rs[0], at);
      RecordsMean(rs[1..], Run(Sized(a), at).state);
      assert [rs[0]] + rs[1..] == rs;
    }
  }

  lemma {:induction false} RecordsAreWritable(rs: seq<Bind>)
    requires forall i :: 0 <= i < |rs| ==> Expressible(rs[i])
    ensures forall i :: 0 <= i < |EncodeRecords(rs)| ==> Writable(EncodeRecords(rs)[i])
    decreases |rs|
  {
    hide Plain;
    if rs != [] {
      assert Expressible(rs[0]);
      RecordsAreWritable(rs[1..]);
    }
  }

  /** Decoding inverts encoding for every list of records the opcodes can express. */
  lemma {:induction false} BindRoundTrip(rs: seq<Bind>)
    requires forall i :: 0 <= i < |rs| ==> Expressible(rs[i])
    ensures Decode(AssembleAll(EncodeRecords(rs)), INITIAL).Ok?
    ensures Decode(AssembleAll(EncodeRecords(rs)), INITIAL).value.out == rs
  {
    hide Disassemble, Run, Sized, EncodeRecords, Expressible, Writable;
    RecordsAreWritable(rs);
    DisassembleAssembled(EncodeRecords(rs));
    RecordsMean(rs, INITIAL);
  }

  // ---- the two parsers in lock-step ----------------------------------------------------------------------

  predicate Compound(insn: Insn) {
    insn.DoBindAddAddr? || insn.DoBindScaled? || insn.DoBindTimesSkipping?
  }

  /** The stream uses none of the compound binds, as lazy streams are expected not to. */
  ghost predicate Simple(ops: seq<Fetched>) {
    forall i :: 0 <= i < |ops| ==> !Compound(ops[i].insn)
  }

  /** Where only simple opcodes occur, both parsers see the same instructions. */
  lemma {:induction false} SameInstructions(s: seq<byte>)
    requires Disassemble(s).Ok? && Simple(Disassemble(s).value)
    ensures LazyDisassemble(s) == Disassemble(s)
    decreases |s|
  {
    if s != [] {
      var first := Fetch(s).value;
      var ops := Disassemble(s).value;
      assert ops[0] == first && ops[1..] == Disassemble(s[first.size..]).value;
      assert !Compound(first.insn);
      SameInstructions(s[first.size..]);
    }
  }

  lemma {:induction false} LazyIsSimple(s: seq<byte>)
    ensures LazyDisassemble(s).Ok? ==> Simple(LazyDisassemble(s).value)
    decreases |s|
  {
    if s != [] && LazyFetch(s).Ok? {
      var first := LazyFetch(s).value;
      LazyIsSimple(s[first.size..]);
      LazyFetchIsSimple(s);
      if LazyDisassemble(s).Ok? {
        var rest := LazyDisassemble(s[first.size..]).value;
        SimpleCons(first, rest);
      }
    }
  }

  lemma {:induction false} LazyFetchIsSimple(s: seq<byte>)
    requires s != [] && LazyFetch(s).Ok?
    ensures !Compound(LazyFetch(s).value.insn)
  {
    hide ReadUleb, ReadSleb, ReadCstr;
  }

  lemma {:induction false} SimpleCons(first: Fetched, rest: seq<Fetched>)
    requires !Compound(first.insn) && Simple(rest)
    ensures Simple([first] + rest)
  {
  }

  /** The two parsers read a stream as the same instructions exactly when it uses no compound bind:
      the guard that skips those opcodes is the only place where they part. */
  lemma {:induction false} SameInstructionsIff(s: seq<byte>)
    requires Disassemble(s).Ok?
    ensures LazyDisassemble(s) == Disassemble(s) <==> Simple(Disassemble(s).value)
  {
    LazyIsSimple(s);
    hide LazyDisassemble, Simple;
    if Simple(Disassemble(s).value) { SameInstructions(s); }
  }

  /** For each bind in order, how many binds have passed since the slot was last set. */
  function Drifts(ops: seq<Fetched>, since: nat): (d: seq<nat>) {
    if ops == [] then []
    else match ops[0].insn
      case SetSegmentAndOffset(_, _) => Drifts(ops[1..], 0)
      case DoBind => [since] + Drifts(ops[1..], since + 1)
      case _ => Drifts(ops[1..], since)
  }

  /** The lazy state trails the full one by eight bytes for every bind since the slot was set. */
  ghost predicate Trails(full: Bind, lz: LazyState, since: nat) {
    && full.segIndex == lz.segIndex && full.symbol == lz.symbol
    && full.segOffset == Wrap(lz.segOffset + PTR * since)
  }

  ghost predicate Matches(full: seq<Bind>, lz: seq<LazyBind>, drifts: seq<nat>) {
    && |full| == |lz| == |drifts|
    && forall i :: 0 <= i < |full| ==>
         && full[i].symbol == lz[i].symbol && full[i].segIndex == lz[i].segIndex
         && full[i].segOffset == Wrap(lz[i].segOffset + PTR * drifts[i])
  }

  lemma WrapPlusLeft(a: int, b: int, c: int)
    ensures Wrap(Wrap(a + b) + c) == Wrap(Wrap(a + c) + b)
  {
    WrapPlus(a + b, c);
    WrapPlus(a + c, b);
  }

  /** A simple instruction keeps the trailing relation and emits the same on both sides. */
  lemma {:induction false} SimpleStep(op: Fetched, full: Bind, lz: LazyState, since: nat)
    requires !Compound(op.insn) && Trails(full, lz, since)
    ensures Trails(Step(op.insn, full).state, LazyStep(op, lz).state, After(op.insn, since))
    ensures op.insn.DoBind? ==>
              && Step(op.insn, full).out == [full]
              && LazyStep(op, lz).out == [LazyBind(lz.seqStart, lz.segIndex, lz.segOffset, lz.symbol)]
    ensures !op.insn.DoBind? ==> Step(op.insn, full).out == [] && LazyStep(op, lz).out == []
  {
    if op.insn.SetSegmentAndOffset? {
      assert Wrap(op.insn.offset + PTR * 0) == op.insn.offset;
    } else if op.insn.AddAddr? {
      hide Wrap;
      WrapPlusLeft(lz.segOffset, PTR * since, op.insn.delta);
    } else if op.insn.DoBind? {
      hide Wrap;
      WrapPlus(lz.segOffset + PTR * since, PTR);
    }
  }

  function After(insn: Insn, since: nat): nat {
    if insn.SetSegmentAndOffset? then 0 else if insn.DoBind? then since + 1 else since
  }

  lemma {:induction false} LockStep(ops: seq<Fetched>, full: Bind, lz: LazyState, since: nat)
    requires Simple(ops) && Trails(full, lz, since)
    ensures Matches(Run(ops, full).out, LazyRun(ops, lz).out, Drifts(ops, since))
  {
    if ops != [] {
      var op, rest := ops[0], ops[1..];
      var next := After(op.insn, since);
      SimpleStep(op, full, lz, since);
      assert Simple(rest);
      var full', lz' := Step(op.insn, full), LazyStep(op, lz);
      LockStep(rest, full'.state, lz'.state, next);
      hide Step, LazyStep, Wrap, Matches;
      var a, b, d := Run(rest, full'.state).out, LazyRun(rest, lz'.state).out, Drifts(rest, next);
      if op.insn.DoBind? {
        MatchesCons(full, LazyBind(lz.seqStart, lz.segIndex, lz.segOffset, lz.symbol), since, a, b, d);
      } else {
        assert Drifts(ops, since) == d;
        assert [] + a == a && [] + b == b;
      }
    }
  }

  lemma {:induction false} MatchesCons(
    full: Bind, lz: LazyBind, drift: nat, fulls: seq<Bind>, lzs: seq<LazyBind>, drifts: seq<nat>
  )
    requires full.symbol == lz.symbol && full.segIndex == lz.segIndex
    requires full.segOffset == Wrap(lz.segOffset + PTR * drift)
    requires Matches(fulls, lzs, drifts)
    ensures Matches([full] + fulls, [lz] + lzs, [drift] + drifts)
  {
    hide Wrap;
  }

  /** On every stream of simple opcodes the lazy parser succeeds when the full parser does and
      finds the same binds in the same order. Its slots agree with the full parser's exactly
      for the binds that no other bind separates from the setting of their slot. */
  lemma {:induction false} LazyParserAgrees(s: seq<byte>)
    requires Disassemble(s).Ok? && Simple(Disassemble(s).value)
    ensures LazyDecode(s, LAZY_INITIAL).Ok?
    ensures var full, lz := Decode(s, INITIAL).value.out, LazyDecode(s, LAZY_INITIAL).value.out;
            var drifts := Drifts(Disassemble(s).value, 0);
            Matches(full, lz, drifts)
  {
    SameInstructions(s);
    LockStep(Disassemble(s).value, INITIAL, LAZY_INITIAL, 0);
  }

  lemma {:induction false} SlotsAgreeIff(full: seq<Bind>, lz: seq<LazyBind>, drifts: seq<nat>, i: nat)
    requires Matches(full, lz, drifts) && i < |full|
    ensures full[i].segOffset == lz[i].segOffset <==> PTR * drifts[i] % TWO_64 == 0
  {
    var a, b := lz[i].segOffset, PTR * drifts[i];
    assert full[i].segOffset == Wrap(a + b);
    WrapPlus(b, a);
  }
}
