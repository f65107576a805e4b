/** What each byte of the dyld opcode streams does, said of the bytes themselves: together with the laws that
    decoding is sequential, these tables fix what the three parsers make of every stream. */
module OpcodeMeanings {
  import opened Words
  import opened Leb128
  import opened Opcodes
  import opened ByteText
  import Rebase = RebaseStream
  import Dyld = BindStream

  const WORD: int := 0x1_0000_0000_0000_0000

  /** A complete SLEB128 encoding. */
  ghost predicate SignedEncodes(s: seq<byte>, v: i64) {
    ReadSleb(s) == Ok(Reading(v, |s|))
  }

  /** No byte ends an operand. */
  ghost predicate Unended(s: seq<byte>) {
    forall i :: 0 <= i < |s| ==> s[i] >= 0x80
  }

  lemma {:induction false} UnendedFails(s: seq<byte>)
    requires Unended(s)
    ensures ReadUleb(s) == Err(UlebTruncated) && ReadSleb(s) == Err(SlebTruncated)
  {
    assert s[0..] == s;
    NeverEnds(s, 0);
  }

  lemma {:induction false} OneOperand(op: byte, e: seq<byte>, k: u64)
    requires Encodes(e, k)
    ensures ReadUleb(([op] + e)[1..]) == Ok(Reading(k, |e|))
  {
    assert ([op] + e)[1..] == e;
  }

  lemma {:induction false} TwoOperands(op: byte, en: seq<byte>, n: u64, ek: seq<byte>, k: u64)
    requires Encodes(en, n) && Encodes(ek, k)
    ensures var s := [op] + en + ek;
            && ReadUleb(s[1..]) == Ok(Reading(n, |en|))
            && ReadUleb(s[1..][|en|..]) == Ok(Reading(k, |ek|))
  {
    FetchOperand(op, en, ek, n);
    assert ([op] + en + ek)[1..][|en|..] == ek;
  }

  // ---- rebase -------------------------------------------------------------------------------------------------

  /** `k` bytes further on, modulo 2^64. */
  function Shifted(at: Rebase.Location, k: nat): Rebase.Location {
    at.(segOffset := (at.segOffset + k) % WORD)
  }

  /** `n` locations from `at`, `stride` apart, and the cursor after them. */
  ghost predicate Emits(r: Result<Rebase.Trace, EmuError>, at: Rebase.Location, n: nat, stride: nat) {
    && r.Ok? && |r.value.out| == n && r.value.cursor == Shifted(at, n * stride)
    && forall i :: 0 <= i < n ==> r.value.out[i] == Shifted(at, i * stride)
  }

  lemma {:induction false} RebaseSingle(s: seq<byte>, insn: Rebase.Insn, at: Rebase.Location)
    requires s != [] && Rebase.Fetch(s) == Ok(Rebase.Fetched(insn, |s|))
    ensures Rebase.Decode(s, at) == Ok(Rebase.Step(insn, at))
  {
    hide Rebase.Fetch, Rebase.Step;
    Rebase.SingleInsn(s, insn);
    Rebase.RunSingle(insn, at);
  }

  lemma {:induction false} RebaseBurst(at: Rebase.Location, n: nat, skip: u64)
    ensures Emits(Ok(Rebase.Burst(at, n, skip)), at, n, 8 + skip)
  {
    hide Rebase.Burst;
    Rebase.BurstAt(at, n, skip);
    forall i: nat
      ensures Rebase.Moved(at, Span(i, skip)) == Shifted(at, i * (8 + skip))
    {
      assert i * (8 + skip) >= 0;
    }
  }

  /** The opcodes without an operand. */
  lemma {:induction false} RebaseImmediates(imm: nibble, at: Rebase.Location)
    ensures Rebase.Decode([0x00 + imm], at) == Ok(Rebase.Trace([], at))
    ensures Rebase.Decode([0x10 + imm], at) == Ok(Rebase.Trace([], at.(rtype := imm)))
    ensures Rebase.Decode([0x40 + imm], at) == Ok(Rebase.Trace([], Shifted(at, 8 * imm)))
    ensures Emits(Rebase.Decode([0x50 + imm], at), at, imm, 8)
  {
    hide ReadUleb, Rebase.Disassemble, Rebase.Run, Rebase.Decode, Rebase.Burst, Emits;
    RebaseSingle([0x00 + imm], Rebase.Done, at);
    RebaseSingle([0x10 + imm], Rebase.SetType(imm), at);
    RebaseSingle([0x40 + imm], Rebase.AddAddrScaled(imm), at);
    RebaseSingle([0x50 + imm], Rebase.DoImmTimes(imm), at);
    RebaseBurst(at, imm, 0);
  }

  /** The opcodes with one operand; only the first of them reads the low four bits. */
  lemma {:induction false} RebaseOperands(imm: nibble, e: seq<byte>, k: u64, at: Rebase.Location)
    requires Encodes(e, k)
    ensures Rebase.Decode([0x20 + imm] + e, at) == Ok(Rebase.Trace([], Rebase.Location(imm, k, at.rtype)))
    ensures Rebase.Decode([0x30 + imm] + e, at) == Ok(Rebase.Trace([], Shifted(at, k)))
    ensures Emits(Rebase.Decode([0x60 + imm] + e, at), at, k, 8)
    ensures Rebase.Decode([0x70 + imm] + e, at) == Ok(Rebase.Trace([at], Shifted(at, 8 + k)))
  {
    hide ReadUleb, Rebase.Disassemble, Rebase.Run, Rebase.Decode, Rebase.Burst, Encodes, Emits;
    OneOperand(0x20 + imm, e, k);
    OneOperand(0x30 + imm, e, k);
    OneOperand(0x60 + imm, e, k);
    OneOperand(0x70 + imm, e, k);
    RebaseSingle([0x20 + imm] + e, Rebase.SetSegmentAndOffset(imm, k), at);
    RebaseSingle([0x30 + imm] + e, Rebase.AddAddr(k), at);
    RebaseSingle([0x60 + imm] + e, Rebase.DoTimes(k), at);
    RebaseSingle([0x70 + imm] + e, Rebase.DoAddAddr(k), at);
    RebaseBurst(at, k, 0);
    WrapPlus(at.segOffset + 8, k);
  }

  lemma {:induction false} RebaseSkipping(imm: nibble, en: seq<byte>, n: u64, ek: seq<byte>, k: u64, at: Rebase.Location)
    requires Encodes(en, n) && Encodes(ek, k)
    ensures Emits(Rebase.Decode([0x80 + imm] + en + ek, at), at, n, 8 + k)
  {
    hide ReadUleb, Rebase.Disassemble, Rebase.Run, Rebase.Decode, Rebase.Burst, Encodes, Emits;
    var s := [0x80 + imm] + en + ek;
    TwoOperands(0x80 + imm, en, n, ek, k);
    RebaseSingle(s, Rebase.DoTimesSkipping(n, k), at);
    RebaseBurst(at, n, k);
  }

  /** What no stream may hold, wherever the cursor: an opcode from 0x90 up, and an operand that does not end. */
  lemma {:induction false} RebaseFailures(s: seq<byte>, at: Rebase.Location)
    requires s != []
    ensures s[0] >= 0x90 ==> Rebase.Decode(s, at) == Err(UnknownOpcode(s[0] - s[0] % 16))
    ensures (0x20 <= s[0] < 0x40 || 0x60 <= s[0] < 0x90) && Unended(s[1..]) ==>
              Rebase.Decode(s, at) == Err(UlebTruncated)
  {
    hide ReadUleb;
    if Unended(s[1..]) {
      UnendedFails(s[1..]);
    }
  }

  lemma {:induction false} RebaseSecondMissing(imm: nibble, en: seq<byte>, n: u64, rest: seq<byte>, at: Rebase.Location)
    requires Encodes(en, n) && Unended(rest)
    ensures Rebase.Decode([0x80 + imm] + en + rest, at) == Err(UlebTruncated)
  {
    hide ReadUleb, Encodes;
    UnendedFails(rest);
    FetchOperand(0x80 + imm, en, rest, n);
    assert ([0x80 + imm] + en + rest)[1..][|en|..] == rest;
  }

  /** After any complete stream `ADD_ADDR_ULEB(k)` emits nothing and moves the cursor by `k`. */
  lemma {:induction false} AddAddrMoves(pre: seq<byte>, imm: nibble, e: seq<byte>, k: u64, at: Rebase.Location)
    requires Rebase.Decode(pre, at).Ok? && Encodes(e, k)
    ensures var first := Rebase.Decode(pre, at).value;
            Rebase.Decode(pre + ([0x30 + imm] + e), at) == Ok(Rebase.Trace(first.out, Shifted(first.cursor, k)))
  {
    hide Rebase.Decode, Encodes;
    RebaseOperands(imm, e, k, Rebase.Decode(pre, at).value.cursor);
    Rebase.DecodeAppend(pre, [0x30 + imm] + e, at);
    assert Rebase.Decode(pre, at).value.out + [] == Rebase.Decode(pre, at).value.out;
  }

  /** `DO_REBASE_ADD_ADDR_ULEB(k)` abbreviates one rebase followed by `ADD_ADDR_ULEB(k)`, between any complete prefix
      and any suffix. */
  lemma {:induction false} AddAddrIsMacro(pre: seq<byte>, e: seq<byte>, k: u64, post: seq<byte>, at: Rebase.Location)
    requires Rebase.Decode(pre, at).Ok? && Encodes(e, k)
    ensures Rebase.Decode(pre + ([0x51] + [0x30] + e) + post, at) == Rebase.Decode(pre + ([0x70] + e) + post, at)
  {
    hide Rebase.Decode, Encodes;
    var mid := Rebase.Decode(pre, at).value.cursor;
    RebaseImmediates(1, mid);
    RebaseOperands(0, e, k, Shifted(mid, 8));
    RebaseOperands(0, e, k, mid);
    var one := Rebase.Decode([0x51], mid).value;
    assert one.out == [Shifted(mid, 0)] && Shifted(mid, 0) == mid;
    Rebase.DecodeAppend([0x51], [0x30] + e, mid);
    assert [0x51] + ([0x30] + e) == [0x51] + [0x30] + e && [mid] + [] == [mid];
    WrapPlus(mid.segOffset + 8, k);
    Rebase.Interchangeable(pre, [0x51] + [0x30] + e, [0x70] + e, post, at);
  }

  // ---- bind ---------------------------------------------------------------------------------------------------

  function BindShifted(at: Dyld.Bind, k: nat): Dyld.Bind {
    at.(segOffset := (at.segOffset + k) % WORD)
  }

  ghost predicate Binds(r: Result<Dyld.Trace, EmuError>, at: Dyld.Bind, n: nat, stride: nat) {
    && r.Ok? && |r.value.out| == n && r.value.state == BindShifted(at, n * stride)
    && forall i :: 0 <= i < n ==> r.value.out[i] == BindShifted(at, i * stride)
  }

  lemma {:induction false} BindSingle(s: seq<byte>, insn: Dyld.Insn, at: Dyld.Bind)
    requires s != [] && Dyld.Fetch(s) == Ok(Dyld.Fetched(insn, |s|))
    ensures Dyld.Decode(s, at) == Ok(Dyld.Step(insn, at))
  {
    hide Dyld.Fetch, Dyld.Step;
    Dyld.SingleInsn(s, Dyld.Fetched(insn, |s|), at);
  }

  lemma {:induction false} BindBurst(at: Dyld.Bind, n: nat, skip: u64)
    ensures Binds(Ok(Dyld.Burst(at, n, skip)), at, n, 8 + skip)
  {
    hide Dyld.Burst;
    Dyld.BurstAt(at, n, skip);
    forall i: nat
      ensures Dyld.Moved(at, Span(i, skip)) == BindShifted(at, i * (8 + skip))
    {
      assert i * (8 + skip) >= 0;
    }
  }

  /** The opcodes without an operand that set state. */
  lemma {:induction false} BindSetters(imm: nibble, at: Dyld.Bind)
    ensures Dyld.Decode([0x00 + imm], at) == Ok(Dyld.Trace([], at))
    ensures Dyld.Decode([0x10 + imm], at) == Ok(Dyld.Trace([], at.(libOrdinal := imm)))
    ensures Dyld.Decode([0x30 + imm], at)
            == Ok(Dyld.Trace([], at.(libOrdinal := if imm == 0 then 0 else imm - 16)))
    ensures Dyld.Decode([0x50 + imm], at)
            == Ok(Dyld.Trace([], at.(kind := if imm == 1 then Dyld.Pointer else Dyld.Other(imm))))
  {
    hide ReadUleb, ReadSleb, Dyld.ReadCstr, Dyld.Disassemble, Dyld.Run, Dyld.Decode;
    BindSingle([0x00 + imm], Dyld.Done, at);
    BindSingle([0x10 + imm], Dyld.SetOrdinalImm(imm), at);
    BindSingle([0x30 + imm], Dyld.SetSpecial(imm), at);
    BindSingle([0x50 + imm], Dyld.SetType(imm), at);
  }

  /** Those that bind. */
  lemma {:induction false} BindOnce(imm: nibble, at: Dyld.Bind)
    ensures Dyld.Decode([0x90 + imm], at) == Ok(Dyld.Trace([at], BindShifted(at, 8)))
    ensures Dyld.Decode([0xB0 + imm], at) == Ok(Dyld.Trace([at], BindShifted(at, 8 + 8 * imm)))
  {
    hide ReadUleb, ReadSleb, Dyld.ReadCstr, Dyld.Disassemble, Dyld.Run, Dyld.Decode;
    BindSingle([0x90 + imm], Dyld.DoBind, at);
    BindSingle([0xB0 + imm], Dyld.DoBindScaled(imm), at);
    WrapPlus(at.segOffset + 8, 8 * imm);
  }

  /** The opcodes with one operand that set state; only the second of them reads the low four bits. */
  lemma {:induction false} BindSets(imm: nibble, e: seq<byte>, k: u64, at: Dyld.Bind)
    requires Encodes(e, k)
    ensures Dyld.Decode([0x20 + imm] + e, at)
            == Ok(Dyld.Trace([], at.(libOrdinal := if k < WORD / 2 then k else k - WORD)))
    ensures Dyld.Decode([0x70 + imm] + e, at) == Ok(Dyld.Trace([], at.(segIndex := imm, segOffset := k)))
  {
    hide ReadUleb, ReadSleb, Dyld.ReadCstr, Dyld.Disassemble, Dyld.Run, Dyld.Decode, Encodes;
    OneOperand(0x20 + imm, e, k);
    OneOperand(0x70 + imm, e, k);
    BindSingle([0x20 + imm] + e, Dyld.SetOrdinal(k), at);
    BindSingle([0x70 + imm] + e, Dyld.SetSegmentAndOffset(imm, k), at);
  }

  /** Those that move the slot. */
  lemma {:induction false} BindMoves(imm: nibble, e: seq<byte>, k: u64, at: Dyld.Bind)
    requires Encodes(e, k)
    ensures Dyld.Decode([0x80 + imm] + e, at) == Ok(Dyld.Trace([], BindShifted(at, k)))
    ensures Dyld.Decode([0xA0 + imm] + e, at) == Ok(Dyld.Trace([at], BindShifted(at, 8 + k)))
  {
    hide ReadUleb, ReadSleb, Dyld.ReadCstr, Dyld.Disassemble, Dyld.Run, Dyld.Decode, Encodes;
    OneOperand(0x80 + imm, e, k);
    OneOperand(0xA0 + imm, e, k);
    BindSingle([0x80 + imm] + e, Dyld.AddAddr(k), at);
    BindSingle([0xA0 + imm] + e, Dyld.DoBindAddAddr(k), at);
    WrapPlus(at.segOffset + 8, k);
  }

  lemma {:induction false} BindAddend(imm: nibble, e: seq<byte>, v: i64, at: Dyld.Bind)
    requires SignedEncodes(e, v)
    ensures Dyld.Decode([0x60 + imm] + e, at) == Ok(Dyld.Trace([], at.(addend := v)))
  {
    hide ReadUleb, ReadSleb, Dyld.ReadCstr, Dyld.Disassemble, Dyld.Run, Dyld.Decode;
    assert ([0x60 + imm] + e)[1..] == e;
    BindSingle([0x60 + imm] + e, Dyld.SetAddend(v), at);
  }

  /** The low bit of the flags marks a weak import. */
  lemma {:induction false} BindSymbol(flags: nibble, name: string, at: Dyld.Bind)
    requires Plain(name)
    ensures Dyld.Decode([0x40 + flags] + (Chars(name) + [0]), at)
            == Ok(Dyld.Trace([], at.(symbol := name, weak := flags % 2 == 1)))
  {
    hide ReadUleb, ReadSleb, Dyld.ReadCstr, Dyld.Disassemble, Dyld.Run, Dyld.Decode, Dyld.Fetch, Chars, Plain;
    Dyld.SymbolBack(flags, name);
    BindSingle([0x40 + flags] + (Chars(name) + [0]), Dyld.SetSymbol(flags, name), at);
  }

  lemma {:induction false} BindSkipping(imm: nibble, en: seq<byte>, n: u64, ek: seq<byte>, k: u64, at: Dyld.Bind)
    requires Encodes(en, n) && Encodes(ek, k)
    ensures Binds(Dyld.Decode([0xC0 + imm] + en + ek, at), at, n, 8 + k)
  {
    hide ReadUleb, ReadSleb, Dyld.ReadCstr, Dyld.Disassemble, Dyld.Run, Dyld.Decode, Dyld.Burst, Encodes, Binds;
    var s := [0xC0 + imm] + en + ek;
    TwoOperands(0xC0 + imm, en, n, ek, k);
    BindSingle(s, Dyld.DoBindTimesSkipping(n, k), at);
    BindBurst(at, n, k);
  }

  /** What no bind stream may hold: an opcode from 0xD0 up, an operand that does not end, a symbol without a NUL. */
  lemma {:induction false} BindFailures(s: seq<byte>, at: Dyld.Bind)
    requires s != []
    ensures s[0] >= 0xD0 ==> Dyld.Decode(s, at) == Err(UnknownOpcode(s[0] - s[0] % 16))
    ensures s[0] / 16 in {0x2, 0x7, 0x8, 0xA, 0xC} && Unended(s[1..]) ==> Dyld.Decode(s, at) == Err(UlebTruncated)
    ensures s[0] / 16 == 0x6 && Unended(s[1..]) ==> Dyld.Decode(s, at) == Err(SlebTruncated)
    ensures s[0] / 16 == 0x4 && 0 !in s[1..] ==> Dyld.Decode(s, at) == Err(SymbolUnterminated)
  {
    hide ReadUleb, ReadSleb;
    if Unended(s[1..]) {
      UnendedFails(s[1..]);
    }
    if 0 !in s[1..] {
      Dyld.NulIndexIs(s[1..], |s[1..]|);
    }
  }

  lemma {:induction false} BindSecondMissing(imm: nibble, en: seq<byte>, n: u64, rest: seq<byte>, at: Dyld.Bind)
    requires Encodes(en, n) && Unended(rest)
    ensures Dyld.Decode([0xC0 + imm] + en + rest, at) == Err(UlebTruncated)
  {
    hide ReadUleb, ReadSleb, Encodes;
    UnendedFails(rest);
    FetchOperand(0xC0 + imm, en, rest, n);
    assert ([0xC0 + imm] + en + rest)[1..][|en|..] == rest;
  }

  /** `DO_BIND_ADD_ADDR_ULEB(k)` abbreviates one bind followed by `ADD_ADDR_ULEB(k)`, between any complete prefix and
      any suffix. */
  lemma {:induction false} BindAddAddrIsMacro(pre: seq<byte>, e: seq<byte>, k: u64, post: seq<byte>, at: Dyld.Bind)
    requires Dyld.Decode(pre, at).Ok? && Encodes(e, k)
    ensures Dyld.Decode(pre + ([0x90] + [0x80] + e) + post, at) == Dyld.Decode(pre + ([0xA0] + e) + post, at)
  {
    hide Dyld.Decode, Encodes;
    var mid := Dyld.Decode(pre, at).value.state;
    BindOnce(0, mid);
    BindMoves(0, e, k, BindShifted(mid, 8));
    BindMoves(0, e, k, mid);
    Dyld.DecodeAppend([0x90], [0x80] + e, mid);
    assert [0x90] + ([0x80] + e) == [0x90] + [0x80] + e && [mid] + [] == [mid];
    WrapPlus(mid.segOffset + 8, k);
    Dyld.Interchangeable(pre, [0x90] + [0x80] + e, [0xA0] + e, post, at);
  }

  // ---- lazy bind ------------------------------------------------------------------------------------------------

  lemma {:induction false} LazySingle(s: seq<byte>, insn: Dyld.Insn, at: Dyld.LazyState)
    requires s != [] && Dyld.LazyFetch(s) == Ok(Dyld.Fetched(insn, |s|))
    ensures Dyld.LazyDecode(s, at) == Ok(Dyld.LazyStep(Dyld.Fetched(insn, |s|), at))
  {
    hide Dyld.LazyFetch, Dyld.LazyStep, Dyld.LazyRun;
    var op := Dyld.Fetched(insn, |s|);
    assert s[|s|..] == [] && [op] + [] == [op];
    assert Dyld.LazyDisassemble([]) == Ok([]);
    LazyRunOne(op, at);
  }

  lemma {:induction false} LazyRunOne(op: Dyld.Fetched, at: Dyld.LazyState)
    ensures Dyld.LazyRun([op], at) == Dyld.LazyStep(op, at)
  {
    hide Dyld.LazyStep;
    assert [op][1..] == [];
    assert Dyld.LazyStep(op, at).out + [] == Dyld.LazyStep(op, at).out;
  }

  /** Nothing but the read position. */
  function Passed(at: Dyld.LazyState, n: nat): Dyld.LazyState {
    at.(pos := at.pos + n)
  }

  /** `DONE` starts the next sequence after itself, a bind reports the sequence it belongs to and does not move, and
      from 0xA0 up a byte is passed over alone. */
  lemma {:induction false} LazyImmediates(imm: nibble, b: byte, at: Dyld.LazyState)
    ensures Dyld.LazyDecode([0x00 + imm], at) == Ok(Dyld.LazyTrace([], Passed(at, 1).(seqStart := at.pos + 1)))
    ensures Dyld.LazyDecode([0x90 + imm], at)
            == Ok(Dyld.LazyTrace([Dyld.LazyBind(at.seqStart, at.segIndex, at.segOffset, at.symbol)], Passed(at, 1)))
    ensures b >= 0xA0 ==> Dyld.LazyDecode([b], at) == Ok(Dyld.LazyTrace([], Passed(at, 1)))
  {
    hide ReadUleb, ReadSleb, Dyld.ReadCstr, Dyld.LazyDisassemble, Dyld.LazyRun, Dyld.LazyDecode;
    LazySingle([0x00 + imm], Dyld.Done, at);
    LazySingle([0x90 + imm], Dyld.DoBind, at);
    if b >= 0xA0 {
      LazySingle([b], Dyld.Ignored, at);
    }
  }

  /** Library ordinals and types do not matter to the lazy parser. */
  lemma {:induction false} LazyPasses(imm: nibble, e: seq<byte>, k: u64, at: Dyld.LazyState)
    requires Encodes(e, k)
    ensures Dyld.LazyDecode([0x10 + imm], at) == Ok(Dyld.LazyTrace([], Passed(at, 1)))
    ensures Dyld.LazyDecode([0x20 + imm] + e, at) == Ok(Dyld.LazyTrace([], Passed(at, 1 + |e|)))
    ensures Dyld.LazyDecode([0x30 + imm], at) == Ok(Dyld.LazyTrace([], Passed(at, 1)))
    ensures Dyld.LazyDecode([0x50 + imm], at) == Ok(Dyld.LazyTrace([], Passed(at, 1)))
  {
    hide ReadUleb, ReadSleb, Dyld.ReadCstr, Dyld.LazyDisassemble, Dyld.LazyRun, Dyld.LazyDecode, Encodes;
    OneOperand(0x20 + imm, e, k);
    LazySingle([0x10 + imm], Dyld.SetOrdinalImm(imm), at);
    LazySingle([0x20 + imm] + e, Dyld.SetOrdinal(k), at);
    LazySingle([0x30 + imm], Dyld.SetSpecial(imm), at);
    LazySingle([0x50 + imm], Dyld.SetType(imm), at);
  }

  lemma {:induction false} LazyOperands(imm: nibble, e: seq<byte>, k: u64, at: Dyld.LazyState)
    requires Encodes(e, k)
    ensures Dyld.LazyDecode([0x70 + imm] + e, at)
            == Ok(Dyld.LazyTrace([], Passed(at, 1 + |e|).(segIndex := imm, segOffset := k)))
    ensures Dyld.LazyDecode([0x80 + imm] + e, at)
            == Ok(Dyld.LazyTrace([], Passed(at, 1 + |e|).(segOffset := (at.segOffset + k) % WORD)))
  {
    hide ReadUleb, ReadSleb, Dyld.ReadCstr, Dyld.LazyDisassemble, Dyld.LazyRun, Dyld.LazyDecode, Encodes;
    OneOperand(0x70 + imm, e, k);
    OneOperand(0x80 + imm, e, k);
    LazySingle([0x70 + imm] + e, Dyld.SetSegmentAndOffset(imm, k), at);
    LazySingle([0x80 + imm] + e, Dyld.AddAddr(k), at);
  }

  lemma {:induction false} LazyTexts(imm: nibble, e: seq<byte>, v: i64, name: string, at: Dyld.LazyState)
    requires SignedEncodes(e, v) && Plain(name)
    ensures Dyld.LazyDecode([0x60 + imm] + e, at) == Ok(Dyld.LazyTrace([], Passed(at, 1 + |e|)))
    ensures Dyld.LazyDecode([0x40 + imm] + (Chars(name) + [0]), at)
            == Ok(Dyld.LazyTrace([], Passed(at, 2 + |name|).(symbol := name)))
  {
    hide ReadUleb, ReadSleb, Dyld.ReadCstr, Dyld.LazyDisassemble, Dyld.LazyRun, Dyld.LazyDecode, Chars, Plain;
    assert ([0x60 + imm] + e)[1..] == e;
    LazySingle([0x60 + imm] + e, Dyld.SetAddend(v), at);
    hide Dyld.Fetch;
    Dyld.SymbolBack(imm, name);
    LazySingle([0x40 + imm] + (Chars(name) + [0]), Dyld.SetSymbol(imm, name), at);
  }

  /** What no lazy stream may hold: below 0xA0 an operand that does not end, or a symbol without a NUL. */
  lemma {:induction false} LazyFailures(s: seq<byte>, at: Dyld.LazyState)
    requires s != []
    ensures s[0] / 16 in {0x2, 0x7, 0x8} && Unended(s[1..]) ==> Dyld.LazyDecode(s, at) == Err(UlebTruncated)
    ensures s[0] / 16 == 0x6 && Unended(s[1..]) ==> Dyld.LazyDecode(s, at) == Err(SlebTruncated)
    ensures s[0] / 16 == 0x4 && 0 !in s[1..] ==> Dyld.LazyDecode(s, at) == Err(SymbolUnterminated)
  {
    hide ReadUleb, ReadSleb;
    if Unended(s[1..]) {
      UnendedFails(s[1..]);
    }
    if 0 !in s[1..] {
      Dyld.NulIndexIs(s[1..], |s[1..]|);
    }
  }
}
