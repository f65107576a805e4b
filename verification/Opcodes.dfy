/** What the opcode machines of dyld have in common: ULEB128 operands, and slots a stride apart. */
module Opcodes {
  import opened Words
  import opened Leb128

  const PTR: u64 := 8

  // ---- operands --------------------------------------------------------------------------------------

  /** An operand: a complete ULEB128 encoding, minimal or padded. */
  ghost predicate Encodes(s: seq<byte>, v: u64) {
    ReadUleb(s) == Ok(Reading(v, |s|))
  }

  lemma {:induction false} FetchOperand(op: byte, e: seq<byte>, rest: seq<byte>, v: u64)
    requires Encodes(e, v)
    ensures ReadUleb(([op] + e + rest)[1..]) == Ok(Reading(v, |e|))
    ensures ([op] + e + rest)[1 + |e|..] == rest
  {
    LebLengthExtends(e, rest);
    assert ([op] + e + rest)[1..] == e + rest;
  }

  lemma EncodedOperand(v: u64)
    ensures Encodes(EncodeUleb(v), v)
  {
    UlebRoundTrip(v, []);
    assert EncodeUleb(v) + [] == EncodeUleb(v);
  }

  lemma FetchOneOperand(op: byte, v: u64)
    ensures ReadUleb(([op] + EncodeUleb(v))[1..]) == Ok(Reading(v, |EncodeUleb(v)|))
  {
    EncodedOperand(v);
    assert ([op] + EncodeUleb(v))[1..] == EncodeUleb(v);
  }

  /** Reading is the same whatever follows a complete operand. */
  lemma {:induction false} OperandExtends(a: seq<byte>, b: seq<byte>)
    requires LebLength(a).Some?
    ensures ReadUleb(a + b) == ReadUleb(a) && ReadSleb(a + b) == ReadSleb(a)
    ensures (a + b)[LebLength(a).value..] == a[LebLength(a).value..] + b
    ensures ReadUleb(a).Ok? && ReadUleb(a).value.size == LebLength(a).value
  {
    LebLengthExtends(a, b);
  }

  // ---- strides -----------------------------------------------------------------------------------------

  /** Distance covered by `i` pointer slots with `skip` bytes after each. */
  function Span(i: int, skip: u64): (d: int) {
    i * (PTR + skip)
  }

  lemma SpanStep(i: int, skip: u64)
    ensures Span(i + 1, skip) == Span(i, skip) + PTR + skip
    ensures Span(0, skip) == 0
  {
  }

  function Copies<T>(s: seq<T>, n: nat): (r: seq<T>) {
    if n == 0 then [] else s + Copies(s, n - 1)
  }
}
