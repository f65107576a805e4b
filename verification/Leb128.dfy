/** LEB128 numbers (DWARF 5 section 7.6) as the two dyld stream parsers read them. */
module Leb128 {
  import opened Words

  datatype Reading<T> = Reading(value: T, size: nat)

  // ---- what an encoding denotes ----------------------------------------------------------

  /** Number of bytes up to and including the first one without the continuation bit. */
  function LebLength(s: seq<byte>): (n: Option<nat>)
    ensures n.Some? ==> 0 < n.value <= |s|
  {
    if s == [] then None
    else if s[0] < 128 then Some(1)
    else match LebLength(s[1..])
      case None => None
      case Some(k) => Some(k + 1)
  }

  /** The unbounded number spelled by the low seven bits of each byte. */
  function Base128(s: seq<byte>): (v: nat) {
    if s == [] then 0 else s[0] % 128 + 128 * Base128(s[1..])
  }

  /** The unbounded signed number: bit 6 of the last byte carries weight -128^n/2. */
  function SignedBase128(s: seq<byte>): (v: int)
    requires s != []
  {
    Base128(s) - (if s[|s| - 1] % 128 >= 64 then Pow2(7 * |s|) else 0)
  }

  function ReadUleb(s: seq<byte>): (r: Result<Reading<u64>, EmuError>)
    ensures r.Ok? ==> 0 < r.value.size <= |s|
  {
    match LebLength(s)
    case None => Err(UlebTruncated)
    case Some(n) => Ok(Reading(Wrap(Base128(s[..n])), n))
  }

  /** The accumulator of the signed reader after the bytes `s`. The shift amount is not
      guarded there, so the release build reduces it modulo the word size. */
  function SlebBits(s: seq<byte>): (bits: u64) {
    if s == [] then 0
    else
      var k := |s| - 1;
      OrFits(SlebBits(s[..k]), ShiftLeft(s[k] % 128, 7 * k % 64));
      BitOr(SlebBits(s[..k]), ShiftLeft(s[k] % 128, 7 * k % 64))
  }

  function SignExtend(bits: u64, shift: nat, negative: bool): (r: u64) {
    if shift < 64 && negative then
      OrFits(bits, ShiftLeft(TWO_64 - 1, shift));
      BitOr(bits, ShiftLeft(TWO_64 - 1, shift))
    else bits
  }

  function ReadSleb(s: seq<byte>): (r: Result<Reading<i64>, EmuError>)
    ensures r.Ok? ==> 0 < r.value.size <= |s|
  {
    match LebLength(s)
    case None => Err(SlebTruncated)
    case Some(n) =>
      Ok(Reading(Signed(SignExtend(SlebBits(s[..n]), 7 * n, s[n - 1] % 128 >= 64)), n))
  }

  lemma {:induction false} OrBound(a: nat, b: nat, k: nat)
    requires a < Pow2(k) && b < Pow2(k)
    ensures BitOr(a, b) < Pow2(k)
  {
    if k > 0 && (a != 0 || b != 0) {
      OrBound(a / 2, b / 2, k - 1);
    }
  }

  lemma OrFits(a: u64, b: u64)
    ensures BitOr(a, b) < TWO_64
  {
    Pow2SixtyFour();
    OrBound(a, b, 64);
  }

  // ---- facts about terminated prefixes ---------------------------------------------------

  lemma {:induction false} LebLengthShape(s: seq<byte>)
    ensures LebLength(s).Some? ==>
              var n := LebLength(s).value;
              s[n - 1] < 128 && forall i :: 0 <= i < n - 1 ==> s[i] >= 128
    ensures LebLength(s).None? ==> forall i :: 0 <= i < |s| ==> s[i] >= 128
  {
    if s != [] && s[0] >= 128 {
      LebLengthShape(s[1..]);
      assert forall i :: 0 < i < |s| ==> s[i] == s[1..][i - 1];
    }
  }

  lemma {:induction false} LebLengthNone(s: seq<byte>)
    requires forall i :: 0 <= i < |s| ==> s[i] >= 128
    ensures LebLength(s).None?
  {
    if s != [] {
      LebLengthNone(s[1..]);
    }
  }

  lemma {:induction false} LebLengthIs(s: seq<byte>, n: nat)
    requires 0 < n <= |s| && s[n - 1] < 128
    requires forall i :: 0 <= i < n - 1 ==> s[i] >= 128
    ensures LebLength(s) == Some(n)
  {
    if n > 1 {
      assert s[0] >= 128;
      LebLengthIs(s[1..], n - 1);
    }
  }

  /** A complete encoding is read without looking at what follows it. */
  lemma {:induction false} LebLengthExtends(s: seq<byte>, rest: seq<byte>)
    requires LebLength(s).Some?
    ensures LebLength(s + rest) == LebLength(s)
    ensures ReadUleb(s + rest) == ReadUleb(s)
    ensures ReadSleb(s + rest) == ReadSleb(s)
  {
    var n := LebLength(s).value;
    LebLengthShape(s);
    LebLengthIs(s + rest, n);
    assert (s + rest)[..n] == s[..n];
  }

  lemma {:induction false} Base128Snoc(s: seq<byte>, b: byte)
    ensures Base128(s + [b]) == Base128(s) + b % 128 * Pow2(7 * |s|)
  {
    if s == [] {
      assert [b][1..] == [];
    } else {
      Base128Snoc(s[1..], b);
      assert (s + [b])[1..] == s[1..] + [b];
      Pow2Seven();
      Pow2Add(7, 7 * (|s| - 1));
      Swap128(b % 128, Pow2(7 * (|s| - 1)));
    }
  }

  lemma Swap128(d: int, p: int)
    ensures 128 * (d * p) == d * (128 * p)
  {
  }

  lemma {:induction false} Base128Bound(s: seq<byte>)
    ensures Base128(s) < Pow2(7 * |s|)
  {
    if s != [] {
      Base128Bound(s[1..]);
      Pow2Seven();
      Pow2Add(7, 7 * (|s| - 1));
    }
  }

  lemma {:induction false} Pow2Monotone(m: nat, n: nat)
    requires m <= n
    ensures Pow2(m) <= Pow2(n)
  {
    Pow2Add(n - m, m);
    assert Pow2(n - m) * Pow2(m) >= Pow2(m);
  }

  /** Or-ing in digits above `v`, less those that leave the word, is addition modulo 2^64. */
  lemma OrShift(v: nat, d: nat, k: nat)
    requires k < 64 && v < Pow2(k)
    ensures v < TWO_64
    ensures BitOr(v, ShiftLeft(d, k)) == Wrap(v + d * Pow2(k))
  {
    hide BitOr;
    BelowWord(k);
    ShiftLeftKeeps(d, k);
    BitOrAbove(v, d % Pow2(64 - k), k);
    WrapSum(v, d * Pow2(k));
  }

  lemma BelowWord(k: nat)
    requires k <= 64
    ensures Pow2(k) <= TWO_64
  {
    Pow2SixtyFour();
    Pow2Monotone(k, 64);
  }

  lemma WrapSum(v: nat, x: int)
    requires v + Wrap(x) < TWO_64
    ensures Wrap(v + x) == v + Wrap(x)
  {
  }

  /** Digits shifted past the word change nothing modulo 2^64. */
  lemma DropShift(v: int, d: nat, k: nat)
    requires 64 <= k
    ensures Wrap(v + d * Pow2(k)) == Wrap(v)
  {
    hide Pow2, Wrap;
    Pow2SixtyFour();
    Pow2Add(k - 64, 64);
    DropWords(v, d, Pow2(k - 64));
  }

  lemma DropWords(v: int, d: int, e: int)
    ensures Wrap(v + d * (e * TWO_64)) == Wrap(v)
  {
    hide Wrap;
    assert d * (e * TWO_64) == (d * e) * TWO_64;
    WrapShift(d * e, v);
  }

  /** One turn of the reader's loop: or-ing in seven more bits, or dropping them once the
      shift has left the word, extends the value modulo 2^64. */
  lemma {:induction false} UlebStep(s: seq<byte>, b: byte)
    ensures 7 * |s| < 64 ==>
              Wrap(Base128(s + [b])) == BitOr(Wrap(Base128(s)), ShiftLeft(b % 128, 7 * |s|))
    ensures 64 <= 7 * |s| ==> Wrap(Base128(s + [b])) == Wrap(Base128(s))
  {
    hide BitOr, Pow2, Base128;
    Base128Snoc(s, b);
    Base128Bound(s);
    AccumulatorStep(Base128(s), b % 128, 7 * |s|, Base128(s + [b]));
  }

  lemma AccumulatorStep(v: nat, d: nat, k: nat, next: nat)
    requires v < Pow2(k) && next == v + d * Pow2(k)
    ensures k < 64 ==> Wrap(next) == BitOr(Wrap(v), ShiftLeft(d, k))
    ensures 64 <= k ==> Wrap(next) == Wrap(v)
  {
    hide BitOr;
    if k < 64 {
      OrShift(v, d, k);
      SmallMod(v, TWO_64);
    } else {
      DropShift(v, d, k);
    }
  }

  // ---- the readers -------------------------------------------------------------------------

  /** The bytes from `start` up to `p` all continue. */
  ghost predicate Open(buf: seq<byte>, start: nat, p: nat)
    requires start <= p <= |buf|
  {
    forall i :: start <= i < p ==> buf[i] >= 128
  }

  lemma {:induction false} NeverEnds(buf: seq<byte>, start: nat)
    requires start <= |buf| && Open(buf, start, |buf|)
    ensures ReadUleb(buf[start..]) == Err(UlebTruncated) && ReadSleb(buf[start..]) == Err(SlebTruncated)
  {
    LebLengthNone(buf[start..]);
  }

  lemma {:induction false} EndsAt(buf: seq<byte>, start: nat, p: nat)
    requires start < p <= |buf| && Open(buf, start, p - 1) && buf[p - 1] < 128
    ensures LebLength(buf[start..]) == Some(p - start) && buf[start..][..p - start] == buf[start..p]
    ensures ReadUleb(buf[start..]) == Ok(Reading(Wrap(Base128(buf[start..p])), p - start))
    ensures ReadSleb(buf[start..])
            == Ok(Reading(Signed(SignExtend(SlebBits(buf[start..p]), 7 * (p - start), buf[p - 1] % 128 >= 64)),
                          p - start))
  {
    hide SlebBits, SignExtend, Base128, Wrap;
    LebLengthIs(buf[start..], p - start);
    assert buf[start..][..p - start] == buf[start..p];
    assert buf[start..p][p - start - 1] == buf[p - 1];
  }

  lemma {:induction false} UlebNext(buf: seq<byte>, start: nat, p: nat)
    requires start <= p < |buf|
    ensures var seen, k := Wrap(Base128(buf[start..p])), 7 * (p - start);
            Wrap(Base128(buf[start..p + 1]))
            == if k < 64 then BitOr(seen, ShiftLeft(buf[p] % 128, k)) else seen
  {
    hide BitOr, Base128, ShiftLeft, Wrap;
    UlebStep(buf[start..p], buf[p]);
    assert buf[start..p + 1] == buf[start..p] + [buf[p]];
  }

  lemma {:induction false} SlebNext(buf: seq<byte>, start: nat, p: nat)
    requires start <= p < |buf|
    ensures SlebBits(buf[start..p + 1])
            == BitOr(SlebBits(buf[start..p]), ShiftLeft(buf[p] % 128, 7 * (p - start) % 64))
  {
    hide BitOr, ShiftLeft;
    var u := buf[start..p + 1];
    assert u[..p - start] == buf[start..p] && u[p - start] == buf[p];
  }

  lemma NothingRead()
    ensures Wrap(Base128([])) == 0 && SlebBits([]) == 0
  {
  }

  /** `read_uleb`: accumulates seven bits a turn; bits shifted past the word are dropped. */
  method ReadUlebAt(buf: seq<byte>, start: nat) returns (r: Result<u64, EmuError>, p: nat)
    requires start <= |buf|
    ensures p <= |buf|
    ensures match ReadUleb(buf[start..])
            case Ok(reading) => r == Ok(reading.value) && p == start + reading.size
            case Err(e) => r == Err(e)
  {
    hide BitOr, Base128, ShiftLeft, Wrap, ReadUleb, ReadSleb, LebLength, SlebBits, SignExtend;
    var result: u64 := 0;
    var shift := 0;
    p := start;
    NothingRead();
    assert buf[start..p] == [];
    while true
      invariant start <= p <= |buf| && shift == 7 * (p - start)
      invariant result == Wrap(Base128(buf[start..p])) && Open(buf, start, p)
      decreases |buf| - p
    {
      if p == |buf| {
        NeverEnds(buf, start);
        return Err(UlebTruncated), p;
      }
      var b := buf[p];
      UlebNext(buf, start, p);
      p := p + 1;
      if shift < 64 {
        OrFits(result, ShiftLeft(b % 128, shift));
        result := BitOr(result, ShiftLeft(b % 128, shift));
      }
      shift := shift + 7;
      if b < 128 {
        EndsAt(buf, start, p);
        return Ok(result), p;
      }
    }
  }

  /** `read_sleb`: the same loop without the guard, then sign extension below bit 64. */
  method ReadSlebAt(buf: seq<byte>, start: nat) returns (r: Result<i64, EmuError>, p: nat)
    requires start <= |buf|
    ensures p <= |buf|
    ensures match ReadSleb(buf[start..])
            case Ok(reading) => r == Ok(reading.value) && p == start + reading.size
            case Err(e) => r == Err(e)
  {
    hide BitOr, Base128, ShiftLeft, Wrap, ReadUleb, ReadSleb, LebLength, SlebBits, SignExtend, Signed;
    var result: u64 := 0;
    var shift := 0;
    p := start;
    NothingRead();
    assert buf[start..p] == [];
    while true
      invariant start <= p <= |buf| && shift == 7 * (p - start)
      invariant result == SlebBits(buf[start..p]) && Open(buf, start, p)
      decreases |buf| - p
    {
      if p == |buf| {
        NeverEnds(buf, start);
        return Err(SlebTruncated), p;
      }
      var b := buf[p];
      SlebNext(buf, start, p);
      p := p + 1;
      OrFits(result, ShiftLeft(b % 128, shift % 64));
      result := BitOr(result, ShiftLeft(b % 128, shift % 64));
      shift := shift + 7;
      if b < 128 {
        EndsAt(buf, start, p);
        return Ok(Signed(SignExtend(result, shift, b % 128 >= 64))), p;
      }
    }
  }

  // ---- what the signed reader computes -------------------------------------------------------

  /** While the shift stays in the word the two accumulators agree. */
  lemma {:induction false} SlebBitsAre(s: seq<byte>)
    requires |s| <= 10
    ensures SlebBits(s) == Wrap(Base128(s))
  {
    if s != [] {
      var k := |s| - 1;
      assert s == s[..k] + [s[k]];
      SlebBitsAre(s[..k]);
      SlebBitsGrow(s[..k], s[k]);
    }
  }

  lemma {:induction false} SlebBitsGrow(t: seq<byte>, b: byte)
    requires |t| <= 9 && SlebBits(t) == Wrap(Base128(t))
    ensures SlebBits(t + [b]) == Wrap(Base128(t + [b]))
  {
    hide BitOr, Pow2, Base128, ShiftLeft, Wrap;
    var k, u := |t|, t + [b];
    UlebStep(t, b);
    assert u[..k] == t && u[k] == b && |u| == k + 1;
    SmallMod(7 * k, 64);
    assert SlebBits(u) == BitOr(SlebBits(u[..k]), ShiftLeft(u[k] % 128, 7 * k % 64));
  }

  /** Up to ten bytes, the signed reader returns the denoted number as a 64-bit integer. The
      tenth byte needs no sign extension: it already reaches past the sign bit. */
  lemma {:induction false} ReadSlebDenotes(s: seq<byte>)
    requires LebLength(s).Some? && LebLength(s).value <= 10
    ensures var n := LebLength(s).value;
            ReadSleb(s) == Ok(Reading(Signed(Wrap(SignedBase128(s[..n]))), n))
  {
    hide BitOr, Pow2, Base128, SlebBits, ShiftLeft;
    var n := LebLength(s).value;
    var t := s[..n];
    SlebBitsAre(t);
    Base128Bound(t);
    SignStep(Base128(t), n);
  }

  lemma SignStep(v: nat, n: nat)
    requires n <= 10 && v < Pow2(7 * n)
    ensures SignExtend(Wrap(v), 7 * n, true) == Wrap(v - Pow2(7 * n))
  {
    hide BitOr, Pow2;
    if n <= 9 {
      SignBits(v, 7 * n);
      SmallMod(v, TWO_64);
    } else {
      var p := Pow2(7 * n);
      DropShift(v - p, 1, 7 * n);
    }
  }

  /** Or-ing in all the digits from `k` up subtracts 2^k modulo 2^64. */
  lemma SignBits(v: nat, k: nat)
    requires k < 64 && v < Pow2(k)
    ensures v < TWO_64
    ensures SignExtend(v, k, true) == Wrap(v - Pow2(k))
  {
    var p := Pow2(k);
    OrShift(v, TWO_64 - 1, k);
    assert v + (TWO_64 - 1) * p == p * TWO_64 + (v - p);
    WrapShift(p, v - p);
  }

  // ---- minimal encodings ------------------------------------------------------------------------

  function EncodeUleb(v: nat): (s: seq<byte>)
    ensures s != []
  {
    if v < 128 then [v] else [v % 128 + 128] + EncodeUleb(v / 128)
  }

  function EncodeSleb(v: int): (s: seq<byte>)
    ensures s != []
    decreases if v < 0 then -v else v
  {
    if -64 <= v < 64 then [v % 128] else [v % 128 + 128] + EncodeSleb(v / 128)
  }

  lemma {:induction false} EncodeUlebDenotes(v: nat)
    ensures LebLength(EncodeUleb(v)) == Some(|EncodeUleb(v)|)
    ensures Base128(EncodeUleb(v)) == v
  {
    if v < 128 {
      assert [v][1..] == [];
    } else {
      EncodeUlebDenotes(v / 128);
      assert EncodeUleb(v)[1..] == EncodeUleb(v / 128);
    }
  }

  /** `read_uleb` inverts minimal encoding for every 64-bit value, in any context. */
  lemma {:induction false} UlebRoundTrip(v: u64, rest: seq<byte>)
    ensures ReadUleb(EncodeUleb(v) + rest) == Ok(Reading(v, |EncodeUleb(v)|))
  {
    hide EncodeUleb, Base128, LebLength, Wrap;
    EncodeUlebDenotes(v);
    WrapSmall(v);
    LebLengthExtends(EncodeUleb(v), rest);
    assert EncodeUleb(v)[..|EncodeUleb(v)|] == EncodeUleb(v);
  }

  lemma {:induction false} SignedBase128Cons(b: byte, s: seq<byte>)
    requires s != []
    ensures SignedBase128([b] + s) == b % 128 + 128 * SignedBase128(s)
  {
    assert ([b] + s)[1..] == s;
    Pow2Seven();
    Pow2Add(7, 7 * |s|);
  }

  lemma {:induction false} EncodeSlebDenotes(v: int)
    ensures LebLength(EncodeSleb(v)) == Some(|EncodeSleb(v)|)
    ensures SignedBase128(EncodeSleb(v)) == v
    decreases if v < 0 then -v else v
  {
    hide SignedBase128;
    if -64 <= v < 64 {
      OneByte(v);
    } else {
      EncodeSlebDenotes(v / 128);
      assert EncodeSleb(v)[1..] == EncodeSleb(v / 128);
      SignedBase128Cons(v % 128 + 128, EncodeSleb(v / 128));
    }
  }

  lemma OneByte(v: int)
    requires -64 <= v < 64
    ensures SignedBase128([v % 128]) == v
  {
    Pow2Seven();
    assert [v % 128][1..] == [] && Base128([]) == 0;
  }

  lemma {:induction false} EncodeSlebFits(v: int, n: nat)
    requires 0 < n && -64 * Pow2(7 * (n - 1)) <= v < 64 * Pow2(7 * (n - 1))
    ensures |EncodeSleb(v)| <= n
    decreases n
  {
    if n == 1 {
      assert Pow2(0) == 1;
    } else if !(-64 <= v < 64) {
      Pow2Seven();
      Pow2Add(7, 7 * (n - 2));
      EncodeSlebFits(v / 128, n - 1);
    }
  }

  /** `read_sleb` inverts minimal signed encoding for every 64-bit value, in any context. */
  lemma {:induction false} SlebRoundTrip(v: i64, rest: seq<byte>)
    ensures ReadSleb(EncodeSleb(v) + rest) == Ok(Reading(v, |EncodeSleb(v)|))
  {
    hide EncodeSleb, SignedBase128, LebLength;
    EncodeSlebDenotes(v);
    assert |EncodeSleb(v)| <= 10 by {
      Pow2SixtyFour();
      assert Pow2(64) == 2 * Pow2(63);
      EncodeSlebFits(v, 10);
    }
    LebLengthExtends(EncodeSleb(v), rest);
    assert EncodeSleb(v)[..|EncodeSleb(v)|] == EncodeSleb(v);
    ReadSlebDenotes(EncodeSleb(v));
    SignedOfWrap(v);
  }
}
