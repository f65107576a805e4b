/** Machine words as the release build sees them: bytes and 64-bit words are bounded
    integers, plain `+` and `-` on them wrap, and bit operations are given over the binary
    digits so that shifting and or-ing can be related to arithmetic. */
module Words {

  type byte = x: int | 0 <= x < 0x100
  type u32 = x: int | 0 <= x < 0x1_0000_0000
  type u64 = x: int | 0 <= x < 0x1_0000_0000_0000_0000
  type i64 = x: int | -0x8000_0000_0000_0000 <= x < 0x8000_0000_0000_0000

  const TWO_64: int := 0x1_0000_0000_0000_0000
  const PAGE_SIZE: u64 := 0x4000

  /** No Rust allocation reaches this many bytes: `isize::MAX` is the largest, and asking for more is a panic. */
  const ALLOC_LIMIT: int := 0x8000_0000_0000_0000

  /** A slice of bytes, which is never longer than an allocation can be. */
  type Buffer = s: seq<byte> | |s| < 0x8000_0000_0000_0000

  type nibble = x: int | 0 <= x < 16

  datatype Option<+T> = None | Some(value: T)

  datatype Result<+T, +E> = Ok(value: T) | Err(error: E) {
    predicate IsFailure() { Err? }
    function PropagateFailure<U>(): Result<U, E>
      requires Err?
    {
      Err(error)
    }
    function Extract(): T
      requires Ok?
    {
      value
    }
  }

  /** Every failure the modelled operations report. `Aborted` stands for a Rust panic, which
      the release profile turns into process termination. */
  datatype EmuError =
    | Unmapped | BeforeRegion | LengthOverflow | PastRegionEnd | ProtectionViolation
    | MapOverflow | MapOverlap | InitExceedsRegion | ArenaExhausted | HeapOverflow | HeapExhausted
    | UlebTruncated | SlebTruncated | SymbolUnterminated | UnknownOpcode(opcode: byte)
    | Encrypted | StreamOutOfRange | NoEntryPoint | Aborted

  // ---- wrapping arithmetic -------------------------------------------------------------

  function Wrap(x: int): (w: u64) {
    x % TWO_64
  }

  lemma WrapSmall(x: int)
    requires 0 <= x < TWO_64
    ensures Wrap(x) == x
  {
  }

  lemma WrapPlus(a: int, b: int)
    ensures Wrap(Wrap(a) + b) == Wrap(a + b)
  {
  }

  function Max(a: int, b: int): int {
    if a < b then b else a
  }

  /** Rounds up to a multiple of `align`; the addition wraps, as plain `+` does. */
  function AlignUp(value: u64, align: u64): (r: u64)
    requires 0 < align
  {
    AlignDown(Wrap(value + (align - 1)), align)
  }

  function AlignDown(value: u64, align: u64): (r: u64)
    requires 0 < align
    ensures r <= value < r + align
  {
    ModSplit(value, align);
    value - value % align
  }

  // ---- pages and sixteen-byte blocks ------------------------------------------------------

  predicate PageMultiple(n: int) {
    n % 0x4000 == 0
  }

  function PageDown(v: u64): (r: u64)
    ensures r <= v < r + PAGE_SIZE
  {
    v - v % 0x4000
  }

  /** Rounds up to whole pages; the addition wraps. */
  function PageUp(v: u64): (r: u64) {
    PageDown(Wrap(v + (PAGE_SIZE - 1)))
  }

  function Down16(v: u64): (r: u64)
    ensures r <= v < r + 16
  {
    v - v % 16
  }

  function Up16(v: u64): (r: u64) {
    Down16(Wrap(v + 15))
  }

  /** These are the two alignments the rest of the model rounds to. */
  lemma AlignmentsInUse(v: u64)
    ensures AlignUp(v, PAGE_SIZE) == PageUp(v) && AlignDown(v, PAGE_SIZE) == PageDown(v)
    ensures AlignUp(v, 16) == Up16(v) && AlignDown(v, 16) == Down16(v)
  {
    hide Wrap;
    assert PAGE_SIZE == 0x4000;
  }

  /** Rounding to pages: exact unless the addition wraps, and then there is nothing left. */
  lemma PageUpIs(v: u64)
    ensures PageMultiple(PageUp(v))
    ensures v + PAGE_SIZE <= TWO_64 ==> v <= PageUp(v) < v + PAGE_SIZE
    ensures v + PAGE_SIZE > TWO_64 ==> PageUp(v) == 0
    ensures PageMultiple(v) ==> PageUp(v) == v
  {
    hide Wrap, PageDown, PageMultiple;
    var x := v + (PAGE_SIZE - 1);
    PageDownIs(Wrap(x));
    PageMultiples(v);
    if v + PAGE_SIZE <= TWO_64 {
      WrapSmall(x);
      NextMultiple(v, PageUp(v));
    } else {
      WrapShift(1, x - TWO_64);
      WrapSmall(x - TWO_64);
      SmallPage(x - TWO_64);
    }
  }

  lemma SmallPage(v: u64)
    requires v < PAGE_SIZE
    ensures PageDown(v) == 0
  {
  }

  lemma PageMultiples(v: u64)
    ensures PageMultiple(v) ==> v + PAGE_SIZE <= TWO_64
  {
  }

  lemma NextMultiple(v: nat, r: nat)
    requires PageMultiple(r) && v <= r < v + PAGE_SIZE
    ensures PageMultiple(v) ==> r == v
  {
  }

  lemma PageDownIs(v: u64)
    ensures PageMultiple(PageDown(v)) && (PageMultiple(v) ==> PageDown(v) == v)
  {
  }

  lemma ModSplit(a: int, b: int)
    requires 0 < b
    ensures a == a / b * b + a % b && 0 <= a % b < b
    ensures 0 <= a ==> 0 <= a / b && a % b <= a
  {
  }

  lemma SmallMod(a: nat, b: nat)
    requires a < b
    ensures a % b == a
  {
  }

  /** Two's complement reading of a 64-bit pattern. */
  function Signed(w: u64): (v: i64)
    ensures Wrap(v) == w
  {
    if w < 0x8000_0000_0000_0000 then w else w - TWO_64
  }

  lemma SignedOfWrap(v: i64)
    ensures Signed(Wrap(v)) == v
  {
  }

  // ---- powers of two and binary digits -------------------------------------------------

  function Pow2(n: nat): (p: nat)
    ensures 0 < p
  {
    if n == 0 then 1 else 2 * Pow2(n - 1)
  }

  lemma {:induction false} Pow2Add(m: nat, n: nat)
    ensures Pow2(m + n) == Pow2(m) * Pow2(n)
  {
    if m > 0 {
      Pow2Add(m - 1, n);
      DoubleProduct(Pow2(m - 1), Pow2(n));
    }
  }

  lemma DoubleProduct(a: int, b: int)
    ensures 2 * (a * b) == (2 * a) * b
  {
  }

  /** The exponents add and the powers multiply. */
  lemma Pow2Known(m: nat, p: nat, n: nat, q: nat)
    requires Pow2(m) == p && Pow2(n) == q
    ensures Pow2(m + n) == p * q
  {
    hide Pow2;
    Pow2Add(m, n);
  }

  lemma Pow2Seven()
    ensures Pow2(7) == 128
  {
    assert Pow2(3) == 8;
    assert Pow2(5) == 32;
  }

  lemma Pow2SixtyFour()
    ensures Pow2(64) == TWO_64
  {
    Pow2Seven();
    assert Pow2(1) == 2;
    hide Pow2;
    Pow2Known(7, 0x80, 7, 0x80);
    Pow2Known(14, 0x4000, 14, 0x4000);
    Pow2Known(28, 0x1000_0000, 28, 0x1000_0000);
    Pow2Known(56, 0x100_0000_0000_0000, 7, 0x80);
    Pow2Known(63, 0x8000_0000_0000_0000, 1, 2);
  }

  /** Bitwise or, digit by digit. */
  function BitOr(a: nat, b: nat): (r: nat) {
    if a == 0 && b == 0 then 0
    else (if a % 2 == 1 || b % 2 == 1 then 1 else 0) + 2 * BitOr(a / 2, b / 2)
  }

  /** `x << k` on a 64-bit word: the bits that leave the word are lost. */
  function ShiftLeft(x: nat, k: nat): (r: u64) {
    Wrap(x * Pow2(k))
  }

  lemma {:induction false} BitOrZero(b: nat)
    ensures BitOr(0, b) == b
  {
    if b != 0 {
      BitOrZero(b / 2);
    }
  }

  /** Or-ing in digits that all lie above `a` adds them. */
  lemma {:induction false} BitOrAbove(a: nat, c: nat, k: nat)
    requires a < Pow2(k)
    ensures BitOr(a, c * Pow2(k)) == a + c * Pow2(k)
  {
    if k == 0 {
      BitOrZero(c);
    } else {
      var high := c * Pow2(k - 1);
      assert c * Pow2(k) == 2 * high by {
        assert c * (2 * Pow2(k - 1)) == 2 * (c * Pow2(k - 1));
      }
      BitOrAbove(a / 2, c, k - 1);
    }
  }

  /** Shifting left inside the word keeps the low digits of `x` and scales them. */
  lemma ShiftLeftKeeps(x: nat, k: nat)
    requires k <= 64
    ensures ShiftLeft(x, k) == x % Pow2(64 - k) * Pow2(k)
    ensures ShiftLeft(x, k) <= TWO_64 - Pow2(k)
  {
    var m, p := Pow2(64 - k), Pow2(k);
    assert m * p == TWO_64 by {
      Pow2Add(64 - k, k);
      Pow2SixtyFour();
    }
    ScaledMod(x, m, p);
  }

  lemma ScaledMod(x: nat, m: nat, p: nat)
    requires 0 < m && 0 < p
    ensures 0 < m * p
    ensures x * p % (m * p) == x % m * p <= m * p - p
  {
    var q, r := x / m, x % m;
    ModSplit(x, m);
    ScaledSplit(q, r, m, p);
    ScaledBound(r, m, p);
    ModUnique(x * p, m * p, q, r * p);
  }

  lemma ScaledSplit(q: int, r: int, m: int, p: int)
    ensures (q * m + r) * p == q * (m * p) + r * p
  {
    assert (q * m) * p == q * (m * p);
  }

  lemma ScaledBound(r: int, m: int, p: int)
    requires 0 <= r < m && 0 < p
    ensures 0 <= r * p <= m * p - p && 0 < m * p
  {
    assert (m - 1 - r) * p >= 0;
    assert (m - 1 - r) * p == m * p - p - r * p;
  }

  lemma WrapShift(q: int, r: int)
    ensures Wrap(q * TWO_64 + r) == Wrap(r)
  {
  }

  // ---- little-endian words ---------------------------------------------------------------

  function Le(v: nat, n: nat): (s: seq<byte>)
    ensures |s| == n
  {
    if n == 0 then [] else [v % 256] + Le(v / 256, n - 1)
  }

  function LeValue(s: seq<byte>): (v: nat) {
    if s == [] then 0 else s[0] + 256 * LeValue(s[1..])
  }

  /** `from_le_bytes` undoes `to_le_bytes` up to truncation to `n` bytes. */
  lemma {:induction false} LeRoundTrip(v: nat, n: nat)
    ensures LeValue(Le(v, n)) == v % Pow2(8 * n)
  {
    if n == 0 {
    } else {
      LeRoundTrip(v / 256, n - 1);
      var p := Pow2(8 * (n - 1));
      Pow2Add(8, 8 * (n - 1));
      assert Pow2(8) == 256 by { Pow2Seven(); }
      assert Pow2(8 * n) == 256 * p;
      assert Le(v, n)[1..] == Le(v / 256, n - 1);
      NestedMod(v, p);
    }
  }

  lemma NestedMod(v: nat, p: nat)
    requires 0 < p
    ensures v % (256 * p) == v % 256 + 256 * (v / 256 % p)
  {
    var d := v / 256;
    ModSplit(d, p);
    var q, r := d / p, d % p;
    var low := v % 256 + 256 * r;
    assert v == 256 * (q * p + r) + v % 256;
    assert 256 * (q * p) == q * (256 * p);
    assert v == q * (256 * p) + low;
    assert 0 <= low < 256 * p;
    ModUnique(v, 256 * p, q, low);
  }

  lemma ModUnique(a: int, b: int, q: int, r: int)
    requires 0 < b && 0 <= r < b && a == q * b + r
    ensures a % b == r
  {
    ModSplit(a, b);
    var d := q - a / b;
    assert d * b == q * b - a / b * b;
    SmallMultiple(d, b);
  }

  lemma SmallMultiple(d: int, b: int)
    requires 0 < b && -b < d * b < b
    ensures d == 0
  {
    MulGrows(d, b);
    MulGrows(-d, b);
    assert -d * b == -(d * b);
  }

  lemma MulGrows(d: int, b: int)
    requires 0 < b
    ensures 1 <= d ==> b <= d * b
  {
    if 1 <= d {
      assert (d - 1) * b >= 0;
      assert (d - 1) * b == d * b - b;
    }
  }

  lemma Le64RoundTrip(v: u64)
    ensures LeValue(Le(v, 8)) == v
  {
    LeRoundTrip(v, 8);
    Pow2SixtyFour();
  }

  lemma {:induction false} LeValueBound(s: seq<byte>)
    ensures LeValue(s) < Pow2(8 * |s|)
  {
    if s == [] {
    } else {
      LeValueBound(s[1..]);
      Pow2Add(8, 8 * (|s| - 1));
      assert Pow2(8) == 256 by { Pow2Seven(); }
    }
  }

  /** The other half of the round trip: a word written back is the bytes it was read from. */
  lemma {:induction false} LeInverse(s: seq<byte>)
    ensures Le(LeValue(s), |s|) == s
  {
    if s == [] {
    } else {
      LeInverse(s[1..]);
      assert LeValue(s) / 256 == LeValue(s[1..]);
      assert LeValue(s) % 256 == s[0];
    }
  }
}
