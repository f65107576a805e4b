/** Writing the objects of a binary property list, the offset table and the trailer, and reading each of them back:
    what every marker byte means, independently of the decoder. */
module PlistObjects {
  import opened Words
  import opened BinaryPlist

  // ---- numbers --------------------------------------------------------------------------------------------------

  /** Big-endian, in `n` bytes. */
  function Be(v: nat, n: nat): (s: seq<byte>)
    ensures |s| == n
  {
    if n == 0 then [] else Be(v / 256, n - 1) + [v % 256]
  }

  lemma {:induction false} BeBack(v: nat, n: nat)
    requires v < Pow2(8 * n)
    ensures BeValue(Be(v, n)) == v
  {
    if n > 0 {
      ByteLess(v, n);
      BeBack(v / 256, n - 1);
      assert Be(v, n)[..n - 1] == Be(v / 256, n - 1);
    }
  }

  lemma {:induction false} ByteLess(v: nat, n: nat)
    requires n > 0 && v < Pow2(8 * n)
    ensures v / 256 < Pow2(8 * (n - 1))
  {
    PowEight();
    Pow2Add(8, 8 * (n - 1));
    hide Pow2;
    assert 8 + 8 * (n - 1) == 8 * n;
    assert v < 256 * Pow2(8 * (n - 1));
  }

  lemma {:induction false} BeUintBack(v: u64, n: nat)
    requires v < Pow2(8 * n)
    ensures BeUint(Be(v, n)) == v
  {
    BeBack(v, n);
    WrapSmall(v);
  }

  // ---- objects --------------------------------------------------------------------------------------------------

  /** A count is in the marker if it is below fifteen, or else in an integer of 2^k bytes after it. */
  datatype CountForm = Short | Long(k: nibble)

  datatype Written =
    | Bool(b: bool)
    | Int(v: u64, k: nibble)
    | Single(bits: seq<byte>)
    | Double(bits: seq<byte>)
    | Date(n: nibble, bits: seq<byte>)
    | Bytes(bytes: seq<byte>, form: CountForm)
    | Ascii(bytes: seq<byte>, form: CountForm)
    | Utf16(units: seq<nat>, form: CountForm)
    | Uid(v: u64, n: nibble)
    | ArrayOf(count: u64, form: CountForm)
    | DictOf(count: u64, form: CountForm)

  ghost predicate CountFits(count: nat, form: CountForm) {
    match form
    case Short => count < 15
    case Long(k) => count < TWO_64 && count < Pow2(8 * Pow2(k))
  }

  ghost predicate Writable(w: Written) {
    match w
    case Bool(_) => true
    case Int(v, k) => v < Pow2(8 * Pow2(k))
    case Single(bits) => |bits| == 4
    case Double(bits) => |bits| == 8
    case Date(_, bits) => |bits| == 8
    case Bytes(bytes, form) => CountFits(|bytes|, form)
    case Ascii(bytes, form) => CountFits(|bytes|, form)
    case Utf16(units, form) =>
      CountFits(|units|, form) && |units| < 0x8000_0000_0000_0000
      && forall k :: 0 <= k < |units| ==> units[k] < 0x1_0000
    case Uid(v, n) => v < Pow2(8 * (n + 1))
    case ArrayOf(count, form) => CountFits(count, form)
    case DictOf(count, form) => CountFits(count, form)
  }

  /** The marker byte of a counted object, with its count. */
  function Counted(kind: nibble, count: nat, form: CountForm): (s: seq<byte>)
    requires form.Short? ==> count < 15
    ensures s != []
  {
    match form
    case Short => [16 * kind + count]
    case Long(k) => [16 * kind + 15] + ([0x10 + k] + Be(count, Pow2(k)))
  }

  function Units16(units: seq<nat>): (s: seq<byte>)
    ensures |s| == 2 * |units|
  {
    if units == [] then [] else [units[0] / 256 % 256, units[0] % 256] + Units16(units[1..])
  }

  /** The bytes of an object up to its references. */
  function Write(w: Written): (s: seq<byte>)
    requires Writable(w)
  {
    match w
    case Bool(b) => [if b then 0x09 else 0x08]
    case Int(v, k) => [0x10 + k] + Be(v, Pow2(k))
    case Single(bits) => [0x22] + bits
    case Double(bits) => [0x23] + bits
    case Date(n, bits) => [0x30 + n] + bits
    case Bytes(bytes, form) => Counted(0x4, |bytes|, form) + bytes
    case Ascii(bytes, form) => Counted(0x5, |bytes|, form) + bytes
    case Utf16(units, form) => Counted(0x6, |units|, form) + Units16(units)
    case Uid(v, n) => [0x80 + n] + Be(v, n + 1)
    case ArrayOf(count, form) => Counted(0xA, count, form)
    case DictOf(count, form) => Counted(0xD, count, form)
  }

  /** What an object says: a value, or how many references follow it and where. */
  function Says(w: Written, host: Host, after: u64): Object
    requires Writable(w)
  {
    match w
    case Bool(b) => Scalar(Flag(b))
    case Int(v, _) => Scalar(Integer(if v < 0x8000_0000_0000_0000 then v else v - TWO_64))
    case Single(bits) => Scalar(Real(bits))
    case Double(bits) => Scalar(Real(bits))
    case Date(_, bits) => Scalar(Real(bits))
    case Bytes(bytes, _) => Scalar(Data(bytes))
    case Ascii(bytes, _) => Scalar(Text(host.utf8(bytes)))
    case Utf16(units, _) => Scalar(Text(host.utf16(units)))
    case Uid(v, _) => Scalar(Integer(if v < 0x8000_0000_0000_0000 then v else v - TWO_64))
    case ArrayOf(count, _) => ArrayHead(count, after)
    case DictOf(count, _) => DictHead(count, after)
  }

  /** The buffer holds `s` at `off`. */
  ghost predicate Holds(buf: Buffer, off: nat, s: seq<byte>) {
    off + |s| <= |buf| && buf[off..off + |s|] == s
  }

  lemma {:induction false} HoldsParts(buf: Buffer, off: nat, a: seq<byte>, b: seq<byte>)
    requires Holds(buf, off, a + b)
    ensures Holds(buf, off, a) && Holds(buf, off + |a|, b)
    ensures SliceAt(buf, off + |a|, |b|) == Ok(b)
  {
    var s := buf[off..off + |a + b|];
    assert s[..|a|] == a && s[|a|..] == b;
    assert buf[off..off + |a|] == s[..|a|] && buf[off + |a|..off + |a| + |b|] == s[|a|..];
  }

  lemma {:induction false} HoldsFirst(buf: Buffer, off: nat, b: byte, rest: seq<byte>)
    requires Holds(buf, off, [b] + rest)
    ensures off < |buf| && buf[off] == b && Holds(buf, off + 1, rest) && SliceAt(buf, off + 1, |rest|) == Ok(rest)
  {
    HoldsParts(buf, off, [b], rest);
    assert buf[off..off + 1][0] == buf[off];
  }

  /** A count is read back, with the offset after it. */
  lemma {:induction false} CountBack(buf: Buffer, off: nat, kind: nibble, count: nat, form: CountForm)
    requires CountFits(count, form) && Holds(buf, off, Counted(kind, count, form))
    ensures off < |buf| && buf[off] / 16 == kind
    ensures CountAndOffset(buf, off, buf[off] % 16) == Ok((count, off + |Counted(kind, count, form)|))
  {
    hide CountAndOffset, Holds, Be, Pow2;
    match form
    case Short => ShortBack(buf, off, kind, count);
    case Long(k) => LongBack(buf, off, kind, count, k);
  }

  lemma {:induction false} ShortBack(buf: Buffer, off: nat, kind: nibble, count: nat)
    requires count < 15 && Holds(buf, off, [16 * kind + count])
    ensures off < |buf| && buf[off] / 16 == kind && CountAndOffset(buf, off, buf[off] % 16) == Ok((count, off + 1))
  {
    hide Holds, BeUint, Pow2;
    assert [16 * kind + count] + [] == [16 * kind + count];
    HoldsFirst(buf, off, 16 * kind + count, []);
  }

  lemma {:induction false} LongBack(buf: Buffer, off: nat, kind: nibble, count: nat, k: nibble)
    requires count < TWO_64 && count < Pow2(8 * Pow2(k))
    requires Holds(buf, off, [16 * kind + 15] + ([0x10 + k] + Be(count, Pow2(k))))
    ensures off < |buf| && buf[off] / 16 == kind
    ensures CountAndOffset(buf, off, buf[off] % 16) == Ok((count, off + 2 + Pow2(k)))
  {
    hide Holds, BeUint, Pow2, Be, SliceAt;
    var digits := Be(count, Pow2(k));
    HoldsFirst(buf, off, 16 * kind + 15, [0x10 + k] + digits);
    HoldsFirst(buf, off + 1, 0x10 + k, digits);
    BeUintBack(count, Pow2(k));
  }

  lemma {:induction false} UnitsBack(units: seq<nat>)
    requires forall k :: 0 <= k < |units| ==> units[k] < 0x1_0000
    ensures Units(Units16(units)) == units
    decreases |units|
  {
    if units != [] {
      var s := Units16(units);
      UnitsBack(units[1..]);
      assert s[2..] == Units16(units[1..]);
      var high: nat := s[0];
      assert high * 256 + s[1] == units[0];
      assert [units[0]] + units[1..] == units;
    }
  }

  /** Every object is read back from wherever it stands. */
  lemma {:induction false} ObjectBack(d: Doc, index: u64, w: Written)
    requires Writable(w) && index < |d.offsets| && Holds(d.buf, d.offsets[index], Write(w))
    ensures ObjectHead(d, index) == Ok(Says(w, d.host, d.offsets[index] + |Write(w)|))
  {
    hide BeUint, Units, Pow2, Be, Counted, CountAndOffset, Holds;
    match w
    case Bool(_) => FixedBack(d, index, w);
    case Int(_, _) => NumberBack(d, index, w);
    case Uid(_, _) => NumberBack(d, index, w);
    case Single(_) => FixedBack(d, index, w);
    case Double(_) => FixedBack(d, index, w);
    case Date(_, _) => FixedBack(d, index, w);
    case _ => CountedBack(d, index, w);
  }

  lemma {:induction false} FixedBack(d: Doc, index: u64, w: Written)
    requires Writable(w) && index < |d.offsets| && Holds(d.buf, d.offsets[index], Write(w))
    requires w.Bool? || w.Single? || w.Double? || w.Date?
    ensures ObjectHead(d, index) == Ok(Says(w, d.host, d.offsets[index] + |Write(w)|))
  {
    hide ObjectHead, Holds, Write, Says;
    if w.Bool? {
      BoolBack(d, index, w);
    } else if w.Date? {
      DateBack(d, index, w);
    } else if w.Single? {
      SingleBack(d, index, w);
    } else {
      DoubleBack(d, index, w);
    }
  }

  lemma {:induction false} BoolBack(d: Doc, index: u64, w: Written)
    requires Writable(w) && index < |d.offsets| && Holds(d.buf, d.offsets[index], Write(w)) && w.Bool?
    ensures ObjectHead(d, index) == Ok(Says(w, d.host, d.offsets[index] + |Write(w)|))
  {
    hide BeUint, Units, CountAndOffset, Holds, SliceAt, Pow2;
    assert Write(w) == [if w.b then 0x09 else 0x08] + [];
    HoldsFirst(d.buf, d.offsets[index], if w.b then 0x09 else 0x08, []);
  }

  lemma {:induction false} SingleBack(d: Doc, index: u64, w: Written)
    requires Writable(w) && index < |d.offsets| && Holds(d.buf, d.offsets[index], Write(w)) && w.Single?
    ensures ObjectHead(d, index) == Ok(Says(w, d.host, d.offsets[index] + |Write(w)|))
  {
    hide BeUint, Units, CountAndOffset, Holds, SliceAt, Pow2;
    SmallPowers();
    HoldsFirst(d.buf, d.offsets[index], 0x22, w.bits);
  }

  lemma {:induction false} DoubleBack(d: Doc, index: u64, w: Written)
    requires Writable(w) && index < |d.offsets| && Holds(d.buf, d.offsets[index], Write(w)) && w.Double?
    ensures ObjectHead(d, index) == Ok(Says(w, d.host, d.offsets[index] + |Write(w)|))
  {
    hide BeUint, Units, CountAndOffset, Holds, SliceAt, Pow2;
    SmallPowers();
    HoldsFirst(d.buf, d.offsets[index], 0x23, w.bits);
  }

  lemma SmallPowers()
    ensures Pow2(2) == 4 && Pow2(3) == 8
  {
  }

  lemma {:induction false} DateBack(d: Doc, index: u64, w: Written)
    requires Writable(w) && index < |d.offsets| && Holds(d.buf, d.offsets[index], Write(w)) && w.Date?
    ensures ObjectHead(d, index) == Ok(Says(w, d.host, d.offsets[index] + |Write(w)|))
  {
    hide BeUint, Units, CountAndOffset, Holds, SliceAt, Pow2;
    HoldsFirst(d.buf, d.offsets[index], 0x30 + w.n, w.bits);
  }

  lemma {:induction false} NumberBack(d: Doc, index: u64, w: Written)
    requires Writable(w) && index < |d.offsets| && Holds(d.buf, d.offsets[index], Write(w))
    requires w.Int? || w.Uid?
    ensures ObjectHead(d, index) == Ok(Says(w, d.host, d.offsets[index] + |Write(w)|))
  {
    hide ObjectHead, Holds, Write, Says;
    if w.Int? {
      IntBack(d, index, w);
    } else {
      UidBack(d, index, w);
    }
  }

  lemma {:induction false} IntBack(d: Doc, index: u64, w: Written)
    requires Writable(w) && index < |d.offsets| && Holds(d.buf, d.offsets[index], Write(w)) && w.Int?
    ensures ObjectHead(d, index) == Ok(Says(w, d.host, d.offsets[index] + |Write(w)|))
  {
    hide BeUint, Units, CountAndOffset, Holds, Pow2, Be, SliceAt;
    HoldsFirst(d.buf, d.offsets[index], 0x10 + w.k, Be(w.v, Pow2(w.k)));
    BeUintBack(w.v, Pow2(w.k));
  }

  lemma {:induction false} UidBack(d: Doc, index: u64, w: Written)
    requires Writable(w) && index < |d.offsets| && Holds(d.buf, d.offsets[index], Write(w)) && w.Uid?
    ensures ObjectHead(d, index) == Ok(Says(w, d.host, d.offsets[index] + |Write(w)|))
  {
    hide BeUint, Units, CountAndOffset, Holds, Pow2, Be, SliceAt;
    HoldsFirst(d.buf, d.offsets[index], 0x80 + w.n, Be(w.v, w.n + 1));
    BeUintBack(w.v, w.n + 1);
  }

  lemma {:induction false} CountedBack(d: Doc, index: u64, w: Written)
    requires Writable(w) && index < |d.offsets| && Holds(d.buf, d.offsets[index], Write(w))
    requires w.Bytes? || w.Ascii? || w.Utf16? || w.ArrayOf? || w.DictOf?
    ensures ObjectHead(d, index) == Ok(Says(w, d.host, d.offsets[index] + |Write(w)|))
  {
    hide ObjectHead, Holds, Write, Says;
    match w
    case Bytes(_, _) => StringBack(d, index, w);
    case Ascii(_, _) => StringBack(d, index, w);
    case Utf16(_, _) => WideBack(d, index, w);
    case _ => HeadBack(d, index, w);
  }

  lemma {:induction false} StringBack(d: Doc, index: u64, w: Written)
    requires Writable(w) && index < |d.offsets| && Holds(d.buf, d.offsets[index], Write(w)) && (w.Bytes? || w.Ascii?)
    ensures ObjectHead(d, index) == Ok(Says(w, d.host, d.offsets[index] + |Write(w)|))
  {
    hide BeUint, Units, CountAndOffset, Holds, Pow2, Be, Counted, SliceAt;
    var off, kind: nibble := d.offsets[index], if w.Bytes? then 0x4 else 0x5;
    HoldsParts(d.buf, off, Counted(kind, |w.bytes|, w.form), w.bytes);
    CountBack(d.buf, off, kind, |w.bytes|, w.form);
  }

  lemma {:induction false} WideBack(d: Doc, index: u64, w: Written)
    requires Writable(w) && index < |d.offsets| && Holds(d.buf, d.offsets[index], Write(w)) && w.Utf16?
    ensures ObjectHead(d, index) == Ok(Says(w, d.host, d.offsets[index] + |Write(w)|))
  {
    hide BeUint, Units, CountAndOffset, Holds, Pow2, Be, Counted, SliceAt;
    var off := d.offsets[index];
    HoldsParts(d.buf, off, Counted(0x6, |w.units|, w.form), Units16(w.units));
    CountBack(d.buf, off, 0x6, |w.units|, w.form);
    UnitsBack(w.units);
    WrapSmall(|w.units| * 2);
  }

  lemma {:induction false} HeadBack(d: Doc, index: u64, w: Written)
    requires Writable(w) && index < |d.offsets| && Holds(d.buf, d.offsets[index], Write(w)) && (w.ArrayOf? || w.DictOf?)
    ensures ObjectHead(d, index) == Ok(Says(w, d.host, d.offsets[index] + |Write(w)|))
  {
    hide BeUint, Units, CountAndOffset, Holds, Pow2, Be, Counted, SliceAt;
    var off, kind: nibble := d.offsets[index], if w.ArrayOf? then 0xA else 0xD;
    CountBack(d.buf, off, kind, w.count, w.form);
  }

  /** What cannot be read: an object that is not there, a marker of no known type, and bytes past the end. */
  lemma {:induction false} MarkerFailures(d: Doc, index: u64)
    ensures index >= |d.offsets| ==> ObjectHead(d, index) == Err(BadReference)
    ensures index < |d.offsets| && d.offsets[index] >= |d.buf| ==> ObjectHead(d, index) == Err(Truncated)
    ensures index < |d.offsets| && d.offsets[index] < |d.buf| ==>
              var marker := d.buf[d.offsets[index]];
              && ((marker < 0x10 && marker != 0x08 && marker != 0x09) || marker / 16 in {0x7, 0x9, 0xB, 0xC, 0xE, 0xF} ==>
                    ObjectHead(d, index) == Err(UnsupportedType(marker)))
              && (0x10 <= marker < 0x30 && d.offsets[index] + 1 + Pow2(marker % 16) > |d.buf| ==>
                    ObjectHead(d, index) == Err(Truncated))
              && (0x20 <= marker < 0x30 && d.offsets[index] + 1 + Pow2(marker % 16) <= |d.buf| ==>
                    Pow2(marker % 16) !in {4, 8} ==> ObjectHead(d, index) == Err(UnsupportedType(marker)))
              && (0x30 <= marker < 0x40 && d.offsets[index] + 9 > |d.buf| ==> ObjectHead(d, index) == Err(Truncated))
              && (0x80 <= marker < 0x90 && d.offsets[index] + 2 + marker % 16 > |d.buf| ==>
                    ObjectHead(d, index) == Err(Truncated))
  {
    hide BeUint, Units, Pow2, CountAndOffset;
  }

  /** A count that is announced but not there: nothing follows, no integer follows, or it is cut short. */
  lemma {:induction false} CountFailures(buf: Buffer, off: nat)
    requires off < |buf|
    ensures off + 1 == |buf| ==> CountAndOffset(buf, off, 0xF) == Err(Truncated)
    ensures off + 1 < |buf| && buf[off + 1] / 16 != 1 ==> CountAndOffset(buf, off, 0xF) == Err(BadTrailer)
    ensures off + 1 < |buf| && buf[off + 1] / 16 == 1 && off + 2 + Pow2(buf[off + 1] % 16) > |buf| ==>
              CountAndOffset(buf, off, 0xF) == Err(Truncated)
  {
    hide BeUint, Pow2;
  }

  // ---- the offset table and the trailer ---------------------------------------------------------------------------

  function WriteTable(offsets: seq<u64>, size: width): (s: seq<byte>)
    ensures |s| == |offsets| * size
    decreases |offsets|
  {
    if offsets == [] then []
    else
      Product(|offsets| - 1, |offsets|, size);
      Be(offsets[0], size) + WriteTable(offsets[1..], size)
  }

  /** Five unused bytes and the sort version come first. */
  function WriteTrailer(unused: seq<byte>, t: Trailer): (s: seq<byte>)
    requires |unused| == 6
    ensures |s| == 32
  {
    unused + ([t.offsetSize, t.refSize] + (Be(t.objects, 8) + (Be(t.top, 8) + Be(t.table, 8))))
  }

  lemma {:induction false} TableBack(offsets: seq<u64>, size: width, i: nat)
    requires i < |offsets| && forall k :: 0 <= k < |offsets| ==> offsets[k] < Pow2(8 * size)
    ensures i * size + size <= |offsets| * size
    ensures BeUint(WriteTable(offsets, size)[i * size..i * size + size]) == offsets[i]
    decreases i
  {
    hide BeUint, Be, Pow2;
    Product(i, |offsets|, size);
    var s := WriteTable(offsets, size);
    if i == 0 {
      assert s[0 * size..0 * size + size] == Be(offsets[0], size);
      BeUintBack(offsets[0], size);
    } else {
      Product(i - 1, i, size);
      TableBack(offsets[1..], size, i - 1);
      var rest := WriteTable(offsets[1..], size);
      assert s == Be(offsets[0], size) + rest;
      assert s[i * size..i * size + size] == rest[(i - 1) * size..(i - 1) * size + size];
    }
  }

  /** A document, objects first, then the table of their offsets and the trailer: the decoder gets exactly the offsets
      and sizes that were written, whatever the objects are. */
  lemma {:induction false} DocumentBack(
    body: seq<byte>, offsets: seq<u64>, unused: seq<byte>, offsetSize: width, refSize: width, top: u64, buf: Buffer, host: Host
  )
    requires top < |offsets| && 8 * |offsets| < ALLOC_LIMIT && |unused| == 6
    requires forall k :: 0 <= k < |offsets| ==> offsets[k] < Pow2(8 * offsetSize)
    requires |body| + |offsets| * offsetSize + 32 == |buf| && |buf| >= 40
    requires var t := Trailer(offsetSize, refSize, |offsets|, top, |body|);
             buf == body + (WriteTable(offsets, offsetSize) + WriteTrailer(unused, t))
    ensures var t := Trailer(offsetSize, refSize, |offsets|, top, |body|);
            ReadTrailer(buf) == Ok(t) && DocOf(buf, t, host) == Doc(buf, refSize, offsets, host)
  {
    hide BeUint, Be, WriteTable, Pow2;
    var t := Trailer(offsetSize, refSize, |offsets|, top, |body|);
    var table := WriteTable(offsets, offsetSize);
    TrailerBack(buf, unused, t, body + table);
    hide ReadTrailer, TableEntry;
    forall i | 0 <= i < |offsets|
      ensures TableEntry(buf, t, i) == offsets[i]
    {
      EntryBack(buf, body, WriteTrailer(unused, t), offsets, t, i);
    }
    assert DocOf(buf, t, host).offsets == offsets;
  }

  lemma {:induction false} EntryBack(
    buf: Buffer, body: seq<byte>, trailer: seq<byte>, offsets: seq<u64>, t: Trailer, i: nat
  )
    requires i < |offsets| == t.objects && t.table == |body|
    requires forall k :: 0 <= k < |offsets| ==> offsets[k] < Pow2(8 * t.offsetSize)
    requires buf == body + (WriteTable(offsets, t.offsetSize) + trailer)
    requires t.table + t.objects * t.offsetSize <= |buf|
    ensures TableEntry(buf, t, i) == offsets[i]
  {
    hide BeUint, Be, WriteTable, Pow2;
    TableBack(offsets, t.offsetSize, i);
    SlicesAlike(buf, body, WriteTable(offsets, t.offsetSize), trailer, i * t.offsetSize, t.offsetSize);
  }

  lemma {:induction false} SlicesAlike(buf: seq<byte>, a: seq<byte>, b: seq<byte>, c: seq<byte>, at: nat, n: nat)
    requires buf == a + (b + c) && at + n <= |b|
    ensures buf[|a| + at..|a| + at + n] == b[at..at + n]
  {
  }

  lemma {:induction false} TrailerBack(buf: Buffer, unused: seq<byte>, t: Trailer, before: seq<byte>)
    requires |unused| == 6 && buf == before + WriteTrailer(unused, t) && |buf| >= 40
    requires t.table + t.objects * t.offsetSize <= |buf| && t.top < t.objects && 8 * t.objects < ALLOC_LIMIT
    ensures ReadTrailer(buf) == Ok(t)
  {
    hide BeUint, Be;
    var s := buf[|buf| - 32..];
    assert s == WriteTrailer(unused, t);
    assert s[6] == t.offsetSize && s[7] == t.refSize;
    assert s[8..16] == Be(t.objects, 8) && s[16..24] == Be(t.top, 8) && s[24..32] == Be(t.table, 8);
    Pow2SixtyFour();
    BeUintBack(t.objects, 8);
    BeUintBack(t.top, 8);
    BeUintBack(t.table, 8);
  }
}
