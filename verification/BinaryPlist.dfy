/** The binary property-list decoder: a recursive walk over an object graph given by byte offsets,
    compared with a declarative reading of what the bytes say. */
module BinaryPlist {
  import opened Words

  datatype PlistError = Truncated | BadTrailer | BadReference | UnsupportedType(marker: byte) | Aborted

  /** Reals keep their big-endian bytes. */
  datatype Value =
    | Flag(b: bool)
    | Integer(v: i64)
    | Real(bits: seq<byte>)
    | Data(bytes: seq<byte>)
    | Text(s: string)
    | Array(items: seq<Value>)
    | Dict(entries: map<string, Value>)

  /** Bytes a value takes in a vector. The compiler chooses them; a value can hold the three words of a vector. */
  type footprint = x: int | 24 <= x witness 24

  /** What the decoder leaves to its platform: two lossy text conversions, which may be any functions, and
      the size of a value. */
  datatype Host = Host(utf8: seq<byte> -> string, utf16: seq<nat> -> string, valueSize: footprint)

  type width = x: int | 1 <= x <= 8 witness 1

  datatype Doc = Doc(buf: Buffer, refSize: width, offsets: seq<u64>, host: Host)

  // ---- bytes -------------------------------------------------------------------------------------------------

  /** Big-endian value, of any length. */
  function BeValue(s: seq<byte>): (v: nat) {
    if s == [] then 0 else BeValue(s[..|s| - 1]) * 256 + s[|s| - 1]
  }

  /** `be_uint`, and `be_u64` on eight bytes. */
  function BeUint(s: seq<byte>): (v: u64) {
    Wrap(BeValue(s))
  }

  lemma {:induction false} BitOrSwaps(a: nat, b: nat)
    ensures BitOr(a, b) == BitOr(b, a)
  {
    if a != 0 || b != 0 {
      BitOrSwaps(a / 2, b / 2);
    }
  }

  /** One fold step on the wrapped accumulator is one step of the unbounded value. */
  lemma FoldStep(v: nat, x: byte)
    ensures BitOr(ShiftLeft(Wrap(v), 8), x) == Wrap(v * 256 + x)
  {
    hide BitOr, ShiftLeft, Pow2;
    PowEight();
    var acc := Wrap(v);
    ShiftLeftKeeps(acc, 8);
    ShiftIsWrap(acc);
    ModSplit(v, TWO_64);
    ModSplit(acc * 256, TWO_64);
    BitOrAbove(x, acc % Pow2(64 - 8), 8);
    BitOrSwaps(x, ShiftLeft(acc, 8));
    WrapBlocks(v / TWO_64, acc, acc * 256 / TWO_64, ShiftLeft(acc, 8), x);
  }

  lemma PowEight()
    ensures Pow2(8) == 256
  {
    Pow2Seven();
  }

  lemma ShiftIsWrap(acc: nat)
    requires Pow2(8) == 256
    ensures ShiftLeft(acc, 8) == Wrap(acc * 256)
  {
    hide Pow2;
  }

  lemma WrapBlocks(q: int, acc: int, p: int, w: int, x: int)
    requires acc * 256 == p * TWO_64 + w && 0 <= w + x < TWO_64
    ensures Wrap((q * TWO_64 + acc) * 256 + x) == w + x
  {
    assert (q * TWO_64 + acc) * 256 + x == (q * 256 + p) * TWO_64 + (w + x);
    WrapShift(q * 256 + p, w + x);
    WrapSmall(w + x);
  }

  method FoldBytes(s: seq<byte>) returns (acc: u64)
    ensures acc == BeUint(s)
  {
    hide BitOr, ShiftLeft, Wrap;
    WrapSmall(0);
    acc := 0;
    for i := 0 to |s|
      invariant acc == BeUint(s[..i])
    {
      assert s[..i + 1][..i] == s[..i];
      FoldStep(BeValue(s[..i]), s[i]);
      acc := BitOr(ShiftLeft(acc, 8), s[i]);
    }
    assert s[..|s|] == s;
  }

  /** `slice`. */
  function SliceAt(buf: Buffer, off: nat, len: nat): (r: Result<seq<byte>, PlistError>)
    ensures r.Ok? ==> off + len <= |buf| && |r.value| == len
  {
    if off + len < TWO_64 && off + len <= |buf| then Ok(buf[off..off + len]) else Err(Truncated)
  }

  /** `read_ref`: the end of the range wraps, and a range that ends before it starts aborts. */
  function ReadRef(d: Doc, at: u64): Result<u64, PlistError> {
    var end := Wrap(at + d.refSize);
    if end > |d.buf| then Err(Truncated)
    else if end < at then Err(PlistError.Aborted)
    else Ok(BeUint(d.buf[at..end]))
  }

  /** `count_and_offset`. */
  function CountAndOffset(buf: Buffer, off: nat, n: nibble): (r: Result<(u64, u64), PlistError>)
    requires off < |buf|
    ensures r.Ok? ==> r.value.1 <= |buf|
  {
    if n != 0xF then Ok((n, off + 1))
    else if off + 1 >= |buf| then Err(Truncated)
    else if buf[off + 1] / 16 != 1 then Err(BadTrailer)
    else
      var len := Pow2(buf[off + 1] % 16);
      var bytes :- SliceAt(buf, off + 2, len);
      Ok((BeUint(bytes), off + 2 + len))
  }

  /** Big-endian UTF-16 code units; an odd last byte is dropped. */
  function Units(s: seq<byte>): (r: seq<nat>)
    ensures |r| == |s| / 2
  {
    if |s| < 2 then []
    else
      var high: nat := s[0];
      [high * 256 + s[1]] + Units(s[2..])
  }

  // ---- one object ---------------------------------------------------------------------------------------------

  datatype Object =
    | Scalar(value: Value)
    | ArrayHead(count: u64, refsOff: u64)
    | DictHead(count: u64, keysOff: u64)

  /** What the bytes of one object say, without following references. */
  function ObjectHead(d: Doc, index: u64): (r: Result<Object, PlistError>)
    ensures r.Ok? && r.value.ArrayHead? ==> r.value.refsOff <= |d.buf|
    ensures r.Ok? && r.value.DictHead? ==> r.value.keysOff <= |d.buf|
  {
    if index >= |d.offsets| then Err(BadReference)
    else if d.offsets[index] >= |d.buf| then Err(Truncated)
    else
      var off := d.offsets[index];
      var marker := d.buf[off];
      var n: nibble := marker % 16;
      if marker / 16 == 0x0 then
        if n == 0x8 then Ok(Scalar(Flag(false)))
        else if n == 0x9 then Ok(Scalar(Flag(true)))
        else Err(UnsupportedType(marker))
      else if marker / 16 == 0x1 then
        var bytes :- SliceAt(d.buf, off + 1, Pow2(n));
        Ok(Scalar(Integer(Signed(BeUint(bytes)))))
      else if marker / 16 == 0x2 then
        var bytes :- SliceAt(d.buf, off + 1, Pow2(n));
        if |bytes| == 4 || |bytes| == 8 then Ok(Scalar(Real(bytes))) else Err(UnsupportedType(marker))
      else if marker / 16 == 0x3 then
        var bytes :- SliceAt(d.buf, off + 1, 8);
        Ok(Scalar(Real(bytes)))
      else if marker / 16 == 0x4 then
        var head :- CountAndOffset(d.buf, off, n);
        var bytes :- SliceAt(d.buf, head.1, head.0);
        Ok(Scalar(Data(bytes)))
      else if marker / 16 == 0x5 then
        var head :- CountAndOffset(d.buf, off, n);
        var bytes :- SliceAt(d.buf, head.1, head.0);
        Ok(Scalar(Text(d.host.utf8(bytes))))
      else if marker / 16 == 0x6 then
        var head :- CountAndOffset(d.buf, off, n);
        var bytes :- SliceAt(d.buf, head.1, Wrap(head.0 * 2));
        Ok(Scalar(Text(d.host.utf16(Units(bytes)))))
      else if marker / 16 == 0x8 then
        var bytes :- SliceAt(d.buf, off + 1, n + 1);
        Ok(Scalar(Integer(Signed(BeUint(bytes)))))
      else if marker / 16 == 0xA then
        var head :- CountAndOffset(d.buf, off, n);
        Ok(ArrayHead(head.0, head.1))
      else if marker / 16 == 0xD then
        var head :- CountAndOffset(d.buf, off, n);
        Ok(DictHead(head.0, head.1))
      else Err(UnsupportedType(marker))
  }

  /** A vector of `count` values can be allocated; asking for a larger one is a panic. */
  predicate VectorFits(host: Host, count: nat) {
    count * host.valueSize < ALLOC_LIMIT
  }

  /** `object_at`. An array sets aside room for all the items it declares before it reads the first. */
  function ObjectAt(d: Doc, index: u64, depth: nat): (r: Result<Value, PlistError>)
    decreases 129 - depth, 0
  {
    if depth > 128 then Err(BadReference)
    else
      var head :- ObjectHead(d, index);
      match head
      case Scalar(v) => Ok(v)
      case ArrayHead(count, off) =>
        if !VectorFits(d.host, count) then Err(PlistError.Aborted)
        else
          var items :- ItemsAt(d, off, 0, count, depth + 1);
          Ok(Array(items))
      case DictHead(count, off) =>
        var entries :- EntriesAt(d, off, Wrap(off + count * d.refSize), 0, count, depth + 1, map[]);
        Ok(Dict(entries))
  }

  function ItemsAt(d: Doc, off: u64, i: nat, count: nat, depth: nat): (r: Result<seq<Value>, PlistError>)
    requires i <= count && depth <= 129
    decreases 129 - depth, 1 + count - i
  {
    if i == count then Ok([])
    else
      var ref :- ReadRef(d, Wrap(off + i * d.refSize));
      var item :- ObjectAt(d, ref, depth);
      var rest :- ItemsAt(d, off, i + 1, count, depth);
      Ok([item] + rest)
  }

  function EntriesAt(d: Doc, keys: u64, vals: u64, i: nat, count: nat, depth: nat, acc: map<string, Value>)
    : (r: Result<map<string, Value>, PlistError>)
    requires i <= count && depth <= 129
    decreases 129 - depth, 1 + count - i
  {
    if i == count then Ok(acc)
    else
      var entry :- EntryAt(d, keys, vals, i, depth);
      EntriesAt(d, keys, vals, i + 1, count, depth, acc[entry.0 := entry.1])
  }

  /** Key and value number `i`; a key must be text. */
  function EntryAt(d: Doc, keys: u64, vals: u64, i: nat, depth: nat): (r: Result<(string, Value), PlistError>)
    requires depth <= 129
    decreases 129 - depth, 1
  {
    var kref :- ReadRef(d, Wrap(keys + i * d.refSize));
    var vref :- ReadRef(d, Wrap(vals + i * d.refSize));
    var key :- ObjectAt(d, kref, depth);
    if !key.Text? then Err(BadReference)
    else
      var val :- ObjectAt(d, vref, depth);
      Ok((key.s, val))
  }

  method DecodeObject(d: Doc, index: u64, depth: nat) returns (r: Result<Value, PlistError>)
    ensures r == ObjectAt(d, index, depth)
    decreases 129 - depth, 0
  {
    hide ObjectHead, ReadRef, EntryAt, VectorFits;
    if depth > 128 { return Err(BadReference); }
    var head := ObjectHead(d, index);
    if head.Err? { return Err(head.error); }
    match head.value
    case Scalar(v) => r := Ok(v);
    case ArrayHead(count, off) =>
      r := DecodeArray(d, off, count, depth + 1);
    case DictHead(count, off) =>
      r := DecodeDict(d, off, Wrap(off + count * d.refSize), count, depth + 1);
  }

  method DecodeArray(d: Doc, off: u64, count: nat, depth: nat) returns (r: Result<Value, PlistError>)
    requires depth <= 129
    ensures r == if !VectorFits(d.host, count) then Err(PlistError.Aborted)
                 else match ItemsAt(d, off, 0, count, depth) case Ok(items) => Ok(Array(items)) case Err(e) => Err(e)
    decreases 129 - depth, 2
  {
    hide ObjectAt, ReadRef, VectorFits;
    if !VectorFits(d.host, count) { return Err(PlistError.Aborted); }
    var out: seq<Value> := [];
    ghost var all := ItemsAt(d, off, 0, count, depth);
    assert all.Ok? ==> [] + all.value == all.value;
    for i := 0 to count
      invariant match ItemsAt(d, off, i, count, depth)
                case Ok(rest) => all == Ok(out + rest)
                case Err(e) => all == Err(e)
    {
      var ref := ReadRef(d, Wrap(off + i * d.refSize));
      if ref.Err? { return Err(ref.error); }
      var item := DecodeObject(d, ref.value, depth);
      if item.Err? { return Err(item.error); }
      ghost var rest := ItemsAt(d, off, i + 1, count, depth);
      assert rest.Ok? ==> out + ([item.value] + rest.value) == (out + [item.value]) + rest.value;
      out := out + [item.value];
    }
    assert out + [] == out;
    r := Ok(Array(out));
  }

  method DecodeDict(d: Doc, keys: u64, vals: u64, count: nat, depth: nat) returns (r: Result<Value, PlistError>)
    requires depth <= 129
    ensures r == match EntriesAt(d, keys, vals, 0, count, depth, map[])
                 case Ok(entries) => Ok(Dict(entries))
                 case Err(e) => Err(e)
    decreases 129 - depth, 2
  {
    hide ObjectAt, ReadRef;
    var out: map<string, Value> := map[];
    for i := 0 to count
      invariant EntriesAt(d, keys, vals, i, count, depth, out) == EntriesAt(d, keys, vals, 0, count, depth, map[])
    {
      var kref := ReadRef(d, Wrap(keys + i * d.refSize));
      if kref.Err? { return Err(kref.error); }
      var vref := ReadRef(d, Wrap(vals + i * d.refSize));
      if vref.Err? { return Err(vref.error); }
      var key := DecodeObject(d, kref.value, depth);
      if key.Err? { return Err(key.error); }
      if !key.value.Text? { return Err(BadReference); }
      var val := DecodeObject(d, vref.value, depth);
      if val.Err? { return Err(val.error); }
      out := out[key.value.s := val.value];
    }
    r := Ok(Dict(out));
  }

  // ---- the declarative reading --------------------------------------------------------------------------------

  /** The object graph unfolded into a finite tree. */
  datatype Tree =
    | Leaf(value: Value)
    | Branch(items: seq<Tree>)
    | Table(keys: seq<string>, vals: seq<Tree>)

  /** The `k`-th reference of a run that starts at `off`, in unbounded arithmetic. */
  function Reference(d: Doc, off: nat, k: nat): Option<u64> {
    var at: nat := off + k * d.refSize;
    if at + d.refSize <= |d.buf| then Some(BeUint(d.buf[at..at + d.refSize])) else None
  }

  ghost predicate KeyReads(d: Doc, off: nat, k: nat, key: string) {
    Reference(d, off, k).Some? && ObjectHead(d, Reference(d, off, k).value) == Ok(Scalar(Text(key)))
  }

  /** Object `index` unfolds to `t`: containers hold as many references as they declare, every
      reference is inside the buffer, keys come before values, keys are text, and no array is longer than
      a vector of values can be. */
  ghost predicate Unfolds(d: Doc, index: u64, t: Tree)
    decreases t
  {
    var head := ObjectHead(d, index);
    match t
    case Leaf(v) => head == Ok(Scalar(v))
    case Branch(items) =>
      && head.Ok? && head.value.ArrayHead? && head.value.count == |items| && VectorFits(d.host, |items|)
      && forall k :: 0 <= k < |items| ==>
           && Reference(d, head.value.refsOff, k).Some?
           && Unfolds(d, Reference(d, head.value.refsOff, k).value, items[k])
    case Table(keys, vals) =>
      && head.Ok? && head.value.DictHead? && head.value.count == |keys| == |vals|
      && forall k {:trigger vals[k]} :: 0 <= k < |vals| ==>
           && KeyReads(d, head.value.keysOff, k, keys[k])
           && Reference(d, head.value.keysOff, |vals| + k).Some?
           && Unfolds(d, Reference(d, head.value.keysOff, |vals| + k).value, vals[k])
  }

  /** Nested at most `h` deep. */
  ghost predicate Within(t: Tree, h: nat)
    decreases t
  {
    match t
    case Leaf(_) => true
    case Branch(items) => forall k :: 0 <= k < |items| ==> h > 0 && Within(items[k], h - 1)
    case Table(_, vals) => forall k :: 0 <= k < |vals| ==> h > 0 && Within(vals[k], h - 1)
  }

  function ValueOf(t: Tree): Value
    decreases t
  {
    match t
    case Leaf(v) => v
    case Branch(items) => Array(Values(items))
    case Table(keys, vals) => Dict(Insert(map[], keys, vals))
  }

  function Values(ts: seq<Tree>): (r: seq<Value>)
    ensures |r| == |ts|
    decreases ts
  {
    if ts == [] then [] else [ValueOf(ts[0])] + Values(ts[1..])
  }

  /** Inserts the entries in order, later ones over earlier ones. */
  function Insert(acc: map<string, Value>, keys: seq<string>, vals: seq<Tree>): map<string, Value>
    decreases vals
  {
    if keys == [] || vals == [] then acc
    else Insert(acc[keys[0] := ValueOf(vals[0])], keys[1..], vals[1..])
  }

  // ---- references -----------------------------------------------------------------------------------------------

  /** As long as the end of the reference fits a word, reading it is the declarative reading. */
  lemma {:induction false} ReadsReference(d: Doc, off: nat, k: nat)
    requires off + k * d.refSize + d.refSize < TWO_64
    ensures match ReadRef(d, Wrap(off + k * d.refSize))
            case Ok(ref) => Reference(d, off, k) == Some(ref)
            case Err(_) => Reference(d, off, k) == None
  {
    hide BeUint, Wrap;
    var at: nat := off + k * d.refSize;
    WrapSmall(at);
    WrapSmall(at + d.refSize);
  }

  lemma Product(k: nat, n: nat, w: width)
    requires k <= n
    ensures k * w <= n * w && (k < n ==> k * w + w <= n * w) && (k + 1) * w == k * w + w
  {
    assert (n - k) * w >= 0;
    if k < n { assert (n - k - 1) * w >= 0; }
  }

  // ---- completeness -----------------------------------------------------------------------------------------------

  /** Everything that unfolds to a tree nested no deeper than the limit is decoded. */
  lemma {:induction false} Complete(d: Doc, index: u64, t: Tree, depth: nat)
    requires depth <= 128 && Unfolds(d, index, t) && Within(t, 128 - depth)
    ensures ObjectAt(d, index, depth) == Ok(ValueOf(t))
    decreases t, 1, 0
  {
    hide ObjectHead, Reference, VectorFits;
    match t
    case Leaf(v) =>
    case Branch(items) =>
      ItemsComplete(d, index, t, 0, depth + 1);
      assert items[0..] == items;
    case Table(keys, vals) =>
      EntriesComplete(d, index, t, 0, depth + 1, map[]);
      assert keys[0..] == keys && vals[0..] == vals;
  }

  lemma {:induction false} ItemsComplete(d: Doc, index: u64, t: Tree, i: nat, depth: nat)
    requires t.Branch? && 1 <= depth <= 129 && i <= |t.items| && Unfolds(d, index, t) && Within(t, 129 - depth)
    ensures ItemsAt(d, ObjectHead(d, index).value.refsOff, i, |t.items|, depth) == Ok(Values(t.items[i..]))
    decreases t, 0, |t.items| - i
  {
    hide ObjectHead, ReadRef, Reference;
    var off := ObjectHead(d, index).value.refsOff;
    if i < |t.items| {
      var ref := Reference(d, off, i).value;
      ReferenceRead(d, off, i);
      Complete(d, ref, t.items[i], depth);
      ItemsComplete(d, index, t, i + 1, depth);
      assert t.items[i..][1..] == t.items[i + 1..];
    }
  }

  lemma {:induction false} ReferenceRead(d: Doc, off: nat, k: nat)
    requires Reference(d, off, k).Some?
    ensures off + k * d.refSize + d.refSize <= |d.buf|
    ensures ReadRef(d, Wrap(off + k * d.refSize)) == Ok(Reference(d, off, k).value)
  {
    ReadsReference(d, off, k);
  }

  /** The value references start where the key references end. */
  lemma {:induction false} ValueReference(d: Doc, off: nat, count: nat, k: nat)
    requires k < count && off + count * d.refSize <= |d.buf|
    ensures var vals := Wrap(off + count * d.refSize);
            match ReadRef(d, Wrap(vals + k * d.refSize))
            case Ok(ref) => Reference(d, off, count + k) == Some(ref)
            case Err(_) => Reference(d, off, count + k) == None
  {
    hide Wrap, ReadRef, Reference;
    WrapSmall(off + count * d.refSize);
    Product(k, count, d.refSize);
    Distribute(count, k, d.refSize);
    ReadsReference(d, off, count + k);
  }

  lemma Distribute(m: nat, n: nat, w: width)
    ensures (m + n) * w == m * w + n * w
  {
  }

  lemma {:induction false} EntriesComplete(d: Doc, index: u64, t: Tree, i: nat, depth: nat, acc: map<string, Value>)
    requires t.Table? && 1 <= depth <= 129 && i <= |t.vals| && Unfolds(d, index, t) && Within(t, 129 - depth)
    ensures var keys := ObjectHead(d, index).value.keysOff;
            EntriesAt(d, keys, Wrap(keys + |t.vals| * d.refSize), i, |t.vals|, depth, acc)
            == Ok(Insert(acc, t.keys[i..], t.vals[i..]))
    decreases t, 0, 1 + |t.vals| - i
  {
    hide ObjectHead, Reference, EntryAt, ObjectAt, KeyReads, Wrap;
    if i < |t.vals| {
      EntryComplete(d, index, t, i, depth);
      EntriesComplete(d, index, t, i + 1, depth, acc[t.keys[i] := ValueOf(t.vals[i])]);
      assert t.keys[i..][1..] == t.keys[i + 1..] && t.vals[i..][1..] == t.vals[i + 1..];
    }
  }

  lemma {:induction false} RowReads(d: Doc, index: u64, t: Tree, k: nat)
    requires t.Table? && k < |t.vals| && Unfolds(d, index, t)
    ensures var off := ObjectHead(d, index).value.keysOff;
            && KeyReads(d, off, k, t.keys[k])
            && Reference(d, off, |t.vals| + k).Some?
            && Unfolds(d, Reference(d, off, |t.vals| + k).value, t.vals[k])
  {
    hide ObjectHead, Reference, KeyReads;
    var v := t.vals[k];
  }

  lemma {:induction false} EntryComplete(d: Doc, index: u64, t: Tree, i: nat, depth: nat)
    requires t.Table? && 1 <= depth <= 129 && i < |t.vals| && Unfolds(d, index, t) && Within(t, 129 - depth)
    ensures var keys := ObjectHead(d, index).value.keysOff;
            EntryAt(d, keys, Wrap(keys + |t.vals| * d.refSize), i, depth) == Ok((t.keys[i], ValueOf(t.vals[i])))
    decreases t, 0, 0
  {
    hide ObjectHead, ReadRef, Reference, Wrap;
    var off := ObjectHead(d, index).value.keysOff;
    var n := |t.vals|;
    RowReads(d, index, t, i);
    RowReads(d, index, t, n - 1);
    ReferenceRead(d, off, i);
    TableFits(d, off, n);
    ValueReference(d, off, n, i);
    Complete(d, Reference(d, off, n + i).value, t.vals[i], depth);
  }

  lemma {:induction false} TableFits(d: Doc, off: nat, n: nat)
    requires n > 0 && Reference(d, off, n - 1).Some?
    ensures off + n * d.refSize <= |d.buf|
  {
    Product(n - 1, n, d.refSize);
  }

  // ---- soundness -------------------------------------------------------------------------------------------------

  /** Whatever is decoded is what the object unfolds to. */
  lemma {:induction false} Sound(d: Doc, index: u64, depth: nat) returns (t: Tree)
    requires ObjectAt(d, index, depth).Ok?
    ensures depth <= 128 && Unfolds(d, index, t) && Within(t, 128 - depth)
    decreases 129 - depth, 0
  {
    hide ObjectHead, Reference, ReadRef, EntryAt, KeyReads, Wrap, Row, Item, VectorFits;
    HeadBounds(d, index);
    match ObjectHead(d, index).value
    case Scalar(v) =>
      t := Leaf(v);
    case ArrayHead(count, off) =>
      var items := ItemsSound(d, off, 0, count, depth + 1);
      t := Branch(items);
      ItemsUnfold(d, index, count, off, items, 128 - depth);
    case DictHead(count, off) =>
      KeysFit(d, off, Wrap(off + count * d.refSize), 0, count, depth + 1, map[]);
      var keys, vals := EntriesSound(d, off, 0, count, depth + 1, map[]);
      t := Table(keys, vals);
      RowsUnfold(d, index, count, off, keys, vals, 128 - depth);
  }

  lemma {:induction false} HeadBounds(d: Doc, index: u64)
    ensures var r := ObjectHead(d, index);
            && (r.Ok? && r.value.ArrayHead? ==> r.value.refsOff <= |d.buf|)
            && (r.Ok? && r.value.DictHead? ==> r.value.keysOff <= |d.buf|)
  {
  }

  /** A reference that is read where no arithmetic wraps is inside the buffer. */
  lemma {:induction false} ReadFits(d: Doc, off: nat, k: nat)
    requires off + k * d.refSize <= |d.buf| && ReadRef(d, Wrap(off + k * d.refSize)).Ok?
    ensures Reference(d, off, k) == Some(ReadRef(d, Wrap(off + k * d.refSize)).value)
    ensures off + (k + 1) * d.refSize <= |d.buf|
  {
    Product(k, k + 1, d.refSize);
    ReadsReference(d, off, k);
  }

  ghost predicate Item(d: Doc, off: nat, k: nat, t: Tree, h: int) {
    Reference(d, off, k).Some? && Unfolds(d, Reference(d, off, k).value, t) && h >= 0 && Within(t, h)
  }

  lemma {:induction false} ItemsUnfold(d: Doc, index: u64, count: u64, off: u64, items: seq<Tree>, h: nat)
    requires ObjectHead(d, index) == Ok(ArrayHead(count, off)) && count == |items| && VectorFits(d.host, count)
    requires forall k :: 0 <= k < |items| ==> Item(d, off, 0 + k, items[k], h - 1)
    ensures Unfolds(d, index, Branch(items)) && Within(Branch(items), h)
  {
    hide ObjectHead, Reference, VectorFits;
    forall k | 0 <= k < |items|
      ensures Reference(d, off, k).Some? && Unfolds(d, Reference(d, off, k).value, items[k])
      ensures h > 0 && Within(items[k], h - 1)
    {
      assert Item(d, off, 0 + k, items[k], h - 1);
    }
    assert items == [] || Item(d, off, 0 + 0, items[0], h - 1);
  }

  lemma {:induction false} ItemsSound(d: Doc, off: u64, i: nat, count: nat, depth: nat) returns (ts: seq<Tree>)
    requires i <= count && 1 <= depth <= 129 && off + i * d.refSize <= |d.buf|
    requires ItemsAt(d, off, i, count, depth).Ok?
    ensures |ts| == count - i
    ensures forall k :: 0 <= k < |ts| ==> Item(d, off, i + k, ts[k], 128 - depth)
    decreases 129 - depth, 1 + count - i
  {
    hide Unfolds, Within, ReadRef, Reference, ObjectAt, Wrap;
    if i == count {
      ts := [];
    } else {
      ReadFits(d, off, i);
      var t := Sound(d, Reference(d, off, i).value, depth);
      assert Item(d, off, i, t, 128 - depth);
      hide Item;
      var rest := ItemsSound(d, off, i + 1, count, depth);
      ts := [t] + rest;
      forall k | 0 <= k < |ts|
        ensures Item(d, off, i + k, ts[k], 128 - depth)
      {
        if k > 0 {
          assert ts[k] == rest[k - 1];
          assert i + k == i + 1 + (k - 1);
        }
      }
    }
  }

  /** If every entry of a dictionary is read, all its keys are inside the buffer, so its declared
      count never made the offset of its values wrap. */
  lemma {:induction false} KeysFit(d: Doc, keys: u64, vals: u64, i: nat, count: nat, depth: nat,
                                   acc: map<string, Value>)
    requires i <= count && depth <= 129 && keys + i * d.refSize <= |d.buf|
    requires EntriesAt(d, keys, vals, i, count, depth, acc).Ok?
    ensures keys + count * d.refSize <= |d.buf|
    decreases count - i
  {
    hide ReadRef, ObjectAt, Wrap;
    if i < count {
      ReadFits(d, keys, i);
      var entry := EntryAt(d, keys, vals, i, depth).value;
      KeysFit(d, keys, vals, i + 1, count, depth, acc[entry.0 := entry.1]);
    }
  }

  ghost predicate Row(d: Doc, off: nat, count: nat, k: nat, key: string, t: Tree, h: int) {
    && KeyReads(d, off, k, key)
    && Reference(d, off, count + k).Some? && Unfolds(d, Reference(d, off, count + k).value, t)
    && h >= 0 && Within(t, h)
  }

  lemma {:induction false} EntriesSound(d: Doc, off: u64, i: nat, count: nat, depth: nat, acc: map<string, Value>)
    returns (keys: seq<string>, ts: seq<Tree>)
    requires i <= count && 1 <= depth <= 129 && off + count * d.refSize <= |d.buf|
    requires EntriesAt(d, off, Wrap(off + count * d.refSize), i, count, depth, acc).Ok?
    ensures |keys| == |ts| == count - i
    ensures forall k :: 0 <= k < |ts| ==> Row(d, off, count, i + k, keys[k], ts[k], 128 - depth)
    decreases 129 - depth, 1 + count - i
  {
    hide Row, EntryAt, ObjectAt, Wrap;
    if i == count {
      keys, ts := [], [];
    } else {
      var key, t := EntrySound(d, off, i, count, depth);
      var entry := EntryAt(d, off, Wrap(off + count * d.refSize), i, depth).value;
      var keys', rest := EntriesSound(d, off, i + 1, count, depth, acc[entry.0 := entry.1]);
      keys, ts := [key] + keys', [t] + rest;
      forall k | 0 <= k < |ts|
        ensures Row(d, off, count, i + k, keys[k], ts[k], 128 - depth)
      {
        if k > 0 {
          assert ts[k] == rest[k - 1] && keys[k] == keys'[k - 1];
          assert i + k == i + 1 + (k - 1);
        }
      }
    }
  }

  lemma {:induction false} RowsUnfold(
    d: Doc, index: u64, count: u64, off: u64, keys: seq<string>, vals: seq<Tree>, h: nat
  )
    requires ObjectHead(d, index) == Ok(DictHead(count, off)) && count == |keys| == |vals|
    requires forall k :: 0 <= k < |vals| ==> Row(d, off, count, 0 + k, keys[k], vals[k], h - 1)
    ensures Unfolds(d, index, Table(keys, vals)) && Within(Table(keys, vals), h)
  {
    hide ObjectHead, Reference, KeyReads;
    forall k | 0 <= k < |vals|
      ensures KeyReads(d, off, k, keys[k]) && Reference(d, off, |vals| + k).Some?
      ensures Unfolds(d, Reference(d, off, |vals| + k).value, vals[k]) && h > 0 && Within(vals[k], h - 1)
    {
      assert Row(d, off, count, 0 + k, keys[k], vals[k], h - 1);
    }
    assert vals == [] || Row(d, off, count, 0 + 0, keys[0], vals[0], h - 1);
  }

  lemma {:induction false} EntrySound(d: Doc, off: u64, i: nat, count: nat, depth: nat)
    returns (key: string, t: Tree)
    requires i < count && 1 <= depth <= 129 && off + count * d.refSize <= |d.buf|
    requires EntryAt(d, off, Wrap(off + count * d.refSize), i, depth).Ok?
    ensures Row(d, off, count, i, key, t, 128 - depth)
    decreases 129 - depth, 1
  {
    hide Unfolds, Within, ReadRef, Reference, ObjectAt, Wrap;
    Product(i, count, d.refSize);
    ReadFits(d, off, i);
    ValueReference(d, off, count, i);
    key := EntryAt(d, off, Wrap(off + count * d.refSize), i, depth).value.0;
    TextHead(d, Reference(d, off, i).value, depth, key);
    t := Sound(d, Reference(d, off, count + i).value, depth);
  }

  lemma {:induction false} TextHead(d: Doc, index: u64, depth: nat, s: string)
    requires ObjectAt(d, index, depth) == Ok(Text(s))
    ensures ObjectHead(d, index) == Ok(Scalar(Text(s)))
  {
    hide ObjectHead;
  }

  /** The decoder returns a value exactly when the object graph unfolds from that object to a finite
      tree nested at most 128 deep below it, and then it returns the value of that tree. */
  lemma {:induction false} DecodeIff(d: Doc, index: u64, v: Value)
    ensures ObjectAt(d, index, 0) == Ok(v)
            <==> exists t :: Unfolds(d, index, t) && Within(t, 128) && ValueOf(t) == v
  {
    hide ObjectAt, Unfolds, Within, ValueOf;
    if ObjectAt(d, index, 0).Ok? {
      var t := Sound(d, index, 0);
      Complete(d, index, t, 0);
    }
    forall t | Unfolds(d, index, t) && Within(t, 128)
      ensures ObjectAt(d, index, 0) == Ok(ValueOf(t))
    {
      Complete(d, index, t, 0);
    }
  }

  /** Only a buffer of 2^63 / valueSize bytes or more can hold the references of an array that is longer than a
      vector can be; in a smaller one every array whose references are there fits. */
  lemma {:induction false} ReadableArrayFits(d: Doc, off: nat, count: nat)
    requires |d.buf| * d.host.valueSize < ALLOC_LIMIT
    requires count > 0 && Reference(d, off, count - 1).Some?
    ensures VectorFits(d.host, count)
  {
    hide BeUint;
    Product(count - 1, count, d.refSize);
    assert count <= count * d.refSize by {
      assert count * (d.refSize - 1) >= 0;
    }
    Scaled(count, |d.buf|, d.host.valueSize);
  }

  lemma Scaled(m: nat, n: nat, k: nat)
    requires m <= n
    ensures m * k <= n * k
  {
  }

  /** But any header can declare one: these ten bytes ask for 2^59 values, which ends the process. */
  lemma {:induction false} HugeArrayAborts(host: Host, depth: nat)
    requires depth <= 128
    ensures var buf: Buffer := [0xAF, 0x13] + [0x08, 0, 0, 0, 0, 0, 0, 0];
            ObjectAt(Doc(buf, 1, [0], host), 0, depth) == Err(PlistError.Aborted)
  {
    hide BeUint, ItemsAt, EntriesAt;
    var count: seq<byte> := [0x08, 0, 0, 0, 0, 0, 0, 0];
    var buf: Buffer := [0xAF, 0x13] + count;
    HugeItemCount();
    assert buf[2..10] == count;
    assert Pow2(3) == 8;
    hide ObjectHead;
    ArrayHeadOf(Doc(buf, 1, [0], host));
    Scaled(24, host.valueSize, 0x0800_0000_0000_0000);
  }

  lemma {:induction false} ArrayHeadOf(d: Doc)
    requires |d.offsets| == 1 && d.offsets[0] == 0 && |d.buf| == 10 && d.buf[0] == 0xAF && d.buf[1] == 0x13
    requires BeUint(d.buf[2..10]) == 0x0800_0000_0000_0000
    ensures ObjectHead(d, 0) == Ok(ArrayHead(0x0800_0000_0000_0000, 10))
  {
    hide BeUint, Units;
    assert Pow2(3) == 8;
  }

  lemma HugeItemCount()
    ensures BeUint([0x08, 0, 0, 0, 0, 0, 0, 0]) == 0x0800_0000_0000_0000
  {
    var s: seq<byte> := [0x08, 0, 0, 0, 0, 0, 0, 0];
    ShiftedByte(s, 0);
    ShiftedByte(s, 1);
    ShiftedByte(s, 2);
    ShiftedByte(s, 3);
    ShiftedByte(s, 4);
    ShiftedByte(s, 5);
    ShiftedByte(s, 6);
    ShiftedByte(s, 7);
    hide BeValue;
    assert s[..8] == s;
  }

  // ---- cycles ------------------------------------------------------------------------------------------------------

  /** Container `i` holds, among its keys or its values, a reference to object `j`. */
  ghost predicate Refers(d: Doc, i: u64, j: u64) {
    var head := ObjectHead(d, i);
    head.Ok? && match head.value
                case Scalar(_) => false
                case ArrayHead(count, off) => exists k: nat :: k < count && Reference(d, off, k) == Some(j)
                case DictHead(count, off) => exists k: nat :: k < 2 * count && Reference(d, off, k) == Some(j)
  }

  ghost predicate IsPath(d: Doc, p: seq<u64>) {
    p != [] && forall k :: 0 < k < |p| ==> Refers(d, p[k - 1], p[k])
  }

  /** Below an object that unfolds, every object it refers to unfolds, one level less deep. */
  lemma {:induction false} Child(d: Doc, i: u64, j: u64, t: Tree, h: nat) returns (t': Tree)
    requires Unfolds(d, i, t) && Within(t, h) && Refers(d, i, j)
    ensures h > 0 && Unfolds(d, j, t') && Within(t', h - 1)
  {
    hide ObjectHead, Reference;
    match ObjectHead(d, i).value
    case ArrayHead(count, off) =>
      var k: nat :| k < count && Reference(d, off, k) == Some(j);
      t' := t.items[k];
    case DictHead(count, off) =>
      var k: nat :| k < 2 * count && Reference(d, off, k) == Some(j);
      if k < count {
        RowReads(d, i, t, k);
        t' := Leaf(Text(t.keys[k]));
      } else {
        RowReads(d, i, t, k - count);
        t' := t.vals[k - count];
      }
  }

  lemma {:induction false} Follow(d: Doc, p: seq<u64>, t: Tree, h: nat) returns (t': Tree)
    requires IsPath(d, p) && Unfolds(d, p[0], t) && Within(t, h)
    ensures |p| - 1 <= h && Unfolds(d, p[|p| - 1], t') && Within(t', h - (|p| - 1))
    decreases |p|
  {
    hide Unfolds, Within, Refers;
    if |p| == 1 {
      t' := t;
    } else {
      assert Refers(d, p[1 - 1], p[1]);
      var c := Child(d, p[0], p[1], t, h);
      assert forall k :: 0 < k < |p[1..]| ==> p[1..][k - 1] == p[k] && p[1..][k] == p[k + 1];
      forall k | 0 < k < |p[1..]|
        ensures Refers(d, p[1..][k - 1], p[1..][k])
      {
        assert Refers(d, p[k + 1 - 1], p[k + 1]);
      }
      t' := Follow(d, p[1..], c, h - 1);
    }
  }

  /** An object on a reference cycle unfolds to no finite tree. */
  lemma {:induction false} CycleHasNoTree(d: Doc, c: seq<u64>, t: Tree, h: nat)
    requires IsPath(d, c) && |c| > 1 && c[0] == c[|c| - 1]
    ensures !(Unfolds(d, c[0], t) && Within(t, h))
    decreases h
  {
    hide Unfolds, Within;
    if Unfolds(d, c[0], t) && Within(t, h) {
      var t' := Follow(d, c, t, h);
      CycleHasNoTree(d, c, t', h - (|c| - 1));
    }
  }

  /** Decoding fails whenever a cycle of references, or a chain of more than the allowed number of
      references, can be reached; it ends in either case. */
  lemma {:induction false} CyclesAndDeepChainsFail(d: Doc, index: u64, depth: nat, p: seq<u64>, c: seq<u64>)
    requires IsPath(d, p) && p[0] == index
    ensures |p| - 1 + depth > 128 ==> ObjectAt(d, index, depth).Err?
    ensures IsPath(d, c) && |c| > 1 && c[0] == c[|c| - 1] == p[|p| - 1] ==> ObjectAt(d, index, depth).Err?
  {
    hide ObjectAt, Unfolds, Within, IsPath;
    if ObjectAt(d, index, depth).Ok? {
      var t := Sound(d, index, depth);
      PathNonEmpty(d, p);
      var t' := Follow(d, p, t, 128 - depth);
      if IsPath(d, c) && |c| > 1 && c[0] == c[|c| - 1] == p[|p| - 1] {
        CycleHasNoTree(d, c, t', 128 - depth - (|p| - 1));
      }
    }
  }

  lemma {:induction false} PathNonEmpty(d: Doc, p: seq<u64>)
    requires IsPath(d, p)
    ensures |p| > 0
  {
  }

  // ---- dictionaries and counts ------------------------------------------------------------------------------------

  /** A dictionary has exactly the keys it lists. */
  lemma {:induction false} InsertedKeys(acc: map<string, Value>, keys: seq<string>, vals: seq<Tree>, s: string)
    requires |keys| == |vals|
    ensures s in Insert(acc, keys, vals) <==> s in acc || s in keys
    ensures s !in keys && s in acc ==> Insert(acc, keys, vals)[s] == acc[s]
    decreases |keys|
  {
    hide ValueOf;
    if keys != [] {
      InsertedKeys(acc[keys[0] := ValueOf(vals[0])], keys[1..], vals[1..], s);
      assert s in keys <==> s == keys[0] || s in keys[1..];
    }
  }

  /** The last entry with a key decides its value. */
  lemma {:induction false} LastEntryWins(acc: map<string, Value>, keys: seq<string>, vals: seq<Tree>, k: nat)
    requires k < |keys| == |vals| && keys[k] !in keys[k + 1..]
    ensures keys[k] in Insert(acc, keys, vals) && Insert(acc, keys, vals)[keys[k]] == ValueOf(vals[k])
    decreases |keys|
  {
    hide ValueOf;
    var acc' := acc[keys[0] := ValueOf(vals[0])];
    if k == 0 {
      InsertedKeys(acc', keys[1..], vals[1..], keys[0]);
    } else {
      assert keys[1..][k..] == keys[k + 1..];
      LastEntryWins(acc', keys[1..], vals[1..], k - 1);
    }
  }

  /** A UTF-16 string is given the number of code units it declares exactly when twice its count
      fits a word; a larger count loses its top bit and the string is cut short without an error. */
  lemma {:induction false} Utf16CountIff(buf: Buffer, off: u64, count: u64)
    requires SliceAt(buf, off, Wrap(count * 2)).Ok?
    ensures |Units(SliceAt(buf, off, Wrap(count * 2)).value)| == count <==> count < 0x8000_0000_0000_0000
  {
  }

  /** Such a count can be written: this header declares 2^63 + 1 code units and yields one. */
  lemma {:induction false} Utf16CountWraps(host: Host)
    ensures var count: seq<byte> := [0x80, 0, 0, 0, 0, 0, 0, 1];
            var buf: Buffer := [0x6F, 0x13] + count + [0, 0x41];
            && BeUint(count) == 0x8000_0000_0000_0001
            && ObjectHead(Doc(buf, 1, [0], host), 0) == Ok(Scalar(Text(host.utf16([0x41]))))
  {
    hide BeUint, Units, ObjectHead;
    var count: seq<byte> := [0x80, 0, 0, 0, 0, 0, 0, 1];
    HugeCount();
    var buf: Buffer := [0x6F, 0x13] + count + [0, 0x41];
    assert buf[2..10] == count && buf[10..12] == [0, 0x41];
    assert Pow2(3) == 8;
    assert CountAndOffset(buf, 0, 0xF) == Ok((0x8000_0000_0000_0001, 10));
    OneUnit();
    Utf16Head(Doc(buf, 1, [0], host));
  }

  lemma {:induction false} Utf16Head(d: Doc)
    requires |d.offsets| == 1 && d.offsets[0] == 0 && |d.buf| == 12 && d.buf[0] == 0x6F
    requires CountAndOffset(d.buf, 0, 0xF) == Ok((0x8000_0000_0000_0001, 10))
    ensures ObjectHead(d, 0) == Ok(Scalar(Text(d.host.utf16(Units(d.buf[10..12])))))
  {
    hide CountAndOffset, Units;
    assert SliceAt(d.buf, 10, 2) == Ok(d.buf[10..12]);
    assert Wrap(0x8000_0000_0000_0001 * 2) == 2;
  }

  lemma OneUnit()
    ensures Units([0, 0x41]) == [0x41]
  {
    var s: seq<byte> := [0, 0x41];
    assert Units(s[2..]) == [];
  }

  lemma HugeCount()
    ensures BeUint([0x80, 0, 0, 0, 0, 0, 0, 1]) == 0x8000_0000_0000_0001
  {
    var s: seq<byte> := [0x80, 0, 0, 0, 0, 0, 0, 1];
    ShiftedByte(s, 0);
    ShiftedByte(s, 1);
    ShiftedByte(s, 2);
    ShiftedByte(s, 3);
    ShiftedByte(s, 4);
    ShiftedByte(s, 5);
    ShiftedByte(s, 6);
    ShiftedByte(s, 7);
    hide BeValue;
    assert s[..8] == s;
  }

  lemma {:induction false} ShiftedByte(s: seq<byte>, i: nat)
    requires i < |s|
    ensures BeValue(s[..i + 1]) == BeValue(s[..i]) * 256 + s[i] && BeValue(s[..0]) == 0
  {
    assert s[..i + 1][..i] == s[..i];
  }

  // ---- the whole document -----------------------------------------------------------------------------------------

  datatype Trailer = Trailer(offsetSize: width, refSize: width, objects: u64, top: u64, table: u64)

  function ReadTrailer(buf: Buffer): (r: Result<Trailer, PlistError>)
    ensures r.Ok? ==> r.value.table + r.value.objects * r.value.offsetSize <= |buf| && r.value.top < r.value.objects
  {
    if |buf| < 40 then Err(Truncated)
    else
      var t := buf[|buf| - 32..];
      var objects, top, table := BeUint(t[8..16]), BeUint(t[16..24]), BeUint(t[24..32]);
      if t[6] == 0 || t[6] > 8 || t[7] == 0 || t[7] > 8 then Err(BadTrailer)
      else if table + objects * t[6] >= TWO_64 || objects * t[6] >= TWO_64 then Err(BadTrailer)
      else if table + objects * t[6] > |buf| || top >= objects then Err(BadTrailer)
      // The vector of offsets, eight bytes each.
      else if 8 * objects >= ALLOC_LIMIT then Err(PlistError.Aborted)
      else Ok(Trailer(t[6], t[7], objects, top, table))
  }

  /** Entry `i` of the offset table. */
  function TableEntry(buf: Buffer, t: Trailer, i: nat): u64
    requires i < t.objects && t.table + t.objects * t.offsetSize <= |buf|
  {
    Product(i, t.objects, t.offsetSize);
    var start := t.table + i * t.offsetSize;
    BeUint(buf[start..start + t.offsetSize])
  }

  function DocOf(buf: Buffer, t: Trailer, host: Host): Doc
    requires t.table + t.objects * t.offsetSize <= |buf|
  {
    Doc(buf, t.refSize, seq(t.objects, i requires 0 <= i < t.objects => TableEntry(buf, t, i)), host)
  }

  /** `BinaryPlist::parse`. */
  method Parse(buf: Buffer, host: Host) returns (r: Result<Value, PlistError>)
    ensures match ReadTrailer(buf)
            case Err(e) => r == Err(e)
            case Ok(t) => r == ObjectAt(DocOf(buf, t, host), t.top, 0)
  {
    hide ObjectAt, TableEntry;
    var trailer := ReadTrailer(buf);
    if trailer.Err? { return Err(trailer.error); }
    var t := trailer.value;
    var offsets: seq<u64> := [];
    for i := 0 to t.objects
      invariant |offsets| == i
      invariant forall k :: 0 <= k < i ==> offsets[k] == TableEntry(buf, t, k)
    {
      offsets := offsets + [TableEntry(buf, t, i)];
    }
    assert offsets == DocOf(buf, t, host).offsets;
    r := DecodeObject(Doc(buf, t.refSize, offsets, host), t.top, 0);
  }
}
