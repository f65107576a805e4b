/** Parsing a thin arm64 Mach-O image: a cursor over the file, one branch per load command, and a
    writer that the parser inverts. */
module MachO {
  import opened Words
  import opened Regions
  import opened ByteText
  import opened Image

  /** Every rejection is one error; its message is not part of the model. */
  datatype MachOError = Rejected

  const MH_MAGIC_64: u32 := 0xFEED_FACF
  const CPU_TYPE_ARM64: u32 := 0x0100_000C
  const ARM_THREAD_STATE64: u32 := 6
  const ARM_THREAD_STATE64_COUNT: u32 := 68

  const LC_SYMTAB: u32 := 0x02
  const LC_UNIXTHREAD: u32 := 0x05
  const LC_LOAD_DYLIB: u32 := 0x0C
  const LC_LOAD_DYLINKER: u32 := 0x0E
  const LC_LOAD_WEAK_DYLIB: u32 := 0x8000_0018
  const LC_SEGMENT_64: u32 := 0x19
  const LC_UUID: u32 := 0x1B
  const LC_REEXPORT_DYLIB: u32 := 0x8000_001F
  const LC_DYLD_INFO: u32 := 0x22
  const LC_DYLD_INFO_ONLY: u32 := 0x8000_0022
  const LC_VERSION_MIN_IPHONEOS: u32 := 0x25
  const LC_FUNCTION_STARTS: u32 := 0x26
  const LC_MAIN: u32 := 0x8000_0028
  const LC_ENCRYPTION_INFO_64: u32 := 0x2C

  // ---- fields -----------------------------------------------------------------------------------------------------

  /** A field and what follows it. */
  function Take(s: seq<byte>, n: nat): (r: Result<(seq<byte>, seq<byte>), MachOError>)
    ensures r.Ok? ==> |r.value.0| == n && |r.value.1| == |s| - n
  {
    if n <= |s| then Ok((s[..n], s[n..])) else Err(Rejected)
  }

  lemma {:induction false} Word32(s: seq<byte>)
    requires |s| == 4
    ensures LeValue(s) < 0x1_0000_0000
  {
    LeValueBound(s);
    Pow2ThirtyTwo();
  }

  lemma Pow2ThirtyTwo()
    ensures Pow2(32) == 0x1_0000_0000
  {
    Pow2Seven();
    Pow2Add(7, 7);
    Pow2Add(14, 14);
    assert Pow2(4) == 16;
    hide Pow2;
    Pow2Add(28, 4);
  }

  lemma {:induction false} Word64(s: seq<byte>)
    requires |s| == 8
    ensures LeValue(s) < TWO_64
  {
    LeWord(s);
  }

  function U32(s: seq<byte>): (r: Result<(u32, seq<byte>), MachOError>) {
    var f :- Take(s, 4);
    Word32(f.0);
    Ok((LeValue(f.0), f.1))
  }

  function U64(s: seq<byte>): (r: Result<(u64, seq<byte>), MachOError>) {
    var f :- Take(s, 8);
    Word64(f.0);
    Ok((LeValue(f.0), f.1))
  }

  /** Bytes up to the first NUL, or all of them. */
  function CStr(s: seq<byte>): (r: string)
    ensures |r| <= |s|
  {
    if s == [] || s[0] == 0 then "" else [s[0] as char] + CStr(s[1..])
  }

  function FixedStr(s: seq<byte>, n: nat): (r: Result<(string, seq<byte>), MachOError>) {
    var f :- Take(s, n);
    Ok((CStr(f.0), f.1))
  }

  /** `read_lc_str`, on what is left of the file from the start of the command. */
  function LcStr(command: seq<byte>, nameOff: u32): (r: Result<string, MachOError>) {
    if nameOff >= |command| then Err(Rejected) else Ok(CStr(command[nameOff..]))
  }

  function FromVmProt(bits: u32): (p: Protection) {
    Protection(bits % 2 == 1, bits / 2 % 2 == 1, bits / 4 % 2 == 1)
  }

  // ---- one command -------------------------------------------------------------------------------------------------

  function ReadSection(s: seq<byte>): (r: Result<(Section, seq<byte>), MachOError>) {
    var name :- FixedStr(s, 16);
    var segName :- FixedStr(name.1, 16);
    var addr :- U64(segName.1);
    var size :- U64(addr.1);
    var offset :- U32(size.1);
    var align :- U32(offset.1);
    var reloff :- U32(align.1);
    var nreloc :- U32(reloff.1);
    var flags :- U32(nreloc.1);
    var reserved1 :- U32(flags.1);
    var reserved2 :- U32(reserved1.1);
    var reserved3 :- U32(reserved2.1);
    Ok((Section(segName.0, name.0, addr.0, size.0, offset.0, flags.0), reserved3.1))
  }

  function ReadSections(s: seq<byte>, n: nat): (r: Result<seq<Section>, MachOError>)
    decreases n
  {
    if n == 0 then Ok([])
    else
      var first :- ReadSection(s);
      var rest :- ReadSections(first.1, n - 1);
      Ok([first.0] + rest)
  }

  /** `parse_segment`, after the command's number and size. */
  function ReadSegment(s: seq<byte>): (r: Result<MachSegment, MachOError>) {
    var name :- FixedStr(s, 16);
    var vmaddr :- U64(name.1);
    var vmsize :- U64(vmaddr.1);
    var fileoff :- U64(vmsize.1);
    var filesize :- U64(fileoff.1);
    var maxprot :- U32(filesize.1);
    var initprot :- U32(maxprot.1);
    var nsects :- U32(initprot.1);
    var flags :- U32(nsects.1);
    var sections :- ReadSections(flags.1, nsects.0);
    Ok(MachSegment(name.0, vmaddr.0, vmsize.0, fileoff.0, filesize.0, FromVmProt(initprot.0), FromVmProt(maxprot.0),
                   sections))
  }

  /** `parse_arm64_thread_pc`: past x0..x28, fp, lr and sp. */
  function ReadThreadPc(s: seq<byte>): (r: Result<Option<u64>, MachOError>) {
    var flavor :- U32(s);
    var count :- U32(flavor.1);
    if flavor.0 != ARM_THREAD_STATE64 || count.0 != ARM_THREAD_STATE64_COUNT then Ok(None)
    else
      var regs :- Take(count.1, 8 * 32);
      var pc :- U64(regs.1);
      Ok(Some(pc.0))
  }

  function ReadWords(s: seq<byte>, n: nat): (r: Result<seq<u32>, MachOError>)
    ensures r.Ok? ==> |r.value| == n
    decreases n
  {
    if n == 0 then Ok([])
    else
      var first :- U32(s);
      var rest :- ReadWords(first.1, n - 1);
      Ok([first.0] + rest)
  }

  /** The commands that are a run of 32-bit words; any other command changes nothing. */
  function ReadWordCommand(img: MachOImage, cmd: u32, s: seq<byte>): (r: Result<MachOImage, MachOError>) {
    if cmd == LC_SYMTAB then
      var w :- ReadWords(s, 4);
      Ok(img.(symtab := Some(SymtabInfo(w[0], w[1], w[2], w[3]))))
    else if cmd == LC_DYLD_INFO || cmd == LC_DYLD_INFO_ONLY then
      var w :- ReadWords(s, 8);
      Ok(img.(dyldInfo := Some(DyldInfo(w[0], w[1], w[2], w[3], w[4], w[5], w[6], w[7]))))
    else if cmd == LC_ENCRYPTION_INFO_64 then
      var w :- ReadWords(s, 3);
      Ok(img.(encryption := Some(Encryption(w[0], w[1], w[2]))))
    else if cmd == LC_FUNCTION_STARTS then
      var w :- ReadWords(s, 2);
      Ok(img.(functionStarts := Some((w[0], w[1]))))
    else if cmd == LC_VERSION_MIN_IPHONEOS then
      var w :- ReadWords(s, 1);
      Ok(img.(minOsVersion := Some(w[0])))
    else Ok(img)
  }

  function AddDylib(img: MachOImage, command: seq<byte>, s: seq<byte>, weak: bool, reexport: bool)
    : (r: Result<MachOImage, MachOError>)
  {
    var nameOff :- U32(s);
    var path :- LcStr(command, nameOff.0);
    Ok(img.(dylibs := img.dylibs + [Dylib(path, weak, reexport)]))
  }

  /** `parse_command`. `command` is the file from the start of the command, with no regard to the
      size the command declares; `s` is the same after its number and size. */
  function ReadCommand(img: MachOImage, cmd: u32, command: seq<byte>, s: seq<byte>): (r: Result<MachOImage, MachOError>) {
    if cmd == LC_SEGMENT_64 then
      var seg :- ReadSegment(s);
      Ok(img.(segments := img.segments + [seg]))
    else if cmd == LC_LOAD_DYLIB then AddDylib(img, command, s, false, false)
    else if cmd == LC_LOAD_WEAK_DYLIB then AddDylib(img, command, s, true, false)
    else if cmd == LC_REEXPORT_DYLIB then AddDylib(img, command, s, false, true)
    else if cmd == LC_LOAD_DYLINKER then
      var nameOff :- U32(s);
      var path :- LcStr(command, nameOff.0);
      Ok(img.(dylinker := Some(path)))
    else if cmd == LC_MAIN then
      var fileOffset :- U64(s);
      var stackSize :- U64(fileOffset.1);
      Ok(img.(entry := Some(Main(fileOffset.0, stackSize.0))))
    else if cmd == LC_UNIXTHREAD then
      var pc :- ReadThreadPc(s);
      Ok(if pc.Some? && img.entry.None? then img.(entry := Some(Thread(pc.value))) else img)
    else if cmd == LC_UUID then
      var raw :- Take(s, 16);
      Ok(img.(uuid := Some(raw.0)))
    else ReadWordCommand(img, cmd, s)
  }

  // ---- the whole file -----------------------------------------------------------------------------------------------

  /** The next `n` commands, from file offset `off`, which a declared size may have moved past the end. */
  function ReadCommands(img: MachOImage, bytes: Buffer, off: u64, n: nat): (r: Result<MachOImage, MachOError>)
    decreases n
  {
    if n == 0 then Ok(img)
    else if off > |bytes| then Err(Rejected)
    else
      var command := bytes[off..];
      var cmd :- U32(command);
      var size :- U32(cmd.1);
      if size.0 < 8 then Err(Rejected)
      else
        var img' :- ReadCommand(img, cmd.0, command, size.1);
        if off + size.0 >= TWO_64 then Err(Rejected) else ReadCommands(img', bytes, off + size.0, n - 1)
  }

  function EmptyImage(cpuSubtype: u32, filetype: u32, flags: u32): MachOImage {
    MachOImage(cpuSubtype, filetype, flags, [], [], None, None, None, None, None, None, None, None)
  }

  datatype Header = Header(cpuSubtype: u32, filetype: u32, ncmds: u32, sizeofcmds: u32, flags: u32, reserved: u32)

  function ReadHeader(bytes: seq<byte>): (r: Result<Header, MachOError>) {
    var magic :- U32(bytes);
    if magic.0 != MH_MAGIC_64 then Err(Rejected)
    else
      var cputype :- U32(magic.1);
      if cputype.0 != CPU_TYPE_ARM64 then Err(Rejected)
      else
        var cpuSubtype :- U32(cputype.1);
        var filetype :- U32(cpuSubtype.1);
        var ncmds :- U32(filetype.1);
        var sizeofcmds :- U32(ncmds.1);
        var flags :- U32(sizeofcmds.1);
        var reserved :- U32(flags.1);
        Ok(Header(cpuSubtype.0, filetype.0, ncmds.0, sizeofcmds.0, flags.0, reserved.0))
  }

  /** `parse_thin` of a file that is one thin slice. */
  function ReadImage(bytes: Buffer): (r: Result<MachOImage, MachOError>) {
    var h :- ReadHeader(bytes);
    var img :- ReadCommands(EmptyImage(h.cpuSubtype, h.filetype, h.flags), bytes, 32, h.ncmds);
    if img.segments == [] then Err(Rejected) else Ok(img)
  }

  // ---- the cursor ----------------------------------------------------------------------------------------------------

  class Reader {
    const data: Buffer
    var pos: nat

    ghost predicate Valid()
      reads this
    {
      pos <= |data|
    }

    /** The bytes from the cursor on. */
    function Rest(): seq<byte>
      reads this
      requires Valid()
    {
      data[pos..]
    }

    constructor (data: Buffer, off: nat)
      requires off <= |data|
      ensures this.data == data && pos == off && Valid()
    {
      this.data, pos := data, off;
    }

    method ReadBytes(n: nat) returns (r: Result<seq<byte>, MachOError>)
      requires Valid()
      modifies this
      ensures Valid()
      ensures match Take(old(Rest()), n)
              case Ok(f) => r == Ok(f.0) && Rest() == f.1
              case Err(e) => r == Err(e) && pos == old(pos)
    {
      if pos + n > |data| { return Err(Rejected); }
      assert data[pos..][..n] == data[pos..pos + n] && data[pos..][n..] == data[pos + n..];
      r := Ok(data[pos..pos + n]);
      pos := pos + n;
    }

    method ReadU32() returns (r: Result<u32, MachOError>)
      requires Valid()
      modifies this
      ensures Valid()
      ensures match U32(old(Rest()))
              case Ok(f) => r == Ok(f.0) && Rest() == f.1
              case Err(e) => r == Err(e) && pos == old(pos)
    {
      hide LeValue;
      var f := ReadBytes(4);
      if f.Err? { return Err(f.error); }
      Word32(f.value);
      r := Ok(LeValue(f.value));
    }

    method ReadU64() returns (r: Result<u64, MachOError>)
      requires Valid()
      modifies this
      ensures Valid()
      ensures match U64(old(Rest()))
              case Ok(f) => r == Ok(f.0) && Rest() == f.1
              case Err(e) => r == Err(e) && pos == old(pos)
    {
      hide LeValue;
      var f := ReadBytes(8);
      if f.Err? { return Err(f.error); }
      Word64(f.value);
      r := Ok(LeValue(f.value));
    }

    method ReadFixedStr(n: nat) returns (r: Result<string, MachOError>)
      requires Valid()
      modifies this
      ensures Valid()
      ensures match FixedStr(old(Rest()), n)
              case Ok(f) => r == Ok(f.0) && Rest() == f.1
              case Err(e) => r == Err(e) && pos == old(pos)
    {
      hide CStr;
      var f := ReadBytes(n);
      if f.Err? { return Err(f.error); }
      r := Ok(CStr(f.value));
    }
  }

  // ---- the parser --------------------------------------------------------------------------------------------------

  method ParseSection(r: Reader) returns (sect: Result<Section, MachOError>)
    requires r.Valid()
    modifies r
    ensures r.Valid()
    ensures match ReadSection(old(r.Rest()))
            case Ok(f) => sect == Ok(f.0) && r.Rest() == f.1
            case Err(e) => sect == Err(e)
  {
    hide U32, U64, FixedStr;
    var name := r.ReadFixedStr(16);
    if name.Err? { return Err(name.error); }
    var segName := r.ReadFixedStr(16);
    if segName.Err? { return Err(segName.error); }
    var addr := r.ReadU64();
    if addr.Err? { return Err(addr.error); }
    var size := r.ReadU64();
    if size.Err? { return Err(size.error); }
    var offset := r.ReadU32();
    if offset.Err? { return Err(offset.error); }
    var align := r.ReadU32();
    if align.Err? { return Err(align.error); }
    var reloff := r.ReadU32();
    if reloff.Err? { return Err(reloff.error); }
    var nreloc := r.ReadU32();
    if nreloc.Err? { return Err(nreloc.error); }
    var flags := r.ReadU32();
    if flags.Err? { return Err(flags.error); }
    var reserved1 := r.ReadU32();
    if reserved1.Err? { return Err(reserved1.error); }
    var reserved2 := r.ReadU32();
    if reserved2.Err? { return Err(reserved2.error); }
    var reserved3 := r.ReadU32();
    if reserved3.Err? { return Err(reserved3.error); }
    sect := Ok(Section(segName.value, name.value, addr.value, size.value, offset.value, flags.value));
  }

  method ParseSections(r: Reader, n: nat) returns (sects: Result<seq<Section>, MachOError>)
    requires r.Valid()
    modifies r
    ensures r.Valid()
    ensures sects == ReadSections(old(r.Rest()), n)
  {
    hide ReadSection;
    var out: seq<Section> := [];
    ghost var all := ReadSections(r.Rest(), n);
    assert all.Ok? ==> [] + all.value == all.value;
    for i := 0 to n
      invariant r.Valid()
      invariant match ReadSections(r.Rest(), n - i)
                case Ok(rest) => all == Ok(out + rest)
                case Err(e) => all == Err(e)
    {
      ghost var before := r.Rest();
      var sect := ParseSection(r);
      if sect.Err? { return Err(sect.error); }
      ghost var rest := ReadSections(r.Rest(), n - i - 1);
      assert rest.Ok? ==> out + ([sect.value] + rest.value) == (out + [sect.value]) + rest.value;
      out := out + [sect.value];
    }
    assert out + [] == out;
    sects := Ok(out);
  }

  method ParseSegment(r: Reader) returns (seg: Result<MachSegment, MachOError>)
    requires r.Valid()
    modifies r
    ensures r.Valid() && seg == ReadSegment(old(r.Rest()))
  {
    hide U32, U64, FixedStr, ReadSections, FromVmProt;
    var name := r.ReadFixedStr(16);
    if name.Err? { return Err(name.error); }
    var vmaddr := r.ReadU64();
    if vmaddr.Err? { return Err(vmaddr.error); }
    var vmsize := r.ReadU64();
    if vmsize.Err? { return Err(vmsize.error); }
    var fileoff := r.ReadU64();
    if fileoff.Err? { return Err(fileoff.error); }
    var filesize := r.ReadU64();
    if filesize.Err? { return Err(filesize.error); }
    var maxprot := r.ReadU32();
    if maxprot.Err? { return Err(maxprot.error); }
    var initprot := r.ReadU32();
    if initprot.Err? { return Err(initprot.error); }
    var nsects := r.ReadU32();
    if nsects.Err? { return Err(nsects.error); }
    var flags := r.ReadU32();
    if flags.Err? { return Err(flags.error); }
    var sections := ParseSections(r, nsects.value);
    if sections.Err? { return Err(sections.error); }
    seg := Ok(MachSegment(name.value, vmaddr.value, vmsize.value, fileoff.value, filesize.value,
                          FromVmProt(initprot.value), FromVmProt(maxprot.value), sections.value));
  }

  method ParseThreadPc(r: Reader) returns (pc: Result<Option<u64>, MachOError>)
    requires r.Valid()
    modifies r
    ensures r.Valid() && pc == ReadThreadPc(old(r.Rest()))
  {
    hide U32, U64, Take;
    var flavor := r.ReadU32();
    if flavor.Err? { return Err(flavor.error); }
    var count := r.ReadU32();
    if count.Err? { return Err(count.error); }
    if flavor.value != ARM_THREAD_STATE64 || count.value != ARM_THREAD_STATE64_COUNT { return Ok(None); }
    var regs := r.ReadBytes(8 * 32);
    if regs.Err? { return Err(regs.error); }
    var value := r.ReadU64();
    if value.Err? { return Err(value.error); }
    pc := Ok(Some(value.value));
  }

  /** The image under construction. */
  class ImageParser {
    const bytes: Buffer
    var img: MachOImage

    constructor (bytes: Buffer, h: Header)
      ensures this.bytes == bytes && img == EmptyImage(h.cpuSubtype, h.filetype, h.flags)
    {
      this.bytes, img := bytes, EmptyImage(h.cpuSubtype, h.filetype, h.flags);
    }

    method ParseDylib(cmdOff: nat, weak: bool, reexport: bool) returns (e: Option<MachOError>)
      requires cmdOff + 8 <= |bytes|
      modifies this
      ensures Became(e, img, AddDylib(old(img), bytes[cmdOff..], bytes[cmdOff + 8..], weak, reexport))
    {
      hide U32, LcStr;
      var r := new Reader(bytes, cmdOff + 8);
      var nameOff := r.ReadU32();
      if nameOff.Err? { return Some(nameOff.error); }
      var path := LcStr(bytes[cmdOff..], nameOff.value);
      if path.Err? { return Some(path.error); }
      img := img.(dylibs := img.dylibs + [Dylib(path.value, weak, reexport)]);
      e := None;
    }

    /** `parse_command`: dispatches on the command's number. */
    method ParseCommand(cmd: u32, cmdOff: nat) returns (e: Option<MachOError>)
      requires cmdOff + 8 <= |bytes|
      modifies this
      ensures Became(e, img, ReadCommand(old(img), cmd, bytes[cmdOff..], bytes[cmdOff + 8..]))
    {
      hide U32, U64, Take, LcStr, ReadSegment, ReadThreadPc, AddDylib, ReadWords;
      var r := new Reader(bytes, cmdOff + 8);
      if cmd == LC_SEGMENT_64 {
        var seg := ParseSegment(r);
        if seg.Err? { return Some(seg.error); }
        img := img.(segments := img.segments + [seg.value]);
      } else if cmd == LC_LOAD_DYLIB {
        e := ParseDylib(cmdOff, false, false);
        return;
      } else if cmd == LC_LOAD_WEAK_DYLIB {
        e := ParseDylib(cmdOff, true, false);
        return;
      } else if cmd == LC_REEXPORT_DYLIB {
        e := ParseDylib(cmdOff, false, true);
        return;
      } else if cmd == LC_LOAD_DYLINKER {
        var nameOff := r.ReadU32();
        if nameOff.Err? { return Some(nameOff.error); }
        var path := LcStr(bytes[cmdOff..], nameOff.value);
        if path.Err? { return Some(path.error); }
        img := img.(dylinker := Some(path.value));
      } else if cmd == LC_MAIN {
        var fileOffset := r.ReadU64();
        if fileOffset.Err? { return Some(fileOffset.error); }
        var stackSize := r.ReadU64();
        if stackSize.Err? { return Some(stackSize.error); }
        img := img.(entry := Some(Main(fileOffset.value, stackSize.value)));
      } else if cmd == LC_UNIXTHREAD {
        var pc := ParseThreadPc(r);
        if pc.Err? { return Some(pc.error); }
        if pc.value.Some? && img.entry.None? {
          img := img.(entry := Some(Thread(pc.value.value)));
        }
      } else if cmd == LC_UUID {
        var raw := r.ReadBytes(16);
        if raw.Err? { return Some(raw.error); }
        img := img.(uuid := Some(raw.value));
      } else {
        e := ParseWordCommand(cmd, r.Rest());
        return;
      }
      e := None;
    }

    /** The commands that are a run of 32-bit words. */
    method ParseWordCommand(cmd: u32, s: seq<byte>) returns (e: Option<MachOError>)
      modifies this
      ensures Became(e, img, ReadWordCommand(old(img), cmd, s))
    {
      hide ReadWords;
      if cmd == LC_SYMTAB {
        var w := ReadWords(s, 4);
        if w.Err? { return Some(w.error); }
        img := img.(symtab := Some(SymtabInfo(w.value[0], w.value[1], w.value[2], w.value[3])));
      } else if cmd == LC_DYLD_INFO || cmd == LC_DYLD_INFO_ONLY {
        var w := ReadWords(s, 8);
        if w.Err? { return Some(w.error); }
        img := img.(dyldInfo := Some(DyldInfo(w.value[0], w.value[1], w.value[2], w.value[3],
                                              w.value[4], w.value[5], w.value[6], w.value[7])));
      } else if cmd == LC_ENCRYPTION_INFO_64 {
        var w := ReadWords(s, 3);
        if w.Err? { return Some(w.error); }
        img := img.(encryption := Some(Encryption(w.value[0], w.value[1], w.value[2])));
      } else if cmd == LC_FUNCTION_STARTS {
        var w := ReadWords(s, 2);
        if w.Err? { return Some(w.error); }
        img := img.(functionStarts := Some((w.value[0], w.value[1])));
      } else if cmd == LC_VERSION_MIN_IPHONEOS {
        var w := ReadWords(s, 1);
        if w.Err? { return Some(w.error); }
        img := img.(minOsVersion := Some(w.value[0]));
      }
      e := None;
    }
  }

  /** The outcome of an update in place: the new image, or an error. */
  predicate Became(e: Option<MachOError>, img: MachOImage, spec: Result<MachOImage, MachOError>) {
    match spec
    case Ok(img') => e == None && img == img'
    case Err(why) => e == Some(why)
  }

  /** `parse_thin`. */
  method ParseThin(bytes: Buffer) returns (r: Result<MachOImage, MachOError>)
    ensures r == ReadImage(bytes)
  {
    hide ReadHeader, ReadCommand, U32;
    var h := ReadHeader(bytes);
    if h.Err? { return Err(h.error); }
    var p := new ImageParser(bytes, h.value);
    ghost var spec := ReadCommands(p.img, bytes, 32, h.value.ncmds);
    var off: u64 := 32;
    for i := 0 to h.value.ncmds
      invariant ReadCommands(p.img, bytes, off, h.value.ncmds - i) == spec
      invariant p.bytes == bytes
    {
      if off > |bytes| { return Err(Rejected); }
      var cr := new Reader(bytes, off);
      var cmd := cr.ReadU32();
      if cmd.Err? { return Err(cmd.error); }
      var size := cr.ReadU32();
      if size.Err? { return Err(size.error); }
      if size.value < 8 { return Err(Rejected); }
      TwoWords(bytes[off..]);
      assert bytes[off..][8..] == bytes[off + 8..];
      var e := p.ParseCommand(cmd.value, off);
      if e.Some? { return Err(e.value); }
      if off + size.value >= TWO_64 { return Err(Rejected); }
      off := off + size.value;
    }
    r := if p.img.segments == [] then Err(Rejected) else Ok(p.img);
  }

  lemma {:induction false} TwoWords(s: seq<byte>)
    requires U32(s).Ok? && U32(U32(s).value.1).Ok?
    ensures |s| >= 8 && U32(U32(s).value.1).value.1 == s[8..]
  {
  }

  // ---- the writer ----------------------------------------------------------------------------------------------------

  datatype RawSection = RawSection(section: Section, align: u32, reloff: u32, nreloc: u32, reserved: (u32, u32, u32))

  datatype DylibKind = Strong | Weak | Reexport

  /** What a load command says. `filler` lies between a command's fixed fields and its string. */
  datatype Command =
    | SegmentCmd(seg: MachSegment, maxprot: u32, initprot: u32, flags: u32, sections: seq<RawSection>)
    | DylibCmd(kind: DylibKind, path: string, filler: seq<byte>)
    | DylinkerCmd(path: string, filler: seq<byte>)
    | MainCmd(fileOffset: u64, stackSize: u64)
    | ThreadCmd(regs: seq<byte>, pc: u64)
    | OtherThreadCmd(flavor: u32, count: u32)
    | SymtabCmd(symtab: SymtabInfo)
    | DyldInfoCmd(only: bool, info: DyldInfo)
    | EncryptionCmd(encryption: Encryption)
    | UuidCmd(raw: seq<byte>)
    | FunctionStartsCmd(off: u32, size: u32)
    | VersionCmd(version: u32)
    | UnknownCmd(cmd: u32)

  /** A command as it stands in a file: `rest` is whatever else its declared size covers. */
  datatype Placed = Placed(body: Command, rest: seq<byte>)

  const KNOWN: set<u32> := {LC_SYMTAB, LC_UNIXTHREAD, LC_LOAD_DYLIB, LC_LOAD_DYLINKER, LC_LOAD_WEAK_DYLIB,
                            LC_SEGMENT_64, LC_UUID, LC_REEXPORT_DYLIB, LC_DYLD_INFO, LC_DYLD_INFO_ONLY,
                            LC_VERSION_MIN_IPHONEOS, LC_FUNCTION_STARTS, LC_MAIN, LC_ENCRYPTION_INFO_64}

  function Number(c: Command): u32 {
    match c
    case SegmentCmd(_, _, _, _, _) => LC_SEGMENT_64
    case DylibCmd(kind, _, _) =>
      if kind.Strong? then LC_LOAD_DYLIB else if kind.Weak? then LC_LOAD_WEAK_DYLIB else LC_REEXPORT_DYLIB
    case DylinkerCmd(_, _) => LC_LOAD_DYLINKER
    case MainCmd(_, _) => LC_MAIN
    case ThreadCmd(_, _) => LC_UNIXTHREAD
    case OtherThreadCmd(_, _) => LC_UNIXTHREAD
    case SymtabCmd(_) => LC_SYMTAB
    case DyldInfoCmd(only, _) => if only then LC_DYLD_INFO_ONLY else LC_DYLD_INFO
    case EncryptionCmd(_) => LC_ENCRYPTION_INFO_64
    case UuidCmd(_) => LC_UUID
    case FunctionStartsCmd(_, _) => LC_FUNCTION_STARTS
    case VersionCmd(_) => LC_VERSION_MIN_IPHONEOS
    case UnknownCmd(cmd) => cmd
  }

  /** A name in a NUL-padded field of sixteen bytes. */
  function Field(s: string): (r: seq<byte>)
    ensures |r| == 16
  {
    (Chars(s) + Zeros(16))[..16]
  }

  predicate Named(s: string) {
    |s| <= 16 && Plain(s)
  }

  function WriteSection(r: RawSection, t: seq<byte>): seq<byte>
  {
    var s := r.section;
    Field(s.name) + (Field(s.segName) + (Le(s.addr, 8) + (Le(s.size, 8) + (Le(s.offset, 4) + (Le(r.align, 4)
      + (Le(r.reloff, 4) + (Le(r.nreloc, 4) + (Le(s.flags, 4) + (Le(r.reserved.0, 4) + (Le(r.reserved.1, 4)
      + (Le(r.reserved.2, 4) + t)))))))))))
  }

  function WriteSections(rs: seq<RawSection>, t: seq<byte>): seq<byte>
  {
    if rs == [] then t else WriteSection(rs[0], WriteSections(rs[1..], t))
  }

  function SectionsOf(rs: seq<RawSection>): (r: seq<Section>)
    ensures |r| == |rs|
  {
    if rs == [] then [] else [rs[0].section] + SectionsOf(rs[1..])
  }

  function WriteWords(ws: seq<u32>, t: seq<byte>): seq<byte> {
    if ws == [] then t else Le(ws[0], 4) + WriteWords(ws[1..], t)
  }

  ghost predicate WellFormed(c: Command) {
    match c
    case SegmentCmd(seg, maxprot, initprot, _, sections) =>
      && Named(seg.name) && |sections| < 0x1_0000_0000
      && seg.maxprot == FromVmProt(maxprot) && seg.initprot == FromVmProt(initprot)
      && seg.sections == SectionsOf(sections)
      && forall k :: 0 <= k < |sections| ==> Named(sections[k].section.name) && Named(sections[k].section.segName)
    case DylibCmd(_, path, filler) => Plain(path) && 12 + |filler| < 0x1_0000_0000
    case DylinkerCmd(path, filler) => Plain(path) && 12 + |filler| < 0x1_0000_0000
    case ThreadCmd(regs, _) => |regs| == 256
    case OtherThreadCmd(flavor, count) => flavor != ARM_THREAD_STATE64 || count != ARM_THREAD_STATE64_COUNT
    case UuidCmd(raw) => |raw| == 16
    case UnknownCmd(cmd) => cmd !in KNOWN
    case _ => true
  }

  /** The fields of a command, followed by `t`. */
  function WriteBody(c: Command, t: seq<byte>): seq<byte>
    requires WellFormed(c)
  {
    match c
    case SegmentCmd(seg, maxprot, initprot, flags, sections) =>
      Field(seg.name) + (Le(seg.vmaddr, 8) + (Le(seg.vmsize, 8) + (Le(seg.fileoff, 8) + (Le(seg.filesize, 8)
        + (Le(maxprot, 4) + (Le(initprot, 4) + (Le(|sections|, 4) + (Le(flags, 4) + WriteSections(sections, t)))))))))
    case DylibCmd(_, path, filler) => Le(12 + |filler|, 4) + (filler + (Chars(path) + ([0] + t)))
    case DylinkerCmd(path, filler) => Le(12 + |filler|, 4) + (filler + (Chars(path) + ([0] + t)))
    case MainCmd(fileOffset, stackSize) => Le(fileOffset, 8) + (Le(stackSize, 8) + t)
    case ThreadCmd(regs, pc) =>
      Le(ARM_THREAD_STATE64, 4) + (Le(ARM_THREAD_STATE64_COUNT, 4) + (regs + (Le(pc, 8) + t)))
    case OtherThreadCmd(flavor, count) => Le(flavor, 4) + (Le(count, 4) + t)
    case SymtabCmd(s) => WriteWords([s.symoff, s.nsyms, s.stroff, s.strsize], t)
    case DyldInfoCmd(_, i) =>
      WriteWords([i.rebaseOff, i.rebaseSize, i.bindOff, i.bindSize, i.lazyBindOff, i.lazyBindSize, i.exportOff,
                  i.exportSize], t)
    case EncryptionCmd(e) => WriteWords([e.cryptoff, e.cryptsize, e.cryptid], t)
    case UuidCmd(raw) => raw + t
    case FunctionStartsCmd(off, size) => WriteWords([off, size], t)
    case VersionCmd(version) => WriteWords([version], t)
    case UnknownCmd(_) => t
  }

  /** What a command does to the image. */
  function Apply(img: MachOImage, c: Command): MachOImage {
    match c
    case SegmentCmd(seg, _, _, _, _) => img.(segments := img.segments + [seg])
    case DylibCmd(kind, path, _) => img.(dylibs := img.dylibs + [Dylib(path, kind.Weak?, kind.Reexport?)])
    case DylinkerCmd(path, _) => img.(dylinker := Some(path))
    case MainCmd(fileOffset, stackSize) => img.(entry := Some(Main(fileOffset, stackSize)))
    case ThreadCmd(_, pc) => if img.entry.None? then img.(entry := Some(Thread(pc))) else img
    case OtherThreadCmd(_, _) => img
    case SymtabCmd(s) => img.(symtab := Some(s))
    case DyldInfoCmd(_, i) => img.(dyldInfo := Some(i))
    case EncryptionCmd(e) => img.(encryption := Some(e))
    case UuidCmd(raw) => img.(uuid := Some(raw))
    case FunctionStartsCmd(off, size) => img.(functionStarts := Some((off, size)))
    case VersionCmd(version) => img.(minOsVersion := Some(version))
    case UnknownCmd(_) => img
  }

  // ---- reading fields back -------------------------------------------------------------------------------------------

  lemma {:induction false} TakeBack(x: seq<byte>, t: seq<byte>)
    ensures Take(x + t, |x|) == Ok((x, t))
  {
    assert (x + t)[..|x|] == x && (x + t)[|x|..] == t;
  }

  lemma {:induction false} U32Back(v: u32, t: seq<byte>)
    ensures U32(Le(v, 4) + t) == Ok((v, t))
  {
    TakeBack(Le(v, 4), t);
    LeRoundTrip(v, 4);
    Pow2ThirtyTwo();
    hide Le, LeValue, Pow2;
    SmallMod(v, 0x1_0000_0000);
  }

  lemma {:induction false} U64Back(v: u64, t: seq<byte>)
    ensures U64(Le(v, 8) + t) == Ok((v, t))
  {
    hide Le, LeValue;
    TakeBack(Le(v, 8), t);
    Le64RoundTrip(v);
  }

  lemma {:induction false} CStrHead(c: char, t: seq<byte>)
    requires 0 < c as int < 256
    ensures CStr([c as int] + t) == [c] + CStr(t)
  {
    assert ([c as int] + t)[1..] == t;
  }

  lemma {:induction false} CStrBack(s: string, t: seq<byte>)
    requires Plain(s) && (t == [] || t[0] == 0)
    ensures CStr(Chars(s) + t) == s
    decreases |s|
  {
    if s == "" {
      assert Chars(s) + t == t;
    } else {
      CharsHead(s);
      hide Plain, Chars, CStr;
      CStrBack(s[1..], t);
      CStrHead(s[0], Chars(s[1..]) + t);
      assert [s[0] as int] + Chars(s[1..]) + t == [s[0] as int] + (Chars(s[1..]) + t);
      assert [s[0]] + s[1..] == s;
    }
  }

  lemma {:induction false} FieldBack(s: string, t: seq<byte>)
    requires Named(s)
    ensures FixedStr(Field(s) + t, 16) == Ok((s, t))
  {
    TakeBack(Field(s), t);
    var tail := Zeros(16)[..16 - |s|];
    assert Field(s) == Chars(s) + tail && (tail == [] || tail[0] == 0);
    CStrBack(s, tail);
    hide CStr, Chars;
  }

  lemma {:induction false} SectionBack(r: RawSection, t: seq<byte>)
    requires Named(r.section.name) && Named(r.section.segName)
    ensures ReadSection(WriteSection(r, t)) == Ok((r.section, t))
  {
    hide Field, Le, U32, U64, FixedStr, Named;
    var s := r.section;
    var t12 := Le(r.reserved.2, 4) + t;
    var t11 := Le(r.reserved.1, 4) + t12;
    var t10 := Le(r.reserved.0, 4) + t11;
    var t9 := Le(s.flags, 4) + t10;
    var t8 := Le(r.nreloc, 4) + t9;
    var t7 := Le(r.reloff, 4) + t8;
    var t6 := Le(r.align, 4) + t7;
    var t5 := Le(s.offset, 4) + t6;
    var t4 := Le(s.size, 8) + t5;
    var t3 := Le(s.addr, 8) + t4;
    FieldBack(s.name, Field(s.segName) + t3);
    FieldBack(s.segName, t3);
    U64Back(s.addr, t4);
    U64Back(s.size, t5);
    U32Back(s.offset, t6);
    U32Back(r.align, t7);
    U32Back(r.reloff, t8);
    U32Back(r.nreloc, t9);
    U32Back(s.flags, t10);
    U32Back(r.reserved.0, t11);
    U32Back(r.reserved.1, t12);
    U32Back(r.reserved.2, t);
  }

  lemma {:induction false} SectionsBack(rs: seq<RawSection>, t: seq<byte>)
    requires forall k :: 0 <= k < |rs| ==> Named(rs[k].section.name) && Named(rs[k].section.segName)
    ensures ReadSections(WriteSections(rs, t), |rs|) == Ok(SectionsOf(rs))
    decreases |rs|
  {
    hide WriteSection, ReadSection;
    if rs != [] {
      SectionBack(rs[0], WriteSections(rs[1..], t));
      SectionsBack(rs[1..], t);
    }
  }

  lemma {:induction false} SegmentBack(c: Command, t: seq<byte>)
    requires c.SegmentCmd? && WellFormed(c)
    ensures ReadSegment(WriteBody(c, t)) == Ok(c.seg)
  {
    hide Field, Le, U32, U64, FixedStr, Named, FromVmProt, WriteSections, ReadSections, SectionsOf;
    var s := c.seg;
    var t9 := WriteSections(c.sections, t);
    var t8 := Le(c.flags, 4) + t9;
    var t7 := Le(|c.sections|, 4) + t8;
    var t6 := Le(c.initprot, 4) + t7;
    var t5 := Le(c.maxprot, 4) + t6;
    var t4 := Le(s.filesize, 8) + t5;
    var t3 := Le(s.fileoff, 8) + t4;
    var t2 := Le(s.vmsize, 8) + t3;
    FieldBack(s.name, Le(s.vmaddr, 8) + t2);
    U64Back(s.vmaddr, t2);
    U64Back(s.vmsize, t3);
    U64Back(s.fileoff, t4);
    U64Back(s.filesize, t5);
    U32Back(c.maxprot, t6);
    U32Back(c.initprot, t7);
    U32Back(|c.sections|, t8);
    U32Back(c.flags, t9);
    SectionsBack(c.sections, t);
  }

  lemma {:induction false} WordsBack(ws: seq<u32>, t: seq<byte>)
    ensures ReadWords(WriteWords(ws, t), |ws|) == Ok(ws)
    decreases |ws|
  {
    hide Le, U32;
    if ws != [] {
      U32Back(ws[0], WriteWords(ws[1..], t));
      WordsBack(ws[1..], t);
      assert [ws[0]] + ws[1..] == ws;
    }
  }

  /** A string command's name starts after eight bytes of header, four of offset, and the filler. */
  lemma {:induction false} StringBack(head: seq<byte>, path: string, filler: seq<byte>, t: seq<byte>)
    requires |head| == 8 && Plain(path) && 12 + |filler| < 0x1_0000_0000
    ensures var s := Le(12 + |filler|, 4) + (filler + (Chars(path) + ([0] + t)));
            && U32(s).Ok? && U32(s).value.0 == 12 + |filler|
            && LcStr(head + s, 12 + |filler|) == Ok(path)
  {
    hide Le, U32, CStr, Chars, Plain;
    var tail := Chars(path) + ([0] + t);
    var s := Le(12 + |filler|, 4) + (filler + tail);
    U32Back(12 + |filler|, filler + tail);
    assert (head + s)[12 + |filler|..] == tail;
    CStrBack(path, [0] + t);
  }

  lemma {:induction false} ThreadBack(regs: seq<byte>, pc: u64, t: seq<byte>)
    requires |regs| == 256
    ensures ReadThreadPc(Le(ARM_THREAD_STATE64, 4) + (Le(ARM_THREAD_STATE64_COUNT, 4) + (regs + (Le(pc, 8) + t))))
            == Ok(Some(pc))
  {
    hide Le, U32, U64, Take;
    var t3 := Le(pc, 8) + t;
    U32Back(ARM_THREAD_STATE64, Le(ARM_THREAD_STATE64_COUNT, 4) + (regs + t3));
    U32Back(ARM_THREAD_STATE64_COUNT, regs + t3);
    TakeBack(regs, t3);
    U64Back(pc, t);
  }

  /** Each command, read back from the file, does to the image what it says. */
  lemma {:induction false} CommandBack(img: MachOImage, c: Command, head: seq<byte>, t: seq<byte>)
    requires WellFormed(c) && |head| == 8
    ensures ReadCommand(img, Number(c), head + WriteBody(c, t), WriteBody(c, t)) == Ok(Apply(img, c))
  {
    hide Le, U32, U64, Take, LcStr, ReadSegment, ReadThreadPc, WriteWords, ReadWords, Plain, Named, FromVmProt, Chars,
         WriteSections, SectionsOf, Field;
    match c
    case SegmentCmd(_, _, _, _, _) => SegmentBack(c, t);
    case DylibCmd(_, path, filler) => StringBack(head, path, filler, t);
    case DylinkerCmd(path, filler) => StringBack(head, path, filler, t);
    case MainCmd(fileOffset, stackSize) =>
      U64Back(fileOffset, Le(stackSize, 8) + t);
      U64Back(stackSize, t);
    case ThreadCmd(regs, pc) => ThreadBack(regs, pc, t);
    case OtherThreadCmd(flavor, count) => OtherThreadBack(flavor, count, t);
    case UuidCmd(raw) => TakeBack(raw, t);
    case UnknownCmd(_) =>
    case _ => WordCommandBack(img, c, t);
  }

  lemma {:induction false} OtherThreadBack(flavor: u32, count: u32, t: seq<byte>)
    requires flavor != ARM_THREAD_STATE64 || count != ARM_THREAD_STATE64_COUNT
    ensures ReadThreadPc(Le(flavor, 4) + (Le(count, 4) + t)) == Ok(None)
  {
    hide Le, U32, U64, Take;
    U32Back(flavor, Le(count, 4) + t);
    U32Back(count, t);
  }

  lemma {:induction false} WordCommandBack(img: MachOImage, c: Command, t: seq<byte>)
    requires WellFormed(c)
    requires c.SymtabCmd? || c.DyldInfoCmd? || c.EncryptionCmd? || c.FunctionStartsCmd? || c.VersionCmd?
    ensures ReadWordCommand(img, Number(c), WriteBody(c, t)) == Ok(Apply(img, c))
  {
    hide WriteWords, ReadWords;
    match c
    case SymtabCmd(s) => WordsBack([s.symoff, s.nsyms, s.stroff, s.strsize], t);
    case DyldInfoCmd(_, i) =>
      WordsBack([i.rebaseOff, i.rebaseSize, i.bindOff, i.bindSize, i.lazyBindOff, i.lazyBindSize, i.exportOff,
                 i.exportSize], t);
    case EncryptionCmd(e) => WordsBack([e.cryptoff, e.cryptsize, e.cryptid], t);
    case FunctionStartsCmd(off, size) => WordsBack([off, size], t);
    case VersionCmd(version) => WordsBack([version], t);
  }

  // ---- whole files --------------------------------------------------------------------------------------------------

  function BodySize(c: Command): nat
    requires WellFormed(c)
  {
    match c
    case SegmentCmd(_, _, _, _, sections) => 64 + 80 * |sections|
    case DylibCmd(_, path, filler) => 5 + |filler| + |path|
    case DylinkerCmd(path, filler) => 5 + |filler| + |path|
    case MainCmd(_, _) => 16
    case ThreadCmd(_, _) => 272
    case OtherThreadCmd(_, _) => 8
    case SymtabCmd(_) => 16
    case DyldInfoCmd(_, _) => 32
    case EncryptionCmd(_) => 12
    case UuidCmd(_) => 16
    case FunctionStartsCmd(_, _) => 8
    case VersionCmd(_) => 4
    case UnknownCmd(_) => 0
  }

  lemma {:induction false} SectionsSize(rs: seq<RawSection>, t: seq<byte>)
    ensures |WriteSections(rs, t)| == 80 * |rs| + |t|
    ensures WriteSections(rs, t)[80 * |rs|..] == t
    decreases |rs|
  {
    if rs != [] {
      SectionsSize(rs[1..], t);
      SectionSize(rs[0], WriteSections(rs[1..], t));
      var w := WriteSection(rs[0], WriteSections(rs[1..], t));
      hide WriteSection;
      assert w[80 * |rs|..] == w[80..][80 * |rs[1..]|..];
    }
  }

  lemma {:induction false} SectionSize(r: RawSection, t: seq<byte>)
    ensures |WriteSection(r, t)| == 80 + |t| && WriteSection(r, t)[80..] == t
  {
    hide Field, Le;
  }

  lemma {:induction false} WordsSize(ws: seq<u32>, t: seq<byte>)
    ensures |WriteWords(ws, t)| == 4 * |ws| + |t| && WriteWords(ws, t)[4 * |ws|..] == t
    decreases |ws|
  {
    hide Le;
    if ws != [] {
      WordsSize(ws[1..], t);
      var w := Le(ws[0], 4) + WriteWords(ws[1..], t);
      assert w[4 * |ws|..] == w[4..][4 * |ws[1..]|..];
    }
  }

  lemma {:induction false} BodyEnds(c: Command, t: seq<byte>)
    requires WellFormed(c)
    ensures |WriteBody(c, t)| == BodySize(c) + |t| && WriteBody(c, t)[BodySize(c)..] == t
  {
    hide Le, Field, Chars, WriteWords, WriteSections, Plain, Named, FromVmProt, SectionsOf;
    match c
    case SegmentCmd(_, _, _, _, sections) =>
      SectionsSize(sections, t);
      SegmentEnds(c, t);
    case DylibCmd(_, path, filler) => StringEnds(path, filler, t);
    case DylinkerCmd(path, filler) => StringEnds(path, filler, t);
    case MainCmd(fileOffset, stackSize) =>
    case ThreadCmd(regs, pc) => ThreadEnds(regs, pc, t);
    case OtherThreadCmd(flavor, count) =>
    case UuidCmd(raw) =>
    case UnknownCmd(_) =>
    case _ => WordBodyEnds(c, t);
  }

  lemma {:induction false} StringEnds(path: string, filler: seq<byte>, t: seq<byte>)
    ensures var s := Le(12 + |filler|, 4) + (filler + (Chars(path) + ([0] + t)));
            |s| == 5 + |filler| + |path| + |t| && s[5 + |filler| + |path|..] == t
  {
    hide Le, Chars;
  }

  lemma {:induction false} ThreadEnds(regs: seq<byte>, pc: u64, t: seq<byte>)
    requires |regs| == 256
    ensures var s := Le(ARM_THREAD_STATE64, 4) + (Le(ARM_THREAD_STATE64_COUNT, 4) + (regs + (Le(pc, 8) + t)));
            |s| == 272 + |t| && s[272..] == t
  {
    hide Le;
  }

  lemma {:induction false} WordBodyEnds(c: Command, t: seq<byte>)
    requires WellFormed(c)
    requires c.SymtabCmd? || c.DyldInfoCmd? || c.EncryptionCmd? || c.FunctionStartsCmd? || c.VersionCmd?
    ensures |WriteBody(c, t)| == BodySize(c) + |t| && WriteBody(c, t)[BodySize(c)..] == t
  {
    hide WriteWords;
    match c
    case SymtabCmd(s) => WordsSize([s.symoff, s.nsyms, s.stroff, s.strsize], t);
    case DyldInfoCmd(_, i) =>
      WordsSize([i.rebaseOff, i.rebaseSize, i.bindOff, i.bindSize, i.lazyBindOff, i.lazyBindSize, i.exportOff,
                 i.exportSize], t);
    case EncryptionCmd(e) => WordsSize([e.cryptoff, e.cryptsize, e.cryptid], t);
    case FunctionStartsCmd(off, size) => WordsSize([off, size], t);
    case VersionCmd(version) => WordsSize([version], t);
  }

  lemma {:induction false} SegmentEnds(c: Command, t: seq<byte>)
    requires c.SegmentCmd? && WellFormed(c)
    requires |WriteSections(c.sections, t)| == 80 * |c.sections| + |t|
    requires WriteSections(c.sections, t)[80 * |c.sections|..] == t
    ensures |WriteBody(c, t)| == BodySize(c) + |t| && WriteBody(c, t)[BodySize(c)..] == t
  {
    hide Le, Field, WriteSections, Named, FromVmProt, SectionsOf;
    var w := WriteBody(c, t);
    assert w[64..] == WriteSections(c.sections, t);
    assert w[64 + 80 * |c.sections|..] == w[64..][80 * |c.sections|..];
  }

  ghost predicate Placeable(p: Placed) {
    WellFormed(p.body) && 8 + BodySize(p.body) + |p.rest| < 0x1_0000_0000
  }

  function SizeOf(p: Placed): u32
    requires Placeable(p)
  {
    8 + BodySize(p.body) + |p.rest|
  }

  function WriteCommand(p: Placed, t: seq<byte>): seq<byte>
    requires Placeable(p)
  {
    Le(Number(p.body), 4) + (Le(SizeOf(p), 4) + WriteBody(p.body, p.rest + t))
  }

  function WriteCommands(ps: seq<Placed>, t: seq<byte>): seq<byte>
    requires forall k :: 0 <= k < |ps| ==> Placeable(ps[k])
  {
    if ps == [] then t else WriteCommand(ps[0], WriteCommands(ps[1..], t))
  }

  function WriteHeader(h: Header, t: seq<byte>): seq<byte> {
    WriteWords([MH_MAGIC_64, CPU_TYPE_ARM64, h.cpuSubtype, h.filetype, h.ncmds, h.sizeofcmds, h.flags, h.reserved], t)
  }

  function ApplyAll(img: MachOImage, ps: seq<Placed>): MachOImage
    decreases |ps|
  {
    if ps == [] then img else ApplyAll(Apply(img, ps[0].body), ps[1..])
  }

  /** A command is as long as it declares, so the next one is found after it. */
  lemma {:induction false} CommandEnds(p: Placed, t: seq<byte>)
    requires Placeable(p)
    ensures |WriteCommand(p, t)| == SizeOf(p) + |t| && WriteCommand(p, t)[SizeOf(p)..] == t
  {
    hide Le, WriteBody, BodySize, Number, WellFormed;
    var w := WriteCommand(p, t);
    var n := BodySize(p.body);
    BodyEnds(p.body, p.rest + t);
    assert w[8..] == WriteBody(p.body, p.rest + t);
    assert w[8 + n..] == w[8..][n..];
    assert w[8 + n + |p.rest|..] == w[8 + n..][|p.rest|..];
  }

  lemma {:induction false} CommandHead(img: MachOImage, p: Placed, t: seq<byte>)
    requires Placeable(p)
    ensures var command := WriteCommand(p, t);
            && U32(command) == Ok((Number(p.body), command[4..]))
            && U32(command[4..]) == Ok((SizeOf(p), command[8..]))
            && ReadCommand(img, Number(p.body), command, command[8..]) == Ok(Apply(img, p.body))
  {
    hide Le, WriteBody, BodySize, Number, WellFormed, U32, ReadCommand;
    var body := WriteBody(p.body, p.rest + t);
    var command := WriteCommand(p, t);
    var head := Le(Number(p.body), 4) + Le(SizeOf(p), 4);
    U32Back(Number(p.body), Le(SizeOf(p), 4) + body);
    U32Back(SizeOf(p), body);
    assert command == head + body && command[4..] == Le(SizeOf(p), 4) + body && command[8..] == body;
    CommandBack(img, p.body, head, p.rest + t);
  }

  lemma {:induction false} CommandsBack(img: MachOImage, bytes: Buffer, off: u64, ps: seq<Placed>, t: seq<byte>)
    requires forall k :: 0 <= k < |ps| ==> Placeable(ps[k])
    requires off <= |bytes| && bytes[off..] == WriteCommands(ps, t)
    ensures ReadCommands(img, bytes, off, |ps|) == Ok(ApplyAll(img, ps))
    decreases |ps|
  {
    hide WriteCommand, ReadCommand, U32, Number, Apply, Placeable, SizeOf;
    if ps != [] {
      var p := ps[0];
      var rest := WriteCommands(ps[1..], t);
      CommandHead(img, p, rest);
      CommandEnds(p, rest);
      SizeBounds(p);
      assert bytes[off + SizeOf(p)..] == bytes[off..][SizeOf(p)..];
      CommandsBack(Apply(img, p.body), bytes, off + SizeOf(p), ps[1..], t);
    }
  }

  lemma {:induction false} SizeBounds(p: Placed)
    requires Placeable(p)
    ensures 8 <= SizeOf(p)
  {
  }

  lemma {:induction false} HeaderBack(h: Header, t: seq<byte>)
    ensures ReadHeader(WriteHeader(h, t)) == Ok(h) && |WriteHeader(h, t)| == 32 + |t| && WriteHeader(h, t)[32..] == t
  {
    hide Le, U32, WriteWords;
    WordsSize([MH_MAGIC_64, CPU_TYPE_ARM64, h.cpuSubtype, h.filetype, h.ncmds, h.sizeofcmds, h.flags, h.reserved], t);
    var t8 := Le(h.reserved, 4) + t;
    var t7 := Le(h.flags, 4) + t8;
    var t6 := Le(h.sizeofcmds, 4) + t7;
    var t5 := Le(h.ncmds, 4) + t6;
    var t4 := Le(h.filetype, 4) + t5;
    var t3 := Le(h.cpuSubtype, 4) + t4;
    var t2 := Le(CPU_TYPE_ARM64, 4) + t3;
    HeaderWords(h, t);
    U32Back(MH_MAGIC_64, t2);
    U32Back(CPU_TYPE_ARM64, t3);
    U32Back(h.cpuSubtype, t4);
    U32Back(h.filetype, t5);
    U32Back(h.ncmds, t6);
    U32Back(h.sizeofcmds, t7);
    U32Back(h.flags, t8);
    U32Back(h.reserved, t);
  }

  lemma {:induction false} HeaderWords(h: Header, t: seq<byte>)
    ensures WriteHeader(h, t)
            == Le(MH_MAGIC_64, 4) + (Le(CPU_TYPE_ARM64, 4) + (Le(h.cpuSubtype, 4) + (Le(h.filetype, 4)
               + (Le(h.ncmds, 4) + (Le(h.sizeofcmds, 4) + (Le(h.flags, 4) + (Le(h.reserved, 4) + t)))))))
  {
    hide Le;
    var ws: seq<u32> := [MH_MAGIC_64, CPU_TYPE_ARM64, h.cpuSubtype, h.filetype, h.ncmds, h.sizeofcmds, h.flags,
                         h.reserved];
    WordsFrom(ws, 8, t);
    WordsFrom(ws, 7, t);
    WordsFrom(ws, 6, t);
    WordsFrom(ws, 5, t);
    WordsFrom(ws, 4, t);
    WordsFrom(ws, 3, t);
    WordsFrom(ws, 2, t);
    WordsFrom(ws, 1, t);
    WordsFrom(ws, 0, t);
    hide WriteWords;
    assert ws[0..] == ws;
  }

  lemma {:induction false} WordsFrom(ws: seq<u32>, i: nat, t: seq<byte>)
    requires i <= |ws|
    ensures WriteWords(ws[i..], t) == if i == |ws| then t else Le(ws[i], 4) + WriteWords(ws[i + 1..], t)
  {
    if i < |ws| { assert ws[i..][1..] == ws[i + 1..]; }
  }

  /** Parsing undoes writing: for every list of well-formed commands, in any order, with anything
      after each command's fields and after the last command, the parser gives the image the commands
      describe, and rejects the file exactly when none of them is a segment. */
  lemma {:induction false} ReadUndoesWrite(bytes: Buffer, h: Header, ps: seq<Placed>, t: seq<byte>)
    requires (forall k :: 0 <= k < |ps| ==> Placeable(ps[k])) && h.ncmds == |ps|
    requires bytes == WriteHeader(h, WriteCommands(ps, t))
    ensures var img := ApplyAll(EmptyImage(h.cpuSubtype, h.filetype, h.flags), ps);
            ReadImage(bytes) == if SegmentsOf(ps) == [] then Err(Rejected) else Ok(img)
  {
    hide ReadHeader, WriteHeader, ReadCommands, WriteCommands, ApplyAll;
    HeaderBack(h, WriteCommands(ps, t));
    var img := EmptyImage(h.cpuSubtype, h.filetype, h.flags);
    CommandsBack(img, bytes, 32, ps, t);
    SegmentsInOrder(img, ps);
  }

  // ---- what the commands describe -----------------------------------------------------------------------------------

  function SegmentsOf(ps: seq<Placed>): seq<MachSegment>
    decreases |ps|
  {
    if ps == [] then [] else (if ps[0].body.SegmentCmd? then [ps[0].body.seg] else []) + SegmentsOf(ps[1..])
  }

  lemma {:induction false} ApplySegments(img: MachOImage, c: Command)
    ensures Apply(img, c).segments == img.segments + if c.SegmentCmd? then [c.seg] else []
  {
  }

  /** Segments come back in the order of their commands, each with its sections in order. */
  lemma {:induction false} SegmentsInOrder(img: MachOImage, ps: seq<Placed>)
    ensures ApplyAll(img, ps).segments == img.segments + SegmentsOf(ps)
    decreases |ps|
  {
    hide Apply;
    if ps == [] {
      assert img.segments + [] == img.segments;
    } else {
      var img' := Apply(img, ps[0].body);
      SegmentsInOrder(img', ps[1..]);
      ApplySegments(img, ps[0].body);
      AppendAssociates(img.segments, if ps[0].body.SegmentCmd? then [ps[0].body.seg] else [], SegmentsOf(ps[1..]));
    }
  }

  lemma {:induction false} AppendAssociates<T>(a: seq<T>, b: seq<T>, c: seq<T>)
    ensures (a + b) + c == a + (b + c)
  {
  }

  function LastMain(ps: seq<Placed>): Option<EntryPoint>
    decreases |ps|
  {
    if ps == [] then None
    else if LastMain(ps[1..]).Some? then LastMain(ps[1..])
    else if ps[0].body.MainCmd? then Some(Main(ps[0].body.fileOffset, ps[0].body.stackSize))
    else None
  }

  function FirstThread(ps: seq<Placed>): Option<EntryPoint>
    decreases |ps|
  {
    if ps == [] then None
    else if ps[0].body.ThreadCmd? then Some(Thread(ps[0].body.pc))
    else FirstThread(ps[1..])
  }

  /** Whatever the order of the commands, the entry is the last `LC_MAIN` if there is one, else what
      the image had, else the first arm64 thread state. */
  lemma {:induction false} EntryOf(img: MachOImage, ps: seq<Placed>)
    ensures ApplyAll(img, ps).entry
            == if LastMain(ps).Some? then LastMain(ps)
               else if img.entry.Some? then img.entry
               else FirstThread(ps)
    decreases |ps|
  {
    if ps != [] {
      EntryOf(Apply(img, ps[0].body), ps[1..]);
      hide ApplyAll;
    }
  }

  // ---- the numbers of the format --------------------------------------------------------------------------------------

  /** Access bits: read, write and execute from the lowest up; higher bits say nothing. */
  lemma ProtectionBits(bits: u32)
    ensures var p := FromVmProt(bits);
            bits % 8 == (if p.read then 1 else 0) + (if p.write then 2 else 0) + (if p.exec then 4 else 0)
  {
    var a := bits / 2;
    var b := a / 2;
    var c := b / 2;
    assert bits / 4 == b;
    assert bits == 8 * c + 4 * (b % 2) + 2 * (a % 2) + bits % 2;
  }

  /** The numbers `<mach-o/loader.h>` gives the commands. */
  lemma CommandNumbers(c: Command)
    ensures Number(c)
            == match c
               case SegmentCmd(_, _, _, _, _) => 0x19
               case DylibCmd(kind, _, _) => if kind.Strong? then 0xC else if kind.Weak? then 0x8000_0018 else 0x8000_001F
               case DylinkerCmd(_, _) => 0xE
               case MainCmd(_, _) => 0x8000_0028
               case ThreadCmd(_, _) => 0x5
               case OtherThreadCmd(_, _) => 0x5
               case SymtabCmd(_) => 0x2
               case DyldInfoCmd(only, _) => if only then 0x8000_0022 else 0x22
               case EncryptionCmd(_) => 0x2C
               case UuidCmd(_) => 0x1B
               case FunctionStartsCmd(_, _) => 0x26
               case VersionCmd(_) => 0x25
               case UnknownCmd(cmd) => cmd
  {
  }

  /** A file starts with the 64-bit magic number and the arm64 processor type, least significant byte first. */
  lemma {:induction false} HeaderBytes(h: Header, t: seq<byte>)
    ensures |WriteHeader(h, t)| >= 8 && WriteHeader(h, t)[..8] == [0xCF, 0xFA, 0xED, 0xFE, 0x0C, 0x00, 0x00, 0x01]
  {
    HeaderWords(h, t);
    hide WriteHeader, Le;
    MagicBytes();
    var rest := Le(h.cpuSubtype, 4) + (Le(h.filetype, 4) + (Le(h.ncmds, 4) + (Le(h.sizeofcmds, 4) + (Le(h.flags, 4)
                + (Le(h.reserved, 4) + t)))));
    assert WriteHeader(h, t) == Le(MH_MAGIC_64, 4) + (Le(CPU_TYPE_ARM64, 4) + rest);
  }

  lemma MagicBytes()
    ensures Le(MH_MAGIC_64, 4) == [0xCF, 0xFA, 0xED, 0xFE] && Le(CPU_TYPE_ARM64, 4) == [0x0C, 0x00, 0x00, 0x01]
  {
    LeFour(MH_MAGIC_64);
    LeFour(CPU_TYPE_ARM64);
    hide Le;
  }

  lemma LeFour(v: nat)
    ensures Le(v, 4) == [v % 256, v / 256 % 256, v / 256 / 256 % 256, v / 256 / 256 / 256 % 256]
  {
    var a := v / 256;
    var b := a / 256;
    var c := b / 256;
    assert Le(c, 1) == [c % 256] + Le(c / 256, 0);
    assert Le(b, 2) == [b % 256] + Le(c, 1);
    assert Le(a, 3) == [a % 256] + Le(b, 2);
  }

  /** What is no 64-bit arm64 image is rejected. */
  lemma {:induction false} ForeignFilesRejected(bytes: Buffer)
    requires |bytes| < 8 || bytes[..8] != [0xCF, 0xFA, 0xED, 0xFE, 0x0C, 0x00, 0x00, 0x01]
    ensures ReadImage(bytes).Err?
  {
    hide ReadCommands, Le, LeValue;
    if |bytes| >= 8 {
      LeInverse(bytes[..4]);
      LeInverse(bytes[4..][..4]);
      assert bytes[..8] == bytes[..4] + bytes[4..][..4];
      MagicBytes();
    }
  }
}
