/** The parsed description of a thin arm64 Mach-O image. */
module Image {
  import opened Words
  import opened Regions

  datatype Section = Section(segName: string, name: string, addr: u64, size: u64, offset: u32, flags: u32)

  datatype MachSegment = MachSegment(name: string, vmaddr: u64, vmsize: u64, fileoff: u64, filesize: u64,
                                     initprot: Protection, maxprot: Protection, sections: seq<Section>)

  datatype Dylib = Dylib(path: string, weak: bool, reexport: bool)

  datatype EntryPoint = Main(fileOffset: u64, stackSize: u64) | Thread(vmaddr: u64)

  datatype Encryption = Encryption(cryptoff: u32, cryptsize: u32, cryptid: u32)

  datatype SymtabInfo = SymtabInfo(symoff: u32, nsyms: u32, stroff: u32, strsize: u32)

  datatype DyldInfo = DyldInfo(rebaseOff: u32, rebaseSize: u32, bindOff: u32, bindSize: u32,
                               lazyBindOff: u32, lazyBindSize: u32, exportOff: u32, exportSize: u32)

  datatype MachOImage = MachOImage(
    cpuSubtype: u32, filetype: u32, flags: u32, segments: seq<MachSegment>, dylibs: seq<Dylib>,
    dylinker: Option<string>, entry: Option<EntryPoint>, symtab: Option<SymtabInfo>,
    dyldInfo: Option<DyldInfo>, encryption: Option<Encryption>, uuid: Option<seq<byte>>,
    functionStarts: Option<(u32, u32)>, minOsVersion: Option<u32>)

  predicate IsEncrypted(image: MachOImage) {
    image.encryption.Some? && image.encryption.value.cryptid != 0
  }

  /** Preferred address of the first `__TEXT` segment, or 0. */
  function TextVmaddr(segs: seq<MachSegment>): u64 {
    if segs == [] then 0
    else if segs[0].name == "__TEXT" then segs[0].vmaddr
    else TextVmaddr(segs[1..])
  }
}
