# Verified model of the iOS emulator core

This project models, in Dafny, how the emulator brings a 64-bit Mach-O executable to life: parsing the
load commands, mapping and relocating the segments, binding imports to trap stubs, laying out the
stack, and then serving the stops of the guest in a run loop, together with the heap, the Objective-C
runtime, the property-list readers, the path sandbox and the native trap patcher around it. It proves
what each of these promises and what they promise together.

## How it is organised

| files | part of the system |
|---|---|
| `Words` | fixed-width words, wrapping arithmetic, little-endian bytes |
| `Leb128`, `Opcodes`, `RebaseStream`, `BindStream`, `OpcodeMeanings` | the dyld opcode machines (LEB128 as in DWARF 5, section 7.6), and what each opcode byte does |
| `ByteText` | text as the bytes of a file |
| `Regions`, `FlatMemory`, `Memory` | guest memory as a sparse region map, and the flat memory it refines |
| `StubTable`, `Image`, `Loader`, `ProcessBuilder` | import stubs and the process builder, as a staged function and as the methods that do it |
| `Relocation`, `StackLayout`, `LoadLayout`, `Imports`, `LoadedProcess`, `BuildSuccess`, `CompoundBinds` | what a finished build guarantees, when a build finishes, and an image that breaks lazy binding |
| `RunLoop` | the run loop, trampoline service and lazy binder |
| `LibSystem`, `ObjcRuntime` | the clients of the bump heap |
| `BinaryPlist`, `PlistObjects`, `XmlPlist` | property lists |
| `MachO` | the load-command parser |
| `PathNormalizer` | path normalisation and sandbox translation |
| `TrapPatch` | rewriting and decoding system-call traps |

Code that works step by step is a method or a class here, proved equal to a function of its inputs or
of the old state; the properties are lemmas about those functions, and for each operation some of them say
what it does without naming the function. `GuestMemory` carries a ghost
history of every region map it has been through, so that properties of intermediate states can be
stated. Automatic induction is switched off on every lemma about sequences, maps and records; inductive
proofs say where they recurse. The executor, the guest, system calls and framework calls are arbitrary: a run is any sequence
of stops and replies.

## Reading of the source

* Arithmetic follows the release profile: plain `+`, `-` and `*` on machine words wrap, and a panic ends
  the process, which is the error `Aborted` here. A buffer of `isize::MAX` bytes or less can be allocated; asking
  for more is such a panic. How many bytes a property-list value takes is a parameter.
* Text is a sequence of bytes taken as characters, except where the conversion is a parameter.
* Retain counts are unbounded integers; the answer to `retainCount` is taken modulo 2^64, which is what a
  wrapping 64-bit counter cast to a word gives.

## Where the code differs from its documentation

* `docs/ARCHITECTURE.md:61-71` says images map at slide 0 and rebases are not replayed. The code slides and
  rebases (`crates/core/src/loader.rs:102-137`), and the model follows the code.
* `map_with_data` checks that a range is free, but an empty request at the base of a region that holds bytes
  replaces it; so does `map` with a size that rounding wraps to nothing, and `mmap_anon` with such a size
  answers a page at its cursor. `Memory.MapDataKeepsBytesIff`, `MapKeepsBytesIff`, `MapGivesIff` and
  `MmapGivesIff` give the exact conditions. The flat memory covers such requests too.
* The lazy parser skips the compound bind opcodes without their operands. `BindStream.SameInstructionsIff`
  says exactly when the two parsers read the same instructions, and `Imports.CompoundDesynchronises` gives
  an input on which they do not. The comment that every lazy symbol has a stub (`crates/core/src/loader.rs:260-262`)
  holds under the exact condition of `Imports.LazyBindingTotalIff`; `CompoundBinds.CompoundBreaksTotality` is
  a process for which it fails.
* A mapping, a copy or an array of a size that no allocation can have ends the process where the code looks as
  if it returned an error. `Memory.RunSimulates`, `BuildSuccess.LoadIff`, `LibSystem.CopyIff` and
  `BinaryPlist.DecodeIff` say when.
* A segment that rounds to no bytes is mapped, and may take the base of an earlier region with its bytes; the
  build then fails when it sets the protection, unless a later mapping has that base. `BuildSuccess.LoadIff`
  covers this.
* `translate` is documented to route paths under a prefix; a path that is a prefix itself, with or without a
  final slash, is refused, because the rest is empty. `PathNormalizer.Translate` states this exactly and
  `PathNormalizer.BarePrefixIsRefused` shows it.
* A comment in `normalize_ios_path` speaks of rejecting separators smuggled in by encoding; the code rejects
  NUL only.
* A UTF-16 string in a binary property list with a count of 2^63 or more loses its top bit.
  `BinaryPlist.Utf16CountIff` gives the condition.
* A text that already holds the marker breakpoint confuses the trap handler.
  `TrapPatch.DecodingSimulatesIff` gives the condition.

## Model

| member | source | states |
|---|---|---|
| Leb128.ReadUlebAt | crates/loader/src/dyld/bind.rs:219-234 | the loop over the cursor returns the base-128 number of the terminated prefix modulo 2^64, however long, and moves past exactly its bytes; without a terminator it fails |
| Leb128.UlebStep | crates/loader/src/dyld/bind.rs:221-231 | one turn of the loop, or-ing in seven bits or dropping them past bit 63, extends the number modulo 2^64 |
| Leb128.ReadSlebAt | crates/loader/src/dyld/bind.rs:236-253 | the signed loop returns what the specification says of the prefix, sign extension included, and moves past it |
| Leb128.ReadSlebDenotes | crates/loader/src/dyld/bind.rs:236-253 | on encodings of at most ten bytes the result is the signed base-128 number as a 64-bit integer, also where sign extension is skipped |
| Leb128.UlebRoundTrip | crates/loader/src/dyld/bind.rs:219-234 | minimal encoding followed by anything is read back to the same 64-bit value and length |
| Leb128.SlebRoundTrip | crates/loader/src/dyld/bind.rs:236-253 | minimal signed encoding followed by anything is read back, for every 64-bit integer |
| RebaseStream.ParseRebaseInfo | crates/loader/src/dyld/rebase.rs:43-103 | the interpreter loop over `p`, `seg_index`, `seg_offset`, `rtype` emits the run of the disassembled stream, or the error met first |
| RebaseStream.FetchAt | crates/loader/src/dyld/rebase.rs:52-99 | the cursor reads one opcode with its operands as the disassembler does, and rejects unknown opcodes |
| RebaseStream.Emit | crates/loader/src/dyld/rebase.rs:73-98 | the emitting loop of the `DO_REBASE` forms is a burst of the specification |
| RebaseStream.DecodeAppend | crates/loader/src/dyld/rebase.rs:43-103 | decoding two complete streams one after the other is decoding the first and then the second from the state it left |
| RebaseStream.BurstAt | crates/loader/src/dyld/rebase.rs:73-98 | the i-th location of a burst lies i*(8+skip) past the first modulo 2^64, and the cursor ends one stride past the last |
| RebaseStream.TimesSkippingIsMacro | crates/loader/src/dyld/rebase.rs:86-98 | between any prefix and suffix, TIMES_SKIPPING(n,k) decodes as n copies of the do-and-add-k form, failures included |
| RebaseStream.ImmediateFormsAreMacros | crates/loader/src/dyld/rebase.rs:67-90 | immediate and scaled forms decode as their ULEB forms anywhere in a stream |
| RebaseStream.DisassembleAssembled | crates/loader/src/dyld/rebase.rs:43-120 | disassembling an assembled program gives the program back |
| RebaseStream.CompressMeans | crates/loader/src/dyld/rebase.rs:43-103 | greedy compression into TIMES_SKIPPING runs emits exactly the given locations from any starting state |
| RebaseStream.RebaseRoundTrip | crates/loader/src/dyld/rebase.rs:43-120 | decoding the compressed encoding of any list of locations gives the list |
| OpcodeMeanings.RebaseImmediates | crates/loader/src/dyld/rebase.rs:43-103 | byte by byte: 0x0n does nothing, 0x1n sets the type, 0x4n moves the cursor by 8n modulo 2^64, 0x5n emits n locations eight bytes apart |
| OpcodeMeanings.RebaseOperands | crates/loader/src/dyld/rebase.rs:43-103 | with an operand k: 0x2n sets segment n and offset k, 0x3n moves the cursor by k and emits nothing, 0x6n emits k locations, 0x7n emits one and moves by 8 + k |
| OpcodeMeanings.RebaseSkipping | crates/loader/src/dyld/rebase.rs:90-97 | 0x8n with operands n and k emits n locations 8 + k bytes apart and leaves the cursor after them |
| OpcodeMeanings.RebaseFailures | crates/loader/src/dyld/rebase.rs:43-103 | from 0x90 up the error names the opcode, and an operand that does not end is an error |
| OpcodeMeanings.AddAddrMoves | crates/loader/src/dyld/rebase.rs:67-69 | after any complete stream an ADD_ADDR of k emits nothing and moves the cursor by k |
| OpcodeMeanings.AddAddrIsMacro | crates/loader/src/dyld/rebase.rs:84-88 | DO_REBASE_ADD_ADDR abbreviates one rebase and an ADD_ADDR, between any complete prefix and any suffix |
| BindStream.ParseBindInfo | crates/loader/src/dyld/bind.rs:59-135 | the interpreter loop emits the run of the disassembled stream, or the error met first |
| BindStream.FetchAt | crates/loader/src/dyld/bind.rs:74-132 | the cursor reads one opcode with its ULEB, SLEB and string operands as the disassembler does |
| BindStream.ReadCstrAt | crates/loader/src/dyld/bind.rs:255-266 | the string up to the first NUL, with the cursor after it, or an error when there is none |
| BindStream.Emit | crates/loader/src/dyld/bind.rs:109-128 | the emitting loop of the `DO_BIND` forms is a burst of the specification |
| BindStream.BurstAt | crates/loader/src/dyld/bind.rs:109-128 | the i-th record of a burst differs from the first only in lying i strides further on modulo 2^64 |
| BindStream.TimesSkippingIsMacro | crates/loader/src/dyld/bind.rs:121-128 | between any complete prefix and any suffix of bytes, TIMES_SKIPPING(n,k) decodes as n copies of the do-and-add-k form, failures included |
| BindStream.ScaledFormIsMacro | crates/loader/src/dyld/bind.rs:117-120 | the scaled immediate decodes as its ULEB form anywhere in a stream |
| BindStream.DecodeAppend | crates/loader/src/dyld/bind.rs:59-135 | decoding two complete streams one after the other is decoding the first and then the second from the state it left |
| BindStream.DisassembleAssembled | crates/loader/src/dyld/bind.rs:74-132 | disassembling an assembled program gives the program back, with the size of each instruction |
| BindStream.BindRoundTrip | crates/loader/src/dyld/bind.rs:59-135 | decoding the encoding of any list of records the opcodes can express gives the list |
| OpcodeMeanings.BindSetters | crates/loader/src/dyld/bind.rs:59-135 | byte by byte: 0x0n does nothing, 0x1n sets the ordinal, 0x3n a special ordinal n - 16 or 0, 0x5n the kind |
| OpcodeMeanings.BindSets | crates/loader/src/dyld/bind.rs:59-135 | with an operand k: 0x2n sets the ordinal to k as a signed word, 0x7n segment n and offset k |
| OpcodeMeanings.BindAddend | crates/loader/src/dyld/bind.rs:99-101 | 0x6n sets the addend to its signed operand |
| OpcodeMeanings.BindSymbol | crates/loader/src/dyld/bind.rs:92-95 | 0x4n sets the symbol to the text up to the NUL and weakness to the low flag bit |
| OpcodeMeanings.BindOnce | crates/loader/src/dyld/bind.rs:109-120 | 0x9n records the current state and moves the slot by 8, 0xBn by 8 + 8n |
| OpcodeMeanings.BindMoves | crates/loader/src/dyld/bind.rs:106-116 | 0x8n moves the slot by k and records nothing, 0xAn records and moves it by 8 + k |
| OpcodeMeanings.BindSkipping | crates/loader/src/dyld/bind.rs:121-128 | 0xCn with operands n and k records n slots 8 + k bytes apart |
| OpcodeMeanings.BindFailures | crates/loader/src/dyld/bind.rs:59-135 | from 0xD0 up the error names the opcode; an operand that does not end and a symbol without a NUL are errors |
| OpcodeMeanings.BindAddAddrIsMacro | crates/loader/src/dyld/bind.rs:113-116 | DO_BIND_ADD_ADDR abbreviates one bind and an ADD_ADDR, between any complete prefix and any suffix |
| BindStream.ParseLazyBindInfo | crates/loader/src/dyld/bind.rs:153-195 | the lazy loop emits the run of its own disassembly of the stream, or the error met first |
| BindStream.LazyDecodeAppend | crates/loader/src/dyld/bind.rs:153-195 | the lazy parser too reads a complete stream and what follows it one after the other |
| OpcodeMeanings.LazyImmediates | crates/loader/src/dyld/bind.rs:153-195 | DONE starts the next sequence after itself, a bind reports its sequence, segment, slot and symbol and moves nothing, and a byte from 0xA0 up is passed over alone |
| OpcodeMeanings.LazyPasses | crates/loader/src/dyld/bind.rs:169-176 | ordinals and types are passed over with their operands |
| OpcodeMeanings.LazyOperands | crates/loader/src/dyld/bind.rs:180-186 | segment and offset are set, and the slot moves by the operand modulo 2^64 |
| OpcodeMeanings.LazyTexts | crates/loader/src/dyld/bind.rs:173-179 | the symbol is the text up to the NUL, and an addend is passed over |
| OpcodeMeanings.LazyFailures | crates/loader/src/dyld/bind.rs:153-195 | below 0xA0 an operand that does not end and a symbol without a NUL are errors |
| BindStream.SameInstructionsIff | crates/loader/src/dyld/bind.rs:186-192 | on a stream the full parser accepts, the two parsers see the same instructions if and only if it uses no compound bind |
| BindStream.LockStep | crates/loader/src/dyld/bind.rs:59-195 | run side by side on simple opcodes, the two parsers emit matching records, the lazy offset trailing by eight bytes for every bind since the slot was set |
| BindStream.LazyParserAgrees | crates/loader/src/dyld/bind.rs:153-195 | on every accepted stream of simple opcodes the lazy parser succeeds and finds the same symbols and segments in the same order, with the stated drift of offsets |
| BindStream.SlotsAgreeIff | crates/loader/src/dyld/bind.rs:59-195 | an entry's slot agrees with the full parser's exactly when its drift is 0 modulo 2^64 |
| Words.PageUpIs | crates/common/src/lib.rs:26-30 | page rounding gives the least multiple not below the value, unless the plain addition wraps, when it gives 0 |
| Words.AlignmentsInUse | crates/common/src/lib.rs:26-34 | the page and sixteen-byte roundings used throughout are `align_up` and `align_down` at those alignments |
| Regions.CheckFreeIff | crates/memory/src/lib.rs:325-338 | the test of one neighbour succeeds exactly when the range does not wrap and overlaps no region |
| FlatMemory.RegionBaseIff | crates/memory/src/lib.rs:294-302 | the nearest-predecessor lookup finds the owner of every mapped address and fails on all others |
| FlatMemory.SliceIff | crates/memory/src/lib.rs:304-323 | a non-empty access succeeds exactly when one region holds the whole range and grants the protection |
| FlatMemory.AccessIff | crates/memory/src/region.rs:74-114 | in a flat memory that the region map refines, an access succeeds exactly when the cells form one mapping with the protection |
| FlatMemory.EmptyAccessIff | crates/memory/src/region.rs:74-114 | an empty access is judged by the byte at its address, or else by the empty mapping there, or else by the byte before it |
| FlatMemory.InsertAt | crates/memory/src/lib.rs:88-122 | a new region adds its cells and changes no other address |
| FlatMemory.OverwriteAt | crates/memory/src/lib.rs:88-122 | in general a new region also takes away the cells of the region that had its base |
| FlatMemory.ProtectAt | crates/memory/src/lib.rs:147-150 | a protection change reaches exactly the cells of the mapping that holds the address |
| FlatMemory.WriteAt | crates/memory/src/lib.rs:239-243 | a write changes exactly the addressed bytes and no protection |
| FlatMemory.ReadAt | crates/memory/src/lib.rs:232-237 | the bytes read are the values of the cells |
| Memory.BumpAllocator.Allocate | crates/memory/src/allocator.rs:24-35 | the cursor moves past the aligned block, or the call fails and changes nothing |
| Memory.AllocIff | crates/memory/src/allocator.rs:24-35 | where rounding does not wrap, an allocation succeeds if and only if an aligned block of the size fits between cursor and limit, takes the lowest one and moves the cursor to its end |
| Memory.GuestMemory.New | crates/memory/src/lib.rs:70-84 | the heap arena is mapped read-write at its base, or construction fails with the mapping's error, a panic included |
| Memory.GuestMemory.Map | crates/memory/src/lib.rs:88-102 | a zeroed region of the least whole number of pages, at least one, that holds the size is added where the range is free and no mapped byte changes, unless rounding the size up wraps, when the region is empty; a size no buffer can have is a panic; a failure changes nothing |
| Memory.GuestMemory.MapData | crates/memory/src/lib.rs:107-122 | the same with initial bytes, which must fit: the region starts with the data, is zero after it, and is the least whole number of pages that holds both size and data, unless rounding wraps; a size of zero is not raised to a page |
| Memory.GuestMemory.MapAnonymous | crates/memory/src/lib.rs:126-136 | takes the highest page-aligned range of the rounded size below the cursor, unless rounding wraps, when it takes the page at the cursor; a failed call leaves the cursor |
| Memory.GuestMemory.ProtectRegion | crates/memory/src/lib.rs:147-150 | replaces the protection of the region that holds the address |
| Memory.GuestMemory.Read | crates/memory/src/lib.rs:232-237 | the bytes of one readable region, or an error |
| Memory.GuestMemory.Write | crates/memory/src/lib.rs:239-243 | stores into one writable region, or fails and changes nothing |
| Memory.StepSimulates | crates/memory/src/lib.rs:88-338 | one request of any size answers alike, panics included, in the region map and in a flat partial byte map with its own rounding, protections and marks for empty mappings, and keeps the two related |
| Memory.RunSimulates | crates/memory/src/lib.rs:88-338 | over every sequence of requests, whatever their sizes, the replies of the region map are those of the flat memory, up to a panic if there is one |
| Memory.HasReference | crates/memory/src/lib.rs:70-84 | every well laid out memory has such a flat reference, the empty one the empty memory |
| Memory.FreeIsPlaceable | crates/memory/src/lib.rs:325-338 | the test of one neighbour accepts exactly the ranges the flat memory accepts |
| Memory.MapGivesIff | crates/memory/src/lib.rs:88-102 | a successful `map` gives a zeroed region of the least whole number of pages that holds the size, at least one, if and only if rounding does not wrap, and an empty region otherwise |
| Memory.MapDataGivesIff | crates/memory/src/lib.rs:107-122 | a successful `map_with_data` gives a region that starts with the data and is zero after it; it holds the size, and is then the least whole number of pages that holds size and data, if and only if rounding does not wrap |
| Memory.MapKeepsBytesIff | crates/memory/src/lib.rs:88-102 | a successful `map` keeps every mapped byte if and only if it does not map an empty region at the base of a region that holds bytes |
| Memory.MmapGivesIff | crates/memory/src/lib.rs:126-136 | a successful `mmap_anon` gives at least `size` bytes below the old cursor if and only if rounding does not wrap, and then at the highest page; when it wraps one page reaches past the cursor |
| Memory.HugeMmapAnswersTheTop | crates/memory/src/lib.rs:126-136 | the failing input: with nothing mapped at the top of the arena, 2^64 - 1 bytes are answered with the top itself |
| Memory.MapDataKeepsBytesIff | crates/memory/src/lib.rs:107-122 | a successful `map_with_data` keeps every mapped byte if and only if it does not map an empty region at the base of a region that holds bytes |
| Memory.EmptyRequestUnmaps | crates/memory/src/lib.rs:107-122 | the failing inputs: at the base of a region that holds bytes an empty `map_with_data` request and a `map` of 2^64 - 1 bytes succeed and unmap bytes |
| StubTable.StubResolver.ResolveSymbol | crates/loader/src/dyld/linker.rs:75-84 | the stub of a known symbol, or the next free address, entered in both tables |
| StubTable.ResolveKeeps | crates/loader/src/dyld/linker.rs:75-84 | the forward and reverse tables stay inverse to each other, and no earlier stub moves |
| ProcessBuilder.MapSegments | crates/core/src/loader.rs:79-100 | the loop places the segments as the specification does, and no intermediate memory has a region both writable and executable |
| ProcessBuilder.ApplyRebases | crates/core/src/loader.rs:115-134 | the loop adds the slide to every pointer location in turn, skipping the ones the source skips |
| ProcessBuilder.ApplyBinds | crates/core/src/loader.rs:154-177 | the loop resolves and stores every record in turn, in the resolver and in memory |
| ProcessBuilder.PublishPage | crates/core/src/loader.rs:184-202 | the stub page is mapped read-write, filled with `BRK #0` and sealed read-execute |
| ProcessBuilder.RestoreProtections | crates/core/src/loader.rs:219-228 | the loop gives each segment its initial protection; no intermediate memory violates W^X if no segment asks for both |
| ProcessBuilder.LayOutStack | crates/core/src/loader.rs:380-406 | the seven stores of `build_stack`, in order, with the addresses it returns |
| ProcessBuilder.IndexLazyBinds | crates/core/src/loader.rs:262-279 | the lazy table of the entries, later ones over earlier ones with the same offset |
| ProcessBuilder.BuildProcess | crates/core/src/loader.rs:62-292 | the build equals its staged specification, success or error, and in every memory it passes through no region is both writable and executable when no segment asks for both |
| Relocation.PlaceEffect | crates/core/src/loader.rs:79-100 | after placing, each mapped segment is one region at its slid base holding its file bytes and zeros, disjoint from the others |
| LoadedProcess.SegmentHoldsFile | crates/core/src/loader.rs:79-100 | after placing, each segment that keeps its base is a read-write region there that starts with the file bytes at its file offset, is zero after them, and has the least whole number of pages that holds its size and those bytes; when the file does not reach its end it is all zero |
| LoadedProcess.SegmentBytesAre | crates/core/src/loader.rs:79-100 | so byte j of the segment in memory is byte fileoff + j of the file below filesize, and 0 from there |
| Relocation.RebaseEffect | crates/core/src/loader.rs:115-134 | for pairwise apart slots every slot holds its old word plus the slide modulo 2^64 and no other byte changes |
| Relocation.RelocationPreservesMeaning | crates/core/src/loader.rs:79-137 | for every slide and every list whose pointer-type locations in mapped segments are whole and apart, loading slid gives the image loading unslid gives: each such pointer moved by the slide, all other bytes equal; other locations may be anything and are skipped |
| Relocation.FollowingReachesTheSame | crates/core/src/loader.rs:79-137 | if the word stored at a location of the unslid image is the address of byte o of a segment, the word stored there after sliding and rebasing is the address of byte o of the same segment, which is mapped |
| Relocation.LinkPreservesMeaning | crates/core/src/loader.rs:79-137 | the same for the memory of a link before it binds, at a slide and at the preferred addresses, with the locations of the image's own rebase stream |
| Relocation.LinkedPointersFollow | crates/core/src/loader.rs:79-137 | and each pointer that stream asks for leads to the same byte of the same segment in both |
| LoadedProcess.LoadedByteIs | crates/core/src/loader.rs:62-292 | after a whole load every byte of such a segment that no pointer of the streams covers is still that byte of the file, or 0 |
| LoadedProcess.RebaseSlotIs | crates/core/src/loader.rs:115-128 | a location names the address vmaddr + slide + offset modulo 2^64 when it is a pointer in a mapped segment, and nothing otherwise |
| LoadedProcess.RebaseOneIs | crates/core/src/loader.rs:128-134 | a pointer that can be read and written moves by the slide, one that cannot be read is skipped, one that cannot be written fails the build |
| LoadedProcess.LocationsAre | crates/core/src/loader.rs:109-115 | the locations are what the bytes of the file from the stream's offset decode to, none without a slide, and an error when they are not in the file |
| Imports.BindEffect | crates/core/src/loader.rs:154-177 | after any number of records, each slot with no later writer holds its symbol's stub plus the addend, and bytes outside all slots are untouched |
| Imports.ImportRoundTrip | crates/core/src/loader.rs:139-202 | after a load, a zero-addend slot with no later writer holds an address in the stub page whose reverse entry is the record's symbol |
| LoadedProcess.BindSlotIs | crates/core/src/loader.rs:154-161 | a record names the address vmaddr + slide + offset modulo 2^64 when its segment is mapped |
| LoadedProcess.BindOneIs | crates/core/src/loader.rs:161-173 | a record's symbol gets a stub in any case, a writable slot holds stub plus addend, and no other byte changes |
| LoadedProcess.RecordsAre | crates/core/src/loader.rs:142-154 | the records are what the eager stream's bytes decode to, then the lazy stream's |
| LoadedProcess.BoundWordIs | crates/core/src/loader.rs:139-177 | after a load the word at a bound pointer's address is its symbol's stub plus its addend modulo 2^64 |
| Imports.ForwardIff | crates/core/src/loader.rs:139-177 | binding any number of records gives a symbol a stub if and only if one of them names it and a mapped segment |
| Imports.LazyBindingTotalIff | crates/core/src/loader.rs:258-292 | after a load every entry of the lazy table has a stub if and only if every lazy entry the table keeps names a symbol that some record of a mapped segment names, which can be read from the file |
| Imports.SimpleStreamsImport | crates/core/src/loader.rs:258-279 | a lazy stream without compound binds meets that condition |
| Imports.LazyBindingIsTotal | crates/core/src/loader.rs:258-279 | so after a load without compound binds in the lazy stream, every entry of the lazy table names a symbol that has a stub |
| BindStream.OffsetsInStream | crates/loader/src/dyld/bind.rs:153-195 | the lazy entries are keyed by positions inside the stream |
| LoadedProcess.EntriesAre | crates/core/src/loader.rs:264-271 | the lazy entries are what the lazy parser makes of the bytes of the lazy stream |
| LoadedProcess.LazyEntryIs | crates/core/src/loader.rs:271-279 | a kept lazy entry is found at its offset, with its symbol and the address vmaddr + slide + offset of its slot |
| Imports.LazyPatchIsIdempotent | crates/core/src/loader.rs:258-279 | in a lazy stream without compound binds, where the offset did not drift, the addend is zero and no later record writes, the slot already holds what the binder would write |
| Imports.CompoundDesynchronises | crates/loader/src/dyld/bind.rs:190-192 | a five-byte stream with a compound bind that the two parsers read as binds of different symbols |
| CompoundBinds.CompoundBreaksTotality | crates/core/src/loader.rs:258-279 | an image with such a lazy stream whose build succeeds from every memory with a new heap above it, and whose lazy table sends offset 0 to a symbol that has no stub |
| StackLayout.FrameIs | crates/core/src/loader.rs:380-406 | string, apple, envp and argv areas are 16-aligned, disjoint and inside the stack |
| StackLayout.BuildStackIs | crates/core/src/loader.rs:380-406 | on a stack that fits, laying out succeeds and edits that region alone |
| StackLayout.InitialStack | crates/core/src/loader.rs:246-249 | argv[0] and apple[0] lead back to the NUL-terminated path, terminators are null, and no byte outside the stack region changes |
| LoadLayout.PublishEffect | crates/core/src/loader.rs:184-202 | publishing adds the sealed page and keeps every mapped byte |
| LoadLayout.PageTraps | crates/core/src/loader.rs:191-200 | every instruction of the published page is `BRK #0` |
| LoadLayout.FinishKeepsBytes | crates/core/src/loader.rs:184-256 | publishing, protecting and stacking keep every byte mapped when they began |
| LoadLayout.LoadedLayout | crates/core/src/loader.rs:62-292 | for a stack that holds its frame, a successful build ends with each base at the initial protection (read when none) of the last segment mapped there, the stub page all traps and r-x unless a segment has its base, the stack rw and the initial frame in place |
| LoadedProcess.RegistersAre | crates/core/src/loader.rs:373-410 | a process starts with argument count 1, `argv` at the aligned stack pointer, `envp` and `apple`; the first entries of `argv` and `apple` point at the path, each array ends in null |
| LoadedProcess.StubRangeIs | crates/core/src/loader.rs:180-204 | the stub range is the least whole number of pages, at least one, that holds a stride for every stub |
| LoadLayout.RestoreEffect | crates/core/src/loader.rs:218-227 | restoring succeeds if and only if every base is that of a region with bytes, and then the last segment at each base decides its protection and nothing else changes |
| BuildSuccess.PlaceIff | crates/core/src/loader.rs:79-100 | placing any segments, empty ones included, succeeds exactly when each has a file range that can be taken and fits its size, a size that can be allocated, and a range that is free when its turn comes |
| BuildSuccess.RebaseOk | crates/core/src/loader.rs:115-134 | rebasing never fails in a memory where what can be read can be written, whatever the locations |
| BuildSuccess.FinishIff | crates/core/src/loader.rs:184-249 | the steps after linking succeed exactly when the stub page is free, every segment base then holds bytes, and the stack is free and apart from the page, both of sizes that can be allocated |
| BuildSuccess.LoadIff | crates/core/src/loader.rs:62-292 | for every image, a build succeeds if and only if the image is not encrypted and has an entry, its streams parse, each segment can be loaded and is free in its turn, page and stack can be allocated and are free and apart, and at each base the last segment has bytes or the page is mapped there |
| BuildSuccess.EntrySlides | crates/core/src/loader.rs:317-326 | the entry point moves by the slide modulo 2^64, from `LC_MAIN` and from a thread state |
| LoadedProcess.EntryIs | crates/core/src/loader.rs:317-326 | the entry is the address of the first `__TEXT` segment, or 0, plus slide plus the offset of `LC_MAIN`, or the thread's pc plus slide, modulo 2^64 |
| RunLoop.Machine.DyldStubBinder | crates/core/src/machine.rs:283-330 | the binder reads the offset, patches the slot, pops sixteen bytes and continues at the stub, or returns to the caller on each failure |
| RunLoop.BinderPatches | crates/core/src/machine.rs:283-330 | when the low half of the stack word names a lazy bind whose symbol has a stub, the pc becomes the stub, sp moves up sixteen, the slot holds the stub if it can be written, and no other byte or register changes |
| RunLoop.BinderGivesUp | crates/core/src/machine.rs:283-310 | in every other case it returns to lr and changes nothing else |
| RunLoop.Machine.ServiceTrampoline | crates/core/src/machine.rs:239-272 | a stop in the stub page is looked up; the binder's stub binds, others are answered from outside and return to lr |
| RunLoop.ServiceIs | crates/core/src/machine.rs:239-272 | an unknown address returns to lr; `dyld_stub_binder` binds; any other stub takes the environment's reply and returns to its lr, with 0 in x0 if it was not handled |
| RunLoop.Machine.Run | crates/core/src/machine.rs:196-223 | the loop follows the transition function over any script of executor stops and outside replies, and ends with the same result |
| RunLoop.RunReturns | crates/core/src/machine.rs:196-220 | the first turn that ends the run (a system call once an exit is pending, an exit, a breakpoint, a fault) decides the result: the pending code, the code, 133 or the fault's pc, and the state is that turn's; later turns do not matter |
| RunLoop.RunTakesAll | crates/core/src/machine.rs:196-220 | if no turn ends the run every turn is taken, and the state is what the last one leaves |
| RunLoop.LoadedTablesAreSound | crates/core/src/loader.rs:258-292 | given room for the stubs, the tables of a loaded process are sound (every lazy symbol has a stub and every stub names its symbol) if and only if every lazy entry the table keeps names an imported symbol |
| RunLoop.BinderAlwaysResolves | crates/core/src/machine.rs:283-330 | over every run of a machine loaded from such an image, from any state, the binder never meets an unresolved symbol and jumps only to the stub at which the loop names the symbol asked for |
| RunLoop.NeverUnresolvedIff | crates/core/src/machine.rs:283-330 | for a loaded image that imports the binder, no run from any state meets an unresolved symbol if and only if every lazy entry the table keeps names an imported symbol |
| RunLoop.BindIsTransparent | crates/core/src/machine.rs:283-330 | after a successful bind the pc names the requested symbol, sp is up by sixteen, and every other register is as it was |
| RunLoop.LazyCallReachesSymbol | crates/core/src/machine.rs:239-330 | a stop at the binder followed by the stop at its pc is one call of the requested symbol |
| RunLoop.EagerCallReachesSymbol | crates/core/src/machine.rs:239-272 | a stop at the address a bound slot holds names the record's symbol |
| RunLoop.BinderWritesNothing | crates/core/src/machine.rs:283-330 | while lazy slots are bound the binder leaves memory exactly as it was |
| RunLoop.SlotsStayBound | crates/core/src/machine.rs:196-330 | over every run in which the guest and the environment leave the bytes of the lazy slots as they find them, bound slots stay bound |
| RunLoop.TurnKeepsSlots | crates/core/src/machine.rs:196-330 | one turn keeps them bound: the outside leaves the bytes and the binder rewrites what is there |
| RunLoop.LoadedSlotsAreBound | crates/core/src/loader.rs:258-292 | a loaded process whose lazy stream uses no compound bind and whose kept lazy binds did not drift, have no addend and are not overwritten starts with every lazy slot bound |
| RunLoop.LoadedMachineKeepsSlots | crates/core/src/machine.rs:196-330 | so a machine that runs such a process keeps its lazy slots bound, and its binder never changes memory |
| LibSystem.MallocShim | crates/hle/src/frameworks/libsystem.rs:32-37 | the return register gets the block or 0, and only the heap cursor moves |
| LibSystem.CallocShim | crates/hle/src/frameworks/libsystem.rs:39-51 | the same for the saturated product |
| LibSystem.ReallocShim | crates/hle/src/frameworks/libsystem.rs:53-73 | a fresh block, and a copy of `size` bytes when the old pointer is not null and they can be read; a panic when no buffer can hold them |
| LibSystem.MemcpyShim | crates/hle/src/frameworks/libsystem.rs:81-89 | a length no buffer can have is a panic; otherwise, when source and destination fit, each destination byte afterwards is the byte its place in the source held before, also where they overlap, and nothing else changes, and when they do not, nothing changes |
| LibSystem.CopyIff | crates/hle/src/frameworks/libsystem.rs:81-89 | the copy panics exactly for a length of 2^63 or more, and below that it is done exactly when the source can be read and the destination written |
| LibSystem.NewHeapOk | crates/memory/src/lib.rs:70-84 | the constructor establishes the heap invariant |
| LibSystem.HeapStep | crates/hle/src/frameworks/libsystem.rs:32-73 | every allocation, and every store inside a block, completes and keeps blocks 16-aligned, pairwise disjoint and inside the arena, and everything beyond them zero |
| LibSystem.HeapRun | crates/memory/src/allocator.rs:24-35 | the same over whole runs of allocations and stores, none of which panics |
| LibSystem.MallocIff | crates/hle/src/frameworks/libsystem.rs:32-37 | in a sound heap the answer is 0 exactly when no aligned block of the size is left, and otherwise the lowest one |
| LibSystem.ReallocIs | crates/hle/src/frameworks/libsystem.rs:53-73 | `realloc` answers as an allocation of the new size; from null nothing is copied, from another pointer `size` bytes if they can be read, and otherwise memory stays as it is |
| LibSystem.CallocGives | crates/hle/src/frameworks/libsystem.rs:39-51 | a block from `calloc` has all count * each bytes, mapped and zero |
| LibSystem.CallocIsZero | crates/hle/src/frameworks/libsystem.rs:39-51 | `calloc` returns zero bytes though it clears none |
| LibSystem.ReallocPreserves | crates/hle/src/frameworks/libsystem.rs:53-73 | `realloc` of a heap pointer always completes its copy and changes nothing handed out before |
| ObjcRuntime.ObjcRuntime.PreloadRootClasses | crates/hle/src/objc/runtime.rs:50-59 | both root names have a class afterwards, classes that were there keep their places, only missing names are added, no name is duplicated, and a second call changes nothing |
| ObjcRuntime.ObjcRuntime.GetOrCreateClass | crates/hle/src/objc/runtime.rs:67-82 | the tables, the heap and the result after a look-up are those of the specification, on success and on each failure |
| ObjcRuntime.ObjcRuntime.AllocateInstance | crates/hle/src/objc/runtime.rs:92-99 | the same for an instance |
| ObjcRuntime.NewClassIs | crates/hle/src/objc/runtime.rs:67-82 | a class made on first use is entered under its name and address, in the entry of that name if there is one, else in a new last entry that inherits from `NSObject` if that exists; a failure changes no table |
| ObjcRuntime.NewInstanceIs | crates/hle/src/objc/runtime.rs:92-99 | a new instance belongs to the class asked, with count 1; no table changes otherwise |
| ObjcRuntime.ObjectTags | crates/hle/src/objc/runtime.rs:73-96 | the first word of a class object is the magic number or-ed with its address, that of an instance its class |
| ObjcRuntime.ObjcRuntime.ReadSelector | crates/memory/src/lib.rs:272-284 | the characters up to a NUL or the limit, or the error of the first unreadable byte |
| ObjcRuntime.SelectorIff | crates/memory/src/lib.rs:272-284 | reading yields a text if and only if memory spells it: its characters readable one by one, then a NUL unless the limit is reached |
| ObjcRuntime.ObjcRuntime.SendMessage | crates/hle/src/objc/runtime.rs:108-175 | one message does to tables and heap, and returns, what the specification says of its selector |
| ObjcRuntime.DeafMessages | crates/hle/src/objc/runtime.rs:112-127 | nil, unreadable and empty selectors answer 0 and do nothing |
| ObjcRuntime.IdentityAnswers | crates/hle/src/objc/runtime.rs:143-144 | `init`, `initWith...`, `self`, `autorelease` and `hash` answer the receiver and do nothing |
| ObjcRuntime.CountingAnswers | crates/hle/src/objc/runtime.rs:144-157 | `retain` answers the receiver and adds one to its count, `release` answers 0 and takes one off, and nothing else changes |
| ObjcRuntime.AskingAnswers | crates/hle/src/objc/runtime.rs:158-165 | `class` answers an instance with its class object and anything else with itself, `retainCount` the count modulo 2^64 or 1 without one, and neither does anything |
| ObjcRuntime.AllocAnswers | crates/hle/src/objc/runtime.rs:133-141 | `alloc`, `allocWithZone:` and `new` answer a class with a new instance or 0, and anything else with 0 |
| ObjcRuntime.UnknownAnswers | crates/hle/src/objc/runtime.rs:167-172 | any other selector answers 0 and does nothing |
| ObjcRuntime.StepKeeps | crates/hle/src/objc/runtime.rs:50-175 | each look-up, allocation or message keeps name, address, index and name closed on themselves, classes and instances apart, and the tables in step with an independent ledger |
| ObjcRuntime.RunKeeps | crates/hle/src/objc/runtime.rs:50-175 | the same over every run, with anything happening to memory in between |
| ObjcRuntime.RuntimeIsSound | crates/hle/src/objc/runtime.rs:108-175 | after any run a name keeps its class object, `class` answers the object an instance was allocated from, `retainCount` answers 1 + retains - releases, no instance is a class, and names do not share objects |
| BinaryPlist.FoldBytes | crates/ipa/src/plist.rs:273-275 | the shift-and-or fold is the big-endian number modulo 2^64, for any width |
| BinaryPlist.DecodeObject | crates/ipa/src/plist.rs:153-243 | the recursive decoder with its two loops equals its specification, errors and the panic of an array too long for a vector included, and ends |
| BinaryPlist.Parse | crates/ipa/src/plist.rs:111-142 | trailer checks and offset table lead to decoding the top object, or to the trailer's error or the panic of a table too long for a vector |
| PlistObjects.ObjectBack | crates/ipa/src/plist.rs:153-252 | every kind of object, written with any count form, is read back from wherever it stands: booleans, integers, reals, dates, data, both texts, identifiers, and the counts and places of references |
| PlistObjects.MarkerFailures | crates/ipa/src/plist.rs:153-243 | which markers, indices, offsets and lengths are errors, and which error each is |
| PlistObjects.CountFailures | crates/ipa/src/plist.rs:245-258 | which announced counts are errors |
| PlistObjects.DocumentBack | crates/ipa/src/plist.rs:111-142 | a document written as objects, offset table and trailer gives the decoder exactly those offsets, sizes and top object |
| BinaryPlist.Complete | crates/ipa/src/plist.rs:153-243 | every object that unfolds to a tree nested within the limit is decoded to the value of that tree |
| BinaryPlist.Sound | crates/ipa/src/plist.rs:153-243 | whatever is decoded is what the object unfolds to, within the limit |
| BinaryPlist.DecodeIff | crates/ipa/src/plist.rs:153-243 | decoding yields v exactly when the graph unfolds to a finite tree of value v nested at most 128 deep, whatever the declared counts, with no array longer than a vector can be |
| BinaryPlist.ReadableArrayFits | crates/ipa/src/plist.rs:214-223 | in a buffer of less than 2^63 bytes divided by the size of a value no array whose references are there is too long |
| BinaryPlist.HugeArrayAborts | crates/ipa/src/plist.rs:214-223 | a ten-byte object whose declared count is a panic |
| BinaryPlist.KeysFit | crates/ipa/src/plist.rs:224-238 | a dictionary that decodes has a count whose value offset did not wrap |
| BinaryPlist.CyclesAndDeepChainsFail | crates/ipa/src/plist.rs:153-157 | every reachable reference cycle and every chain of more than the allowed references gives an error |
| BinaryPlist.InsertedKeys | crates/ipa/src/plist.rs:228-238 | a dictionary has exactly the keys it lists |
| BinaryPlist.LastEntryWins | crates/ipa/src/plist.rs:228-238 | the last entry with a key decides its value |
| BinaryPlist.Utf16CountIff | crates/ipa/src/plist.rs:201-208 | a UTF-16 string has the number of units it declares if and only if twice the count fits a word |
| BinaryPlist.Utf16CountWraps | crates/ipa/src/plist.rs:201-208 | a twelve-byte object that declares 2^63 + 1 units and yields one |
| XmlPlist.UnescapeEscape | crates/ipa/src/plist.rs:436-442 | unescaping undoes escaping of the five predefined entities (XML 1.0, section 4.6) on every string |
| XmlPlist.AmpersandFirstIsWrong | crates/ipa/src/plist.rs:436-442 | replacing `&amp;` first would not undo it |
| XmlPlist.Parser.Value | crates/ipa/src/plist.rs:358-384 | the recursive reader over the index field equals its specification and leaves the index after the value; it ends because every read advances |
| XmlPlist.Parser.Entries | crates/ipa/src/plist.rs:386-403 | the same for the loop over keys and values |
| XmlPlist.Parser.Items | crates/ipa/src/plist.rs:405-417 | the same for the loop over items |
| XmlPlist.Parser.ReadText | crates/ipa/src/plist.rs:419-429 | the unescaped text up to the first closing tag, or an error when there is none |
| XmlPlist.Parser.PassPrologue | crates/ipa/src/plist.rs:321-334 | declarations, comments and document types are passed over |
| XmlPlist.Parser.Parse | crates/ipa/src/plist.rs:299-306 | prologue, root tag and first value |
| XmlPlist.ReadsElement | crates/ipa/src/plist.rs:358-417 | reading a printed element gives its value back and leaves whatever follows it |
| XmlPlist.ReadUndoesPrint | crates/ipa/src/plist.rs:299-442 | any document printed from a tree of booleans, strings, arrays and dictionaries, with any closed preambles, attributes and blank padding, is read back to that tree's value |
| XmlPlist.ReadsNumbers | crates/ipa/src/plist.rs:358-384 | integers, reals and data give the library's reading of their unescaped text and leave what follows |
| XmlPlist.ValueFailures | crates/ipa/src/plist.rs:358-429 | anything else where a value should be, and a text that does not close, is an error |
| MachO.Reader.ReadBytes | crates/loader/src/macho/reader.rs:48-63 | the next n bytes with the cursor after them, or an error with the cursor where it was |
| MachO.Reader.ReadU32 | crates/loader/src/macho/reader.rs:73-75 | the little-endian word at the cursor |
| MachO.Reader.ReadU64 | crates/loader/src/macho/reader.rs:77-79 | the little-endian double word at the cursor |
| MachO.Reader.ReadFixedStr | crates/loader/src/macho/reader.rs:91-95 | the text of a NUL-padded field |
| MachO.ParseSegment | crates/loader/src/macho/image.rs:333-375 | a segment with its sections as the specification reads them |
| MachO.ImageParser.ParseCommand | crates/loader/src/macho/image.rs:250-331 | one command updates the image as specified; unknown commands change nothing |
| MachO.ParseThin | crates/loader/src/macho/image.rs:193-245 | the loop over the commands equals the specification, errors included |
| MachO.CommandBack | crates/loader/src/macho/image.rs:250-331 | each written command, read back wherever it stands, does to the image what it says |
| MachO.CommandsBack | crates/loader/src/macho/image.rs:226-239 | any list of written commands is read in order, each found by the size the one before declares |
| MachO.ReadUndoesWrite | crates/loader/src/macho/image.rs:193-245 | parsing a written file gives the image its commands describe, and rejects it exactly when none is a segment |
| MachO.SegmentsInOrder | crates/loader/src/macho/image.rs:363-373 | segments come back in the order of their commands, each with its sections |
| MachO.EntryOf | crates/loader/src/macho/image.rs:267-280 | the entry is the last `LC_MAIN` if there is one, else the first arm64 thread state, whatever the order |
| MachO.ProtectionBits | crates/common/src/guest.rs:105-115 | read, write and execute are the three lowest bits |
| MachO.CommandNumbers | crates/loader/src/macho/image.rs:250-331 | the number of each command |
| MachO.HeaderBytes | crates/loader/src/macho/image.rs:193-225 | a file the writer makes starts with the magic number and processor type of 64-bit arm |
| MachO.ForeignFilesRejected | crates/loader/src/macho/image.rs:193-225 | a file that does not start with them is rejected |
| PathNormalizer.NormalizeIosPath | crates/vfs/src/translate.rs:31-51 | the loop over the components is the stack walk |
| PathNormalizer.WalkFailsIff | crates/vfs/src/translate.rs:31-51 | the walk escapes exactly when some NUL-free prefix has more `..` than ordinary components, and otherwise fails exactly when there is a NUL |
| PathNormalizer.EscapeIff | crates/vfs/src/translate.rs:31-51 | on non-empty NUL-free input normalisation escapes exactly when some prefix has more `..` than ordinary components, and succeeds exactly when none has |
| PathNormalizer.NormalizeKeepsSurvivors | crates/vfs/src/translate.rs:31-51 | the result is, in order, the components that no later `..` pops |
| PathNormalizer.NormalizeIsFixed | crates/vfs/src/translate.rs:31-51 | no result has an empty, `.`, `..`, slash-bearing or NUL-bearing component; a non-empty result joined and normalised again is unchanged, and an empty one joins to the malformed empty path |
| PathNormalizer.StripPrefixIff | crates/vfs/src/sandbox.rs:151-160 | a prefix matches whole components only |
| PathNormalizer.JoinChecked | crates/vfs/src/sandbox.rs:135-145 | the base followed by the normalised components, or the error |
| PathNormalizer.Translate | crates/vfs/src/sandbox.rs:109-131 | a result is the base chosen by the first matching prefix followed by clean surviving components, and there is one exactly when the rest after the prefix is not empty, has no NUL and never climbs |
| PathNormalizer.RouteIs | crates/vfs/src/sandbox.rs:109-131 | a relative path goes below the bundle in the container, an absolute one to the container if it is at or below its prefix, else to the first shared tree it is at or below, read-only, and nowhere otherwise |
| PathNormalizer.TrimIs | crates/vfs/src/sandbox.rs:110-110 | blanks around the path do not matter |
| PathNormalizer.BarePrefixIsRefused | crates/vfs/src/sandbox.rs:109-131 | `/usr` and `/usr/` do not translate, `/usr/lib` does |
| TrapPatch.PrepareText | native/src/jit_exec.c:49-61 | the array is patched in place, word by word, up to the last whole word of the length |
| TrapPatch.PatchingIsClean | native/src/jit_exec.c:49-61 | no patched word is `svc #0x80`, all other words are unchanged, and patching again changes nothing |
| TrapPatch.BrkRoundTrip | native/src/jit_exec.c:31-37 | encoding a breakpoint and decoding its number gives the number |
| TrapPatch.BrkIsItsImm | native/src/jit_exec.c:31-37 | every breakpoint word is the encoding of its number |
| TrapPatch.TrapState.Handle | native/src/jit_exec.c:87-124 | the handler's globals after a signal are the classification of signal, pc and word |
| TrapPatch.HandlerIs | native/src/jit_exec.c:87-124 | access faults are faults where they happened; a trap in the stub range is a call of exactly that address; elsewhere a breakpoint 0xA2 is system call 0x80 resuming four bytes on, any other its number, and any other word a fault |
| TrapPatch.DecodingSimulatesIff | native/src/jit_exec.c:87-124 | outside the stub range the classification of every patched word is what the original word meant if and only if the text holds no marker breakpoint there |
| TrapPatch.SyscallsAreSvcs | native/src/jit_exec.c:107-123 | in such a text a system call is reported, resuming four bytes on, exactly where the original word was `svc #0x80`, and a breakpoint with its own number exactly where it was one |
| TrapPatch.MarkerIsMistaken | native/src/jit_exec.c:107-123 | a marker breakpoint in the original text is reported as a system call |

## Left out

- FAT containers: the slice selection compares magics across byte orders and its base is not applied; only thin images are modelled.
- Module initialisers: collecting the pointers of `__mod_init_func` sections reads memory and changes nothing.
- ReadSlebDenotes: covers encodings of at most ten bytes; on longer ones the shift is masked, which the reading follows but no meaning is claimed.
- LEB128 readers: the 32-bit shift counter would wrap after 2^29 bytes of one operand; it is unbounded here.
- LazyBindingIsTotal: asks that the lazy stream uses no compound bind; LazyBindingTotalIff has the exact condition.
- LazyPatchIsIdempotent: holds for records whose offsets did not drift and that no later record overwrites, as the source relies on.
- RelocationPreservesMeaning: asks for non-empty segments, and for pointer-type locations of mapped segments to be whole and apart; it says nothing about a slide for which placing the segments fails.
- InitialStack: asks for a stack that holds the path, its alignment and the three arrays.
- SlotsStayBound: assumes the guest and its environment leave the slots' bytes alone and memory well laid out; a guest may overwrite them.
- BindRoundTrip: covers records whose symbol is NUL-free text and whose kind is not the unnamed kind 1, which no opcode produces.
- HeapRun: the guest's stores are assumed to stay inside blocks it was given, and the rest of the system to leave the arena alone.
- LoadIff: assumes a stack that holds its frame, and a memory whose readable regions are writable, as a memory with only the heap is.
- LoadedLayout: asks for a stack that holds its frame; on a smaller one the frame's stores may land in whatever lies below.
- NeverUnresolvedIff: asks for room for the stubs and for an image that imports `dyld_stub_binder`; without that import no stop is ever a bind.
- AllocIff: says nothing of a cursor so close to 2^64 that rounding it up leaves the machine word; Block16 and the heap results keep away from it.
- LoadedByteIs: asks for a stack that holds its frame, as LoadedLayout does, and for a byte that no pointer of the streams covers.
- StubRangeIs: asks for room for the stubs below the top of the address space.
- ImportRoundTrip: covers zero addends and slots that no later record writes.
- Failed builds: memory after a failed build is specified only by W^X; the order of parsing the lazy table after the binds is visible only there.
- Log messages, and the text carried by errors.
- Memory exhaustion: an allocation below the limit of 2^63 bytes can still exhaust the host; that has no effect here.
- Property lists: the values of reals, base64 data and number text are parameters or raw bytes; the format test by magic is not modelled.
- Text: lossy UTF-8 and UTF-16 conversion is a parameter in binary property lists and one byte to one character elsewhere; XML input is taken to be valid UTF-8.
- Native effects: page protection on the device, cache flushing, copying into native pages and signal delivery.
- Host files: opening, reading and creating files, zip archives, clocks and randomness; host paths are lists of components.
- System calls and framework stubs: what they do to registers and memory is the reply of the run loop's environment.
- Executor: instruction semantics; any stop in any state is possible.
- Regions of the manager are values in a map; sharing of their buffers with native code is not modelled.
