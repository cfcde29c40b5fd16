# Verified models of the vita-toolchain algorithms

The toolchain turns an ARM ELF into a PlayStation Vita module. This project models the algorithms that
do the work, one module per source file or stage, and proves what they are for. Code that changes state in
the source is a method or a class here (arrays, linked nodes, fields, loops with invariants), proved
against a function or predicate; what the source promises is then proved about that function. `dafny verify
dfyconfig.toml` checks everything.

- **Option parsing** (`PermuteArgs`, `Getopt`, `GetoptCommands`): the in-place exchange of two blocks by
  gcd-many cycles, and the scanning state machine that moves non-options behind options over many calls,
  against a reference parse without state; and that parse against commands: what a line of commands prints
  as words is told back to the caller as those commands.
- **Relocations** (`ArmReloc`, `SceRel`, `RelocTable`, `VstubRelas`, `SectionRenumber`): decoding and
  re-encoding of ARM and Thumb immediates, addend recovery modulo 2^32, the `.sce.rel` records, and the
  bookkeeping around removed stub sections. The specification is a small loader that follows section 4.6.1
  of ELF for the ARM Architecture (ARM IHI 0044).
- **Hashes** (`Fips180`, `Sha256`, `Sha256Examples`): the streaming code against FIPS 180-4, sections 4 to 6,
  and HMAC against section 2 of RFC 2104. The round constants are tied to the cube roots they come from, the
  compression function to the standard's digest of "abc".
- **Module info** (`VArray`, `Imports`, `ModuleImage`, `ModuleInfo`, `ModuleRelas`, `ModuleSize`,
  `ImportTables`, `ModuleEncode`, `EncodeModule`, `ModuleCreate`, `ModuleStubs`): from the stubs over the
  sorted import tables to the size pass and the encode pass with its nine section cursors, and back by
  following pointers to the stubs themselves.
- **Pointer structures** (`FsList`, `NidDb`): tree walks without a stack, one of which frees every node as it
  goes, and circular lists of lists with heads inside their owners. A field can only be read of a node that
  has not been freed.
- **The database checker** (`NidBypass`, `NidCheck`): its rules over whole runs, against a statement of the
  rules that knows no database. The order it asks for is `strcmp`'s, which is lexicographic (`Strcmp`).
- **Printer and parser** (`YamlTree`, `ExportYaml`, `ExportMeaning`): recursive descent over libyaml's events
  with one event of lookahead, export descriptions printed, parsed and read back, and what a description
  written by hand means.
- **Parameter files** (`Sfo`, `SfoTable`, `SfoWriter`, `SfoOptions`): option table, layout in three buffers, the
  reader of `test/test_mksfoex.py`, and what it finds in terms of the options of the run.
- **A whole program** (`Mksfoex`): from the words typed on a command line of `vita-mksfoex` to what is read in
  its file.

Where the code does not do what its surroundings suggest, the model follows the code, gives an input that
shows it, and states exactly when the expected property holds:

- A long option that is spelled out in full can be refused as ambiguous, when two earlier entries start with
  it (`Getopt.ExactNameRefused`, `Getopt.ExactName`).
- A MOVW/MOVT pair whose halves are relocated apart can lose a carry (`ArmReloc.PairCanBreak`,
  `ArmReloc.PairRebases`); other references are rebased as if linked there (`RelocTable.ConversionRebases`).
- Offset 0 stands for address 0 as well as for the start of a segment (`RelocTable.OffsetRecoversAddress`).
- `varray_insert` drops the last element when the initialiser of a new one fails (`VArray.VArray.Insert`).
- The no-duplicate test of the stub tables compares a NID with an address, so it misses duplicates and can
  drop stubs that are none (`Imports.DuplicateTestMisses`, `Imports.DuplicateTestDropsAnother`); the encoder
  then fails because it "did not use all space" (`ModuleCreate.CreateAndEncode`).
- A library whose privilege comes after its entries escapes the database rules
  (`NidCheck.LatePrivilegePasses`, `NidCheck.NextEntryIff`).
- `-d` on an entry that is a text changes the size of its slot, so later values can be unaligned
  (`Sfo.OffsetOffFour`, `Sfo.OffsetsOnFour`, `SfoWriter.OptionsAligned`); a text longer than its slot, such as
  a title of 60 bytes in STITLE's 52, is read back only if the bytes behind the slot happen to continue it
  (`Sfo.LongTitleLost`, `Sfo.FileReadsBackIff`).
- Reserved symbol section numbers such as SHN_ABS are decremented with the ordinary ones
  (`SectionRenumber.ReservedMoves`).

## Model

| member | source | states |
|---|---|---|
| PermuteArgs.Gcd | src/vita-mksfoex/getopt_long.c:90-105 | the remainder loop ends with the greatest common divisor, together with Bezout coefficients for it |
| PermuteArgs.Permute | src/vita-mksfoex/getopt_long.c:107-139 | for any two nonempty adjacent blocks, the array ends as the second block, then the first, everything else in place |
| PermuteArgs.PosInjective | src/vita-mksfoex/getopt_long.c:118-138 | two visits of the gcd cycles at the same position are the same visit |
| PermuteArgs.PosOnto | src/vita-mksfoex/getopt_long.c:118-138 | every position of the two blocks lies on one of the gcd cycles, within (n+m)/gcd steps |
| PermuteArgs.ExchangedIsPermutation | src/vita-mksfoex/getopt_long.c:107-139 | the exchange loses and invents no argument |
| Getopt.Scanner.Internal | src/vita-mksfoex/getopt_long.c:146-276 | one call of the state machine over the static variables takes one step of the reference parse and keeps nargv laid out as options found, skipped block, rest |
| Getopt.Scanner.Next | src/vita-mksfoex/getopt_long.c:282-405 | each call delivers the next event of the reference parse; the call that answers -1 leaves nargv with the taken words first and the others behind, in order |
| Getopt.ScanAll | src/vita-mksfoex/getopt_long.c:146-405 | over the complete run the events are those of the reference parse of the original arguments, and nargv ends as program name, words taken, words left, with optind at the latter |
| Getopt.ScanMerges | src/vita-mksfoex/getopt_long.c:146-276 | of the reference parse: every word is either taken or left, and both keep their original order |
| Getopt.ScanPermutes | src/vita-mksfoex/getopt_long.c:146-276 | of the reference parse: taken and left words together are the original ones, as a multiset |
| Getopt.ExactName | src/vita-mksfoex/getopt_long.c:319-341 | a name spelled out in full is found exactly when at most one earlier table entry starts with it, and is reported ambiguous otherwise |
| Getopt.AbbreviatedName | src/vita-mksfoex/getopt_long.c:319-341 | a name that no entry spells out is found exactly when it abbreviates one entry only |
| Getopt.ExactNameRefused | src/vita-mksfoex/getopt_long.c:319-341 | with the entries foobar, foobaz and foo, in this order, "--foo" is ambiguous |
| GetoptCommands.LineScans | src/vita-mksfoex/getopt_long.c:146-405 | for every list of commands that the tables allow (flags, also several in one word, short and long options with joined, separate or missing arguments, abbreviations, `-W`, unknown options, operands, `--`), in each of the three modes, scanning the words they print tells of each command its return value and its argument, in order, and splits the words into those of options and those left over |
| GetoptCommands.EveryLine | src/vita-mksfoex/getopt_long.c:146-405 | any list of words at all is what some such list of commands prints, under any tables |
| GetoptCommands.ReadLine | src/vita-mksfoex/getopt_long.c:146-405 | on any arguments: whatever commands printed them, the run of calls delivers exactly their return values and arguments, and leaves in nargv the program name, the words of the options and then the others, each in order |
| ArmReloc.DecodedTargetKeepsWord | src/vita-elf-create/vita-elf.c:271-322 | for every type handled as normal, resolving the relocation to its decoded target writes the same word back |
| ArmReloc.AppliedTargetDecodes | src/vita-elf-create/vita-elf.c:271-322 | what a loader wrote for a target decodes to that target, as far as the type can hold it; a Thumb call loses only the Thumb bit |
| ArmReloc.ApplyTwice | src/vita-elf-create/vita-elf.c:271-322 | relocating a word twice is relocating it once, to the second target |
| ArmReloc.RecoveredAddendKeepsWord | src/vita-elf-create/vita-elf.c:421-435 | symbol plus recovered addend, modulo 2^32, resolves to the word the linker left, for every type handled as normal, Thumb bit and MOVW/MOVT halves included |
| ArmReloc.PairRebases | src/vita-elf-create/vita-elf.c:423-427 | a MOVW/MOVT pair linked to x and moved by delta builds x + delta exactly when delta carries out of the symbol's low half just when it carries out of the target's; so it always does for addend 0 and for multiples of 64 KiB |
| ArmReloc.PairCanBreak | src/vita-elf-create/vita-elf.c:423-427 | a symbol at 0x8100FFF0 with addend 0x20, moved by 0x100: the pair builds a wrong address, whatever the instructions and their places |
| ArmReloc.ResolvedMoves | src/vita-elf-create/vita-elf.c:271-435 | recovering a target against its symbol, moving it and resolving it elsewhere gives the word that linking to the moved target would have given, for every type, in reach or not; branches must stay aligned and a MOVT must get the right carry |
| ArmReloc.FixupKeepsInstruction | src/vita-elf-create/vita-elf.c:74-107 | a fixed-up word refers to address 0, and resolving it later gives what resolving the original word would have given |
| ArmReloc.ArmMovFields | src/vita-elf-create/vita-elf.c:303-306 | the immediate of an ARM MOVW or MOVT is in bits 19-16 and 11-0 (sections A8.8.102 and A8.8.106 of ARM DDI 0406C), and no other bit changes |
| ArmReloc.ThmMovFields | src/vita-elf-create/vita-elf.c:307-318 | the immediate of a Thumb MOVW or MOVT is in imm4, i, imm3 and imm8 of the two halfwords, and no other bit changes |
| ArmReloc.ArmBranchFields | src/vita-elf-create/vita-elf.c:296-302 | the displacement of B and BL is held in words in bits 23-0 (sections A8.8.18 and A8.8.25) |
| ArmReloc.ThmBranchFields | src/vita-elf-create/vita-elf.c:286-295 | the displacement of a Thumb branch is in S, imm10 and imm11, with its bits 23 and 22 XORed with the inverted sign in J1 and J2 |
| SceRel.TypeNumbers | src/vita-elf-create/elf-defs.h:4-22 | the relocation types have the numbers of ELF for the ARM Architecture |
| SceRel.VarWordsLength | src/vita-elf-create/vita-elf.c:115-143 | the size accounted for the records of a variable is the size of the words written for them, short and long |
| SceRel.VarWordsRead | src/vita-elf-create/sce-elf.c:984-1000 | reading the words gives back every record: place, type, and addend, the short addend sign-extended |
| RelocTable.LoadRelTable | src/vita-elf-create/vita-elf.c:351-445 | the table holds the entry recovered for each REL entry, or the load fails, exactly when one of them cannot be loaded |
| RelocTable.LoadsIff | src/vita-elf-create/vita-elf.c:397-435 | an entry fails to load exactly when it is in its section and its type is neither handled nor ignored or its symbol does not exist; an entry of a handled type keeps its place and symbol, and symbol plus addend is the target that its word was resolved to |
| RelocTable.VaddrToSegndx | src/vita-elf-create/vita-elf.c:915-930 | the first segment that is no unwind table and covers the address, or none |
| RelocTable.DiscardInvalid | src/vita-elf-create/sce-elf.c:1206-1235 | an entry is unchanged exactly when it is void already or its symbol is none, or defined in a section, that is neither undefined nor absolute nor common, and a segment covers its place; every other entry differs from before in its type only, which becomes none |
| RelocTable.WriteRelas | src/vita-elf-create/sce-elf.c:1237-1291 | what is read back from the written records is what each entry emits, in order |
| RelocTable.EntryReadsBack | src/vita-elf-create/sce-elf.c:1162-1204 | packing a long record into three words loses nothing |
| RelocTable.EntryLayout | src/vita-elf-create/sce-elf.h:51-59 | the fields of a record: symbol segment in bits 7-4, type in bits 15-8, place segment in bits 19-16 of the first word, then the offset of S + A and the offset of the place |
| RelocTable.OffsetRecoversAddress | src/vita-elf-create/vita-elf.c:932-941 | segment start plus offset is the address again exactly when the address is not 0 or the segment starts at 0 |
| RelocTable.ConversionPreservesImage | src/vita-elf-create/sce-elf.c:1206-1291 | loading the emitted records with every segment at its link address writes back the image that was converted, also when segments grew in between |
| RelocTable.MovedTargetDecodes | src/vita-elf-create/sce-elf.c:1266-1284 | with the segments loaded elsewhere, one record rewrites the word at the moved place and no other, and the word refers to the moved S + A as far as its type can hold it |
| RelocTable.LoadKeepsOthers | src/vita-elf-create/sce-elf.c:1237-1291 | loading all emitted records, at any bases, changes no byte outside the moved places of the relocated words |
| RelocTable.LoadedRefersToMoved | src/vita-elf-create/sce-elf.c:1237-1291 | after all emitted records are loaded at any bases, the word at every moved place is the one that its own record makes of the original, and refers to its moved S + A |
| RelocTable.ConversionRebases | src/vita-elf-create/sce-elf.c:1206-1291 | the whole way, from the REL entry: if it relocates a covered word against a symbol that is defined in a section and lies in a segment, then loading the section, discarding, emitting and loading at any bases leaves at the moved place what linking the same instruction to the moved target would have written, for branches that stay aligned and MOVT that gets the right carry |
| RelocTable.ConversionKeeps | src/vita-elf-create/sce-elf.c:1206-1291 | no reference is lost: every such REL entry ends up as a record with its type, its place, and symbol plus recovered addend as its target |
| RelocTable.RelocatableIsActive | src/vita-elf-create/sce-elf.c:1206-1291 | exactly those REL entries that relocate a covered word against a symbol defined in a section and lying in a segment become records with a symbol |
| RelocTable.KeptWithoutSymbol | src/vita-elf-create/sce-elf.c:1262-1284 | an entry without a symbol, such as V4BX, reaches the output exactly when a segment covers address 0 |
| RelocTable.GrowingKeepsCover | src/vita-elf-create/sce-elf.c:1050-1146 | appending bytes to a segment that does not reach the end of the address space keeps every covered address covered |
| VstubRelas.Loader.Fixup | src/vita-elf-create/vita-elf.c:42-113 | the reference is removed from the word in place and the type becomes none, or nothing happens and the call fails for a place in no section |
| VstubRelas.Loader.Lookup | src/vita-elf-create/vita-elf.c:145-175 | every relocation against a stub's symbol goes to that stub, in table order, and is fixed up in the image; the call fails exactly when one of them lies in no section |
| VstubRelas.EachToOneStub | src/vita-elf-create/vita-elf.c:151-168 | the stubs' lists together have exactly one record for every relocation against one of their symbols |
| VstubRelas.NoneLeft | src/vita-elf-create/vita-elf.c:151-168 | no relocation of a fixed-up type is left for a stub's symbol, and all other entries are unchanged |
| VstubRelas.RecordResolves | src/vita-elf-create/vita-elf.c:115-143 | the record of a relocation fits its bit fields, its type is the relocation's, and its segment and offset name the original place |
| SectionRenumber.Elf.UpdateSymtabEntries | src/vita-elf-create/sce-elf.c:1326-1361 | symbols of the removed section get section 0, higher section numbers drop by one |
| SectionRenumber.Elf.RemoveStubs | src/vita-elf-create/sce-elf.c:1405-1448 | after all stub sections are gone, every survivor sits at its moved index, and shstrndx, symtab_ndx, every sh_link and every symbol's section are moved by the same function |
| SectionRenumber.LinkKeptIff | src/vita-elf-create/sce-elf.c:1425-1437 | a moved link names the section it named before exactly when that section was not removed |
| SectionRenumber.ReservedMoves | src/vita-elf-create/sce-elf.c:1346-1350 | a reserved number above all sections changes by the number of removed sections, so it is kept exactly when none is removed |
| Fips180.RoundConstants | src/utils/sha256.c:7-19 | every round constant is the first 32 fractional bits of the cube root of its prime |
| Fips180.InitialValues | src/utils/sha256.c:62-75 | every initial state word is the first 32 fractional bits of the square root of its prime |
| Fips180.PadIsFips | src/utils/sha256.c:92-123 | for messages below 2^64 bits the padding is that of section 5.1.1: one bit, the fewest zeros that fill a block, the 64-bit length |
| Sha256Examples.Abc | src/utils/sha256.h:13-21 | the hash of "abc" is the digest that FIPS 180-4 gives for it, computed through all 64 rounds |
| Sha256Examples.BlocksChain | src/utils/sha256.c:77-90 | every block is compressed onto the hash value of the blocks before it, the first one onto the initial value |
| Sha256Code.Sha256Ctx.Transform | src/utils/sha256.c:21-60 | schedule and rounds over rotating variables compute the compression function of section 6.2.2 |
| Sha256Code.Sha256Ctx.Update | src/utils/sha256.c:77-90 | feeding bytes appends them to the message that state, buffer and the two-word length stand for |
| Sha256Code.Sha256Ctx.Final | src/utils/sha256.c:92-136 | the bytes put out are the hash of the whole message, whichever way the last block is padded |
| Sha256Code.Vector | src/utils/sha256.c:235-245 | the hash of any split into fragments, each length taken modulo 2^32 as the code does, is the hash of their concatenation, also when the output is one of the fragments |
| Sha256Code.Vector32 | src/utils/sha256.c:247-255 | the result is the first state word of that hash |
| Sha256Code.OuterFromInner | src/utils/sha256.c:180-201 | XORing the inner pad with 0x6A gives the outer pad |
| Sha256Code.HmacVector | src/utils/sha256.c:148-210 | up to five fragments give the HMAC of section 2 of RFC 2104 for every key length; more fragments leave the output alone |
| Sha256Examples.HmacIs | src/utils/sha256.c:148-210 | that HMAC, byte by byte: the hash of the key XORed with 0x5C and the hash of the key XORed with 0x36 and the text, a key longer than a block being hashed first |
| VArray.IndexFinds | src/utils/varray.c:194-211 | with comparators that agree, the search ends on an equal element, or no element is equal and the index separates smaller from greater |
| VArray.SortedInsertion | src/utils/varray.c:213-221 | inserting where the search ends keeps a sorted array sorted |
| VArray.VArray.Push | src/utils/varray.c:115-130 | the element is appended, whatever growth that takes |
| VArray.VArray.Insert | src/utils/varray.c:132-156 | insertion into the sequence for every valid index; when the initialiser fails the last element is lost, unless the index was the end |
| VArray.VArray.Remove | src/utils/varray.c:167-181 | removal from the sequence; the removed element stays readable in the slot behind the last |
| VArray.VArray.SortedInsertEx | src/utils/varray.c:213-221 | the element goes to the index where the search ends, or is thrown out when duplicates are not allowed and the element there compares equal under the search comparator |
| VArray.VArray.SortedSearchOrInsert | src/utils/varray.c:228-246 | the index of the element with the key, inserted first if it was not there |
| Imports.ImportTable | src/vita-elf-create/sce-elf.c:471-497 | one library per distinct NID, in strictly decreasing order; its tables are the sorted insertions of its own stubs and its description is the last one given |
| Imports.AddStubUpdates | src/vita-elf-create/sce-elf.c:477-497 | search-or-insert with the assignments behind it is an update of the map from NIDs to libraries |
| Imports.CollectImports | src/vita-elf-create/sce-elf.c:471-497 | the two loops over the growing array compute exactly that table |
| Imports.RejectedIff | src/utils/varray.c:213-221 | a stub is thrown out exactly when the stub at its place has a target NID equal to its address |
| Imports.DuplicateTestMisses | src/vita-elf-create/sce-elf.c:41-57 | two stubs with the same NID are both kept when the NID is not the second one's address |
| Imports.DuplicateTestDropsAnother | src/vita-elf-create/sce-elf.c:41-57 | a stub with a new NID is dropped when its address equals the NID of the stub at its place |
| Imports.NothingRejected | src/vita-elf-create/sce-elf.c:485-496 | when no address is a target NID, the table is a sorted permutation of the stubs, duplicates included |
| ModuleSize.GetSize | src/vita-elf-create/sce-elf.c:533-574 | the loop over exports, imports and stubs computes the nine section sizes and their total |
| ModuleSize.SizesAgreeIff | src/vita-elf-create/sce-elf.c:537-574 | every section but the last takes the bytes that were counted; the last one does exactly when the imports' relocation blocks take the bytes of all variable stubs |
| ImportTables.BlockReadsBack | src/vita-elf-create/sce-elf.c:974-1000 | a relocation block tells its own size, and its records read back |
| ImportTables.VariablesFound | src/vita-elf-create/sce-elf.c:970-975 | with distinct (library, target) NIDs, the search for the stub of a variable finds that variable's own stub |
| ImportTables.BlocksCoverIff | src/vita-elf-create/sce-elf.c:488-497 | the collected imports use at most the block bytes of the stubs, and all of them exactly when every stub was inserted |
| ModuleImage.ExportReads | src/vita-elf-create/sce-elf.c:886-924 | in a loaded image, the record of an export leads to its name, NID table and entry addresses |
| ModuleImage.ImportReads | src/vita-elf-create/sce-elf.c:926-1003 | in a loaded image, the record of an import leads to its name, both NID tables, its entry addresses and its relocation blocks |
| ModuleInfo.ModuleReads | src/vita-elf-create/sce-elf.c:845-1018 | following offsets and pointers from the module info finds every header field, export and import |
| ModuleRelas.RelasAreThePointers | src/vita-elf-create/sce-elf.c:616-630 | the relocations are those of the nonzero pointer words of the image, each at its own address with its own value as addend |
| ModuleRelas.EachPointerOnce | src/vita-elf-create/sce-elf.c:616-630 | no word is relocated twice |
| ModuleEncode.Encoder.Incr | src/vita-elf-create/sce-elf.c:604-609 | the cursor passes what was written ahead of it, and the check fires exactly when the section is too small |
| ModuleEncode.Encoder.SetLocalPtr | src/vita-elf-create/sce-elf.c:618-621 | the address of another section's cursor is stored in a reserved word and relocated; nothing else moves |
| ModuleEncode.Encoder.EncodeExport | src/vita-elf-create/sce-elf.c:886-924 | one turn of the loop, through moving cursors, appends what the specification of an export says to each section |
| ModuleEncode.Encoder.EncodeImport | src/vita-elf-create/sce-elf.c:926-1003 | the same for an import, blocks written ahead of the pointers included; it fails exactly when a block is too large for its header |
| EncodeModule.Encode | src/vita-elf-create/sce-elf.c:634-1034 | the encoder fails exactly when a segment overlaps, the process parameters have an unknown size, a block is too large or the last section is not filled, and returns the specified sections one behind the other otherwise |
| EncodeModule.OverlapsIff | src/vita-elf-create/sce-elf.c:671-682 | the data starts at the first multiple of four behind its segment; the test, which looks only at the starts of other segments, is exact for segments that are apart and start at multiples of four: it fires exactly when the data would lie in one of them |
| EncodeModule.LoadedModule | src/vita-elf-create/sce-elf.c:634-1034 | what the encoder returns, loaded where it was meant to be, reads back as the module, and its relocations are the nonzero pointers, each once |
| EncodeModule.PassesAgreeIff | src/vita-elf-create/sce-elf.c:1020-1028 | for stubs with distinct NIDs the encoded lengths equal the counted sizes exactly when every variable stub was inserted |
| ModuleCreate.CreateAndEncode | src/vita-elf-create/vita-elf-create.c:634-656 | create, count and encode in one run: for distinct (library, target) NIDs it fails, beyond the encoder's own limits, exactly when a variable stub was not inserted; otherwise the block reads back, wherever it is loaded, as the module with the collected imports, and its relocations are the nonzero pointer words, each once |
| ModuleCreate.PassesAgree | src/vita-elf-create/sce-elf.c:488-497 | every variable stub is inserted when no stub's address is a stub's target NID |
| ModuleCreate.TablesComplete | src/vita-elf-create/sce-elf.c:488-497 | then the variables of each library are all its stubs, in strictly ascending order |
| ModuleStubs.LibraryImported | src/vita-elf-create/sce-elf.c:308-328 | following the pointers of the block, every import record is that of a library that stubs name: the version (1 for 0), the weak flag, the NID and the name of its last description |
| ModuleStubs.LibrariesDescend | src/vita-elf-create/sce-elf.c:471-486 | the records are in strictly descending order of the NIDs |
| ModuleStubs.FunctionImported | src/vita-elf-create/sce-elf.c:330-335 | every function stub of a library without coinciding addresses is found in that library's record: its target NID in the one table and, at the same index, its address in the other, or 0 if no segment has it |
| ModuleStubs.FunctionEntry | src/vita-elf-create/sce-elf.c:330-335 | every entry of a function table is that of a function stub of the library |
| ModuleStubs.VariableImported | src/vita-elf-create/sce-elf.c:337-342 | every variable stub of such a library is found: its target NID, and at the same index a relocation block that holds exactly its records |
| ModuleStubs.VariableEntry | src/vita-elf-create/sce-elf.c:337-342 | every entry of a variable table is that of a variable stub of the library |
| FsList.Fini | src/utils/fs_list.c:246-288 | with the freeing callback, every node of any tree is freed exactly once, in post-order, and no freed node is read |
| FsList.FiniCallback | src/utils/fs_list.c:191-207 | the callback only ever meets nodes without children, and the parent counts one child less |
| FsList.Execute | src/utils/fs_list.c:213-244 | started at a root's first child, the walk visits exactly the root's descendants, once each, in pre-order, up to the first negative answer; it answers -1 for no child |
| NidDb.Append | src/vita-libs-gen-2/vita-nid-db.c:25-50 | a new record goes to the tail; next and prev stay inverse to each other all around |
| NidDb.Create | src/vita-libs-gen-2/vita-nid-db.c:139-170 | the same with the record's own lists, empty and well linked |
| NidDb.SearchOrNew | src/vita-libs-gen-2/vita-nid-db.c:110-136 | the record with the key, created at the tail if there was none; a list without repeated keys stays one |
| NidDb.Execute | src/vita-libs-gen-2/vita-nid-db.c:303-416 | every record once, in order, up to the first negative answer; -1 exactly when there is one |
| NidDb.Unlink | src/vita-libs-gen-2/vita-nid-db.c:480-485 | the ring without the record is a ring, wherever the record was |
| NidDb.FreeList | src/vita-libs-gen-2/vita-nid-db.c:419-478 | a walk whose callback unlinks and frees the current record, with all lists below it, still meets every record once and ends in an empty ring |
| NidDb.EachFreedOnce | src/vita-libs-gen-2/vita-nid-db.c:419-485 | the order of freeing, bottom up, names every record of the database once and accounts for every head |
| NidDb.FreeContext | src/vita-libs-gen-2/vita-nid-db.c:424-429 | the whole database is freed that way, and nothing is used after it has been freed |
| NidBypass.Bypass.Load | src/vita-nid-check/vita-nid-bypass.c:89-141 | a document is accepted exactly when it is a mapping with scalar keys and, below each bypass mapping, scalar libraries with scalar entries; exactly the entries written below a bypass key become exceptions, and a document that is rejected half way leaves only such entries behind |
| NidBypass.Bypass.SearchOrCreateEntry | src/vita-nid-check/vita-nid-bypass.c:7-30 | exactly this entry becomes an exception |
| NidBypass.Bypass.SearchOrCreateLibrary | src/vita-nid-check/vita-nid-bypass.c:32-57 | the first library of the name; no entry becomes an exception |
| NidCheck.Checker.CheckEntry | src/vita-nid-check/vita-nid-check.c:128-170 | an entry passes exactly when it sorts behind the last one, is new to its library and clashes with no entry of the firmware |
| Strcmp.NegativeIff | src/vita-nid-check/vita-nid-check.c:147 | a string compares smaller exactly when there is a place up to which the two agree and where it ends and the other goes on, or has the smaller character |
| NidCheck.Checker.FunctionCallback | src/vita-nid-check/vita-nid-check.c:34-94 | an entry is refused exactly when it shares name and privilege and differs in kind or is not excepted |
| NidCheck.Checker.CheckAll | src/vita-nid-check/vita-nid-check.c:172-272 | the callbacks over all databases accept exactly the runs that keep the rules |
| NidCheck.AcceptedIff | src/vita-nid-check/vita-nid-check.c:117-272 | a run is accepted exactly when, seen without any database, no function is nameless and any two entries agree; the database then records the run |
| NidCheck.LibrariesClean | src/vita-nid-check/vita-nid-check.c:128-164 | in an accepted database both lists of every library strictly ascend in lexicographic order and share no name |
| NidCheck.NextEntryIff | src/vita-nid-check/vita-nid-check.c:128-170 | after an accepted run the next entry passes exactly when it agrees with every earlier one at the privileges then in force |
| NidCheck.SharedPair | src/vita-nid-check/vita-nid-check.c:34-94 | two entries of an accepted run that share a name are of one kind with the earlier one excepted, or their libraries' privileges differed when the later one was checked |
| NidCheck.SharedNamesExcepted | src/vita-nid-check/vita-nid-check.c:34-94 | with privileges given before entries, same-named entries of equal privilege are of one kind and the earlier one is excepted |
| NidCheck.DatabaseShares | src/vita-nid-check/vita-nid-check.c:34-94 | the same, said of any two libraries of the final database |
| NidCheck.LatePrivilegePasses | src/vita-nid-check/vita-nid-check.c:208-222 | a run whose last privilege comes after the entry is accepted with a clash in its final database |
| YamlTree.ParsesPrinted | src/utils/yamltree.c:172-285 | on the events of a node followed by anything, the parser returns that node and consumes exactly its events, or fails when it contains an alias |
| YamlTree.ParsedWasPrinted | src/utils/yamltree.c:172-285 | a node is only returned when the events begin with that node's |
| YamlTree.Parser.ProcessNode | src/utils/yamltree.c:260-285 | the recursive descent over the two event slots computes the reference parse on every event stream, and terminates |
| YamlTree.StreamParsesIff | src/utils/yamltree.c:320-367 | a stream of libyaml's grammar is accepted exactly when it holds one document without aliases |
| YamlTree.Parser.ParseStream | src/utils/yamltree.c:320-367 | the stream loop computes that result |
| ExportYaml.HexReads | src/vita-elf-create/vita-elf-create.c:272-276 | every 32-bit number printed in hexadecimal is read back |
| ExportYaml.DecimalReads | src/utils/yamltreeutil.c:66-83 | every 32-bit number in decimal is read back |
| ExportYaml.OctalReads | src/utils/yamltreeutil.c:66-83 | every 32-bit number in octal, with a leading 0, is read back |
| ExportYaml.NumberInContext | src/vita-mksfoex/vita-mksfoex.c:185-199 | a decimal number of any size between white space, a sign and anything that is no digit: it saturates at 64 bits, a sign negates it modulo 2^64, it is cut to 32 bits, and it is valid as a whole exactly when nothing follows |
| ExportYaml.Emitter.WriteExports | src/vita-elf-create/vita-elf-create.c:307-449 | the events emitted are those of one document with the description's node |
| ExportYaml.Emitter.PackSymbols | src/vita-elf-create/vita-elf-create.c:282-305 | the symbols are emitted in order, each with its NID |
| ExportYaml.ExportsReadBackIff | src/vita-export-parse.c:455-599 | a printed description is read back, up to what printing keeps, exactly when its name has at most 26 bytes and all library versions are at most 0xFFFF |
| ExportYaml.ReadModuleExports | src/vita-export-parse.c:563-599 | the handlers over fields and growing arrays compute the reference reading of every node |
| ExportMeaning.DescriptionReads | src/vita-export-parse.c:47-599 | for every description written by hand, with its fields in any order and any number of times: reading fails exactly when something is wrong or too large, and otherwise a symbol named alone gets the hash of its name if the version then in force is 0 or 1 or syscall is set, and the hash of the big-endian version, the library's name and its own otherwise, a symbol with a number gets the number, and a library gets the number given or the default, for functions and variables |
| ExportMeaning.ReadDescription | src/vita-export-parse.c:563-599 | the handlers give that on every such description |
| ExportYaml.RoundTrip | src/vita-export-parse.c:563-599 | emitter, stream parser and reader in one run return the same description under the same condition, and fail otherwise |
| SfoWriter.Table.AddString | src/vita-mksfoex/vita-mksfoex.c:133-167 | the text of the named entry is replaced, or a new text takes the first free slot; false without '=' or without room |
| SfoWriter.Table.AddDword | src/vita-mksfoex/vita-mksfoex.c:169-203 | the same for a number, which also overwrites the number of an entry that is a text |
| SfoWriter.Table.SortKeys | src/vita-mksfoex/vita-mksfoex.c:262-285 | the table becomes its rearrangement in strictly ascending lexicographic order |
| SfoTable.TextKeeps | src/vita-mksfoex/vita-mksfoex.c:133-167 | names stay unique, at most the one name is added, and other names' entries stay |
| SfoTable.NumberKeeps | src/vita-mksfoex/vita-mksfoex.c:169-203 | the same for numbers |
| SfoTable.SplitsAtFirst | src/vita-mksfoex/vita-mksfoex.c:138-145 | an option is split at its first '=', the text may contain more |
| SfoOptions.GivenEntered | src/vita-mksfoex/vita-mksfoex.c:133-203 | for every list of options, numbers in octal, decimal or hexadecimal: they are accepted exactly when they give at most 256 different names, and the entry of a name then has the kind of its first option, the text of its last text and the number of its last number |
| SfoOptions.NoEqualsRefused | src/vita-mksfoex/vita-mksfoex.c:138-143 | one option without '=', whatever comes before and after it, fails the run |
| SfoTable.FinalEntry | src/vita-mksfoex/vita-mksfoex.c:312-366 | under each name the table holds what was given, else the default, else the title |
| SfoTable.SortSorts | src/vita-mksfoex/vita-mksfoex.c:262-285 | sorting permutes the entries and puts distinct names in strictly ascending lexicographic order |
| SfoTable.OneOrder | src/vita-mksfoex/vita-mksfoex.c:262-285 | there is only one such order, whatever `qsort` does |
| SfoTable.NumberAlignedIff | src/vita-mksfoex/vita-mksfoex.c:183-186 | an aligned table stays aligned exactly when the number is a multiple of 4 or its entry is not a text |
| SfoTable.OffFourReached | src/vita-mksfoex/vita-mksfoex.c:183-186 | `-s A=abc -d A=5 -d B=1` gives a table with a slot of 5 bytes |
| SfoWriter.AlignKeys | src/vita-mksfoex/vita-mksfoex.c:420-425 | the loop over the wrapping counter rounds the size of the key table up to a multiple of 4 |
| SfoWriter.LayOut | src/vita-mksfoex/vita-mksfoex.c:370-415 | the layout loop fills the three buffers with the records, the names and the values of the table, at the offsets it records |
| SfoWriter.WriteFile | src/vita-mksfoex/vita-mksfoex.c:417-438 | header, records, padded names and values are written one behind the other, with the offsets of the last two in the header |
| SfoWriter.MakeSfo | src/vita-mksfoex/vita-mksfoex.c:312-438 | options, defaults, titles, sorting and layout in one run; it fails exactly when an option has no '=' or the table is full |
| SfoWriter.RunReadsBack | test/test_mksfoex.py:8-32 | what a run writes is its table, each entry once, sorted by key; it reads back as that exactly when every text fits its slot or is continued by the slots behind it, so always when the values fit |
| SfoOptions.RunAccepts | src/vita-mksfoex/vita-mksfoex.c:312-366 | options with '=' are accepted exactly when the names given, with those of the defaults and the titles unless `-e` is given, are at most 256 |
| SfoOptions.FileSays | test/test_mksfoex.py:8-32 | whenever all texts fit their slots or are continued, the reader finds the names in ascending order and of each name exactly what the run says: the last text or number given, as the first option of that name decides, else the default, else the title, else nothing |
| SfoOptions.DefaultsPromised | test/test_mksfoex.py:66-95 | the values the test asks of names that no option gives, and the title under both of its names |
| Mksfoex.ProcessArgs | src/vita-mksfoex/vita-mksfoex.c:206-257 | for any arguments: the options are those of the events, in order, then come the title, unless `-e` is among them, and the file name, and it fails exactly when one of them is missing |
| Mksfoex.ItemsMean | src/vita-mksfoex/vita-mksfoex.c:206-257 | options typed in any of their forms (`-sA=b`, `-s A=b`, `--string=A=b`, `--string A=b`, long names in full or abbreviated, `-e`), mixed with operands, are taken for those options, in order, and the operands are left over |
| Mksfoex.Run | src/vita-mksfoex/vita-mksfoex.c:286-438 | from the words typed to the file: for every such command line the run fails exactly when title or file name is missing or more than 256 names need an entry; otherwise it writes to the file named, and a reader finds the names in ascending order and of each exactly what was typed last, else the default, else the title |
| SfoWriter.RunAligned | src/vita-mksfoex/vita-mksfoex.c:381-415 | if the options leave all slots at multiples of 4, so are all value offsets |
| SfoWriter.OptionsAligned | src/vita-mksfoex/vita-mksfoex.c:133-203 | if every number given for a name that was a text before is a multiple of 4, all value offsets of the file are multiples of 4 |
| Sfo.FileReadsBack | test/test_mksfoex.py:8-32 | a file laid out from any list of entries that fit their slots reads back as that list |
| Sfo.FileReadsBackIff | src/vita-mksfoex/vita-mksfoex.c:399-413 | for every list of entries, whatever the lengths of the texts: the file reads back as that list exactly when each text fits its slot or is continued, to its end or to the end of the file, by the slots behind it |
| Sfo.DataIsSlots | src/vita-mksfoex/vita-mksfoex.c:388-415 | in the end every slot holds its own value, cut off at the slot's end or followed by zeros: what runs over is overwritten by the slots behind |
| Sfo.ShortTitleIff | src/vita-mksfoex/vita-mksfoex.c:331-366 | for every title: the short title reads back exactly when the title has at most 51 bytes, or at least 180 and the bytes behind the slot happen to continue it |
| Sfo.LongTitleLost | src/vita-mksfoex/vita-mksfoex.c:331-366 | a title of 60 bytes is not read back |
| Sfo.OffsetsOnFour | src/vita-mksfoex/vita-mksfoex.c:381-415 | all value offsets are multiples of 4 exactly when every slot but the last has a multiple of 4 bytes |
| Sfo.OffsetOffFour | src/vita-mksfoex/vita-mksfoex.c:381-415 | the table of `-s A=abc -d A=5 -d B=1` has a value at offset 5 |

## Left out

- getopt: writing `val` through a `flag` pointer (a flagged option only answers 0), characters above 0x7F, an empty argument vector, and the error messages.
- RelocTable: libelf itself; sections, segments and symbols are sequences, and an image is a function from addresses to bytes. RELA sections, which the tool rejects, and the short record form, which it never chooses.
- RelocTable.ConversionRebases: two relocations of overlapping words, of which the later one wins, are excluded by `PlacesApart`, here and in `LoadedRefersToMoved`.
- VstubRelas: the tables are one array in list order, and a section's contents are a word image with a coverage test.
- VstubRelas.Loader.Lookup: the places of all relocations with a symbol are taken to lie in one of at most 16 segments; the source would read beyond its segment table otherwise.
- SectionRenumber.Elf.RemoveStubs: renaming and filling of function stub sections, and the `sh_info` of symbol tables, which is no section number but is moved like one.
- Sha256Code: `sha256_file` and `sha256_32_file`.
- VArray: `varray_sort`, `varray_extract_array`, destructors and allocation failure.
- ModuleInfo, ModuleEncode: words and addresses are natural numbers, so wrap-around at 2^32 of addresses and sizes is not modelled; host pointers are held as the addresses they translate back to.
- EncodeModule.Encode: the words of the process and libc parameters are zeros of the right size, and the relocations of those words and the symbols they look up are not part of the model; imports whose blocks take more bytes than the stubs were counted for do not arise from collected stubs.
- Imports: a library's two tables are held as sequences; thread-local imports are never filled in the source.
- ModuleCreate: symbol lookups of `set_main_module_export` and `set_module_export`; exports are inputs.
- ModuleStubs: import records can only be followed from a module with a start function, as the header holds no table offsets otherwise; the tables are said to be complete for libraries in which no stub's address is a target NID.
- FsList: reading directories, and searching by name or path.
- NidDb: NULL arguments, allocation failure, and the stub contexts that are used for file generation.
- NidCheck: the lists are held as sequences in list order; reading the database files is replaced by the sequence of callbacks, which must name a firmware, a module and a library before any library field (the source would follow a null pointer).
- ExportMeaning.DescriptionReads: where a number is asked for, a description holds a numeral of up to 32 bits in octal, decimal or hexadecimal; other scalars in its place are left to `ExportYaml.StrToUl`.
- YamlTree: positions, tags, anchors and styles, and libyaml's own text layer; a stream is its list of events.
- ExportYaml: the syscall flag is printed as a truth value and the start-up symbol and image flags are not printed at all, so the round trip holds up to those; scalars contain no zero bytes.
- SfoWriter.MakeSfo: a table with all 256 entries taken, where the source reads behind the table, and files that do not fit the three buffers of 8192 bytes; `getopt_long` is modelled in Getopt.
- Mksfoex: the options are entered once all have been scanned, not between the calls, which differs only in how far a failing run gets; usage and error messages.
- Sfo: decoding of UTF-8 in the reader; names and texts are bytes.
- vita-make-fself, vita-pack-vpk, vita-libs-gen, vita-libs-gen-2's generators, vita-elf-export and vita-import-parse: I/O, text generation, or the same shape as the export round trip.
