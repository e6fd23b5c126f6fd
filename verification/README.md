# KTRW kext loader: a verified model

The repository loads an XNU kernel extension at boot with two programs. On the host, `kext_loader`
reads text symbol files, merges them by kernelcache UUID into tables over one string pool, and
serializes them. On the device, the pongoOS module `kextload` parses the blob into a chain of symbol
tables, validates a Mach-O kext, copies it into kernel memory, relocates and links it against the
chain, describes it in the `__PRELINK_INFO.__info` property list, and patches one kernel function.

The model works on bytes, 32-bit and 64-bit arithmetic with explicit wrapping, and little-endian
words. Code that changes state is imperative: the text parser, the host's tables, the blob writer, the
symbol chain, `kext_load_info`, the prelink section and the instruction patch are classes and methods
over fields and arrays, each proved equal to a specification function; the properties are lemmas about
those functions.

| file | contents |
|---|---|
| `Arithmetic.dfy`, `Machine.dfy`, `AsciiText.dfy` | division and powers; bytes, words, memory copies, C strings; literal texts |
| `SymbolText.dfy`, `SymbolGrammar.dfy`, `SymbolAlphabet.dfy` | the cursor parser; the file format as abstract syntax, and both directions between them; its alphabets in literal characters, and files printed from values |
| `HostTable.dfy`, `HostBlob.dfy` | interning and the merge by UUID; the serializer and its allocation |
| `DeviceSymbols.dfy`, `BlobRoundTrip.dfy`, `EndToEnd.dfy` | the blob parser, the table and the lookup; parser against serializer; symbol file to lookup |
| `MachO.dfy`, `MachOLayout.dfy` | fields, and the members of their structures |
| `KextScan.dfy`, `KextParse.dfy`, `KextAccepted.dfy`, `KextCleared.dfy`, `KextConverse.dfy` | the load-command walk; the remaining checks; what acceptance implies; what becomes of split-info commands; acceptance as an if-and-only-if |
| `Pointers.dfy`, `KextImage.dfy`, `KextLoaded.dfy`, `KextLoader.dfy` | address conversions; the loops on the image; the byte-by-byte specification; the loader itself |
| `KextOverlap.dfy`, `KextSample.dfy` | slots that coincide or lie on a command field, and the exact condition for the loaded image; kernel extensions byte by byte, some that load as specified and some that do not |
| `LinkedSymbols.dfy` | both programs together: what an external slot holds |
| `PrelinkInfo.dfy`, `Instructions.dfy` | hexadecimal fields and dictionary insertion; bit fields, ADRP/ADD, the backward search |

## Where the code differs from its comments

- A blob may hold the symbol offset 2^32 - 1: the 32-bit sum in `pongo_module/kextload.c:224` wraps to
  zero, so the guarantee in the comment above it fails for that offset and for no other
  (`EndToEnd.AcceptedIsReadable`, `EndToEnd.LastOffsetIsAccepted`).
- The size that is asked of `malloc` for a table takes in the size of the strings, which wraps when their
  offset is behind the end of the upload; the three fields of the struct are set before that offset is
  tested (`pongo_module/kextload.c:192-211`). `DeviceSymbols.OverrunsExactly` says when a granted allocation
  ends before these fields do, and `DeviceSymbols.ShortRequest` gives an upload of 32 bytes: it is rejected
  in the end, and until then 24 bytes are written behind an allocation of 8. "On any error the chain is as
  before" holds of every other upload; of these the model says nothing but that they are these.
- `r_address` counts from the first segment's address (`pongo_module/kextload.c:660-662`), but the
  loader subtracts `vm_base` from it, and the bounds tests add `vm_base` and compare with `vm_size`
  (`KextParse.InBoundsExactly`). The two agree exactly at `vm_base` zero (`KextImage.SlotIsAddress`). At
  every base an accepted slot lies in the image if and only if `r_address` is at least `vm_base`
  (`KextImage.SlotInsideExactly`), and so do all of them, and nothing is skipped, if and only if all
  addresses are (`KextAccepted.AcceptedIsReady`). `KextSample.SlotOutside` is an accepted file with a slot
  outside the image. The specification of the loaded image is about the slots that the loader writes.
- The second prologue pattern of `OSKext_init_patch` is meant for offsets below 0x100
  (`pongo_module/kextload.c:974-975`); it also matches offsets up to 0x1F0 and negative ones
  (`Instructions.StpIs`, `Instructions.StpBeyond`).
- A slot of `kext_relocate` or `kext_link` may coincide with another slot or lie on a command field; the
  code does not check it. Eight bytes that several local relocations name gain the slide once for each, so
  two on one slot are wrong exactly if the slide is not zero (`KextOverlap.TwoOnOneSlot`), and so is a
  segment's address that is named as a slot, unless the slides cancel out (`KextOverlap.SlotOnSegment`).
  Of external relocations with one slot the last decides (`KextOverlap.SharedExactly`). With the slots
  behind the load commands and clear of the `kmod_info` fields, and any two of them equal and of one kind or
  clear of each other, the loaded image is the specified one if and only if at every local slot the slides
  beyond the first cancel out and external relocations that share a slot resolve alike
  (`KextOverlap.LoadedExactly`). Accepted inputs that go wrong are `KextSample.SlotOnField`, with a slot on a
  segment's address, and `KextSample.TwoAtOneAddress`, with two local relocations of one slot.
  `KextLoaded.Separate` excludes all of this; it is sufficient for the specified image and not necessary
  (`KextOverlap.SeparateIsStronger`).
- A name that is found in the string pool at 2^32 or behind is recorded with a truncated offset and no
  assertion (`kext_loader/kext_loader.c:754-755`), which then never denotes it (`HostTable.InternNames`). Over
  every run a slot denotes its definitions if and only if this happened to none of them
  (`HostTable.FilesRepresent`); `HostTable.LongNameHides` gives two symbols of which the second is lost.

## Model

| member | source | states |
|---|---|---|
| SymbolText.TextParser.SkipLine | kext_loader/kext_loader.c:415-421 | the cursor goes behind the first newline, one past the end at most |
| SymbolText.TextParser.SkipBlanks | kext_loader/kext_loader.c:423-431 | skips exactly the blanks, and says whether there were any |
| SymbolText.TextParser.SkipLineComment | kext_loader/kext_loader.c:433-440 | skips a comment up to, not over, its newline |
| SymbolText.TextParser.SkipComments | kext_loader/kext_loader.c:442-447 | skips whole comment lines |
| SymbolText.TextParser.SkipCommentsOrEmpty | kext_loader/kext_loader.c:449-454 | skips whole comment lines and empty lines |
| SymbolText.TextParser.TryMatch | kext_loader/kext_loader.c:456-467 | matches inside the text only; the cursor does not move on failure |
| SymbolText.TextParser.TryIdent | kext_loader/kext_loader.c:469-490 | takes the longest identifier; the cursor does not move when there is none |
| SymbolText.TextParser.TryHexByte | kext_loader/kext_loader.c:492-504 | the value of two digits; the cursor does not move on failure |
| SymbolText.TextParser.TryHexU64 | kext_loader/kext_loader.c:506-530 | "0x" and exactly sixteen digits, big-endian; the cursor is put back on every failure |
| SymbolText.TextParser.ParseUuid | kext_loader/kext_loader.c:553-563 | the UUID loop reads sixteen bytes with their separators |
| SymbolText.TextParser.ParseDirectives | kext_loader/kext_loader.c:564-583 | device directives and comments up to the blank line; terminates on every text |
| SymbolText.TextParser.ParseHeader | kext_loader/kext_loader.c:541-586 | the header's UUID and the position behind it, or failure, for every text |
| SymbolText.TextParser.ParseSymbol | kext_loader/kext_loader.c:588-632 | the next symbol, the end of the file, or an error, for every text |
| SymbolText.Symbol | kext_loader/kext_loader.c:590-631 | every returned symbol strictly advances the cursor, inside the text |
| SymbolText.SymbolsListed | kext_loader/kext_loader.c:729-767 | the definitions of a text are its symbols one behind the other, up to the end or the first malformed line |
| SymbolText.ListedOnce | kext_loader/kext_loader.c:728-767 | and there is one such list |
| SymbolText.HexRunStep | kext_loader/kext_loader.c:513-521 | no 64-bit value overflows in the eight rounds, and a failed byte fails the whole number |
| SymbolGrammar.UuidTextForm | kext_loader/kext_loader.c:553-563 | the printed UUID has the 8-4-4-4-12 form of section 4 of RFC 9562, at every position |
| SymbolGrammar.UuidParses | kext_loader/kext_loader.c:553-563 | a printed UUID parses to its sixteen bytes |
| SymbolGrammar.DirectivesParse | kext_loader/kext_loader.c:564-583 | any printed directives and comments are skipped to the end of the blank line |
| SymbolGrammar.HeaderParses | kext_loader/kext_loader.c:532-586 | a printed header parses to its UUID and ends where it was printed to end |
| SymbolGrammar.DefineParses | kext_loader/kext_loader.c:588-632 | a printed definition, with any blanks and comment behind it, parses to its name and address |
| SymbolGrammar.BodyParses | kext_loader/kext_loader.c:588-632 | any printed body parses to all its definitions in order, and to the end of the file |
| SymbolGrammar.MalformedEnds | kext_loader/kext_loader.c:730-738 | behind printed lines a malformed one ends the file: the definitions in front of it count, whatever follows |
| SymbolGrammar.PrintedFilesParse | kext_loader/kext_loader.c:532-632 | round trip: every printed file parses to the UUID and definitions it was printed from |
| SymbolGrammar.HeaderSound | kext_loader/kext_loader.c:541-586 | every header that the parser accepts is the print of a header in the format |
| SymbolGrammar.ParsedFilesArePrinted | kext_loader/kext_loader.c:532-632 | converse: every fully accepted file is the print of a layout with the parsed UUID and definitions |
| SymbolAlphabet.HexDigitIs | kext_loader/kext_loader.c:393-402 | each of the sixteen digits is written in upper or lower case, in literal characters, and no other byte is a digit |
| SymbolAlphabet.IdentIs | kext_loader/kext_loader.c:469-490 | the 63 characters of an identifier, in literal characters, and no other |
| SymbolAlphabet.BlankIs | kext_loader/kext_loader.c:423-431 | space and tab, and no other byte, are blanks |
| SymbolAlphabet.FixedTexts | kext_loader/kext_loader.c:506-586 | the directives, the number prefix, the dash, the comment character and the newline, in literal characters |
| SymbolAlphabet.AddressRead | kext_loader/kext_loader.c:506-530 | every 64-bit value is read back from its digits, each of them in either case |
| SymbolAlphabet.UuidRead | kext_loader/kext_loader.c:553-563 | every UUID is read back from its digits, each of them in either case |
| SymbolAlphabet.PrintedValuesParse | kext_loader/kext_loader.c:532-632 | a file printed from a UUID and from names and addresses, digits in either case, parses to these values |
| HostTable.Find | kext_loader/kext_loader.c:751 | the least offset of the needle, as `memmem` gives it; none exactly when it stands nowhere |
| HostTable.InternNames | kext_loader/kext_loader.c:749-764 | a found or appended offset denotes exactly the name, also as the tail of a longer one, if and only if it was not found at 2^32 or behind; the pool only grows |
| HostTable.InternOnce | kext_loader/kext_loader.c:749-764 | a name that stands anywhere in the pool leaves the pool as it is, any other is appended, and only that fails, at 2^32 |
| HostTable.NamesStay | kext_loader/kext_loader.c:756-763 | whether a recorded offset denotes a name is settled when it is recorded: no later append changes it |
| HostTable.AddSymsDenotes | kext_loader/kext_loader.c:728-767 | adding a file's symbols extends what its slot records by them, in order; the slot goes on denoting its definitions if and only if none of the names was found at 2^32 or behind |
| HostTable.AddFileRepresents | kext_loader/kext_loader.c:696-775 | one file keeps the state's meaning, lost names included: skipped on a bad header, read up to its first malformed line otherwise |
| HostTable.MergeRepresents | kext_loader/kext_loader.c:704-772 | a known UUID extends its slot, a new one gets a slot, every other slot stays; for each of them the condition on lost names is kept exact |
| HostTable.FilesRepresent | kext_loader/kext_loader.c:655-781 | over every list of files, however large the pool, each UUID's slot records its definitions in file order, and denotes them if and only if no name was found at 2^32 or behind |
| HostTable.SmallPoolRepresents | kext_loader/kext_loader.c:655-781 | a pool of at most 4 GiB loses no name: each UUID's slot denotes exactly the definitions for it, in file order |
| HostTable.LongNameHides | kext_loader/kext_loader.c:749-764 | a concrete run of two symbols: the second name is found at 2^32, recorded at 0, and not denoted |
| HostTable.FilesWellFormed | kext_loader/kext_loader.c:704-772 | over every list of files, UUIDs are distinct and `maxsymcnt` bounds every slot |
| HostTable.MaxIsReached | kext_loader/kext_loader.c:768-772 | over every list of files, some slot has `maxsymcnt` symbols, or there are none |
| HostTable.KcsState.AddSymbol | kext_loader/kext_loader.c:743-766 | the state after one symbol, or failure where the assertion on the offset fails |
| HostTable.KcsState.FindUuid | kext_loader/kext_loader.c:704-718 | the first slot with the UUID, or the number of slots |
| HostTable.KcsState.UpdateFile | kext_loader/kext_loader.c:696-772 | the state after one mapped file |
| HostTable.KcsState.ParseSymbols | kext_loader/kext_loader.c:728-767 | the loop adds every symbol up to the first malformed line or the end |
| HostBlob.TablesFit | kext_loader/kext_loader.c:822-824 | all tables together fit in n times the space of the largest |
| HostBlob.AllocationSuffices | kext_loader/kext_loader.c:817-850 | the up-front allocation suffices at every round, so neither `offset` assertion can fail |
| HostBlob.WrittenStep | kext_loader/kext_loader.c:829-848 | one round completes a descriptor and a table and leaves everything written before |
| HostBlob.WrittenAll | kext_loader/kext_loader.c:849-855 | after the last writes, the used part of the allocation is header, descriptors, tables and strings |
| HostBlob.WriteEntries | kext_loader/kext_loader.c:837-846 | one table is written at its offset and nothing else changes |
| HostBlob.Generate | kext_loader/kext_loader.c:815-855 | the blob is the concatenation of its four parts; aborts exactly when a table's offset does not fit 32 bits |
| HostBlob.GenerateTable | kext_loader/kext_loader.c:807-863 | from files to blob |
| DeviceSymbols.SymbolChain.FindKernelcache | pongo_module/kextload.c:178-188 | the first descriptor with the UUID, with every read inside the buffer; distinguishes none from malformed |
| DeviceSymbols.SymbolChain.ReadSymbols | pongo_module/kextload.c:217-229 | fills exactly the two arrays, for as many entries as are read, or reports a malformed entry |
| DeviceSymbols.SymbolChain.FillTable | pongo_module/kextload.c:217-236 | behind the fields, which are set already, the finished allocation has pointers, addresses and strings, and the link |
| DeviceSymbols.SymbolChain.CommandKernelcacheSymbols | pongo_module/kextload.c:149-248 | an accepted blob puts its table at the head of the chain, linked in memory to the old head; on any error the chain is as before, except that nothing is said of the uploads whose allocation has no room for the fields, and these are told apart exactly |
| DeviceSymbols.OverrunsExactly | pongo_module/kextload.c:192-211 | a granted allocation has no room for the struct's fields if and only if the strings' offset is behind the end by more than the arrays and by no more than arrays and struct |
| DeviceSymbols.ShortRequest | pongo_module/kextload.c:192-211 | a concrete rejected upload of 32 bytes for which 8 bytes are allocated |
| DeviceSymbols.InsideHasRoom | pongo_module/kextload.c:192-211 | no upload whose strings' offset is inside it is one of these |
| DeviceSymbols.FirstMatch | pongo_module/kextload.c:178-188 | for every buffer: what is found is the first descriptor with the UUID; nothing is found if and only if all descriptors are there and are for others; otherwise the buffer ended first or the offset is outside |
| DeviceSymbols.AcceptedIsFormat | pongo_module/kextload.c:123-145 | a buffer is accepted, with these symbols and strings, if and only if it has the documented binary format |
| DeviceSymbols.SymbolChain.Lookup | pongo_module/kextload.c:250-262 | goes along the links in memory: newest table first, first entry first, 0 when nothing matches |
| DeviceSymbols.FollowIsLookup | pongo_module/kextload.c:250-262 | going from table to table by each one's first word gives what the chain gives, for every name |
| DeviceSymbols.LoadKeepsWires | pongo_module/kextload.c:234-236 | a load keeps the links: each table's first word is the address of the next older one, null in the oldest |
| DeviceSymbols.TablePieces | pongo_module/kextload.c:195-209 | the four parts tile the single allocation: where each of them and each field of the struct stands |
| DeviceSymbols.BuiltShape | pongo_module/kextload.c:203-207 | the struct's two array pointers lead to the arrays, in the allocation |
| DeviceSymbols.TableFromPieces | pongo_module/kextload.c:195-236 | converse: memory with the four parts at their places is the whole table |
| DeviceSymbols.BuiltEntry | pongo_module/kextload.c:217-229 | entry i has the blob's address, and its pointer leads to the blob's offset in the copied strings |
| DeviceSymbols.BuiltName | pongo_module/kextload.c:227-233 | a string read through a pointer is the string of the blob |
| DeviceSymbols.BuiltReadable | pongo_module/kextload.c:217-236 | every pointer starts a terminated string in the allocation if and only if every offset is in the strings |
| BlobRoundTrip.BlobPieces | kext_loader/kext_loader.c:815-855 | descriptors, tables and strings stand at the offsets that the blob itself names, and tile it |
| BlobRoundTrip.FindsSlot | pongo_module/kextload.c:178-185 | the device's descriptor loop finds the slot that the host wrote for the UUID |
| BlobRoundTrip.ReadsTable | pongo_module/kextload.c:218-229 | the device's symbol loop reads back the host's table |
| BlobRoundTrip.ParsesBack | pongo_module/kextload.c:161-233 | round trip: parsing the host's blob for a UUID gives its symbols and the pool, or no match |
| EndToEnd.AcceptedIsReadable | pongo_module/kextload.c:217-229 | an accepted blob's table is readable if and only if no offset is 2^32 - 1 |
| EndToEnd.LastOffsetIsAccepted | pongo_module/kextload.c:221-226 | a concrete accepted blob with that offset, whose table is not readable |
| EndToEnd.TableLookupIsMap | pongo_module/kextload.c:255-259 | the scan of one table is a map in which the first entry of a name wins |
| EndToEnd.LookupIsMap | pongo_module/kextload.c:250-262 | the lookup refines the override of the tables, the newest winning |
| EndToEnd.LoadOverrides | pongo_module/kextload.c:198-242 | an upload that is accepted and gets its memory overrides the map, any other leaves it |
| EndToEnd.RunIsMap | pongo_module/kextload.c:149-262 | over every sequence of uploads, rejected ones and those without memory included, the lookup is the override of the loaded blobs' maps |
| EndToEnd.RunIsWired | pongo_module/kextload.c:149-262 | over every sequence of uploads the tables are linked in memory in the order of the chain |
| EndToEnd.HostBlobParses | kext_loader/kext_loader.c:807-863 | what the device accepts of the host's blob denotes exactly the UUID's definitions; it refuses the blob only when there are none |
| EndToEnd.HostBlobHasRoom | kext_loader/kext_loader.c:849-855 | the host's blob never asks for an allocation without room for the fields |
| EndToEnd.UploadedLookup | pongo_module/kextload.c:149-262 | after the upload of the host's blob a name looks up to its first definition among all files with the UUID, and every other name as before |
| EndToEnd.FreshDeviceLookup | pongo_module/kextload.c:250-262 | on an empty chain, a name without a definition looks up to 0 |
| EndToEnd.PrintedLookup | kext_loader/kext_loader.c:532-632 | from the documented text format to lookup results: comments and empty lines do not matter |
| EndToEnd.PartlyPrintedDefines | kext_loader/kext_loader.c:728-767 | a file that is in the format up to a malformed line defines what the lines in front of it define |
| KextScan.DestroyKeepsHeader | pongo_module/kextload.c:339-343 | destroying a split-info command leaves the header of every command before it, even with commands of size zero |
| KextScan.WalkOrder | pongo_module/kextload.c:324-343 | every visited command ends where or before a later one starts |
| KextScan.WalkExtends | pongo_module/kextload.c:324-343 | the walk stays a walk, over the edited buffer, when the next command is visited |
| KextScan.StepKeeps | pongo_module/kextload.c:324-437 | one accepted round keeps order, clean commands, the segment chain and the two recorded tables |
| KextScan.WalkKeeps | pongo_module/kextload.c:319-437 | so does the whole walk, from every state |
| MachOLayout.HeaderFields | pongo_module/kextload.c:302-324 | which members of `mach_header_64` are read, for all their values |
| MachOLayout.CommandFields | pongo_module/kextload.c:324-343 | those of `load_command` |
| MachOLayout.SegmentFields | pongo_module/kextload.c:344-382 | those of `segment_command_64` |
| MachOLayout.SymtabFields | pongo_module/kextload.c:383-407 | those of `symtab_command` |
| MachOLayout.DysymtabFields | pongo_module/kextload.c:408-434 | those of `dysymtab_command` |
| MachOLayout.NlistFields | pongo_module/kextload.c:454-502 | those of `nlist_64`, and the four type bytes of a symbol in a section |
| MachOLayout.SymbolFields | pongo_module/kextload.c:455-460 | symbol i is entry i of the table, for tables of every length |
| MachOLayout.RelocationFields | pongo_module/kextload.c:511-549 | the bit fields of `relocation_info` and the signed address, for all their values |
| KextParse.SymbolStrings | pongo_module/kextload.c:454-470 | acceptance of the symbols means that every string starts and ends in the file |
| KextParse.SymbolsExactly | pongo_module/kextload.c:454-502 | the symbol loop accepts, with this `kmod_info`, if and only if every symbol is well formed by itself, all `_kmod_info` symbols but the last have the value 0, and the last has this one (0 if there is none) |
| KextParse.KmodName | pongo_module/kextload.c:480 | the name `_kmod_info`, in literal characters |
| KextParse.InBoundsExactly | pongo_module/kextload.c:538-544 | the bounds test passes exactly the addresses that are not negative and whose eight bytes, counted from the base, end at or below the size |
| KextAccepted.AcceptedWalk | pongo_module/kextload.c:319-453 | acceptance implies a clean walk whose segments run from `vm_base` to `vm_base + vm_size` |
| KextCleared.DestroyClears | pongo_module/kextload.c:338-343 | destroying a split-info command sets its fourth byte to 0x41 and leaves every other byte, also where commands overlap |
| KextCleared.LaterLeave | pongo_module/kextload.c:324-343 | no command's header or contents change when those behind it are destroyed |
| KextCleared.AcceptedIsCleared | pongo_module/kextload.c:319-343 | the file that an accepted upload leaves behind: the fourth byte of each visited split-info command is 0x41, and every other byte is the upload's |
| KextConverse.WalkAccepts | pongo_module/kextload.c:319-437 | converse: load commands with any number of split-info commands that are a walk with one gapless chain of segments and one table of each kind are accepted, with exactly these |
| KextConverse.FactsAreAccepted | pongo_module/kextload.c:299-571 | converse: an upload that has, once its split-info commands are destroyed, the facts about header, commands, symbols and relocations is accepted, with exactly what they say of it |
| KextConverse.AcceptedExactly | pongo_module/kextload.c:299-571 | an upload is accepted, with this load information, if and only if it has these facts, magic, file type and single tables included |
| KextImage.SegmentsAscend | pongo_module/kextload.c:376-381 | a later segment starts at or behind the end of every earlier one |
| KextImage.SegmentsPartition | pongo_module/kextload.c:345-382 | every address between base and end is in exactly one segment, every other in none |
| KextAccepted.AllocIsExact | pongo_module/kextload.c:574-585 | the allocation test passes if and only if `vm_size` <= 2^32 - 0x4000; the size is then the least multiple of 0x4000 that holds it |
| KextAccepted.SegmentsPlaced | pongo_module/kextload.c:351-360 | for an allocated kext the 64-bit file test is exact: every copy stays in the file and in its own part of the image |
| KextAccepted.CommandsApart | pongo_module/kextload.c:324-337 | commands at different offsets do not overlap |
| KextAccepted.SegmentsInside | pongo_module/kextload.c:345-434 | all patched commands lie in the load commands, apart from each other |
| KextAccepted.AcceptedKmod | pongo_module/kextload.c:479-507 | the recorded `kmod_info` lies in the kext |
| KextAccepted.AcceptedTables | pongo_module/kextload.c:454-571 | acceptance means that every symbol and every relocation passes its checks |
| KextAccepted.StringOffsetsAgree | pongo_module/kextload.c:527-528 | the parser's 32-bit string offset equals the linker's 64-bit one |
| KextAccepted.AcceptedLocals | pongo_module/kextload.c:654-659 | at every base: relocation skips nothing and every local slot is in the image, if and only if every local address is at least the base; at base 0 always |
| KextAccepted.AcceptedExternals | pongo_module/kextload.c:686-699 | at every base: linking skips nothing, every external relocation resolves and its slot is in the image, if and only if every external address is at least the base; at base 0 always |
| KextAccepted.AcceptedIsReady | pongo_module/kextload.c:299-589 | link totality: acceptance and allocation give everything that the unchecked stages depend on, if and only if every relocation is at or above the base |
| KextAccepted.MappedWalk | pongo_module/kextload.c:625-634 | the walk over the mapped and partly patched copy visits the validated commands; no split-info command is left |
| KextAccepted.HeaderUnpatched | pongo_module/kextload.c:627-634 | patching segments never touches a command's kind or size |
| KextImage.CopyHoldsFile | pongo_module/kextload.c:606-616 | the copied segments stand at their places, and every other byte keeps what the allocation held |
| KextImage.PatchSets | pongo_module/kextload.c:627-634 | each `vmaddr` is patched exactly once, from its value in the file |
| KextImage.SlotIsAddress | pongo_module/kextload.c:660-664 | the written slot is `r_address` if and only if `vm_base` is 0 |
| KextImage.SlotInsideExactly | pongo_module/kextload.c:538-544 | for every base, an accepted slot lies in the kext, or in its allocation, if and only if `r_address` is at least `vm_base` |
| KextSample.SlotOutside | pongo_module/kextload.c:538-568 | a kernel extension at base 0x1000 that is accepted and allocated although its slot is outside the image |
| KextImage.SlotInside | pongo_module/kextload.c:562-568 | at base 0 the bounds test puts the eight bytes of the slot in the kext |
| KextImage.RelocateSkips | pongo_module/kextload.c:654-666 | a local relocation that is external or not of 8 bytes changes nothing: a byte changes only in the slot of another one |
| KextImage.LinkSkips | pongo_module/kextload.c:686-708 | nor does an external relocation that is not external, not of 8 bytes or not resolved |
| KextImage.LinkLast | pongo_module/kextload.c:686-708 | the last external relocation of a slot decides: the slot holds the slid address of its symbol |
| KextOverlap.LoadMeetsSpecification | pongo_module/kextload.c:591-712 | with separate slots the image after map, relocate and link is the specified one in every byte |
| KextLoaded.LoadedIsUnique | pongo_module/kextload.c:591-712 | the specification leaves no byte open: two images that meet it are equal |
| KextOverlap.LoadedLocal | pongo_module/kextload.c:649-666 | in the final image each local slot is the file's value plus the slide for each relocation that names it |
| KextOverlap.LoadedExternal | pongo_module/kextload.c:680-708 | in the final image each external slot is the address that its last relocation resolves to, plus the kernel slide |
| KextLoaded.LoadedCommands | pongo_module/kextload.c:623-711 | in the final image the segment addresses, the `kmod_info` fields and the three zero counters are set, if the slots are behind the load commands and clear of these fields, shared or not |
| KextLoaded.LoadedKmod | pongo_module/kextload.c:635-640 | where in `kmod_info`, member by member, the kext's static address and size stand in the final image |
| KextLoaded.LoadedRest | pongo_module/kextload.c:591-712 | every byte outside fields and slots is the copied one |
| KextLoaded.RelocatedSlotLeads | pongo_module/kextload.c:650-666 | a slot that held the address of a segment byte leads, after relocation, to the place where that byte was copied |
| KextLoaded.BehindIsApart | pongo_module/kextload.c:654-690 | slots behind the load commands reach none of the words that the loops still read |
| KextOverlap.RelocateHits | pongo_module/kextload.c:654-666 | eight bytes gain the slide once for each local relocation that names them |
| KextOverlap.LocalsDoneExactly | pongo_module/kextload.c:654-666 | the relocation stage does what is specified if and only if at every slot the slides beyond the first cancel out |
| KextOverlap.TwoOnOneSlot | pongo_module/kextload.c:654-666 | two local relocations on one slot add the slide twice, which is wrong if and only if it is not zero |
| KextOverlap.SlotOnSegment | pongo_module/kextload.c:630-665 | a segment's `vmaddr` that local relocations name ends off by the slide for each of them |
| KextOverlap.SharedExactly | pongo_module/kextload.c:686-708 | an external relocation whose slot is shared gets what is specified if and only if the last of them resolves to the same address |
| KextOverlap.ExternalsDoneExactly | pongo_module/kextload.c:686-708 | the linking stage does what is specified if and only if relocations that share a slot resolve to the same address |
| KextOverlap.LoadedExactly | pongo_module/kextload.c:591-712 | for slots behind the load commands that are equal or clear of each other: the loaded image is the specified one in every byte if and only if the slides beyond the first cancel out at every local slot and external relocations that share a slot resolve to the same address |
| KextOverlap.SeparateMeets | pongo_module/kextload.c:654-708 | separate slots meet that condition for every slide |
| KextOverlap.SeparateIsStronger | pongo_module/kextload.c:686-708 | such relocations violate `Separate` and are linked as specified |
| KextSample.SampleParses | pongo_module/kextload.c:299-571 | a kernel extension with every part that is asked for, a split-info command and any number of relocations of both kinds is accepted at every base, if and only if each relocation passes the bounds test and the symbol resolves if it is needed |
| KextSample.SampleDestroyed | pongo_module/kextload.c:338-343 | of that split-info command one byte is changed, and no other byte of the file |
| KextSample.SampleLoads | pongo_module/kextload.c:299-589 | at base 0, with one local and one external relocation, it is accepted, allocated, ready and separate, so the theorems on the loaded image are about something |
| KextSample.OneSymbolChain | pongo_module/kextload.c:250-262 | a chain of one table with one symbol, to which that external relocation resolves |
| KextSample.SampleIsLoadable | pongo_module/kextload.c:850-874 | and it meets what `CommandKextload` asks of an upload |
| KextSample.SlotOnField | pongo_module/kextload.c:623-666 | an accepted and allocated kernel extension whose relocation names the segment's `vmaddr`: whenever the slide is not zero the loaded image is not the specified one |
| KextSample.TwoAtOneAddress | pongo_module/kextload.c:649-666 | an accepted and allocated kernel extension with two relocations at one address: the loaded image is the specified one if and only if the slide is zero |
| KextSample.SlotOnCounter | pongo_module/kextload.c:654-666 | an accepted and allocated kernel extension whose relocation names the count that the relocation loop still reads |
| LinkedSymbols.SlotHoldsDefinition | pongo_module/kextload.c:691-706 | across both programs: every external slot holds the slid address of its name's first definition in the symbol files, and there is one |
| Pointers.Inverses | pongo_module/kextload.c:63-68 | the conversions invert each other modulo 2^64 for every header position and slide |
| Pointers.Anchored | pongo_module/kextload.c:63-68 | the static address 0xFFFFFFF007004000 is the header's, places move with it, and virtual addresses are static ones plus the slide |
| Pointers.RelocatedPointer | pongo_module/kextload.c:650-665 | a relocated address converts to the pointer at the same distance into the loaded kext |
| KextLoader.SegmentTurn | pongo_module/kextload.c:606-616 | the load-command loop meets the segments in order, each once |
| KextLoader.AllPassed | pongo_module/kextload.c:606-616 | at its end it has met all of them |
| KextLoader.KextLoadInfo.ValidateSegment | pongo_module/kextload.c:344-382 | the checks on one segment and the fields they set |
| KextLoader.KextLoadInfo.ValidateSymtab | pongo_module/kextload.c:383-407 | the checks on the symbol-table command |
| KextLoader.KextLoadInfo.ValidateDysymtab | pongo_module/kextload.c:408-434 | the checks on the dynamic-symbol-table command |
| KextLoader.KextLoadInfo.VisitCommand | pongo_module/kextload.c:324-437 | one round of the load-command loop, with its edit of the buffer |
| KextLoader.KextLoadInfo.WalkCommands | pongo_module/kextload.c:319-437 | the loop reads inside the buffer and performs the specified walk |
| KextLoader.KextLoadInfo.ValidateSymbols | pongo_module/kextload.c:454-502 | the symbol loop: strings, addresses, and the only `_kmod_info` |
| KextLoader.KextLoadInfo.ValidateExternals | pongo_module/kextload.c:508-549 | succeeds if and only if every external relocation is well formed, resolves and is in bounds, although missing symbols do not stop the loop |
| KextLoader.KextLoadInfo.ValidateLocals | pongo_module/kextload.c:550-569 | succeeds if and only if every local relocation is well formed and in bounds |
| KextLoader.KextLoadInfo.Parse | pongo_module/kextload.c:299-571 | accepts exactly the specified files and leaves the specified fields and buffer |
| KextLoader.KextLoadInfo.Alloc | pongo_module/kextload.c:573-589 | fails exactly when the truncated size is too small or the allocator gives nothing |
| KextLoader.KextLoadInfo.CopySegments | pongo_module/kextload.c:602-616 | the first loop of the mapping |
| KextLoader.KextLoadInfo.PatchSegments | pongo_module/kextload.c:623-634 | the second loop, over the mapped copy |
| KextLoader.KextLoadInfo.Map | pongo_module/kextload.c:600-641 | the image after mapping; the file is unchanged |
| KextLoader.KextLoadInfo.Relocate | pongo_module/kextload.c:649-673 | the image after relocation |
| KextLoader.KextLoadInfo.Link | pongo_module/kextload.c:680-712 | the image after linking |
| KextLoader.CommandKextload | pongo_module/kextload.c:850-883 | the command succeeds exactly on accepted, allocatable uploads; the memory then is the mapped, relocated and linked file, which meets the byte-by-byte specification if the slots are separate, and, where they are merely behind the load commands and aligned, if and only if the slides cancel out and sharers resolve alike; and the numbers in the inserted dictionary are the kext's address, its size and the address of its `kmod_info` in the image |
| PrelinkInfo.FormatHex | pongo_module/kextload.c:787-793 | writes exactly the n digits and nothing else |
| PrelinkInfo.HexCharIs | pongo_module/kextload.c:783 | the sixteen digits, in literal characters |
| PrelinkInfo.HexTextValue | pongo_module/kextload.c:787-793 | the digits read as `v` modulo 16^n |
| PrelinkInfo.HexTextDigit | pongo_module/kextload.c:789-792 | the digit at distance i from the end is the i-th base-16 digit |
| PrelinkInfo.FormattedParses | kext_loader/kext_loader.c:506-530 | round trip across the programs: the host's number parser reads "0x" and sixteen formatted digits back, for every 64-bit value |
| PrelinkInfo.KeyTexts | pongo_module/kextload.c:820-838 | the footer and the five placeholders, in literal characters |
| PrelinkInfo.FieldIsFirst | pongo_module/kextload.c:834-838 | each placeholder is found at its first occurrence |
| PrelinkInfo.DictionaryFields | pongo_module/kextload.c:834-843 | all five formatted fields stand in the finished dictionary |
| PrelinkInfo.DictionaryFixed | pongo_module/kextload.c:834-843 | every other byte of the dictionary is the template's |
| PrelinkInfo.RecordLeads | pongo_module/kextload.c:839-841 | the three numbers read from the dictionary are the kext's size and the addresses that convert back to the kext and its `kmod_info` |
| PrelinkInfo.InsertDescribes | pongo_module/kextload.c:807-848 | what an insertion changes: where the footer was there is a dictionary that describes the kext, and then the footer; without a footer nothing changes |
| PrelinkInfo.IdentifiersDiffer | pongo_module/kextload.c:842-847 | identifiers less than 65536 insertions apart differ in the dictionary |
| PrelinkInfo.SpotHere | pongo_module/kextload.c:817-827 | the two backward scans stop exactly behind the content |
| PrelinkInfo.InsertKeeps | pongo_module/kextload.c:808-848 | one insertion appends the dictionary in front of the footer and the section can be searched again |
| PrelinkInfo.InsertAllHolds | pongo_module/kextload.c:808-848 | after any number of insertions: the prefix, all dictionaries in order, the footer, zeros; the size has grown by one template length each |
| PrelinkInfo.DictionaryStands | pongo_module/kextload.c:808-848 | where the k-th inserted dictionary stands, with the k-th identifier |
| PrelinkInfo.PrelinkSection.FindSpot | pongo_module/kextload.c:817-827 | the position of the last footer before the padding, or none |
| PrelinkInfo.PrelinkSection.KextInsert | pongo_module/kextload.c:807-848 | the whole new section, or an unchanged one when there is no footer |
| Instructions.UnsignedBits | pongo_module/kextload.c:891-900 | for every field and legal shift, the field times 2^shift |
| Instructions.SignedBits | pongo_module/kextload.c:891-900 | for every field and legal shift, the sign-extended field times 2^shift, modulo 2^64 |
| Instructions.ResolveMeaning | pongo_module/kextload.c:908-926 | for every pair of words: NULL unless the three registers agree and are not 31, else the page, page count and offset that they encode |
| Instructions.ResolveInverts | pongo_module/kextload.c:908-926 | inverts the ADRP/ADD encoding for every place, every pointer within the signed 21-bit page range and every register but 31 |
| Instructions.InitFunctionIs | pongo_module/kextload.c:956-965 | a match on ADRP and ADD belongs to the function exactly if the string at the page and offset that they encode is `_PrelinkBundlePath` |
| Instructions.MovX2Is | pongo_module/kextload.c:981-983 | the pattern matches exactly MOV Xn, X2 |
| Instructions.SubSpIs | pongo_module/kextload.c:973-976 | the first prologue pattern matches exactly the SUB SP, SP with an offset below 0x400 in steps of 8 |
| Instructions.StpIs | pongo_module/kextload.c:973-977 | the second matches exactly the STP X28, X27 on SP with an even 7-bit immediate |
| Instructions.PrologueIs | pongo_module/kextload.c:973-977 | a prologue is either of them |
| Instructions.StpBeyond | pongo_module/kextload.c:975-977 | two matching instructions with offsets outside the intended range |
| Instructions.ZeroedMov | pongo_module/kextload.c:992-994 | setting the bits turns MOV Xn, X2 into MOV Xn, XZR with the same n |
| Instructions.SavesX2Unique | pongo_module/kextload.c:966-987 | at most one instruction qualifies |
| Instructions.FindX2 | pongo_module/kextload.c:966-991 | finds the MOV nearest the first prologue within 31 steps, or there is none |
| Instructions.OSKextInitPatch | pongo_module/kextload.c:951-999 | on success exactly that word changes, to MOV Xn, XZR; on failure nothing changes |

## Left out

- The USB, IOKit, Mach-port and event code, the device callbacks and the command line of the host program.
- Directory listing, file selection and file mapping: the symbol files are an ordered list of byte sequences.
- `vulnerable_kext` and `kext_client`: demonstration handlers and system-call wrappers without a contract of their own.
- The two KTRR callbacks, which store constants, and the `xnu_pf` matching engine, including the call that disables a patch.
- `alloc_static`, `malloc`, `memmem` and the search for the prelink section: parameters, or specified by what they return. A failed `malloc` on the host is not modelled.
- `kernelcache_find_uuid`: the kernelcache's UUID is a given sequence of sixteen bytes.
- The header of `pongo.h` and the console messages, sleeps, module registration and hook chaining.
- The literal text of the property list: `PrelinkInfo.Template` asks only for the five placeholders, each at its first occurrence, in disjoint windows.
- Concurrent overwriting of the upload buffer, which the code itself points out: the buffer is stable and apart from the allocation.
- PrelinkInfo.PrelinkSection.KextInsert: needs a byte that is not NUL in the section and room behind it; the source states the room as an assumption and reads before the section without the byte.
- KextLoader.CommandKextload: assumes that the relocations of an accepted kext are at or above its base, and that no slot covers one of the three words that the loops still read from the mapped commands. The first is exactly what keeps the slots in the image (`KextAccepted.AcceptedIsReady`). The second is sufficient for the loops to keep their counts and not necessary, since a store may leave the word's value alone; the files that it excludes exist (`KextSample.SlotOnCounter`), and of these the model says nothing but that they are accepted.
- KextOverlap.LoadMeetsSpecification: assumes `Ready`, which for an accepted kext means relocations at or above the base, and `Separate`; `KextOverlap.LoadedExactly` has the exact condition. Both are about the slots that the loader writes, `r_address` minus `vm_base`.
- KextOverlap.LoadedExactly: slots that partly overlap, local slots that meet external ones, and slots on the load commands or the `kmod_info` fields are outside its condition; of the last `KextOverlap.SlotOnSegment` has the segment addresses.
- EndToEnd.UploadedLookup: the blob is smaller than 4 GiB (the upload size is a 32-bit number) and the device's `malloc` succeeds; when it fails the chain is unchanged (`EndToEnd.LoadOverrides`).
- HostBlob.Generate: the allocation size does not wrap 64 bits.
- HostTable.KcsState.UpdateFile: the 32-bit counters `kccnt` and `symcnt` are unbounded numbers; they stay below 2^32 for every blob that can be uploaded.
- DeviceSymbols.SymbolChain.CommandKernelcacheSymbols: ends with the outcome `Overrun`, and says nothing of the chain, where the fields of the struct do not fit in the allocation; what the source then overwrites depends on the allocator. Memory is the sequence of the allocated tables; that the lookup may follow the links in it needs different addresses that are not null, as `malloc` gives them (`DeviceSymbols.Wired`).
- SymbolText.TextParser.ParseHeader: where the cursor stands after a failure is not stated; no caller reads it.
- SymbolText.TextParser.ParseSymbol: the same.
- KextLoader.KextLoadInfo.WalkCommands: the counts in the header and in the commands that no stage changes are read once.
- Instructions.OSKextInitPatch: on a match within thirty instructions of the start of the code there must be a prologue in front of it, since the source then reads in front of the code (`SearchInside`); the C string at the resolved pointer is given by a function, and the code is apart from it.
- Instructions.FindX2: the same demand.
