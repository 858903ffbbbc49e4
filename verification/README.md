# A model of shim in Dafny

shim is the first-stage boot loader that firmware starts on machines with UEFI Secure Boot.  It reads
untrusted files and firmware variables in place, decides what may run, and keeps a few pieces of state
alive for a whole boot.  This project models the parts of it that parse, edit and protect that data, and
proves what they are for.  Firmware, OpenSSL, HTTP and the clock are parameters: a firmware answer is a
function of the step that asks for it, a hash is the byte string that is digested, and the verdict on a
signature is an argument.

Code that works in place is modelled in place: arrays for buffers, a class for the globals of
`replacements.c` and of `sbat.c`, a circular doubly linked list of nodes for `mock-variables.c`.  Each such
method is proved against a function of its inputs or its old state, and the laws are proved about that
function.  `Bytes` holds the shared arithmetic: little-endian words, masks, alignment.

| modules | what they model |
|---|---|
| `Csv`, `CsvText` | the in-place tokenizer, and the text it accepts |
| `Sbat`, `SbatLevel`, `SbatStore` | generation checks, the textual age rule, and the revocation level over many boots |
| `PeHeader`, `PeHash`, `PeHashLaws` | image headers, the sorted section table, the Authenticode byte stream |
| `PeLoad`, `PeLoadLaws`, `PeImage` | the layout of a loaded image, which sections are refused, and the whole of `handle_image` |
| `Relocate`, `RelocateLaws`, `RelocateTable`, `RelocateFaults`, `RelocateStatus` | base relocations, how two of them compose, the printed form of their table, when they leave the file or the image, and when they succeed |
| `SigList`, `SigListLaws`, `HashPurge`, `HashList`, `MokDelete`, `MokCodec`, `MokLookup`, `MokLaws` | signature lists: parsing, deletion in place, writing back, lookup |
| `Mirror`, `MirrorLaws`, `MirrorTwice`, `MirrorRuns` | splitting a database over size-limited variables, in two runs |
| `MokConfig` | composing one variable and packing all of them into a configuration table |
| `Hooks`, `HookRuns`, `HookEvents` | the replaced boot services, under every order of calls |
| `VarSpec`, `VarCompare`, `VarStore` | the variable store on its linked list, four ordering policies, and the order they sort by |
| `LoadOption` | EFI load options: finding the optional data, splitting off the first word |
| `CertTable` | the attribute certificate table and its two walks |
| `BfBase64` | the base-64 dialect of the password hash |
| `PostProcess` | the build-time fix-up of a linked image |

Where a promise turned out not to hold for every input, the code is kept as it is, a lemma gives an input
that shows it, and the exact condition is proved:

- Deleting a hash filters its list exactly when, behind leading copies, the hash occurs at most once
  (`HashPurge.PurgeIsFilterIff`, `SecondCopyStays`).
- Raising a generation tightens a revocation level as 16-bit numbers; "65535" to "65536" loosens it
  (`Sbat.TighterIff`, `RaisingPastSixteenBitsLoosens`).
- The textual age rule is the numeric one on versions without leading zeros (`SbatLevel.PreservedIsNumeric`,
  `LeadingZeroOutranks`).  In secure mode the stored level never falls unless a write fails behind the
  delete, and a call loses it exactly then (`SbatStore.RunNeverLowers`, `LosesLevelIff`,
  `LostWriteRollsBack`); outside secure mode a call may put the original level over any other
  (`InsecureCallResets`).
- Printed rows parse back exactly when the text does not begin with a byte order mark
  (`CsvText.PrintParseRoundTrip`).
- The digest input is the Authenticode byte string exactly when a signed file has bytes behind its last
  section, or an unsigned one ends there (`PeHashLaws.HashIsAuthenticode`); bytes appended to an unsigned
  image are accepted and do not reach its digest (`AppendedEscapes`).
- What is written back after a deletion is accepted again exactly when every hash list keeps an entry, or
  has nothing left, or has a tail longer than a signature without the list header; a list of one hash with
  five bytes behind it is accepted, and unreadable once that hash is deleted
  (`MokLaws.DeleteWriteLookup`, `TailUnreadable`).  Lookup is right in either case.
- Relocation checks neither a fixup's end nor the file's length.  It leaves the image or the file exactly
  when the walk over the table's blocks reaches a header or an entry outside the file, or a field that ends
  outside the image (`RelocateFaults.FaultIff`, `PeImage.FaultIff`, `FieldOverEnd`, `EntryBehindFile`).
- The second mirror run composes the variable once more, from what the first run left.  It sees the same
  database exactly when no source adds anything, and otherwise every source's signature is listed twice
  (`MokConfig.SameDatabaseIff`, `ListedAgain`).  What it takes for stored was stored by the first run
  exactly when the first database fits whole, or the two bytes of a longer name do not change which
  signature fits first (`MirrorTwice.CoveredIff`).  Then nothing is lost but what is too large or among the
  last 64 bytes (`NothingLost`); otherwise a hash can be stored by neither run (`HashLost`).
- When images leave the table alone, the saved pointers stay the firmware's exactly when in the sequence of
  calls and returns no two hookings follow each other without an unhooking call between
  (`HookRuns.SavedFromBeginning`); a started image whose `Exit` fails, and which then reports an error,
  makes shim hook twice (`FailedExitHooksTwice`).  `shim_fini` puts the firmware's table back exactly
  outside secure mode or with vendor data; otherwise nothing was saved and it writes null pointers
  (`FiniRestoresIff`).
- A printed load option parses back unless description and optional data together are under two bytes; a
  path without an end node is accepted when fewer than four bytes follow it (`LoadOption.ParsePrinted`,
  `ParsedShape`).  The parser reads on outside the option exactly when, behind whole nodes, one is longer
  than what is left but not than the whole rest (`PastEndIff`, `OverlongNode`).
- The search for the last certificate reads behind the file exactly when it comes to stand inside the
  directory with fewer than four bytes of file left (`CertTable.SelectRecord`, `LengthBehindFile`).
- HIGH relocations drop the carry of the low half and do not compose (`RelocateLaws.HighDropsCarry`).

Where code and comments disagree the model follows the code.  `include/str.h:126-128` says every CR, LF and
comma becomes a NUL; the skipped extra line ends, and commas behind the last wanted column, stay
(`Csv.OnlySeparatorsCut` states what holds).  `parse_sbat_var` copies its candidate without writing a
terminator (`sbat.c:325-327`); the model takes the byte behind the copy as zero.

## Model

| member | source | states |
|---|---|---|
| Csv.StrNChrNul | include/str.h:14-30 | the index found is the first NUL or wanted character, or the last byte of the window |
| Csv.StrNToken | include/str.h:63-101 | cuts at the first delimiter of any kind, overwrites that one byte, reports it as state, and is valid exactly at a delimiter or where the previous call left one |
| Csv.ParseCsvLine | csv.c:8-35 | the pointers reported lead to the first n fields of the line's comma split, none when it has no comma, and nothing but commas is cut |
| Csv.ParseCsvData | csv.c:50-129 | every pointer reported leads to the text of its field in the rows of the original buffer, rows are appended to the list, and only separators are overwritten |
| CsvText.RowsAreNonEmptyLines | csv.c:65-129 | with one NUL at the end, the rows are the fields of the nonempty CR/LF-separated lines in order |
| CsvText.SplitJoin | csv.c:8-35 | cutting a printed row at its commas gives its fields back |
| CsvText.PrintThenParse | csv.c:65-129 | printed rows of two to n delimiter-free fields come back from the line loop |
| CsvText.ParseDropsBom | include/str.h:106-115 | a text that begins with the byte order mark loses it, so its first field changes |
| CsvText.PrintParseRoundTrip | csv.c:50-129 | printing and parsing returns the rows if and only if the text does not begin with a byte order mark |
| Sbat.Atoi16 | Cryptlib/SysCall/BaseStrings.c:67-95 | the padded scan yields the leading decimal number, kept in 16 bits |
| Sbat.ScannedGeneration | Cryptlib/SysCall/BaseStrings.c:67-95 | skipping padding, then zeros, then digits gives the value of all the digits |
| Sbat.VerifySingleEntry | sbat.c:133-158 | one entry against one line: found by name, refused when its generation is lower |
| Sbat.VerifySbatHelper | sbat.c:179-207 | accepted exactly when every entry reaches the generation of the first line with its name |
| Sbat.TighterIff | sbat.c:179-207 | of two levels with the same names, one is at least as strict exactly when every first line's 16-bit generation is no lower |
| Sbat.RaisingPastSixteenBitsLoosens | sbat.c:133-158 | raising 65535 to 65536 accepts an image that was refused |
| SbatLevel.NthSbatField | sbat.c:365-377 | the pointer it returns is the start of the wanted field or the end of the text |
| SbatLevel.PreserveSbatUefiVariable | sbat.c:379-413 | the stored level is kept by attributes, signature, version length, version text and datestamp text |
| SbatLevel.LexIsNumeric | sbat.c:379-413 | for decimals of one length, comparing characters compares values, whatever follows |
| SbatLevel.LongerIsLarger | sbat.c:379-413 | without leading zeros a longer decimal is larger |
| SbatLevel.PreservedShaped | sbat.c:379-413 | on well-formed levels the rule is version length, then version value, then datestamp value |
| SbatLevel.PreservedIsNumeric | sbat.c:379-413 | without leading zeros the stored level is kept if and only if its version is newer or its datestamp not older |
| SbatLevel.LeadingZeroOutranks | sbat.c:379-413 | a stored version 01 is kept over version 2 with a later datestamp |
| SbatStore.SbatVariables.SetSbatUefiVariable | sbat.c:469-615 | policy byte, variables and status for any policy, candidate and firmware answer, read-back included |
| SbatStore.StepNeverLowers | sbat.c:469-610 | one secure call or boot never lowers version or datestamp, and changes the text only to a strictly later datestamp whose level passes the self-check |
| SbatStore.RunNeverLowers | sbat.c:469-610 | over any sequence of boots and secure calls with any policy values, version and datestamp never fall |
| SbatStore.LosesLevelIff | sbat.c:570-593 | a call loses a stored level exactly when it replaces it and the write fails |
| SbatStore.BareLevelParses | sbat.c:218-302 | a well-formed level without revocation lines parses to its one line |
| SbatStore.OriginalParses | sbat.c:218-302 | the original level parses |
| SbatStore.InsecureCallResets | sbat.c:469-610 | outside secure mode, without a policy, the original level is put over any stored one |
| SbatStore.FirstCallInstalls | sbat.c:469-610 | from an empty variable one secure call installs one of shim's two levels |
| SbatStore.InstalledByPolicy | sbat.c:482-538 | on an empty variable policy 1 installs the latest level and 2 the automatic one; any other or no policy the automatic one in secure mode and the original one outside; success exactly when it reads back |
| SbatStore.UpdatedIff | sbat.c:469-610 | in secure mode a stored level gives way to the candidate exactly when its version is no lower, its date later, it parses, shim's own section passes it and the delete works |
| SbatStore.ResetIff | sbat.c:508-593 | outside secure mode, without policy 1 or 2, the original level replaces the stored one exactly when shim's own section passes it and the delete works |
| SbatStore.LostWriteRollsBack | sbat.c:540-593 | a write that fails behind the delete lets the next call install an older level |
| SbatStore.RaisingTightensSections | pe.c:342-395 | raising 16-bit generations shrinks the set of sections that pass, including the empty-section rule |
| SbatStore.SectionParsed | sbat.c:18-122 | a printed .sbat section parses exactly when every row has six columns, none empty; name, generation, vendor, package, version and url come back in this order |
| SbatStore.LevelParsed | sbat.c:218-302 | a printed level parses exactly when no column is empty; a line is a name, a generation and at most a date |
| SbatStore.SectionPassesIff | pe.c:342-395 | a printed section passes a printed level exactly when each row is complete and reaches the generation in the first line of its name |
| Relocate.RelocateCoff | pe-relocate.c:34-169 | in place, image and status are those of patching the flattened entries of the table in order, stopping at the first fault |
| Relocate.PatchField | pe-relocate.c:85-168 | one field is read, moved and written back, and no other byte changes |
| RelocateLaws.FieldAfterAll | pe-relocate.c:85-168 | for disjoint in-range fixups each field is moved exactly once |
| RelocateLaws.FieldsMove | pe-relocate.c:118-155 | for disjoint in-range fixups a DIR64, HIGHLOW or LOW field becomes its value plus the displacement modulo 2^64, 2^32 or 2^16, and a HIGH field its value plus the displacement's upper part modulo 2^16 |
| RelocateLaws.PatchTwice | pe-relocate.c:85-168 | for disjoint in-range fixups other than HIGH, patching by a then b is patching by a + b modulo 2^64 |
| RelocateLaws.RelocationComposes | pe-relocate.c:34-169 | relocating by a, then by b from the same table, succeeds and equals relocating by the sum |
| RelocateLaws.RelocationUndone | pe-relocate.c:34-169 | moving an image and moving it back restores every byte |
| RelocateLaws.OnlyFixupsChange | pe-relocate.c:85-168 | for any table, a byte no fixup covers keeps its value |
| RelocateLaws.HighDropsCarry | pe-relocate.c:85-168 | two HIGH moves can differ from one by the sum |
| RelocateTable.TableRoundTrip | pe-relocate.c:85-168 | a printed table of blocks anywhere in the file is walked into exactly its blocks' entries, in order |
| RelocateTable.OneDir64Moves | pe-relocate.c:149-155 | a table of one block with the entry word 0xa000 + offset succeeds, adds the displacement to the eight bytes it names, and changes no other byte |
| RelocateFaults.FaultIff | pe-relocate.c:66-168 | the loader leaves the file or the image exactly when the image moves and the walk, every block before it clean, reaches a header or entry outside the file or a field that ends outside the image |
| RelocateFaults.FieldOverEnd | pe-relocate.c:149-155 | a 64-bit field four bytes before the end of a 4096-byte image is written over the end |
| RelocateFaults.EntryBehindFile | pe-relocate.c:110-117 | a file that ends behind a block header which promises an entry is read past its end |
| RelocateStatus.SuccessIff | pe-relocate.c:66-168 | relocation succeeds exactly when both ends of the table lie outside the image, or both inside and the image stays or the table is blocks of allowed sizes, pages and entry codes, with every field in the image, up to its last byte |
| PeHeader.SectionSpans | pe-relocate.c:171-222 | a section that passes spans its virtual size inside the image; its 32-bit end address did not wrap |
| PeHeader.AcceptedIff | pe-relocate.c:388-573 | read_header accepts a file exactly by machine and magic number, the sizes of optional header, section table, headers and image, the signature, alignment and flags, and a certificate directory that begins in the file or is empty at its end; only the last is refused as an invalid parameter |
| PeHeader.HeaderNeeded | pe-relocate.c:400-432 | it refuses any file without room for the whole header at e_lfanew, or at the start without an MZ stub |
| PeHeader.ContextFields | pe-relocate.c:400-573 | the fields of an accepted image's context, by their places in the file for both header widths |
| PeImage.HeaderBounds | pe-relocate.c:388-573 | header fields of an accepted image lie in the file, for MZ images the section table too, sizes nest, and the widths are bounded |
| PeHash.InsertSection | pe.c:200-233 | the shifting loop inserts behind every section whose raw pointer is not larger and leaves the rest of the table |
| PeHash.SortSections | pe.c:199-235 | it reports the first invalid section in file order, or leaves the sorted table |
| PeHash.SortIsStable | pe.c:200-233 | the working table is ascending and keeps, at every raw pointer, the file's sections in file order |
| PeHash.GenerateHash | pe.c:53-338 | the bytes digested, or the status, for any header read_header accepts |
| PeHashLaws.AcceptedSum | pe.c:119-274 | header size plus all raw sizes never exceeds the file, so no guarded 32-bit difference wraps |
| PeHashLaws.SectionOkIff | pe-relocate.c:171-222 | which sections pass, in the header's own numbers |
| PeHashLaws.AcceptedIff | pe.c:119-308 | there is a digest exactly when the headers hold the security entry and fit, every section is sound and in the file, header and raw sizes do not exceed it, and the image is unsigned, or ends with its sections, or its certificate table is the file's suffix and begins no earlier than those sizes end |
| PeHashLaws.DigestInNumbers | pe.c:93-308 | for tiled sections the digest is the file without CheckSum and security entry, up to the certificate table of a signed image longer than its sections, also where it begins directly behind them, and else up to the sections' end |
| PeHashLaws.TiledBytes | pe.c:236-268 | sections that tile the file digest to one contiguous run of it |
| PeHashLaws.HashIsAuthenticode | pe.c:93-308 | for tiled sections the digest input is the file without CheckSum, security entry and certificate table, if and only if the file is signed and longer than its sections, or unsigned and not longer; the certificate table is then the file's suffix |
| PeHashLaws.AppendedNotHashed | pe.c:270-301 | bytes appended to an accepted unsigned image leave its digest as it was |
| PeHashLaws.AppendedEscapes | pe.c:270-301 | behind an unsigned image that ends with its tiled sections they are accepted and the digest is no longer the Authenticode one |
| PeLoad.AllocationFits | pe.c:699-715 | the aligned image fits the pages asked for unless the 32-bit size wraps, and then the allocation falls short of image and alignment |
| PeLoad.Spans | pe.c:752-836 | the loop's own checks keep a mapped section inside the image |
| PeLoad.MapSection | pe.c:834-856 | copy and zero fill leave the section's content at its address and nothing else changed |
| PeLoad.LoadSections | pe.c:752-858 | the section loop in file order, every read in the file and every write in the buffer |
| PeLoadLaws.MappedIff | pe.c:752-858 | exactly the readable sections that are not discardable end up in memory |
| PeLoadLaws.RefusedIff | pe.c:752-836 | which section stops the loop, in its header's numbers |
| PeLoadLaws.LoadIff | pe.c:752-858 | the loop goes through exactly when every section it looks at is sound and at most one is the relocation section; it counts the sections that hold the entry point |
| PeImage.HandleImage | pe.c:612-951 | in place: status, entry point inside the image, and buffer contents for any file, architecture and verdict; header and section accesses stay in bounds |
| PeImage.LoadedIff | pe.c:612-951 | handle_image succeeds exactly for an acceptable MZ header, a verified signature, a digest, sound sections of which one alone holds the entry point, and a relocation that succeeds |
| PeImage.LoadedFields | pe.c:858-879 | a relocated 64-bit field of the loaded image is the field as laid out plus the buffer's address minus the image base, modulo 2^64 |
| PeImage.FaultIff | pe.c:858-879 | the image is left, or the file over-read, exactly when relocation is reached, the image moves and the relocation table's bytes fault |
| PeImage.LoadPlaces | pe.c:752-858 | a byte of a mapped section that is apart from the others ends with that section's content |
| PeImage.LoadKeeps | pe.c:752-858 | a byte outside all mapped sections is left alone |
| PeImage.LayoutBytes | pe.c:720-858 | before relocation: the file's headers; in a mapped section the file's byte at rawPointer + q for q below both sizes, zero from the raw size up to the virtual size, and zeros throughout an uninitialized one; elsewhere what was there |
| SigList.CountKeys | MokManager.c:137-173 | the number of lists, or zero if one is malformed |
| SigList.BuildMokList | MokManager.c:175-250 | the filled node array is the parse of the database, or there is none if a node leaves it |
| SigListLaws.CountIff | MokManager.c:137-173 | a database is accepted, with this number, exactly when its bytes are that many lists, each where the one before ends, of a certificate kind or a SHA-2 kind with its exact signature size, up to where the walk stops |
| SigListLaws.NodesIff | MokManager.c:175-250 | the node array exists exactly when every list has a first signature with a byte in it and its content inside the variable, and each node is its list's certificate behind the owner, or all of its signatures |
| HashPurge.LateSearchLeavesOne | MokManager.c:1154-1221 | a search numbered from past the front never removes the last remaining copy |
| HashPurge.PurgeIsFilterIff | MokManager.c:1154-1221 | the deletion loop leaves exactly the other entries if and only if, behind leading copies, the hash is listed at most once |
| HashPurge.StripFiltered | MokManager.c:1181-1221 | deleting one hash keeps that condition for every other |
| HashPurge.SecondCopyStays | MokManager.c:1154-1221 | two copies behind another entry: one stays |
| HashList.EntryAt | MokManager.c:1181-1221 | cutting entry d out of the bytes is the list without it |
| HashList.PurgedOnce | MokManager.c:1181-1221 | the bytes left are those of the filtered list and what followed the last whole entry |
| MokDelete.MatchHash | MokManager.c:1154-1168 | it reports the first matching entry counted from the front, numbered from start |
| MokDelete.MemMove | MokManager.c:1170-1179 | the ascending copy, in either direction, overlap included; other bytes stay |
| MokDelete.DeleteHashInList | MokManager.c:1181-1222 | in place, every list of the kind loses the hash as the purge says and every other list is untouched |
| MokDelete.DeleteHashList | MokManager.c:1224-1246 | the hashes of a request are deleted in order from every list |
| MokDelete.DeleteCert | MokManager.c:1134-1152 | exactly the certificate nodes with these bytes are emptied |
| MokDelete.DeleteKeys | MokManager.c:1362-1377 | all lists of a request, in order, on the node array and the shared buffer |
| MokCodec.WriteBackMokList | MokManager.c:1044-1117 | the bytes written are the live nodes' lists in order, and their number is what the sizing loop found |
| MokLookup.WrittenBytes | MokManager.c:1044-1117 | a written list: its kind, its own length, no header, the size of one signature, shim's GUID in front of a certificate, and the content |
| MokLookup.Reparse | MokManager.c:137-250 | a written database parses to exactly the live keys in order, wherever it lies and whatever follows |
| MokLookup.ReparseIff | MokManager.c:137-173 | a written database is accepted exactly when every live list is longer than its signature size |
| MokLookup.CheckDbHashInRam | shim.c:214-252 | found exactly when a list of the kind, reached list by list in the bytes, holds the digest |
| MokLookup.FoundIff | shim.c:214-252 | in any database the walk can cross and for any kind, SHA-1 included, the lookup says yes exactly when there are offsets of lists, each the end of the one before, the last of this kind with the digest at 28 + j * (16 + length) + 16 |
| MokLookup.LookupWritten | shim.c:214-252 | in a written database the lookup finds a hash exactly when a live key holds it |
| MokLaws.LookupParsed | shim.c:214-252 | in any accepted zero-header database the lookup finds a hash exactly when the parsed keys hold it |
| MokLaws.KeysReduce | MokManager.c:1224-1246 | a hash list that lists each requested hash at most once behind leading copies keeps exactly the entries the request does not name, in order, and the bytes behind them |
| MokLaws.CertsReduce | MokManager.c:1134-1152 | a certificate goes exactly when the request holds its bytes |
| MokLaws.DeletionListed | MokManager.c:1134-1246 | afterwards a hash is listed exactly when it was before and was not requested, and every list is readable exactly when each hash list survives |
| MokLaws.DeleteWriteLookup | MokManager.c:1044-1246 | a lookup in the variable written after deletion finds exactly the hashes the old variable held and the request did not name; the variable is accepted again exactly when every hash list survives |
| MokLaws.DeleteWriteReparse | MokManager.c:1044-1246 | when they do, it parses to exactly the surviving lists, in order |
| MokLaws.TailUnreadable | MokManager.c:154-158 | one hash with five bytes behind it: accepted, and unreadable after that hash is deleted |
| MokLaws.DeleteFromDb | MokManager.c:1319-1385 | the whole of delete_keys: only two accepted lists lead to a rewrite, whose bytes are the surviving keys; an unreadable database is erased |
| Mirror.Take | mok.c:430-436 | the number of signatures fits both the room and the rest of the list, and one more would not |
| Mirror.VariableCreateEsl | lib/variables.c:19-82 | the list it builds, refused exactly when empty or past a 32-bit size |
| Mirror.MirrorOneEsl | mok.c:266-310 | a run taken from a well-formed list is never refused for its size |
| Mirror.MirrorLoop | mok.c:364-474 | the loop terminates, and stores the variables, ends and stops as the pass over the data says, for every firmware behaviour |
| Mirror.MirrorMokDb | mok.c:313-508 | status and variables asked for in both modes: the direct store of a database that fits, the loop, and the stand-in list when nothing fits |
| MirrorRuns.SecondNeverPlain | mok.c:330-474 | under any firmware the second run asks for no variable of the plain name, and for nothing, with success, when the database fits whole |
| MirrorRuns.FirstPlain | mok.c:330-474 | the first run asks for at most one variable, under the plain name: the whole database if it fits |
| MirrorRuns.StandIn | mok.c:476-508 | the stand-in lists one SHA-256 digest of zeros that shim owns |
| MirrorRuns.WholeOnce | mok.c:330-337 | when both databases fit, the variables of the two runs together are exactly one, which lists each signature as often as the database does |
| MirrorRuns.RunInNumbers | mok.c:364-474 | every variable of the loop fits what its own answer left beside its name in UTF-16 and the name's end, in raw sizes, and a run that ends without an error leaves fewer than 65 bytes |
| MirrorLaws.PassLaws | mok.c:364-474 | runs are in order, whole signatures of one list; each variable fits what its own firmware answer left after its name and could not be longer; a skipped rest holds nothing that fits; an error-free stop leaves fewer than 65 bytes |
| MirrorLaws.InOrderFits | mok.c:364-474 | pieces in order are disjoint and inside the data |
| MirrorLaws.PassConserves | mok.c:364-474 | the database's signatures, in order, are those of the pieces followed by those not reached |
| MirrorLaws.VariableHolds | lib/variables.c:19-82 | a stored variable is a well-formed list of exactly its piece's signatures |
| MirrorTwice.NumbersFollow | mok.c:398-406 | stored variables are numbered from one without gaps |
| MirrorTwice.LaterNumbered | mok.c:398-474 | behind the first run every stored piece takes the next number |
| MirrorTwice.FirstPiece | mok.c:364-474 | with steady firmware each run acts first on the first signature that fits beside its own name |
| MirrorTwice.SameInBoth | mok.c:364-440 | if the first database's first fit also fits the longer name, the second database's first fit is a list with the same bytes |
| MirrorTwice.AgainIsShort | mok.c:364-379 | what fits only the second database lies where the first one's loop had stopped, and is too short to be the stand-in |
| MirrorTwice.CoveredIff | mok.c:331-456 | over the databases and variables of the two whole runs: what the second takes for stored is in a variable of the first if and only if the first database fits whole, or the first signature to fit beside the plain name also fits beside a numbered one, or nothing does |
| MirrorTwice.NothingLost | mok.c:313-508 | when that holds, every signature is in a variable of one of the two runs, or too large for the name it would get, or among the last 64 bytes |
| MirrorTwice.HashLost | mok.c:430-456 | for both databases' names and any of that kind: a variable no source adds to, and a size limit, for which one hash is in no variable of either run |
| MokConfig.Measure | mok.c:533-628 | the sizing pass, refused exactly when a certificate does not fit its list |
| MokConfig.FitsIff | lib/variables.c:19-83 | refused exactly when a certificate with 44 bytes of list header and owner exceeds 32 bits; a variable that is no key database passes as it is |
| MokConfig.Compose | mok.c:630-747 | the fill pass writes exactly the bytes sized: addend, build certificate, user certificates, old data; an empty database gets a stand-in |
| MokConfig.ChainAppend | mok.c:533-747 | one well-formed database behind another is well formed and lists both in order |
| MokConfig.ComposedLists | mok.c:533-747 | the composed database lists exactly what its sources list, in order |
| MokConfig.SameDatabaseIff | mok.c:819-820 | the second run composes the same database if and only if no source adds anything |
| MokConfig.ListedAgain | mok.c:819-820 | the second database lists every source's signatures once more in front of the first database's |
| MokConfig.BuildTable | mok.c:967-1029 | the packed table fits its page-rounded size, followed by zeros, or there is none |
| MokConfig.WalkFindsAll | include/mok.h:97-101 | a walk finds exactly the nonempty variables in order and stops at the all-zero entry |
| MokConfig.TableReadsBack | mok.c:967-1029 | the installed table reads back as the variables it was made from |
| MokConfig.TableReadsNames | mok.c:994-1019 | its readers find each nonempty variable's contents, in order, and its own name as a C string of at most 255 bytes |
| MokConfig.TablePages | mok.c:967-993 | the table is the fewest whole pages that hold 264 bytes and the contents per nonempty variable and one more entry header, or nothing |
| Hooks.Shim.HookSystemServices | replacements.c:173-202 | the three entries are saved and replaced together |
| Hooks.Shim.UnhookSystemServices | replacements.c:42-54 | the three entries are what was saved, or nothing changes before the first hook |
| Hooks.Shim.LoadImageEnter | replacements.c:56-65 | the firmware is called through the restored entry |
| Hooks.Shim.LoadImageLeave | replacements.c:66-72 | the table is hooked again and the image is remembered, or none after a failure |
| Hooks.Shim.StartImageEnter | replacements.c:74-102 | starting the remembered image makes the loader participate |
| Hooks.Shim.StartImageLeave | replacements.c:102-122 | only a failed start hooks again and clears participation |
| Hooks.Shim.ExitBootServicesEnter | replacements.c:124-132 | the firmware is called exactly if the loader participates or verification was by hash |
| Hooks.Shim.ExitBootServicesLeave | replacements.c:132-136 | only a failure hooks the table again |
| Hooks.Shim.DoExitEnter | replacements.c:144-157 | all hooks are gone when the firmware's Exit is called |
| Hooks.Shim.DoExitLeave | replacements.c:157-169 | a failed Exit sets everything up as at the start |
| Hooks.Shim.ShimInit | shim.c:1779-1813 | services are hooked in secure mode with vendor data, Exit always |
| Hooks.Shim.ShimFini | shim.c:1815-1837 | services are restored in secure mode, Exit always |
| Hooks.Shim.Verify | shim.c:1027-1060 | a call counts as participation whatever its verdict |
| Hooks.AssignmentDecides | shim.c:339-420 | what verified before an assignment does not matter |
| Hooks.FirstUpdateStands | shim.c:339-343 | of several updates the first verdict stands, and none changes a verdict there is |
| Hooks.Shim.StartSecondStage | shim.c:1255-1302 | participation is cleared just before the image runs |
| HookRuns.SavedIffAlternate | replacements.c:42-202 | for images that leave the table alone: along any run the saved pointers stay the firmware's if and only if the order of calls and returns never hooks twice without unhooking between |
| HookRuns.SavedFromBeginning | replacements.c:42-202 | the same from the first shim_init on |
| HookRuns.StepClean | replacements.c:42-202 | the invariant of runs whose images restore the table, kept by every event |
| HookRuns.RestoringRunIsSafe | replacements.c:42-202 | in such runs the saved pointers are the firmware's all along, no hook calls itself, and unhooking restores all three |
| HookRuns.BeginClean | shim.c:1779-1813 | one shim_init in secure mode with vendor data establishes that invariant |
| HookRuns.FailedExitHooksTwice | replacements.c:144-169 | a failing Exit inside a started image that then fails makes shim save its own hooks and LoadImage call itself |
| HookRuns.FiniRestoresIff | shim.c:1827-1832 | shim_fini puts the firmware's table back exactly outside secure mode or with vendor data, and null pointers otherwise |
| HookRuns.StepFaithful | replacements.c:56-135 | every event keeps the three flags equal to what the history says |
| HookRuns.BeginFaithful | shim.c:1779-1813 | behind the first shim_init the empty history agrees with the flags |
| HookRuns.LeavingIsJustified | replacements.c:124-142 | in every run the hook lets the system leave boot services only behind an image verified by hash, or a verification call or a start of the image last loaded since the last clearing, and refuses only without both |
| HookEvents.RunFlags | replacements.c:56-135 | behind any run from the first shim_init, participation is a verification call, or a hooked start of the image last loaded, with no second stage, failed start or failed Exit behind it; the verdict is that of all judgements in order |
| HookEvents.LeavesIff | replacements.c:124-142 | behind any run shim's ExitBootServices shuts down exactly when no such grant stands and the verdict is not a hash, and else puts the saved entries back |
| VarSpec.FindsKey | mock-variables.c:800-837 | the search meets the variable exactly when the store holds it, under every policy |
| VarSpec.SetAgrees | mock-variables.c:714-919 | one call keeps names unique and the sort order, and acts as the same call on a plain map |
| VarSpec.RunAgrees | mock-variables.c:714-919 | any sequence of calls: the list holds the plain map's contents and stays ordered |
| VarSpec.SucceedsIff | mock-variables.c:714-919 | which calls succeed, in the attributes' fields: data for a new variable; for an old one its own attributes, append aside, or a deletion the policy allows, with room, and not authenticated |
| VarSpec.GetAfterSet | mock-variables.c:216-275 | what GetVariable answers behind SetVariable for any buffer: new data under the first attributes, old data with the new behind it, or nothing; the same as before for every other variable and behind a refused call |
| VarSpec.PlaceAfterSet | mock-variables.c:762-876 | a new variable goes to the front, the end or its sorted place; a variable written again keeps its place; a deleted one leaves |
| VarSpec.EnumerationVisitsAll | mock-variables.c:308-422 | from the empty name on, each variable of the vendor is visited exactly once in list order before the end; unknown names are refused |
| VarSpec.SetNamed | mock-variables.c:730-736 | no call stores an empty name |
| VarCompare.VariableCmpOrders | mock-variables.c:156-189 | the comparison of GUIDs and then names is a total order, so it suits every policy |
| VarCompare.GuidOrder | include/test.h:85-185 | GUIDs compared field by field, two bytes swapped, are totally ordered |
| VarCompare.NameOrder | mock-variables.c:178-189 | names compared by their first difference are totally ordered |
| VarCompare.RunFromEmpty | mock-variables.c:714-919 | under that comparison any calls from the empty store leave the plain map's contents, unique and ordered |
| VarStore.ListAddBetween | include/list.h:41-49 | the four pointers around a new node, also when both neighbours are the head |
| VarStore.ListDel | include/list.h:63-82 | the neighbours are joined and the node is cleared |
| VarStore.SplicedWellFormed | include/list.h:41-61 | setting those four pointers keeps the circle whole in both directions |
| VarStore.CutWellFormed | include/list.h:63-82 | joining the neighbours keeps the circle whole |
| VarStore.Store.Insert | include/list.h:41-61 | the list stays well formed and gains the variable at its position |
| VarStore.Store.Remove | mock-variables.c:424-443 | the list stays well formed and loses exactly that variable |
| VarStore.Store.Search | mock-variables.c:799-837 | the loop stops at the position and sign the sort policy wants |
| VarStore.Store.SetVariable | mock-variables.c:714-919 | on the linked list, status and variables are those of the call on values |
| VarStore.Store.GetVariable | mock-variables.c:216-275 | status, size, attributes and data are those of the map's entry, with both size checks |
| VarStore.Store.NextVariable | mock-variables.c:335-402 | the loop selects the vendor's first or next variable, or tells an end from an unknown name |
| VarStore.Store.GetNextVariableName | mock-variables.c:277-422 | the name handed out, the size asked for when it does not fit, and the three failures |
| LoadOption.GetLoadOptionOptionalData | load-options.c:110-219 | the loops agree with the parse for every byte string |
| LoadOption.ParsePrinted | load-options.c:110-219 | a printed option yields exactly its optional data, except an empty description with under two bytes of it; a path without an end node passes when under four bytes follow |
| LoadOption.ParsedShape | load-options.c:110-219 | whatever yields optional data was printed so: header, description, whole nodes, and that data at the end |
| LoadOption.PartsAddUp | load-options.c:110-219 | header, description, path and data lengths sum to the buffer's |
| LoadOption.WalkRead | load-options.c:165-206 | a completed walk went over whole nodes and an end node, unless too little was left for one |
| LoadOption.PastEndIff | load-options.c:165-206 | the walk leaves the option exactly when description and lengths pass and, behind whole nodes, one is longer than what is left but not than the whole rest |
| LoadOption.OverlongNode | load-options.c:184-185 | a twenty-byte option for which it does |
| LoadOption.SplitLoadOptions | load-options.c:263-300 | the first word is terminated in place, one unit changes, and the rest begins behind it |
| CertTable.VerifyTable | shim.c:638-695 | the loop terminates with the verdict over the table's records, or refuses a malformed one |
| CertTable.VerifiesIff | shim.c:638-695 | success exactly when the directory's bytes are records of at least eight bytes inside it, each at the next multiple of eight, and one of type 2 verifies |
| CertTable.RecordsInBytes | shim.c:638-695 | the records accepted are those offsets, each PKCS exactly with type 2 behind its length and revision |
| CertTable.OneTable | shim.c:638-695 | the bytes form a table in at most one way |
| CertTable.RecordsLaid | shim.c:638-695 | records lie inside the directory at multiples of eight, each behind the one before |
| CertTable.SuccessIff | shim.c:677-686 | success exactly when some PKCS record verifies, whatever fails behind it |
| CertTable.FailureIsLast | shim.c:677-686 | otherwise the status is the last PKCS record's |
| CertTable.SelectRecord | keyless-sign.c:455-476 | for every table the last PKCS record of the one complete walk, or past the end exactly when that walk stands inside the directory with fewer than four bytes of file left; on a table the verification loop completes, the last PKCS record that loop visited |
| CertTable.OneWalk | keyless-sign.c:455-476 | there is one complete walk |
| CertTable.AcceptedFollow | keyless-sign.c:455-476 | on a table the verification loop accepts, it visits the same records |
| CertTable.LengthBehindFile | keyless-sign.c:458-462 | a directory of eighteen bytes at the file's end for which a length is read behind it |
| BfBase64.ValueOfLetter | crypt_blowfish.c:345-364 | the second table undoes the first |
| BfBase64.LetterIs | crypt_blowfish.c:345-346 | the letters are dot, slash, A to Z, a to z and 0 to 9, in this order |
| BfBase64.ValueIff | crypt_blowfish.c:348-364 | a character's value is its place in that alphabet, and no other character has one |
| BfBase64.EncodedThree | crypt_blowfish.c:390-420 | three bytes are written as the four digits of their number to base 64, most significant first |
| BfBase64.EncodedRest | crypt_blowfish.c:390-420 | one or two last bytes are the first two or three digits of the number that zero bytes complete |
| BfBase64.Encode | crypt_blowfish.c:390-420 | for every length from one on, the letters written are the encoding, and no others are touched |
| BfBase64.Decode | crypt_blowfish.c:366-388 | succeeds exactly when the letters needed are all in the alphabet, with the bytes they decode to |
| BfBase64.RoundTrip | crypt_blowfish.c:345-420 | decoding the encoding of any bytes returns them, both partial endings included, whatever follows |
| PostProcess.LoadPe | post-process-pe.c:120-356 | acceptance, and the header size as repaired, for any file it refuses early or whose header is mapped |
| PostProcess.RepairCovers | post-process-pe.c:274-303 | an accepted file's header size covers the section table and stays inside the image, for any file alignment |
| PostProcess.FixChecksum | post-process-pe.c:411-459 | the field is cleared, summed over and written, and nothing else changes |
| PostProcess.ChecksumIsSum | post-process-pe.c:425-459 | before the size is added the sum is at most 0xffff and congruent modulo 0xffff to the file's 16-bit words |
| PostProcess.HeadKept | post-process-pe.c:120-459 | none of the four fields written is one the checks read |
| PostProcess.LoadTwice | post-process-pe.c:274-303 | the checks decide the same on the repaired file and leave it alone, also when the size did not fit its field |
| PostProcess.HandleOne | post-process-pe.c:461-500 | the steps in order on the mapped file; a rejected file keeps its repaired header size |
| PostProcess.AcceptedIff | post-process-pe.c:120-356 | which files are accepted, in the header's own fields |
| PostProcess.ProcessedFields | post-process-pe.c:358-500 | an accepted file ends with a zero time stamp, the wanted NX bit beside its other flags, the header size it needs, a checksum of its folded words plus its length, and no other byte changed |
| PostProcess.RoundsToMultiple | post-process-pe.c:274-303 | for an alignment that is a power of two a repaired header size is a multiple of it |
| PostProcess.ProcessTwice | post-process-pe.c:461-500 | a second run with the same flag decides the same and changes nothing |

## Left out

- AuthenticodeVerify, PKCS#7, X.509 and the hash functions: libraries outside the repository's own logic; a verdict or a byte string stands for them.
- HTTP, DHCP and TFTP clients, driver loading, MokManager's menus and password prompts, TPM measurement and logging, memory attribute calls: firmware or user interaction.
- The Blowfish key schedule and PasswordCrypt.c: long fixed recipes with no law short of their text.
- fallback.c, buildid.c, errlog.c, hexdumps and console output: directory input and output, or simple members.
- Allocation failure and FreePool: allocation succeeds.
- The other denial and allow lists of shim.c and the HTTP-first verification order: only their effect on the verification method is modelled, as a sequence of assignments.
- SSP version variables in sbat.c: the same pattern as the SBAT level with fewer rules.
- Csv.ParseCsvLine: takes a window as its only caller makes it, longer than one byte and with its only NUL at the end.
- Csv.StrNChrNul: takes its 32-bit loop counter as unbounded, so buffers of 4 GiB and more are outside the model.
- Relocate.RelocateCoff: pointers are offsets, so an address space that ends inside the image is not modelled; at a read or write outside file or image the model stops with a fault (RelocateFaults.FaultIff says when).
- RelocateLaws.PatchTwice: excludes HIGH relocations, which do not compose (RelocateLaws.HighDropsCarry).
- PeImage.HandleImage: takes the buffer as large as the image; PeLoad.AllocationFits says when the allocation is.
- MokDelete.DeleteKeys: requires the nodes to lie apart, which MokLaws.NodesLaid derives for lists without a SignatureHeader; with overlapping headers two nodes could share bytes.
- MokLookup.CheckDbHashInRam: requires nonzero list and signature sizes and, in lists of the kind sought, no SignatureHeader and signatures as long as owner and digest; on a list size of zero the loop never ends, it divides by the signature size, and it reads past the list otherwise.
- SigList.BuildMokList: only the first certificate of an X509 list becomes a node, as in the code, so MokLaws.DeleteWriteLookup speaks of that one.
- MokLaws.DeleteWriteLookup: is about SHA-2 digests, the requested ones at most once per list behind leading copies, where HashPurge.PurgeIsFilterIff says deletion filters; certificates in the rewritten database are covered by MokLaws.DeleteWriteReparse.
- SigList.CountKeys: the size walks read a list's size field before they know it is there; the model gives them one header of readable memory behind the variable, here and in the other walks.
- Mirror.MirrorLoop: requires well-formed lists; a size field below 28 or past the end makes the 64-bit differences wrap.  SignatureHeaderSize is taken as zero, as its comment says.
- MirrorTwice.CoveredIff: both runs see the same size limit throughout and every store succeeds; MirrorLaws.PassLaws and MirrorLaws.PassConserves need neither.
- Protocol installation and set_second_stage in the hook machine: their failure resets the system.  Secure mode and vendor data do not change during a run.
- HookRuns.RestoringRunIsSafe: is about the three service entries; Exit is hooked apart from them.
- VarSpec.SetAgrees: the comparison is a parameter that orders totally under a sorting policy, and VarCompare.VariableCmpOrders gives it; StrCmp is the firmware library's first difference of NUL-terminated names.
- Quota accounting in mock-variables.c: creation charges the name and ignores the limit while deletion refunds only data, so nothing is conserved; a parameter says whether a change is allowed.  Hooks around the calls are absent.
- VarStore.Store.GetNextVariableName: takes the name as text that ends at its NUL; the scan for that NUL counts the byte size in 16-bit units.
- LoadOption.GetLoadOptionOptionalData: once the walk passes the end the model stops with PastEnd (LoadOption.PastEndIff says when); what the code reads there is not modelled.
- CertTable.SelectRecord: at a length read behind the end of the file the model stops with PastEnd.
- CertTable.VerifyTable: the break on a null pointer from ImageAddress cannot happen inside a directory that lies in the file.
- PostProcess.LoadPe: requires the header fields of a file that passes the first three checks to lie in the mapping; PostProcess.ProcessTwice also needs the PE header to lie past the DOS header.
- Images without an MZ header: generate_hash refuses them.
