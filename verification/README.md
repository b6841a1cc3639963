# Verified models of the crash-dump parsers

The repository is a set of parsers that run inside a crash-dump analyser. Most of its code prints
kernel structures. The parts modelled here compute something: they write binary files that other
tools must be able to read, they walk circular structures that may be damaged, they decode
variable-length records, and they search graphs and trees.

Each writer is a method that is proved to leave exactly the bytes of a specification function, and
each file format has an independent reader in the model. The main theorems are about that reader: what
it finds in a finished file is what the writer was given, for every input. The statements of
`CoreMeaning`, `TraceRead` and `EventFormat` spell out what is read in numbers, literals and the
writer's input. Each in-memory parser is a
method that is proved against a specification function, and the theorems are about that function.

| modules | component |
|---|---|
| `Bytes`, `OutFile`, `Writes` | little-endian words, seekable files, what survives of a sequence of writes |
| `Elf`, `CoreNotes`, `NtFile`, `Auxv`, `CoreLoads`, `FakeLinkMap`, `FakeReader`, `CoreDump`, `CoreRead`, `NoteOrder`, `CoreMeaning`, `CoreExample` | the ELF core writer and the reader of its files |
| `RingWalk`, `RingPage` | the ftrace ring buffer reader |
| `TraceDat`, `TraceBuffers`, `TraceRead`, `EventLines`, `EventText`, `EventFormat`, `EventSection`, `EventReader`, `TraceFile` | the trace.dat writer and the reader of its files |
| `FrameSearch` | the frame-pointer search |
| `IpcRing`, `IpcTsv` | the IPC log reader |
| `DeviceTree`, `DeviceIndex`, `DtsValue`, `DtsPrint`, `DtsOrder` | the device tree reader, its indexes, and its listing |
| `FormatTokens` | the print-format tokenizer |
| `ArmPageTable` | the cached ARM page-table walk |

Where the code does less than it evidently means to, the model does what the code does, and the
exact condition under which both agree is a theorem: `CoreNotes.NoteSegmentSize`,
`CoreLoads.AdvanceExact`, `CoreRead.HeaderTableFits`, `CoreRead.OffsetsCongruent`,
`RingPage.Progress`, `RingPage.EndsUnlessZero`, `RingPage.TimeExact`, `RingPage.PaddingStopsShort`,
`IpcRing.ReadsAllIff`, `DeviceIndex.PrefilterExact`, `DtsValue.ValueReadsBack`, `ArmPageTable.SlotIff`
and `ArmPageTable.RunAgreesIff`. Concrete failures are in `CoreLoads.FailedHeadMisplaces`,
`CoreRead.TooManySegments`, `RingPage.StuckForever`, `RingPage.LostTimeWraps`,
`FrameSearch.StartFromAbove`, `IpcRing.ReadAtEndLosesRest`, `DeviceIndex.DroppedMatch` and
`ArmPageTable.PageZeroUnread`.

`dafny verify dfyconfig.toml` checks the whole project.

## Model

| member | source | states |
|---|---|---|
| `OutFile.File.DumpAlign` | coredump/core.cpp:708-720 | zeros up to the next multiple of a power of two, fewer than that number, are appended at the position, and any other alignment changes nothing |
| `OutFile.AcceptedIff` | coredump/core.cpp:708-720 | the alignments that are not ignored are exactly the powers of two |
| `Elf.EhdrRead` | coredump/core.cpp:831-863 | a reader of either class gets back every member of the ELF header |
| `Elf.PhdrRead` | coredump/core.cpp:773-797 | a reader of either class gets back every member of the program header, although the classes order them differently |
| `CoreNotes.CountNotes` | coredump/core.cpp:361-372 | the loops add up the sizes of the process notes and of every thread note that has data |
| `CoreNotes.WriteNote` | coredump/core.cpp:806-829 | header, NUL-terminated name and descriptor, each padded by absolute file position |
| `CoreNotes.WritePtNote` | coredump/core.cpp:177-231 | the loops put out exactly the notes of the emission order, one behind the other, from the note start |
| `CoreNotes.NoteSegmentSize` | coredump/core.cpp:361-372 | the counted size equals the emitted bytes if and only if there is a thread and every thread's status note has data |
| `CoreNotes.NotesRead` | coredump/core.cpp:177-231 | the gABI note walk over the emitted bytes returns every note with name, type and descriptor, in order, and nothing else |
| `NtFile.ParserNtFile` | coredump/core.cpp:667-706 | the payload is count, page size, ranges and names, and its length is the reserved one |
| `NtFile.FilesReadBack` | coredump/core.cpp:667-706 | decoding the payload gives back page size and every (start, end, offset, name), for any number of files and both word sizes |
| `Auxv.FillAuxv` | coredump/core.cpp:196-215 | the fill loop lays the entries and a null entry over the saved vector |
| `Auxv.LookupSet` | utils/utask.cpp:462-464 | setting a key changes the answer for that key and for no other |
| `Auxv.AuxvReads` | coredump/core.cpp:196-215 | a scan of the written descriptor answers every key as the entry list does |
| `CoreLoads.WriteHead` | coredump/core.cpp:328-358 | a failed replacement writes nothing, counts as replaced and moves the position by 2^64 - 1 |
| `CoreLoads.WriteLibs` | coredump/core.cpp:281-317 | every matching library is written and advances the position |
| `CoreLoads.WritePtLoad` | coredump/core.cpp:233-326 | header into its slot, then replacement or memory at the data position, and the new data position |
| `CoreLoads.WriteLoads` | coredump/core.cpp:424-437 | the VMA loop is the sequence of header and data writes that the layout describes |
| `CoreLoads.AdvanceExact` | coredump/core.cpp:265-326 | the data position moves by exactly the file size of the segment if and only if no replacement failed and at most one was made |
| `CoreLoads.DataPosSum` | coredump/core.cpp:424-437 | the running data position is the start plus the sizes of the dumped VMAs before |
| `CoreLoads.SegmentsOrdered` | coredump/core.cpp:424-437 | every segment ends where or before each later one begins |
| `CoreLoads.LoadsKeep` | coredump/core.cpp:424-437 | the loop leaves everything before its slots and between the slots and the data alone |
| `CoreLoads.SegmentHeld` | coredump/core.cpp:233-326 | after the whole loop each VMA still has its header and its bytes: no later header or segment write touches them |
| `CoreLoads.UnreadStaysZero` | coredump/core.cpp:318-324 | a segment whose memory could not be read stays zero through all later writes |
| `CoreLoads.FailedHeadMisplaces` | coredump/core.cpp:266-280 | after a failed replacement the next segment starts one byte early, its range overlaps the failed one's announced range, and that range holds the next VMA's bytes from the second one on |
| `FakeLinkMap.FillLinkMaps` | coredump/core.cpp:1034-1094 | the in-place fill gives one node per resolved library without holes for skipped names, closes the list, and builds the string table |
| `FakeLinkMap.WriteFakeData` | coredump/core.cpp:986-1121 | headers, dynamic section, list and strings at the data position, then the segment's header, and the unaligned new position |
| `FakeReader.ChainUnique` | coredump/core.cpp:1053-1090 | an image determines the list that can be read from it |
| `FakeReader.ListReads` | coredump/core.cpp:1053-1090 | following next visits the fake image and exactly the resolved libraries in order, each prev names the node before, each name pointer starts that library's string, and the list ends with 0 |
| `FakeReader.FakeSegmentReads` | coredump/core.cpp:986-1121 | the program headers at AT_PHDR, the dynamic section, the DT_DEBUG structure, the list and the names all lie inside the segment's bytes and resolve through its own header |
| `CoreDump.WriteHeadAndNotes` | coredump/core.cpp:360-412 | ELF header, note header and notes of the finished layout |
| `CoreDump.WriteCoreFile` | coredump/core.cpp:360-446 | the file is the image that the following theorems read |
| `CoreRead.HeaderTableFits` | coredump/core.cpp:373-377 | the header table ends before the notes if and only if there are at most PN_XNUM segments |
| `CoreRead.HeaderReads` | coredump/core.cpp:373-390 | the ELF header of the finished file announces exactly its segments |
| `CoreRead.NotesReadBack` | coredump/core.cpp:405-411 | slot 0 is the note segment, its size is that of the notes, and walking it returns every note |
| `CoreRead.SegmentReads` | coredump/core.cpp:424-439 | the finished file represents the process: slot by slot the header of each VMA, and at its offset every byte of the VMA's memory or replacement |
| `CoreRead.UnreadReadsZero` | coredump/core.cpp:318-324 | the file range of a VMA that could not be read has only zeros |
| `CoreRead.RangesOrdered` | coredump/core.cpp:373-439 | header table, notes, fake segment and memory segments are disjoint and increasing, for any number of VMAs |
| `CoreRead.OffsetsCongruent` | coredump/core.cpp:417-439 | as read from the finished file, p_offset and p_vaddr agree modulo p_align for all memory segments if and only if the fake segment is absent or ends on a page boundary |
| `CoreRead.FakeReads` | coredump/core.cpp:417-423 | in the finished file slot 1 maps the fake segment, and the debugger finds the libraries through it |
| `CoreRead.TooManySegments` | coredump/core.cpp:377-377 | above PN_XNUM segments a memory header stands where the first note should |
| `NoteOrder.NotePlaces` | coredump/core.cpp:177-231 | each thread contributes its status note, the first one then the process notes, then its other notes with data in their own order, each at the place that its predecessors count |
| `NoteOrder.NoteCount` | coredump/core.cpp:177-231 | and nothing else is emitted |
| `CoreMeaning.HeaderSays` | coredump/core.cpp:831-863 | every member of the finished file's ELF header, as a number: a core file of the process's class and machine with one program header for the notes, one for the fake segment and one per VMA |
| `CoreMeaning.SegmentSays` | coredump/core.cpp:233-326 | located by the ELF header, the header of each VMA has its start, size, page alignment, physical address 0, flag bits 1, 2 and 4 exactly for x, w and r, and file size 0 exactly if it is filtered; and the byte of every address of a dumped VMA stands at p_offset plus its distance from p_vaddr |
| `CoreMeaning.NoteSegmentSays` | coredump/core.cpp:405-411 | the first program header describes the notes and nothing else: no address, no size in memory, no flags |
| `CoreMeaning.NotesSay` | coredump/core.cpp:177-231 | in the finished file each thread's status note, the process notes and each other thread note with data stand at their places with name, type and descriptor, and no other note does |
| `CoreMeaning.LayoutSays` | coredump/core.cpp:373-439 | as read from the finished file, the notes begin where the header table ends, the first segment behind them at the next page boundary, and every further one where the one before ends |
| `CoreMeaning.AuxvSays` | coredump/core.cpp:196-215 | a scan of the fourth note's vector in the finished file answers AT_PHDR with the fake program headers and AT_EXECFN with 0 if there is a fake segment, and otherwise every key as the process does |
| `CoreMeaning.FilesSay` | coredump/core.cpp:667-706 | the fifth note of the finished file decodes to the page size and every mapped range with its name |
| `CoreMeaning.FakeSegmentSays` | coredump/core.cpp:986-1031 | the fake segment's header in numbers, and inside it the header and the two program headers of a shared object |
| `CoreMeaning.LibrariesSay` | coredump/core.cpp:1034-1094 | the debugger's list in the finished file has every library found, in order: its base plus p_vaddr of the program headers is the mapped address plus their offset, its base plus the dynamic section's address is l_ld, both at the word size, and its name; skipped names leave no trace |
| `CoreExample.SmallIsDumpable` | coredump/core.cpp:360-446 | a process meets all conditions of the theorems above, with and without the fake segment |
| `RingWalk.ParserRingBuffer` | ftrace/ftrace.cpp:399-452 | collecting, head search and walk give the specified pages, including the undefined case without a head page |
| `RingWalk.WalkBounded` | ftrace/ftrace.cpp:433-450 | the walk takes at most one page per ring slot besides the reader page, for any memory |
| `RingWalk.RingWalked` | ftrace/ftrace.cpp:399-452 | in a ring with one flagged head pointer the returned list is the reader page first, if it has data, and then nothing if the reader page is the commit page, else the segment of `SegmentExact` |
| `RingWalk.SegmentExact` | ftrace/ftrace.cpp:433-450 | the segment is the pages from the head in ring order, none twice, the commit page only at its end, and a full turn if that is not in the ring |
| `RingPage.ParseBufferPage` | ftrace/ftrace.cpp:475-559 | on every page on which the loop ends it reports exactly the records of its turns, and with sane length words it takes at most a quarter as many turns as there are committed bytes, rounded up |
| `RingPage.EndsIff` | ftrace/ftrace.cpp:490-558 | the loop ends if and only if it ends within as many turns as there are committed bytes |
| `RingPage.EndsUnlessZero` | ftrace/ftrace.cpp:510-557 | if no length word is negative as an int, the loop ends if and only if it meets no record of length 0 |
| `RingPage.SaneEnds` | ftrace/ftrace.cpp:490-558 | with length words below 2^31 - 4 it ends within a quarter as many |
| `RingPage.Progress` | ftrace/ftrace.cpp:508-557 | a turn advances if and only if a length word read behind its header stays positive as an int |
| `RingPage.StuckForever` | ftrace/ftrace.cpp:510-517 | a length word of 2^32 - 4 keeps the loop at the same record after any number of turns |
| `RingPage.PageDecodes` | ftrace/ftrace.cpp:475-559 | decoding inverts encoding: for any short, long, extending, absolute-time and discarded records that fill the page exactly the data records are reported, in order, at their payloads, with the stamp plus the deltas and 32-bit shifts since the last absolute time, in at most one turn per record |
| `RingPage.TimeExact` | ftrace/ftrace.cpp:508-554 | while less than 2^64 units were meant, the reported time of a data record is the stamp plus all time meant since the last absolute time before it and its own delta if and only if every extend word in between is below 32 |
| `RingPage.LostTimeWraps` | ftrace/ftrace.cpp:549-549 | from 2^64 meant units on, lost extend words can cancel out in 64 bits |
| `RingPage.PaddingStopsShort` | ftrace/ftrace.cpp:531-540 | plain padding ends the loop if and only if it starts less than 16 bytes before the committed end, and otherwise leads to 12 bytes before that end |
| `TraceDat.WriteResData` | ftrace/ftrace.cpp:1005-1029 | the options block with the current positions of the instances |
| `TraceDat.ResLength` | ftrace/ftrace.cpp:1005-1029 | the block has the same length whatever positions it carries |
| `TraceDat.ResReads` | ftrace/ftrace.cpp:1005-1029 | each instance's option record gives back tag, size, position and name |
| `TraceDat.ResPatched` | ftrace/ftrace.cpp:917-921 | the second writing changes nothing but the 8-byte position fields, whatever stale positions the first carried |
| `TraceBuffers.WriteArray` | ftrace/ftrace.cpp:961-984 | tag, per-CPU table, and the pages from the next page boundary on |
| `TraceBuffers.WriteLoop` | ftrace/ftrace.cpp:927-941 | one loop writes its kind of array in list order and records each position |
| `TraceBuffers.WriteBufferData` | ftrace/ftrace.cpp:927-941 | all arrays, the global ones first, and every array's position |
| `TraceBuffers.WriteResAndBuffers` | ftrace/ftrace.cpp:917-922 | block, buffers and patched block give the image that the following theorems read |
| `TraceBuffers.ArrayHeld` | ftrace/ftrace.cpp:927-984 | later arrays leave every earlier array's tag, table and pages alone |
| `TraceBuffers.OptionNamesTag` | ftrace/ftrace.cpp:910-941 | in the finished file every instance's option record holds the position at which its flyrecord tag stands |
| `TraceBuffers.TableNamesPages` | ftrace/ftrace.cpp:961-984 | each table entry names a page-aligned range of the stated size that holds exactly that CPU's pages in order |
| `TraceBuffers.RangesDisjoint` | ftrace/ftrace.cpp:961-984 | the ranges of any two table entries of the file are disjoint |
| `TraceRead.OptionsRead` | ftrace/ftrace.cpp:1005-1029 | a reader that goes from option to option by their sizes up to option 0 gets every instance's position and name, and ends at the flyrecord tag |
| `TraceRead.TraceReads` | ftrace/ftrace.cpp:910-984 | the end of the finished file reads back: CPU count, both tags, every instance in order with its name and, at its position, a flyrecord tag and a table whose entries name exactly that CPU's pages one by one, packed from the next page boundary on; the first global array's table follows the options |
| `EventText.PrintBuffer.WriteToBuf` | ftrace/ftrace.cpp:1372-1403 | the text grows by the printed piece, the buffer is one byte longer than the text, and a format that cannot be printed changes nothing |
| `EventText.WriteEvent` | ftrace/ftrace.cpp:1261-1298 | the length of the printed lines, then the lines: name, number, common fields, fields with array dimensions behind their names, print format |
| `EventFormat.DecValue` | ftrace/ftrace.cpp:1272-1272 | a printed number has the decimal value that was printed |
| `EventFormat.FieldReads` | ftrace/ftrace.cpp:1268-1277 | a reader that splits the line at semicolons and finds each value behind its own word, with the dimension moved back behind the type, gives back type, name, offset, size and sign |
| `EventFormat.TextReads` | ftrace/ftrace.cpp:1261-1298 | a line-by-line reader gives back name, number, common fields, own fields in order and print format from the text |
| `EventFormat.TextUnique` | ftrace/ftrace.cpp:1261-1298 | so the text determines the event |
| `EventSection.AssignIds` | ftrace/ftrace.cpp:1201-1215 | one number per system, "ftrace" first, without gaps, and in the order of first use: each number below an event's own belongs to an earlier event |
| `EventSection.WriteEvents` | ftrace/ftrace.cpp:1233-1259 | the number of events of a system, then their records |
| `EventSection.WriteEventsData` | ftrace/ftrace.cpp:1201-1231 | the ftrace block, the number of other systems, and a named block for each |
| `EventReader.SectionReads` | ftrace/ftrace.cpp:1201-1298 | a reader that follows only counts, lengths and NULs gets every system with its events in order and ends where the section ends |
| `EventReader.EveryEventOnce` | ftrace/ftrace.cpp:1201-1298 | the events correspond one to one to the texts that the reader finds, each under its own system, and each text reads as its event |
| `TraceFile.EarlierSurvives` | ftrace/ftrace.cpp:910-925 | options block, buffers and patch leave every earlier section as it was |
| `TraceFile.EventsReadFromTrace` | ftrace/ftrace.cpp:910-925 | the event section reads back completely from the finished file |
| `TraceFile.PatchTouchesOffsets` | ftrace/ftrace.cpp:917-921 | the patched file has the length of the unpatched one and differs from it only in the 8-byte position fields |
| `FrameSearch.FindStart` | debugimage/debugimage.cpp:459-483 | the largest key that also occurs as a value, if there is one |
| `FrameSearch.Descend` | debugimage/debugimage.cpp:505-531 | one pass replaces the working set by its smaller children and adds the childless members to the result |
| `FrameSearch.FindX29` | debugimage/debugimage.cpp:453-537 | the result is exactly the addresses reachable from the start by one unrestricted and then descending steps below which nothing points to them, empty if and only if there is no start, and the loop ends |
| `FrameSearch.StartFromAbove` | debugimage/debugimage.cpp:484-493 | the first step may go up, and such an address can be a result |
| `IpcRing.ReadPages` | ipc/ipc.cpp:144-204 | the buffer is, byte for byte, the unread places of the pages in ring order up to the first reason to stop, then the start page's front if it had wrapped |
| `IpcRing.WalkUnique` | ipc/ipc.cpp:162-195 | no two buffers can be laid out from one snapshot: the stop rules fix the number of pages |
| `IpcRing.ChunkFrom` | ipc/ipc.cpp:166-182 | what is copied of a page is its bytes from rd to wr, or to the end of the data area if wr is behind, and nothing if and only if rd is at wr or at the end |
| `IpcRing.PlaceOf` | ipc/ipc.cpp:144-204 | nothing but unread bytes of the pages walked is taken before the front |
| `IpcRing.UnreadTaken` | ipc/ipc.cpp:144-204 | every unread byte of the pages walked is taken |
| `IpcRing.InRingOrder` | ipc/ipc.cpp:144-204 | page by page in ring order, and upwards on each page |
| `IpcRing.FrontLast` | ipc/ipc.cpp:196-203 | the front of a wrapped start page comes last, from its first byte to wr |
| `IpcRing.NoByteTwice` | ipc/ipc.cpp:144-204 | no two bytes of the buffer have the same place, so no page is visited twice |
| `IpcRing.MeantExists` | ipc/ipc.cpp:162-195 | every log has an intended stop: the first page that does not lead on, or a full turn |
| `IpcRing.ReadsAllIff` | ipc/ipc.cpp:162-195 | the reader never goes past the intended stop, and returns what it should if and only if every page between its own stop and the intended one has nothing to read |
| `IpcRing.ReadsAllFrom` | ipc/ipc.cpp:162-195 | its own stop is the first page without unread bytes, so the condition can be seen in the snapshot |
| `IpcRing.ReadAtEndLosesRest` | ipc/ipc.cpp:173-180 | a start page read to its very end, wrapped or not, makes the reader leave out all other pages |
| `IpcTsv.DecodeRecord` | ipc/ipc.cpp:211-253 | one turn consumes the headers and the items whose types match, and keeps the old times otherwise |
| `IpcTsv.DecodeLog` | ipc/ipc.cpp:206-254 | the loop returns all lines of the buffer and consumes at least 8 bytes per turn on any bytes |
| `IpcTsv.DecodesBack` | ipc/ipc.cpp:206-254 | decoding inverts encoding for any list of records, with or without each item: one line per text under the last times given, and the end is exactly that of the buffer |
| `IpcTsv.FullRecords` | ipc/ipc.cpp:206-254 | if every record has both times and a text, the lines are those records |
| `IpcTsv.ParserIpcLogPage` | ipc/ipc.cpp:144-254 | if the bytes in ring order are a run of whole records, the log's lines are those of the records |
| `DeviceTree.Devicetree.ReadNode` | devicetree/devicetree.cpp:72-112 | the tree below an address, and every node of it entered into both maps |
| `DeviceTree.Devicetree.Load` | devicetree/devicetree.cpp:183-189 | the tree is read on first use and the maps then hold the whole tree |
| `DeviceTree.Devicetree.FindNodeByAddr` | devicetree/devicetree.cpp:202-212 | the node read at that address, or null |
| `DeviceTree.Devicetree.FindNodeByName` | devicetree/devicetree.cpp:183-200 | one result for each key that passes the prefilter and whose node matches, and none twice |
| `DeviceIndex.TreeMirrorsMemory` | devicetree/devicetree.cpp:72-107 | every node of the tree has the names, properties, child and sibling of the structure at its address; only the root is renamed |
| `DeviceIndex.KeysDiffer` | devicetree/devicetree.cpp:81-87 | with slash-free names and different names among siblings no two nodes have the same key |
| `DeviceIndex.NodePaths` | devicetree/devicetree.cpp:88-92 | a node's path is the slash-joined list of its ancestors' names and its own, and the root's is empty |
| `DeviceIndex.PathIndexAgrees` | devicetree/devicetree.cpp:108-109 | every node read is in the path map under its key |
| `DeviceIndex.AddrIndexAgrees` | devicetree/devicetree.cpp:108-109 | the address map answers for exactly the nodes of the tree, with the node at that address |
| `DeviceIndex.PrefilterExact` | devicetree/devicetree.cpp:190-199 | what the search returns: nothing for an empty query; else full-name and path matches always, and short-name matches if and only if the name shares a character with the key |
| `DeviceIndex.SearchExact` | devicetree/devicetree.cpp:183-200 | when short names start full names the search hits exactly the nodes of the tree that match a non-empty query |
| `DeviceIndex.ResultExact` | devicetree/devicetree.cpp:183-200 | so does the list that the search returns |
| `DeviceIndex.NodesNamed` | devicetree/dts.cpp:64-67 | a search by name on a legal tree returns exactly the nodes of the dump's tree that match a non-empty query |
| `DeviceIndex.DroppedMatch` | devicetree/devicetree.cpp:193-194 | a matching short name without a character of the key is not found |
| `DtsValue.RenderValue` | devicetree/dts.cpp:281-316 | a value is printed as nothing, as a string or as big-endian cells, by its length, its name and its node |
| `DtsValue.RenderedSays` | devicetree/dts.cpp:281-316 | for every value, what is printed: nothing of nothing, the text before the first NUL of a string node's property, of one with a string word in its name and of odd bytes, else the whole big-endian words |
| `DtsValue.ValueReadsBack` | devicetree/dts.cpp:281-316 | the printed value stands for the property's bytes if and only if they are none, or one string printed as such, or whole cells printed as such |
| `DtsPrint.Printer.PrintProperties` | devicetree/dts.cpp:269-317 | the property lines in order with their values, one level deeper than their node |
| `DtsPrint.Printer.PrintNode` | devicetree/dts.cpp:231-267 | the bracketed listing of the node, its children and its siblings, and nothing without the show flag |
| `DtsPrint.RoundTrip` | devicetree/dts.cpp:231-317 | reading the listing back by its brackets gives the tree: every node's name, address on request, child and sibling, and every property in order with what its value says |
| `DtsOrder.ListedLines` | devicetree/dts.cpp:231-317 | the listing has exactly the lines of the tree: opening bracket, properties one tab deeper, an empty line and the children one deeper if there are any, closing bracket, siblings |
| `DtsOrder.ListedInPreorder` | devicetree/dts.cpp:231-267 | the opening brackets are the nodes of the tree, each once, in pre-order, behind as many tabs as the node is deep |
| `FormatTokens.ParseFormatString` | ftrace/trace_event.cpp:417-440 | prefixes, formats and the unread tail rebuild the quoted body and are well formed; the empty string fails |
| `FormatTokens.Unique` | ftrace/trace_event.cpp:417-440 | a body has only one well-formed decomposition |
| `FormatTokens.ExtractFormatString` | ftrace/trace_event.cpp:592-605 | the first quoted part with its quotes, to the end if it is not closed, and nothing without a quote |
| `ArmPageTable.ParserPlugin.CfillPgd` | plugin.cpp:1187-1192 | the buffer and its key change together, and only when the base is another one |
| `ArmPageTable.ParserPlugin.CfillPtbl` | plugin.cpp:1201-1206 | the same for the second level |
| `ArmPageTable.ParserPlugin.GetArmPte` | plugin.cpp:1452-1494 | one lookup: the new cache and the entry |
| `ArmPageTable.DirOffset` | plugin.cpp:1457-1465 | the directory entry is at 4 * (vaddr >> 20) |
| `ArmPageTable.WalkEntry` | plugin.cpp:1404-1489 | the entry's address is the table at the page that the directory entry names, or 2048 behind its 2048-byte block, plus 4 times the page number modulo 512 |
| `ArmPageTable.SlotIff` | plugin.cpp:1466-1467 | a word-aligned directory is indexed correctly for every address if and only if it is 16 KB aligned |
| `ArmPageTable.TableEntries` | plugin.cpp:1404-1413 | two addresses share a table entry if and only if their page numbers agree modulo 512 |
| `ArmPageTable.LookupCoherent` | plugin.cpp:1187-1206 | every lookup keeps each buffer that was ever filled equal to memory at its key |
| `ArmPageTable.RunAgrees` | plugin.cpp:1404-1494 | over any sequence of lookups the cached walk returns what a walk by plain arithmetic without caches returns, if each table it needs is at a base other than 0 or an earlier lookup read one that is |
| `ArmPageTable.RunAgreesIff` | plugin.cpp:1404-1494 | for proper directories that holds whatever the unused buffers held if and only if the lookup does not need the table in physical page 0 or an earlier one read a table elsewhere |
| `ArmPageTable.FirstAgreesIff` | plugin.cpp:1404-1494 | the first lookup of all is right if and only if the table it needs is not in physical page 0 |
| `ArmPageTable.PageZeroUnread` | plugin.cpp:1201-1206 | before any table was read, a lookup that needs the one in page 0 returns what the buffer held at the beginning |

## Left out

- Calls into the analyser, the debugger and the C library (memory reads, list walks, formatting, file search and mapping): their results are parameters of the model, and failed file operations are not modelled.
- The 32-bit compatibility mode of the fake link map, whose structures keep the host's word size: the model uses the word size of the core's own class.
- The empty symbol path in `write_fake_data`, which returns early after the segment was counted; libraries are only listed when a symbol path is set.
- CoreDump.WriteCoreFile: requires the auxiliary vector note to be present, because the writer dereferences all four process notes when it counts them, and a page size that is a power of two and holds three headers.
- CoreLoads.WritePtLoad: the name filter is a boolean of the VMA, library and head images are given as the bytes that were mapped, and VMAs whose size does not fit the reader's `int` length are taken as read in full.
- CoreNotes.WriteNote: a note without data is written with an empty descriptor; what the C library does with a null block of the announced size is not visible in the source.
- Auxv.LookupSet: the vector is a list in iteration order; a new key is placed last, while the source's map fixes no order.
- Register note contents and process status parsers: payloads are opaque bytes with a length.
- RingPage.ParseBufferPage: requires that the loop ends, because the source hangs on the other pages (`RingPage.StuckForever`); the address checks before each report, and the truncation of the running time to a machine word before the stamp is added, are not modelled.
- RingPage.PageDecodes: takes the length word of a long or discarded record as the word behind its header, which the source leaves to whatever follows the header in the reader's memory.
- TraceBuffers.TableNamesPages: assumes one ring buffer per CPU, since the writer indexes the buffers by CPU number, and pages of the page size.
- EventText.WriteEvent: the unordered field maps are sequences in their iteration order, names are taken to be free of NULs, and event numbers to be below 2^31, so that `%d` prints them unsigned.
- EventSection.WriteEventsData: the unordered event map is a sequence in its iteration order.
- The other sections of trace.dat: initial data, header pages, symbols, printk formats and command lines are not modelled.
- FrameSearch.FindX29: the address map is a sequence of entries in key order.
- Recursive dump-table flattening and the CPU context dumps of the debug image.
- IpcRing.ReadPages: requires a well-formed ring with offsets inside the data area; a broken list can make the source loop for ever.
- IpcTsv.DecodeLog: memory behind the buffer is a parameter, and what lies behind that counts as zero.
- DeviceTree.Devicetree.ReadNode: nodes are values, so sharing of one node object between the tree and the maps is equality; memory with a cycle is excluded, because the source does not return on it.
- DtsPrint.Printer.PrintNode: a property line is one token that carries the label and the printed value, not its characters; a string without a NUL ends with the value, while the source prints on behind it.
- Memory register parsing (`parse_memory_regs`), field-name extraction and the advanced-format check of trace events.
- ArmPageTable.ParserPlugin.GetArmPte: starts where the page directory of the address space is known; a read that fails half way through filling a buffer is not modelled.
- Option parsing, help texts, column formatting, and the plugins that only print fields.
