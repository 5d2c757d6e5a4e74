# Verified models of the loader, the JVM and the code generators

This project models five parts of the repository in Dafny and proves what they are for.

- **The bionic linker** (`SoPool`, `LibraryGraph`, `LinkerLog`, `LibraryLoading`, `LibraryRemoval`,
  `LinkerRuns`, `Linker`, `ElfHash`, `SymbolSearch`, `Segments`, `Relocations`, `LibraryRelocation`,
  `LibraryPath`). `Linker.Linker` is one object with the pool of `soinfo`
  slots, the two lists that run through it, the fields of the slots that loading uses, and a log of
  what happens to the libraries. Its invariant says that every reference count is the number of open
  handles plus the number of DT_NEEDED entries of listed libraries, that the recorded entries form no
  cycle, that no two listed libraries share a name, that the log shows exactly the recorded entries, and
  that the log is safe: constructors run once per load and after those of everything needed, destructors
  only after the constructors and only when no living library needs the library. The invariant holds at
  every moment of every run of dlopen and dlclose, and it implies that a library is loaded if and only if
  a handle, a failed library or libdl leads to it. What a file contains, whether it can be mapped and how
  its relocation ends are an oracle, `World`, which may answer differently at each attempt.
- **SHA-1** (`Sha1Spec`, `Sha1Example`, `Sha1`). `Sha1Spec` is FIPS 180-4, sections 4.1.1, 4.2.1, 5.1.1,
  5.3.1 and 6.1.2, and `Sha1Example` derives the standard's example digest from it; `Sha1` is the code with
  its circular schedule, renamed registers and two-word counter.
- **The biscuit RISC-V assembler** (`Words`, `RiscV`, `LoadImmediate`, `BranchEncoding`, `CodeBytes`,
  `Assembler`). `RiscV` decodes and executes the instructions concerned (sections 2.3, 2.4, 2.5, 5.2 and
  16.4 of the RISC-V Unprivileged ISA, 20191213); `Assembler.Assembler` emits them into a buffer and
  links labels.
- **The fake JVM** (`Spans`, `ClassNames`, `ObjectTable`, `JniRequests`, `JniRuns`, `Jvm`, `FieldStore`,
  `StringBuilders`).
  The fixed array of slots refines an append-only interning table, the two side stores refine maps.
- **docopt's transform** (`Docopt`). The worklist refines the recursive expansion of a pattern tree.

Some properties that one would expect do not hold of the code. For these the exact condition is proved:

- dlclose crashes when libdl, which has no dynamic section, loses its last reference
  (`Linker.Linker.DlClose`, `Linker.CrashingClient`); a client that begins by opening libdl and never
  closes it does not meet this (`LinkerRuns.HoldingLibdl`).
- CALL misses its target on RV64 for offsets from 0x7FFFF800 on (`LoadImmediate.CallTarget`).
- LI cannot load a constant other than 0 into x0 (`LoadImmediate.LiCorrect`).
- A label at an odd distance is not reached, nor a compressed jump at a distance that is not a multiple
  of 16 (`BranchEncoding.OffsetEncoded`, `BranchEncoding.CJReads`).
- SHA1Update overruns its buffer on a piece that reaches 2^32 together with the bytes waiting
  (`Sha1.Context.Update`, `Sha1.GuardExact`).
- Segments leave the reserved region if the first one does not begin in page 0, and the rest of the last
  file page of a segment that is not writable is not cleared (`Segments.WritesOutside`,
  `Segments.LoadImage`, `Segments.PagesHold`).
- The path splitter gives up whole components of a path that is too long: the eighth, and one that ends
  right at the end of the buffer (`LibraryPath.KeptIffRoom`, `LibraryPath.EighthGivenUp`,
  `LibraryPath.LongGivenUp`), although its comment speaks of a truncated one.
- A class name keeps its separators from the first one that stands first or right after another
  (`ClassNames.ReplacedIffSeparated`), and an empty class name trips an assertion (`Jvm.Jvm.MakeClass`).
- The characters of an empty Java string are NULL (`JniRequests.StringRoundTrip`).

Integers are unbounded; where the width of a machine word matters the reduction is written out. Methods
that C ends by a failed assertion or a crash return that as a result.

## Model

| member | source | states |
|---|---|---|
| Linker.Linker.AllocSlot | src/linker/linker.c:290-324 | a slot that was not on the load list is appended to it; NULL exactly when all 128 slots and libdl are listed; free list and load list stay a partition of the slots used so far |
| Linker.Linker.FreeSlot | src/linker/linker.c:326-350 | unlinks exactly the slot asked for, wherever it stands, keeps the order of the others, and reports a slot that is not listed |
| Linker.Linker.FindSlot | src/linker/linker.c:332-341 | the walk over the list ends and finds the slot and its predecessor, or that it is not there |
| SoPool.PartitionAlloc | src/linker/linker.c:311-320 | moving the head of the free list behind the last listed slot keeps both lists acyclic, disjoint and complete |
| SoPool.PartitionFree | src/linker/linker.c:343-349 | unlinking any listed slot but libdl and pushing it on the free list keeps both lists acyclic, disjoint and complete |
| SoPool.PartitionGrow | src/linker/linker.c:302-308 | drawing a fresh slot from the pool keeps the partition |
| LibraryLoading.Basename | src/linker/linker.c:1237-1238 | what follows the last slash, or the whole path |
| Linker.Linker.constructor | src/linker/dlfcn.c:269-280 | libdl alone is on the load list, linked, under its name, without a reference, and the invariant holds |
| Linker.Linker.Search | src/linker/linker.c:1240-1249 | finds a listed library of the name, or that there is none |
| Linker.Linker.FindLibrary | src/linker/linker.c:1224-1263 | ends for every graph of DT_NEEDED names, cyclic or not; a listed name changes nothing and is answered with its one library if that is usable, with NULL otherwise; without an image, a fitting name or a free slot the libraries stay untouched; otherwise the image of this very path takes the next place of the list and is the answer if and only if it links; every other library that is new was needed by an earlier new one; what was listed stays as it was but for counts, and the log grows without a destructor |
| Linker.Linker.LoadLibrary | src/linker/linker.c:1097-1222 | the same for a name that is not listed; the entries of the new library, whether or not its relocation succeeds, are what the searches for the names of its image answered, libdl where the answer was NULL; it has none if linking fails before it gets to them |
| Linker.Linker.AllocInfo | src/linker/linker.c:1160-1201 | a cleared slot with the name at the end of the list, or the libraries untouched when there is no slot or the segments cannot be mapped |
| Linker.Linker.LinkNew | src/linker/linker.c:1204-1222 | linking the slot that was filled last: the library stands for the image of the path asked for, usable if and only if that links, and a failed one keeps its slot |
| Linker.Linker.LinkImage | src/linker/linker.c:2209-2256 | succeeds exactly if tables, relocation and RELRO are in order, with the flags that each outcome leaves; unless the tables are missing, every name is searched for and its entry stored even if relocation or RELRO then fails; only libraries needed by the image are loaded; the invariant holds on every way out |
| Linker.Linker.NeedAll | src/linker/linker.c:2209-2228 | for every name, in order, the entry stored is the library that the search answered with, or libdl if it answered NULL |
| Linker.Linker.NeedOne | src/linker/linker.c:2214-2226 | searches for the name and appends the answer, or libdl for NULL, as one counted and logged entry |
| Linker.Linker.CountNeeded | src/linker/linker.c:2225-2226 | the entry, the count and the log event together keep every count exact and the log equal to the recorded entries |
| Linker.Linker.FinishLink | src/linker/linker.c:2242-2300 | the library becomes usable, later than everything it needs, or is marked as failed; either way its entries stay |
| LibraryGraph.LoadKeeps | src/linker/linker.c:290-324 | a fresh slot keeps counts, ranks and holders exact |
| LibraryGraph.NeedKeeps | src/linker/linker.c:2225-2226 | an entry to a linked library keeps counts, ranks and holders, so that no edge ever closes a cycle |
| LibraryGraph.LinkKeeps | src/linker/linker.c:2256-2256 | linking keeps them |
| LibraryGraph.FailKeeps | src/linker/linker.c:2306-2309 | a failed link keeps them |
| LibraryGraph.NamesLoaded | src/linker/linker.c:1240-1249 | a library is loaded only under a name that no listed one has, so that names stay unique |
| LibraryGraph.Acyclic | src/linker/linker.c:1240-1249 | no chain of recorded DT_NEEDED entries returns to where it began |
| LibraryGraph.PathDescends | src/linker/linker.c:1240-1249 | along every chain of entries the time of linking decreases |
| Linker.Linker.CallConstructors | src/linker/linker.c:1738-1791 | ends; afterwards the constructors of the library have finished; since the log mirrors the recorded entries, those of everything it needs had finished before its own began, each at most once since it was loaded, and no destructor was called |
| Linker.Linker.CallNeeded | src/linker/linker.c:1762-1775 | all needed libraries have had their constructors; nothing but the marks has changed |
| LinkerLog.AgreesCall | src/linker/linker.c:1754-1754 | the mark is set before the constructors run, and a library marked but not finished is one being constructed |
| LinkerLog.AgreesInit | src/linker/linker.c:1777-1789 | constructors may follow once every library that the log shows as needed has had its own, and are not repeated |
| LinkerLog.AgreesFini | src/linker/linker.c:1793-1808 | destructors may run when the constructors have finished and no library that is still alive needs the library |
| LinkerLog.AgreesNeed | src/linker/linker.c:2225-2226 | logging the entry keeps the log and the recorded entries of the listed libraries equal |
| LibraryRemoval.NeededInited | src/linker/linker.c:1762-1775 | whatever a library needs that has had its constructors has had them too, so that destructors never run without constructors |
| Linker.Linker.Unload | src/linker/linker.c:1270-1322 | one reference is dropped; a library goes exactly with its last one, after its destructors and before what it needs; destructors are called once for each library that goes, and only after its constructors; libraries that something still leads to are kept unchanged; a crash happens only when neither a handle nor a kept library refers to libdl |
| Linker.Linker.UnloadNeeded | src/linker/linker.c:1291-1309 | every DT_NEEDED entry is cleared and its library loses one reference |
| Linker.Linker.UnloadFirst | src/linker/linker.c:1292-1307 | the same for one entry, while all libraries being unloaded stay counted once too often |
| Linker.Linker.FreeUnloaded | src/linker/linker.c:1311-1314 | the slot leaves the load list without breaking any count or edge |
| LibraryGraph.DecrementKeeps | src/linker/linker.c:1316-1320 | dropping a reference that is not the last keeps every count exact |
| LibraryGraph.PopKeeps | src/linker/linker.c:1293-1298 | clearing an entry leaves exactly its library counted once too often |
| LibraryGraph.RemoveKeeps | src/linker/linker.c:1311-1314 | removing a library whose last reference is gone leaves no dangling entry |
| LibraryRemoval.LastReference | src/linker/linker.c:1273-1275 | a library at its last reference has no handle, no listed library needs it, and nothing that is to be kept leads to it |
| LibraryRemoval.ExactlySurvivors | src/linker/linker.c:1270-1322 | what is listed afterwards is exactly what handles, failed libraries or libdl lead to |
| LibraryRemoval.StillNeeded | src/linker/linker.c:1291-1291 | if unloading ends without a crash and libdl was referenced, a handle or a survivor still refers to it |
| LibraryRemoval.FinalizedThen | src/linker/linker.c:1275-1309 | unloadings one after another and one inside another call the destructors of each library that goes once |
| LibraryGraph.LiveIsReachable | src/linker/linker.c:1270-1322 | every listed library is reached by a chain of entries from a handle, a failed library or libdl |
| LibraryGraph.LoadedIffReachable | src/linker/linker.c:1270-1322 | reference counting collects exactly the garbage, in every state between calls |
| Linker.Linker.DlOpen | src/linker/dlfcn.c:72-96 | the invariant is kept and the log grows without a destructor; the answer is that of find_library, so that a name opened again gives the same handle; a success adds one handle, has run the constructors and leaves every loaded library as it was but for counts and marks; a library that gets a slot is the image of this very path with its entries, whether it links or not, and whatever else is new is needed by an earlier new library; in all other cases nothing is loaded, and without an answer the libraries stay untouched |
| Linker.Linker.Construct | src/linker/dlfcn.c:91-92 | for a library that was found: after its constructors and one more reference dlopen has done all that it promises |
| Linker.Linker.DlClose | src/linker/dlfcn.c:211-222 | crashes exactly when libdl loses its last reference; otherwise the libraries left are exactly those something still leads to, unchanged but for their counts, and destructors were called exactly once for each library that is gone and for no other |
| Linker.Linker.Serve | src/linker/dlfcn.c:72-222 | for every sequence of requests there is a run of states that answers them one by one as dlopen and dlclose promise; every state meets the invariant; the client's books are the open handles; the run is cut short exactly at a close of an open handle that ends the last reference to libdl |
| LinkerRuns.MomentSafe | src/linker/dlfcn.c:72-222 | what the invariant of each state of a run means: the counts are exact, the entries form no cycle, a library is listed exactly if something leads to it, and the whole history is safe |
| LinkerRuns.RunBooks | src/linker/dlfcn.c:72-222 | at every moment of every run the open handles are what requests and answers add up to |
| LinkerRuns.CrashWithoutLibdl | src/linker/linker.c:1291-1291 | a run crashes only at a request after which the client holds no handle of libdl: who keeps one open never crashes |
| LinkerRuns.LibdlAnswers | src/linker/linker.c:1240-1249 | in every state that meets the invariant, dlopen of libdl.so answers with libdl |
| LinkerRuns.HoldingLibdl | src/linker/linker.c:1291-1291 | a client that begins by opening libdl.so and never closes it does not crash, whatever else it asks for |
| Linker.CrashingClient | src/linker/dlfcn.c:211-222 | from the initial state, opening a library that links and needs only libdl, when the files offer no library of another name, and closing it again crashes |
| LinkerRuns.UserLosesLibdl | src/linker/linker.c:1291-1291 | after such an open, closing that handle takes the last reference from libdl |
| LibraryLoading.ResolvedMore | src/linker/linker.c:2209-2228 | one more entry chosen for its name keeps the entries of a library resolved, whatever was loaded meanwhile |
| LibraryLoading.AdvancesTransitive | src/linker/linker.c:1224-1263 | loading after loading: counts grow, names, flags and entries of libraries whose linking has ended stay, and everything new, usable or failed, has an image behind it that was asked for or needed by an earlier new library |
| LibraryLoading.AdvancesNew | src/linker/linker.c:1160-1222 | filling a slot and linking it adds one library for the path asked for and otherwise only what it needs |
| LibraryLoading.SearchedLibdl | src/linker/linker.c:1240-1249 | a search for libdl.so is answered with libdl and changes nothing |
| LibraryRemoval.ClosesExactly | src/linker/linker.c:1270-1322 | an unloading that kept the survivors and restored the invariant removed exactly the rest, and libdl did not lose its last reference |
| ElfHash.StepAgrees | src/linker/linker.c:436-441 | the linker's way of folding the top bits is the gABI's, and leaves the top four bits clear |
| ElfHash.Hash | src/linker/linker.c:431-443 | the gABI hash of the name, below 2^28 |
| ElfHash.KnownHash | src/linker/linker.c:431-443 | the hash value of "syscall" is 0x0b09985c |
| ElfHash.ElfLookup | src/linker/linker.c:397-428 | the walk ends with the first definition on the chain; it finds an entry of the name with binding 1 or 2 and a section, and it finds one if and only if the symbol table has one |
| ElfHash.WellFormedCovers | src/linker/linker.c:406-411 | in a table as the gABI describes it, the bucket of a name's hash leads to every definition of the name |
| ElfHash.DoLookup | src/linker/linker.c:447-520 | the first library of the scope that defines the name provides it: the library itself, the preloaded ones, those it needs, the main executable, in this order |
| ElfHash.LookupIn | src/linker/linker.c:471-493 | the first library of one part of the scope that defines the name |
| SymbolSearch.ResolveSymbol | src/linker/linker.c:1523-1585 | a hook of the host comes first, then the first library of the scope with its load address added, then the host's own symbol; otherwise the symbol is undefined; there is only one such answer |
| SymbolSearch.DefinedWhere | src/linker/linker.c:414-425 | the entry that provides a name is global or weak and has a section, and no earlier library of the scope has such an entry: an import provides nothing |
| ElfHash.OneBucketCovers | src/linker/dlfcn.c:247-267 | a single bucket whose chain runs through all symbols serves every hash value |
| ElfHash.LibdlTable | src/linker/dlfcn.c:266-267 | libdl's arrays are such a table |
| Segments.LibExtents | src/linker/linker.c:811-836 | the page range from the lowest to the highest byte of the loadable segments; an error exactly when there is none |
| Segments.LoadSegment | src/linker/linker.c:953-997 | every byte of memory afterwards: in the pages of the segment the file, from the page of its offset on, then zeros, the rest of the last file page only if it is writable; elsewhere what was there before; an empty mapping is refused |
| Segments.PagesHold | src/linker/linker.c:953-997 | for a proper segment that means: the bytes of the file are in place and zeros follow up to the memory size, except that an unwritable segment shows the file to the end of its last file page |
| Segments.LoadSegments | src/linker/linker.c:951-1049 | fails to map exactly if a mapping would be empty, trips the size check exactly if the pages exceed the reserved size; otherwise every segment of a proper file holds its bytes and nothing else has changed |
| Segments.FootprintFits | src/linker/linker.c:1043-1049 | segments that share no page never exceed the extent |
| Segments.SizeCheckPasses | src/linker/linker.c:1043-1049 | for proper segments that share no page no mapping is empty and the pages fit the extent |
| Segments.WritesOutside | src/linker/linker.c:829-835 | with a lowest segment beyond page 0 the last byte of the highest one lies outside the reserved region, and loading writes it |
| Segments.OnlyTheRegion | src/linker/linker.c:951-1049 | with a first segment in page 0 no byte outside the region is written |
| Segments.LoadImage | src/linker/linker.c:1148-1184 | extent, reservation and loading together: the size is that of the pages from the lowest to the highest segment; refused exactly if a segment maps nothing or the segments together exceed that size; a proper library is always loaded and holds its bytes; it changes nothing outside its region if the lowest segment begins in page 0, and otherwise overwrites bytes behind it |
| Relocations.RelocateOne | src/linker/linker.c:1517-1693 | which entries are processed, and the word each writes, given the answer of the symbol search |
| LibraryRelocation.Relocate | src/linker/linker.c:1508-1698 | each entry's symbol is taken from the library's own table and searched for; succeeds if and only if every entry can be processed; then, if no two places overlap, every place holds the word of the i386 psABI computed from the memory before the pass, with S the answer of the search, and all other memory is unchanged |
| LibraryRelocation.RelocateImage | src/linker/linker.c:2242-2251 | the two passes of link_image amount to one over both tables |
| LibraryRelocation.RelocatedSymbol | src/linker/linker.c:1523-1674 | the word at the place of an entry with a symbol, in terms of what the search for that symbol answers |
| Relocations.RelocatedWord | src/linker/linker.c:1625-1674 | read back as a word, each place holds S, S + A, S + A - P or B + A |
| Relocations.PsabiTable | src/linker/linker.c:1625-1674 | the formula of each relocation type, by the type's number in the i386 psABI |
| Relocations.AcceptsTable | src/linker/linker.c:1547-1693 | the entries that can be processed, by number: types 1, 2, 6, 7 and 8, a symbol that is defined or weak, and none in type 8 |
| Relocations.OrderIrrelevant | src/linker/linker.c:1517-1517 | tables with the same entries in any order give the same memory |
| LibraryPath.Strlcpy | src/linker/strlcpy.c:34-58 | copies what fits, terminates it, leaves the rest of the buffer alone and returns the length of the source |
| LibraryPath.Strsep | src/linker/linker.c:2320-2320 | ends the next token in place and steps behind its delimiter |
| LibraryPath.ParseLibraryPath | src/linker/linker.c:2312-2333 | the strings at the stored positions are exactly the components to be kept, for every path and every set of delimiters |
| LibraryPath.KeptPrefix | src/linker/linker.c:2320-2332 | at most eight, a prefix of the non-empty components, none cut short |
| LibraryPath.KeptIffRoom | src/linker/linker.c:2325-2332 | of a path that did not fit, the first eight of the whole components that fit the buffer are kept if and only if the buffer does not end right before a component's delimiter and either fewer than eight components are delimited in it or the eighth ends with its last character |
| LibraryPath.WholeComponents | src/linker/linker.c:2325-2332 | the whole components that fit are those delimited in the buffer, and one more if the next character is the delimiter of the last |
| LibraryPath.LongGivenUp | src/linker/linker.c:2325-2329 | a family of paths whose first component fills the buffer and is given up although it is whole |
| LibraryPath.EighthGivenUp | src/linker/linker.c:2325-2329 | a family of paths whose eighth whole component is given up |
| Sha1.MixIsF | src/lib/libc.c:512-516 | the selection and majority expressions are Ch and Maj of FIPS 180-4 |
| Sha1.RenamedRound | src/lib/libc.c:512-516 | a round on renamed registers is the round of section 6.1.2 |
| Sha1.BlkIsW | src/lib/libc.c:501-510 | the word taken from the circular buffer is the word W(t) of the 80-word schedule |
| Sha1.ScheduleStep | src/lib/libc.c:509-510 | storing it back keeps the last sixteen words of the schedule in the buffer |
| Sha1.Step | src/lib/libc.c:512-516 | one macro: one round of section 6.1.2 and one step of the schedule |
| Sha1.FiveRounds | src/lib/libc.c:542-543 | five macros bring the registers back to their names |
| Sha1.AllRounds | src/lib/libc.c:542-561 | the eighty macros are the eighty rounds |
| Sha1.Transform | src/lib/libc.c:518-571 | for every state and block, the compression of section 6.1.2 |
| Sha1Spec.RoundConstants | src/lib/libc.c:512-516 | the four round constants are the integer parts of 2^30 times the square roots of 2, 3, 5 and 10 |
| Sha1Example.AbcDigest | src/lib/libc.c:625-635 | the digest of "abc" is A9993E36 4706816A BA3E2571 7850C26C 9CD0D89D, as in the example of FIPS 180 |
| Sha1.Context.Init | src/lib/libc.c:573-581 | the initial hash value and the empty message |
| Sha1.CountCarries | src/lib/libc.c:588-590 | the two counter words with their manual carry add eight times the length modulo 2^64 |
| Sha1.Context.Update | src/lib/libc.c:583-602 | for every message so far and every piece: it overruns its buffer exactly if the bytes waiting and the new ones reach 2^32 together; otherwise the state is the fold over all complete blocks, the buffer holds the leftover bytes and the counters the bit length modulo 2^64 |
| Sha1.Context.HashData | src/lib/libc.c:595-596 | the loop absorbs all complete blocks of the piece |
| Sha1.GuardExact | src/lib/libc.c:592-592 | the test for a complete block is right if and only if position and length together stay below 2^32 |
| Sha1.Context.Final | src/lib/libc.c:604-623 | for every message, the digest of the message padded as in section 5.1.1; the context is cleared |
| Sha1.Context.PadZeros | src/lib/libc.c:612-617 | the padding loop ends with exactly the zeros of section 5.1.1 |
| Sha1.Context.CountBytes | src/lib/libc.c:610-611 | the eight length bytes, most significant first |
| Sha1.PaddingPosition | src/lib/libc.c:614-614 | the loop's test holds for the first time after exactly that many zeros |
| Sha1.Context.ReadDigest | src/lib/libc.c:619-620 | the state words, most significant byte first |
| Sha1Spec.WordBytesRead | src/lib/libc.c:619-620 | the four bytes of a word, most significant first, read back as the word |
| Sha1.SHA1 | src/lib/libc.c:625-635 | byte at a time, the digest of the first len bytes, then a terminator |
| Sha1.HashChunks | src/lib/libc.c:583-623 | every split of a message into pieces of at most 2^32 - 64 bytes gives the digest of the whole |
| LoadImmediate.DecodeEncode | dynarmic/externals/biscuit/src/assembler_util.hpp:117-185 | every instruction that LI and CALL emit decodes to itself with its immediate reduced to the field |
| LoadImmediate.UpperPartExact | dynarmic/externals/biscuit/src/assembler.cpp:359-363 | the upper part, shifted back and added to the low part, is the constant modulo 2^64 |
| LoadImmediate.UpperPartShrinks | dynarmic/externals/biscuit/src/assembler.cpp:359-364 | the recursion is on a constant smaller in magnitude, below 2^51, then 2^39, then 2^27, so that it nests at most three deep |
| LoadImmediate.LiLength | dynarmic/externals/biscuit/src/assembler.cpp:307-370 | one to eight instructions |
| LoadImmediate.LiLoads | dynarmic/externals/biscuit/src/assembler.cpp:307-370 | executing the instructions writes the constant to rd and nothing else |
| LoadImmediate.EncodedRuns | dynarmic/externals/biscuit/src/assembler.cpp:307-370 | decoding and executing the emitted words is executing the instructions |
| LoadImmediate.LiCorrect | dynarmic/externals/biscuit/src/assembler.cpp:307-370 | for every constant, register and hart: after the emitted words rd holds the constant, its low 32 bits on RV32, if and only if rd is not x0 or the constant is 0; the other registers are unchanged |
| LoadImmediate.CallTarget | dynarmic/externals/biscuit/src/assembler.cpp:202-215 | decoding and executing the two emitted words reaches pc + offset if and only if the hart is RV32 or the offset is below 0x7FFFF800; the return address is right always |
| Assembler.Assembler.LI | dynarmic/externals/biscuit/src/assembler.cpp:307-370 | the recursion appends exactly those words to the buffer |
| Assembler.Assembler.CALL | dynarmic/externals/biscuit/src/assembler.cpp:202-215 | appends exactly the two words |
| Assembler.ProgramEmitted | dynarmic/externals/biscuit/include/biscuit/code_buffer.hpp:162-180 | words emitted at the end of the buffer are fetched from there |
| Assembler.EmittedLi | dynarmic/externals/biscuit/src/assembler.cpp:307-370 | the bytes that LI leaves in the buffer, fetched, decoded and executed, load the constant, under the condition of LiCorrect |
| Assembler.EmittedCall | dynarmic/externals/biscuit/src/assembler.cpp:202-215 | the bytes that CALL leaves in the buffer call the target, under the condition of CallTarget |
| BranchEncoding.OffsetEncoded | dynarmic/externals/biscuit/src/assembler_util.hpp:61-103 | or-ing a transformed in-range offset into a blank B, J, CB or CJ word keeps its operands, and the hardware reads that offset if and only if it is even (a multiple of 16 for CJ) |
| BranchEncoding.CJReads | dynarmic/externals/biscuit/src/assembler_util.hpp:92-103 | for CJ the field for bits 3:1 overlaps those of bits 6 and 7; the offset is read back exactly if its low four bits are clear |
| BranchEncoding.MnemonicsBlank | dynarmic/externals/biscuit/src/assembler_util.hpp:107-132 | the emitters with offset 0 give blank words |
| BranchEncoding.BranchDecodes | dynarmic/externals/biscuit/src/assembler_util.hpp:107-113 | such a word decodes to the conditional branch asked for |
| BranchEncoding.JalDecodes | dynarmic/externals/biscuit/src/assembler_util.hpp:127-132 | such a word decodes to the JAL asked for |
| BranchEncoding.CompressedBranchDecodes | dynarmic/externals/biscuit/src/assembler_compressed.cpp:15-22 | such a halfword decodes to the C.BEQZ or C.BNEZ asked for |
| BranchEncoding.CompressedJumpDecodes | dynarmic/externals/biscuit/src/assembler_compressed.cpp:26-32 | such a halfword decodes to the C.J or C.JAL asked for |
| Assembler.BranchReachesLabel | dynarmic/externals/biscuit/src/assembler.cpp:52-130 | in every consistent state a conditional branch to a bound label decodes to that branch with the distance to the label if and only if the distance is even |
| Assembler.JalReachesLabel | dynarmic/externals/biscuit/src/assembler.cpp:247-262 | the same for JAL |
| Assembler.CompressedBranchReachesLabel | dynarmic/externals/biscuit/src/assembler_compressed.cpp:246-262 | the same for C.BEQZ and C.BNEZ |
| Assembler.CompressedJumpReachesLabel | dynarmic/externals/biscuit/src/assembler_compressed.cpp:335-352 | the same for C.J and C.JAL, if and only if the distance is a multiple of 16 |
| Assembler.Assembler.Emit | dynarmic/externals/biscuit/include/biscuit/code_buffer.hpp:162-180 | appends the bytes and keeps every branch emitted so far |
| Assembler.Assembler.NewLabel | dynarmic/externals/biscuit/include/biscuit/label.hpp:50-50 | an unbound label without references |
| Assembler.Assembler.Branch | dynarmic/externals/biscuit/src/assembler.cpp:1311-1328 | a branch to a label, bound or not, keeps the invariant that every branch ever emitted is blank while its label is unbound and encodes the distance once it is bound |
| Assembler.Recognised | dynarmic/externals/biscuit/src/assembler.cpp:1331-1359 | a pending branch is recognised by its bits, with its size and the right transformation |
| Assembler.PatchStep | dynarmic/externals/biscuit/src/assembler.cpp:1363-1398 | patching one branch settles it and leaves all others as they were |
| Assembler.Assembler.Patch | dynarmic/externals/biscuit/src/assembler.cpp:1364-1397 | reads, patches and writes back one instruction, and no other byte |
| Assembler.Assembler.ResolveLabelOffsets | dynarmic/externals/biscuit/src/assembler.cpp:1330-1399 | in any order of the pending offsets, all branches to the label are settled and no byte outside them changes |
| Assembler.Assembler.BindToOffset | dynarmic/externals/biscuit/src/assembler.cpp:1302-1309 | after binding, every branch to every label is as it should be, for any interleaving of labels and branches; bytes outside the branches to this label are untouched |
| ClassNames.CstrReplace | src/jvm/jvm.c:334-341 | rewrites separators in place up to one that follows no other character |
| ClassNames.ReplacedIffSeparated | src/jvm/jvm.c:334-341 | every separator is rewritten if and only if none stands first or right after another |
| Jvm.Jvm.constructor | src/jvm/jvm.c:1866-1874 | the table holds the class of classes alone, and is sound |
| Jvm.Jvm.Find | src/jvm/jvm.c:164-188 | the handle of the first equal entry, or NULL if there is none |
| Jvm.Jvm.Add | src/jvm/jvm.c:220-234 | the object comes last, followed by its default class if that is new; aborts exactly if the slots run out |
| Jvm.Jvm.AssignDefaultClass | src/jvm/jvm.c:193-218 | the recursive call gives a method or a string its class without moving it |
| Jvm.Jvm.AddIfNotThere | src/jvm/jvm.c:236-248 | interning: an equal entry is reused, otherwise one is added |
| Jvm.Jvm.MakeClass | src/jvm/jvm.c:343-351 | interns the class of the rewritten name; aborts on an empty name |
| Jvm.Jvm.FindClass | src/jvm/jvm.c:353-359 | keeps the table sound, and answers with the handle the specification gives |
| Jvm.Jvm.GetMethodId | src/jvm/jvm.c:963-986 | the same for methods, by class, name and signature; NULL for a NULL class |
| Jvm.Jvm.NewStringUTF | src/jvm/jvm.c:1043-1051 | the same for strings |
| Jvm.Jvm.AllocObject | src/jvm/jvm.c:510-524 | the same for plain objects, with java/lang/Object for a NULL class |
| Jvm.Jvm.GetObjectClass | src/jvm/jvm.c:572-587 | the class of the entry, or java/lang/Object for NULL |
| Jvm.Jvm.GetStringUTFChars | src/jvm/jvm.c:1526-1536 | the characters of a string that has any, NULL otherwise |
| Jvm.Jvm.Serve | src/jvm/jvm.c:220-248 | for every run of requests each is answered as specified from the table that the earlier ones left, and the run is cut short exactly at a class without a name or when the slots run out |
| JniRuns.RunSound | src/jvm/jvm.c:220-248 | every table of a run is sound and begins with every earlier one: handles keep their meaning |
| JniRuns.RunRepeats | src/jvm/jvm.c:236-248 | a request once answered with a handle is answered with the same handle ever after |
| JniRuns.RunTyped | src/jvm/jvm.c:510-524 | in every run all plain objects have classes as classes if and only if every AllocObject was given NULL or a class |
| JniRuns.RunTwoHops | src/jvm/jvm.c:572-587 | then two hops of GetObjectClass from any handle at any time reach handle 1 |
| ObjectTable.AddedSound | src/jvm/jvm.c:220-234 | adding an object keeps all entries distinct and gives every entry a class |
| ObjectTable.TwoHops | src/jvm/jvm.c:343-351 | from any handle of a sound table two hops reach handle 1, as long as plain objects were given classes |
| ObjectTable.IndexStable | src/jvm/jvm.c:164-188 | a handle that was found is found ever after |
| JniRequests.AfterSound | src/jvm/jvm.c:220-248 | every request keeps the table sound and all earlier entries in place |
| JniRequests.AfterTyped | src/jvm/jvm.c:510-524 | plain objects have classes as classes exactly as long as callers pass them |
| JniRequests.AfterSettles | src/jvm/jvm.c:236-248 | asking again at once changes nothing and gives the same handle |
| JniRequests.AgainLater | src/jvm/jvm.c:236-248 | so does asking again at any later time |
| JniRequests.StringsInterned | src/jvm/jvm.c:157-162 | two texts have the same handle if and only if they are equal |
| JniRequests.ClassesInterned | src/jvm/jvm.c:150-155 | two names denote the same class if and only if they are rewritten to the same name |
| JniRequests.MethodsInterned | src/jvm/jvm.c:141-148 | two method IDs are equal if and only if class, name and signature are: overloads have different ones |
| JniRequests.ObjectsInterned | src/jvm/jvm.c:125-130 | two plain objects are equal if and only if their classes are, where NULL stands for java/lang/Object |
| JniRequests.KindsApart | src/jvm/jvm.c:177-184 | strings, methods, plain objects and classes never share a handle |
| JniRequests.ClassesTold | src/jvm/jvm.c:192-206 | GetObjectClass of a method, a string or a class answers as FindClass of its Java class does, and of a plain object with the class it was allocated with |
| JniRequests.StringRoundTrip | src/jvm/jvm.c:1526-1536 | the characters given to NewStringUTF come back, now and later, if and only if there are any |
| FieldStore.FieldStore.Get | src/jvm/jvm.c:886-899 | looks the key up in the map |
| FieldStore.FieldStore.Set | src/jvm/jvm.c:901-918 | updates the map, except that a new key is dropped when there are 1024 already and a key with a NULL part is ignored |
| FieldStore.ListsSize | src/jvm/jvm.c:883-884 | the count of entries is the number of keys |
| StringBuilders.StringBuilders.GetOrAlloc | src/jvm/jvm.c:636-649 | the builder's own buffer, or a fresh one unless 16 builders are alive |
| StringBuilders.StringBuilders.AppendCstr | src/jvm/jvm.c:651-660 | appends what fits into 4095 characters to one builder and to no other |
| StringBuilders.StringBuilders.Init | src/jvm/jvm.c:662-666 | creates the builder if there is room |
| StringBuilders.StringBuilders.Append | src/jvm/jvm.c:668-683 | the text of the builder grows by what fits of the argument's text: the characters of a string handle, (null) for one without any, or the decimal number; all other builders are unchanged |
| StringBuilders.DecimalValue | src/jvm/jvm.c:677-679 | the printed number is the one notation of that number: a minus sign exactly if it is negative, then digits without leading zeros that stand for its magnitude |
| StringBuilders.RenderedString | src/jvm/jvm.c:672-675 | a string that the JVM holds is appended as it is |
| StringBuilders.RenderedNumber | src/jvm/jvm.c:676-680 | every signed 64-bit number that cannot be taken for a handle is appended in its notation, negative ones with their sign |
| StringBuilders.RenderedNull | src/jvm/jvm.c:672-675 | a number in the range of handles that denotes no string with characters is appended as "(null)" |
| StringBuilders.StringBuilders.ToString | src/jvm/jvm.c:685-696 | the text of the builder, which is forgotten; all other builders are unchanged |
| StringBuilders.StringBuilders.Serve | src/jvm/jvm.c:662-696 | for every run of calls on any builders, interleaved in any way, each toString of a builder that is not NULL gives the first 4095 characters of the concatenation of what the builder took since it was last shown; a builder takes what is appended unless all 16 buffers belong to others |
| StringBuilders.HistoryIsOwn | src/jvm/jvm.c:636-649 | if a builder finds a buffer at each of its own calls, what it took is determined by its own calls alone |
| StringBuilders.FewBuilders | src/jvm/jvm.c:636-649 | it finds one at each call of every run with at most 16 builders |
| StringBuilders.ListsSize | src/jvm/jvm.c:639-648 | a buffer is free if and only if fewer than 16 builders are alive |
| Docopt.Transform | dynarmic/externals/fmt/support/docopt.py:72-96 | ends on every pattern tree; its lists of leaves, as a multiset of multisets, are the recursive disjunctive expansion of the pattern |
| Docopt.AppendChoices | dynarmic/externals/fmt/support/docopt.py:87-89 | one group for each child of a choice |
| Docopt.StepKeepsCases | dynarmic/externals/fmt/support/docopt.py:83-93 | the groups that replace a group have together exactly its cases |
| Docopt.TipsLast | dynarmic/externals/fmt/support/docopt.py:84-85 | expanding a branch ahead of the leaves before it does not change the cases |
| Docopt.SuccessorsLighter | dynarmic/externals/fmt/support/docopt.py:86-93 | every replacement is lighter, with what stands under a repetition counted twice |
| Docopt.VisitsOfStep | dynarmic/externals/fmt/support/docopt.py:80-95 | each pass uses up exactly one of the visits that a worklist still needs |
| Docopt.ListsAreCases | dynarmic/externals/fmt/support/docopt.py:96-96 | the result, read as a pattern, has its own lists as cases |
| Docopt.OccursIsMost | dynarmic/externals/fmt/support/docopt.py:58-62 | the greatest count of a leaf in any case can be read off the tree |
| Docopt.RepeatedLeaves | dynarmic/externals/fmt/support/docopt.py:58-69 | a leaf is repeated in some list of the result if and only if it occurs more than once by that count |

## Left out

- Linker.Linker.DlOpen: the fallback to the host's dlopen and NULL paths are not modelled, because the handles it returns do not belong to the linker.
- Linker.Linker.DlClose: only open handles are closed, because the code reads any pointer it is given as a library.
- Linker.Linker.LinkImage: how relocation and RELRO protection end is an oracle; preloaded libraries and the main executable are not on the load list.
- Linker.Linker.CallConstructors: constructors that call dlopen themselves are not modelled, nor which functions of an array are called (call_array skips the values 0 and -1, and goes backwards for destructors).
- Linker.Linker.Unload: the numbers it returns and the host's unmapping are not modelled.
- SymbolSearch.ResolveSymbol: names of 1017 characters and more, which do not fit the buffer for the hook's name, are treated like any other; wrappers around functions are the identity.
- Segments.LoadSegments: the kernel maps what it is asked to unless the length is 0; addresses do not wrap around; PT_DYNAMIC, RELRO and EXIDX headers, which only set fields, are not modelled.
- LibraryRelocation.Relocate: symbol indices must be in the library's table, which the code does not check; 64-bit, ARM and COPY relocations are not modelled.
- LibraryPath.ParseLibraryPath: the list of preloaded libraries, which a copy of the same code splits, is not modelled.
- Assembler.Assembler.Branch: labels are entries of a table in the assembler, so that their identity and lifetime are not modelled, nor is the rewinding of the cursor; an offset out of range, which the emitter asserts, is excluded.
- Assembler.Assembler.LI: the buffer must have room, as the code buffer asserts.
- LoadImmediate.DecodeEncode: covers the instructions that LI and CALL emit; the other encoders of the assembler are not modelled.
- Jvm.Jvm.Serve: arrays are left out, since they change after they have been interned; so are the table of native methods and method calls.
- Jvm.Jvm.AllocObject: handles are NULL or were given out before, because the code reads any smaller number as an unused slot.
- StringBuilders.StringBuilders.ToString: with a NULL builder it returns what is left in an unused buffer, of which nothing is said; the new Java string is not part of it.
- Docopt.Transform: pattern trees are values, so that leaves made identical by fix_identities are equal values; parsing and matching are not modelled.
- The gdb debug map, the game driver, the JNI stubs, threads and the foreign-call layer are not modelled.
