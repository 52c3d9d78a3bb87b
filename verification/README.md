# Linker, debug information and helpers of the vendored TCC

A model of the parts of this repository that build and search data structures in place, with proofs of what
they promise. The configuration is the x86-64 ELF one of the vendored compiler, plus two small pieces of the
programs around it.

* **Symbol table** (`Bytes`, `SymbolIndex`, `SymbolMerge`, `SymbolBuffers`, `Relocations`, `Grouping`,
  `SymbolTable`). Records, strings and a chained hash section, updated at cursors that can be rewound. The
  abstract table is a sequence of named entries. The in-place compaction at the end of a file is shown to equal a
  fold over an untouched copy, and both reorderings keep every relocation meaning the same symbol.
* **GNU hash** (`GnuHash`, `GnuHashBuild`, `HashFormats`). What the section must contain for the loader's lookup to
  be right, the loops that make it so, and both hash functions in closed form.
* **Archive search** (`Archive`, `ArchiveIndex`, `ArchiveEnds`, `ArchiveLoader`). The loop that loads members until
  nothing more is wanted, what its index has to say for that to be good, and exactly when it ends.
* **Layout** (`Layout`, `LayoutOrder`, `LayoutProof`, `LayoutWriter`). Class numbers, a stable insertion sort, segments, and
  the addresses and file offsets of sections.
* **Procedure linkage table** (`Plt`, `Section`). Slots written early and patched late, read as instructions.
* **Line numbers and LEB128** (`Leb128`, `LineProgram`, `LineWriter`, `DwarfFormat`). The bytes emitted, run by the state
  machine of section 6.2.5 of DWARF 5, follow the writer's own registers.
* **String pool** (`StringPool`). Tail sharing among debug strings.
* **Inline assembly** (`AsmOperands`, `AsmAllocation`, `AsmMeaning`, `AsmConstraints`). Priorities, ties, two-sided
  register ownership, and what constraints mean to the programmer.
* **Assembler expressions** (`Bits`, `AsmExpr`, `AsmValue`, `AsmArithmetic`, `AsmParser`). A recursive-descent evaluator shown to be the
  evaluation of the one tree that the tokens spell, and independent of where sections are placed.
* **Debug allocator** (`DebugAlloc`), **natural ordering** (`NaturalOrder`, `NaturalMeaning`) and **control listener**
  (`CtlListener`), the last as an interleaving of critical sections.

Code that works step by step is a method, or a class whose methods update its fields. Each such method is tied to
a function of the old state, and the properties are proved of that function. `Wrappers` holds the option and result types.

Where a natural property does not hold of the code, there is a concrete input that shows it and the exact
condition under which it does hold:

* `SymbolMerge.MergeTakesHigherRank`: better definitions can be turned away (`SymbolMerge.HiddenIsTurnedAway`).
* `AsmAllocation.TieIsKept`: a tie to an operand that is tied in turn is lost (`AsmAllocation.ChainedTieIsLost`).
* `AsmValue.DifferenceIsFaithful` and `AsmValue.SumIsFaithful`: common symbols, distant offsets, and right operands
  relative to the current section (`AsmValue.CommonDifferenceFails`, `AsmValue.OriginIsLost`).
* `CtlListener.AnswerIsForItsRequest`: late replies (`CtlListener.LateReplyAnswersTheNextRequest`).
* `DebugAlloc.DebugAllocator.LedgerIsExact`: totals of 32 bits (`DebugAlloc.HugeBlock`).
* `LineWriter.ReportIsARow`: reports within a line (`LineWriter.LongJumpHasNoRow`).
* `Plt.CellIsExact`: addresses beyond a C int, such as 2^31 and up.
* `LayoutProof.AlignedIffKept`: segments of other formats than ELF (`LayoutProof.SegmentAlignmentWins`).
* `ArchiveEnds.SearchEndsIffServed`: an index that lists a name and leads to no definition of it
  (`ArchiveEnds.EmptyMemberLoadsForEver`).

## Model

| member | source | states |
|---|---|---|
| `SymbolTable.ElfHash` | x86_64-pc-windows-tcc/tccelf.c:390-403 | the byte-by-byte loop computes the hash fold of the name, which stays below 2^28 |
| `SymbolIndex.FoldKeepsTopNibble` | x86_64-pc-windows-tcc/tccelf.c:396-400 | folding the top nibble back into a byte leaves bits 28 and up as they were, which is why clearing them with the saved nibble is enough |
| `SymbolIndex.FindBelowIsLargest` | x86_64-pc-windows-tcc/tccelf.c:489-511 | the answer of a lookup is the largest index of a non-local symbol with the name, and 0 only when there is none |
| `SymbolIndex.FindBelowUnique` | x86_64-pc-windows-tcc/tccelf.c:489-511 | only one index can be that answer |
| `SymbolIndex.ChainsDescend` | x86_64-pc-windows-tcc/tccelf.c:489-511 | every chain link points to a smaller index in the same bucket, so a walk ends |
| `SymbolIndex.IndexesAppend` | x86_64-pc-windows-tcc/tccelf.c:463-485 | one new chain word and one new bucket head are all it takes to index one more symbol |
| `SymbolTable.FillHash` | x86_64-pc-windows-tcc/tccelf.c:406-439 | refilling from any stale contents, with any number of buckets, indexes the whole table |
| `SymbolTable.WalkBucket` | x86_64-pc-windows-tcc/tccelf.c:489-511 | following one bucket of an index finds exactly the answer of a scan of the whole table |
| `SymbolTable.SymbolTable.constructor` | x86_64-pc-windows-tcc/tccelf.c:271-280 | a new table holds the null symbol and an index of it |
| `SymbolTable.SymbolTable.PutElfStr` | x86_64-pc-windows-tcc/tccelf.c:377-387 | a name and its terminator go to the cursor of the string section, over whatever lies there |
| `SymbolTable.SymbolTable.RebuildHash` | x86_64-pc-windows-tcc/tccelf.c:406-439 | the hash section indexes the table again, with the number of buckets asked for |
| `SymbolTable.SymbolTable.PutElfSym` | x86_64-pc-windows-tcc/tccelf.c:442-486 | appends one symbol; the index stays right, its buckets double exactly when there are more than two non-local symbols a bucket, and what was there stays |
| `SymbolTable.SymbolTable.FindElfSym` | x86_64-pc-windows-tcc/tccelf.c:489-511 | returns what a scan for the largest non-local index of the name returns |
| `SymbolTable.MeetExisting` | x86_64-pc-windows-tcc/tccelf.c:715-773 | the in-place branches on an existing record compute the merge of the two symbols and report a clash exactly when it clashes |
| `SymbolTable.MeetDefined` | x86_64-pc-windows-tcc/tccelf.c:736-765 | which of two definitions survives, branch by branch |
| `SymbolTable.SymbolTable.SetElfSym` | x86_64-pc-windows-tcc/tccelf.c:698-781 | adds a symbol as the abstract table does: appended if local, new, or of a file being compiled, merged into the existing one otherwise |
| `SymbolTable.SymbolTable.BeginFile` | x86_64-pc-windows-tcc/tccelf.c:167-180 | remembers both cursors and sets the index aside |
| `SymbolTable.UnreadStep` | x86_64-pc-windows-tcc/tccelf.c:198-218 | re-adding one record never overwrites a record or a name of the file that has not been read yet |
| `SymbolTable.SymbolTable.ReaddOne` | x86_64-pc-windows-tcc/tccelf.c:198-218 | re-adding over its own storage equals adding to an untouched copy |
| `SymbolTable.SymbolTable.EndFile` | x86_64-pc-windows-tcc/tccelf.c:186-227 | rewinding and re-inserting equals folding set_elf_sym over a copy of the symbols; no local reference is left, and relocations to a global symbol or to a reference name what a lookup of that name finds, those to a local definition that very record; older relocations are unchanged |
| `SymbolTable.FileNames` | x86_64-pc-windows-tcc/tccelf.c:186-227 | the new number of each symbol of the file is that of a symbol of the same name |
| `SymbolTable.ReaddedIs` | x86_64-pc-windows-tcc/tccelf.c:198-213 | a definition is added again as it is; a reference becomes global if it was local, and in an object file a global one loses its type unless that is the thread-local one |
| `SymbolTable.FileFollows` | x86_64-pc-windows-tcc/tccelf.c:198-219 | after the renumbering each relocation of the file names the symbol that stands for its name at the end, or the local definition it named before |
| `SymbolTable.NoLocalReferences` | x86_64-pc-windows-tcc/tccelf.c:198-214 | whatever the file held, no symbol from its start on is both local and undefined |
| `Relocations.UpdateRelocs` | x86_64-pc-windows-tcc/tccelf.c:841-860 | renumbers every relocation into the table from the first symbol of the file on, and changes nothing else |
| `Relocations.RelocationsDenoteTheSame` | x86_64-pc-windows-tcc/tccelf.c:841-860 | if each renumbered symbol carries what its old one did, so does every relocation |
| `SymbolTable.SortRecords` | x86_64-pc-windows-tcc/tccelf.c:866-898 | two passes put the local records first, in their old order, and record where each went |
| `Grouping.GroupedIsStableOrder` | x86_64-pc-windows-tcc/tccelf.c:866-907 | grouping by key is a permutation sorted by key that keeps the old order within a key |
| `Grouping.OrderIsBijection` | x86_64-pc-windows-tcc/tccelf.c:866-907 | the map from old to new indices is a bijection that finds every record at its new place |
| `SymbolTable.SymbolTable.SortSyms` | x86_64-pc-windows-tcc/tccelf.c:866-907 | the table becomes the stable partition in which the local symbols, and only they, come before the count returned; every relocation denotes the same record as before |
| `SymbolTable.LocalsFirst` | x86_64-pc-windows-tcc/tccelf.c:866-898 | a symbol is local exactly if its new index is below the number of local ones |
| `SymbolMerge.MergeTakesHigherRank` | x86_64-pc-windows-tcc/tccelf.c:698-781 | undefined < weak < tentative < defined: a merge without clash keeps the higher rank, exactly when it is not one of the cases that turn a better hidden or dynamic definition away |
| `SymbolMerge.HiddenIsTurnedAway` | x86_64-pc-windows-tcc/tccelf.c:743-752 | a concrete hidden definition that loses to a tentative one |
| `SymbolMerge.MergeIsWhole` | x86_64-pc-windows-tcc/tccelf.c:710-773 | information, section, value and size of the result are all from the old symbol or all from the new one: the new one if the old was a reference, the old one if the new is or they clash |
| `SymbolMerge.MergeTakesRecord` | x86_64-pc-windows-tcc/tccelf.c:710-773 | without a clash the new record is taken exactly if it ranks higher and is not turned away, replaces a reference, or replaces one made by .set |
| `SymbolMerge.ClashesIff` | x86_64-pc-windows-tcc/tccelf.c:719-766 | exactly which pairs clash: visible definitions proper that differ, in a table that is not dynamic, when the old one was not made by .set |
| `SymbolMerge.CommonGivesWay` | x86_64-pc-windows-tcc/tccelf.c:747-754 | common symbols and those in bss give way to a definition in any other section, in either order |
| `SymbolMerge.WeakGivesWay` | x86_64-pc-windows-tcc/tccelf.c:736-742 | weak definitions give way to global ones in either order, and to earlier weak ones |
| `SymbolMerge.VisibilityJoins` | x86_64-pc-windows-tcc/tccelf.c:721-732 | the visibility is the one that is not default, or else the smaller number; the other bits of st_other stay |
| `SymbolMerge.MergeKeepsDefinition` | x86_64-pc-windows-tcc/tccelf.c:719-732 | a defined symbol stays defined and ends with exactly the tighter visibility |
| `SymbolMerge.DefinedForEver` | x86_64-pc-windows-tcc/tccelf.c:698-781 | over any run of additions a defined name stays defined at the same index, and its visibility only tightens |
| `SymbolMerge.IndexNamesForEver` | x86_64-pc-windows-tcc/tccelf.c:698-781 | the index an addition returns names that symbol for the rest of the run |
| `SymbolMerge.IndexIsFound` | x86_64-pc-windows-tcc/tccelf.c:698-781 | the index returned for a global or weak symbol is what a lookup of its name finds for the rest of the run |
| `SymbolMerge.LocalStays` | x86_64-pc-windows-tcc/tccelf.c:774-779 | a local symbol keeps its record for the rest of the run |
| `SymbolMerge.SurvivorHasHighestRank` | x86_64-pc-windows-tcc/tccelf.c:698-781 | over any run without a clash the survivor has the highest rank added under its name |
| `SymbolMerge.MaxRankIsMaximum` | x86_64-pc-windows-tcc/tccelf.c:698-781 | that rank is an upper bound that is attained |
| `SymbolMerge.SurvivorIsFirstBest` | x86_64-pc-windows-tcc/tccelf.c:698-781 | over any run without a clash the survivor has exactly the information, section, value and size of the first of the best symbols added under its name |
| `SymbolMerge.OrderDoesNotMatter` | x86_64-pc-windows-tcc/tccelf.c:698-781 | two runs of the same additions in different orders end with survivors of the same rank |
| `GnuHashBuild.CreateGnuHash` | x86_64-pc-windows-tcc/tccelf.c:913-948 | sizes: a quarter of the defined symbols as buckets, the smallest sufficient power of two of bloom words |
| `GnuHashBuild.ElfGnuHash` | x86_64-pc-windows-tcc/tccelf.c:950-958 | the loop computes h * 33 + c from 5381 in 32 bits |
| `GnuHashBuild.FindBuckets` | x86_64-pc-windows-tcc/tccelf.c:1008-1023 | threads the defined symbols of each bucket in index order |
| `GnuHashBuild.SetBloom` | x86_64-pc-windows-tcc/tccelf.c:1036-1038 | adds the two bits of a hash to one word and changes nothing else |
| `GnuHashBuild.FillBuckets` | x86_64-pc-windows-tcc/tccelf.c:1025-1045 | places the symbols bucket by bucket, with heads, chain words and stop bits |
| `GnuHashBuild.MoveVersions` | x86_64-pc-windows-tcc/tccelf.c:1055-1067 | version numbers follow their symbols through the permutation |
| `GnuHashBuild.UndefinedFirst` | x86_64-pc-windows-tcc/tccelf.c:984-991 | the undefined symbols, and only they, come before the described ones |
| `GnuHashBuild.UpdateGnuHash` | x86_64-pc-windows-tcc/tccelf.c:960-1074 | the table becomes the stable grouping by bucket with undefined symbols first; the part of the section that is used describes it, with no bloom bits but those of its symbols; a section of the wrong size is reported, relocations denote the same symbols, and the ordinary hash is right again |
| `GnuHash.WalkAnswers` | x86_64-pc-windows-tcc/tccelf.c:1032-1043 | a chain walk up to the stop bit answers rightly for the symbols from its start on |
| `GnuHash.LookupAnswers` | x86_64-pc-windows-tcc/tccelf.c:960-1074 | bloom test, bucket and chain answer rightly for every name, present or absent |
| `GnuHashBuild.LoaderFindsEverySymbol` | x86_64-pc-windows-tcc/tccelf.c:960-1074 | the lookup succeeds exactly for the names of defined symbols, and never returns an undefined one |
| `HashFormats.GnuHashIs` | x86_64-pc-windows-tcc/tccelf.c:950-958 | the hash is 5381 * 33^n plus the name read in base 33, modulo 2^32 |
| `HashFormats.DescribedFormat` | x86_64-pc-windows-tcc/tccelf.c:913-1045 | what the section holds for each defined symbol, by the numbers of the format: hash, bloom bits, start of the bucket, chain word and stop bit |
| `HashFormats.ElfHashIs` | x86_64-pc-windows-tcc/tccelf.c:390-403 | while it stays below 2^28 the ELF hash is the name read in base 16 |
| `HashFormats.ElfBucketIs` | x86_64-pc-windows-tcc/tccelf.c:390-403 | the bucket of a name whose base-16 number is below 2^28 is that number modulo the bucket count |
| `HashFormats.HashStepBit` | x86_64-pc-windows-tcc/tccelf.c:394-401 | one step of the ELF hash, bit by bit |
| `ArchiveLoader.LoadObjectFile` | x86_64-pc-windows-tcc/tccelf.c:3473-3581 | loading a member folds set_elf_sym over its symbols, each value moved by the offset of its section; an invalid relocation is reported afterwards, and the load fails once any error has been |
| `Archive.LoadedRecord` | x86_64-pc-windows-tcc/tccelf.c:3496-3507 | loading a member into a table without the name leaves the information, section and size of its first best symbol, and its value plus the offset of its section |
| `Archive.LoadPaysIff` | x86_64-pc-windows-tcc/tccelf.c:3643-3661 | a load defines a name that was undefined exactly when the member does |
| `Archive.MissingShrinks` | x86_64-pc-windows-tcc/tccelf.c:3639-3663 | the measure: undefined index names never grow, and shrink when one becomes defined |
| `ArchiveLoader.TryEntry` | x86_64-pc-windows-tcc/tccelf.c:3643-3661 | an entry whose name is undefined loads its member, any other is passed over, and an unreadable header is an error |
| `ArchiveLoader.Pass` | x86_64-pc-windows-tcc/tccelf.c:3640-3662 | one pass runs the entries in order and counts the members it loads |
| `Archive.QuietPassSettles` | x86_64-pc-windows-tcc/tccelf.c:3640-3663 | a pass that loads nothing leaves no undefined symbol that the index lists |
| `Archive.FailureIsReported` | x86_64-pc-windows-tcc/tccelf.c:3653-3667 | a pass fails only with an error reported |
| `ArchiveIndex.TruthfulIffEveryLoadPays` | x86_64-pc-windows-tcc/tccelf.c:3643-3661 | every usable member the index points at defines the name exactly if every load, from every table, defines the name that caused it |
| `ArchiveIndex.OnlyWantedAreLoaded` | x86_64-pc-windows-tcc/tccelf.c:3638-3663 | after any number of passes the table is the result of the members loaded, in order, and each was wanted by an undefined symbol when it was loaded |
| `ArchiveIndex.LoadedOnce` | x86_64-pc-windows-tcc/tccelf.c:3638-3663 | with a truthful index no member is ever loaded twice |
| `ArchiveEnds.ServedSearchStops` | x86_64-pc-windows-tcc/tccelf.c:3638-3663 | if each name of the index has an entry that leads to its definition, the search ends after at most one pass more than there are entries |
| `ArchiveEnds.SearchEndsIffServed` | x86_64-pc-windows-tcc/tccelf.c:3638-3663 | the search ends from every table, wherever members are placed, exactly if each name of the index has an entry that leads to a definition of it, or to a member whose failure ends the search |
| `ArchiveEnds.NoEnd` | x86_64-pc-windows-tcc/tccelf.c:3638-3663 | for any other index, a table from which every pass goes well and loads something, for ever |
| `ArchiveEnds.EmptyMemberLoadsForEver` | x86_64-pc-windows-tcc/tccelf.c:3638-3663 | one reference and one empty member that the index credits with it: pass k has loaded that member k times, without an error |
| `ArchiveLoader.LoadAlacarte` | x86_64-pc-windows-tcc/tccelf.c:3622-3668 | where the search ends, the table is that of its passes; success leaves nothing undefined that the index lists, and failure has reported an error |
| `Sections.Section.Realloc` | x86_64-pc-windows-tcc/tccelf.c:301-315 | the new size is the first doubling that fits; the old contents stay and the rest is zero |
| `Sections.Section.Add` | x86_64-pc-windows-tcc/tccelf.c:319-331 | reserves at the next aligned offset, leaves what was there, keeps the larger alignment, and gives zero-initialised sections no contents |
| `Sections.Section.Append` | x86_64-pc-windows-tcc/tccelf.c:335-339 | reserved bytes are written at the cursor |
| `Leb128.UlebRoundTrip` | x86_64-pc-windows-tcc/tccdbg.c:757-765 | reading an unsigned value back takes exactly its bytes and gives it back, whatever surrounds them |
| `Leb128.SlebRoundTrip` | x86_64-pc-windows-tcc/tccdbg.c:767-780 | the same for every signed 64-bit value |
| `Leb128.UlebAtMostTen` | x86_64-pc-windows-tcc/tccdbg.c:757-765 | an encoding has one to ten bytes |
| `Leb128.SlebAtMostTen` | x86_64-pc-windows-tcc/tccdbg.c:767-780 | a signed encoding has one to ten bytes |
| `Leb128.SlebSize` | x86_64-pc-windows-tcc/tccdbg.c:742-755 | the size loop counts the bytes of the signed encoding |
| `DwarfFormat.UlebIs` | x86_64-pc-windows-tcc/tccdbg.c:757-765 | byte i holds bits 7i to 7i + 6, all but the last have the top bit set, and there are no more bytes than the value needs |
| `DwarfFormat.SlebIs` | x86_64-pc-windows-tcc/tccdbg.c:767-780 | the same for signed values, as many bytes as it takes to show the sign |
| `LineWriter.DwarfUleb128` | x86_64-pc-windows-tcc/tccdbg.c:757-765 | the loop appends the unsigned encoding to the section |
| `LineWriter.DwarfSleb128` | x86_64-pc-windows-tcc/tccdbg.c:767-780 | the loop appends the signed encoding to the section |
| `LineWriter.DwarfReadUleb128` | x86_64-pc-windows-tcc/tcc.h:1874-1888 | the loop equals the decoder, takes at most ten bytes and stops at the end of the buffer |
| `LineWriter.DwarfReadSleb128` | x86_64-pc-windows-tcc/tcc.h:1889-1906 | the same, with the sign filled in |
| `LineProgram.StepsOp` | x86_64-pc-windows-tcc/tccdbg.c:1492-1523 | one encoded operation runs as itself and takes exactly its bytes, wherever it lies |
| `LineProgram.BytesRunOps` | x86_64-pc-windows-tcc/tccdbg.c:1492-1523 | running the bytes of a program is running its operations |
| `DwarfFormat.MachineIsStandard` | x86_64-pc-windows-tcc/tccdbg.c:1492-1523 | opcodes 2, 3, 4, 10, 11 and those from 13 on do what the standard says for line base -5 and line range 14 |
| `DwarfFormat.SetAddressIsStandard` | x86_64-pc-windows-tcc/tccdbg.c:1265-1269 | the extended operation that starts a sequence |
| `LineWriter.SpecialSteps` | x86_64-pc-windows-tcc/tccdbg.c:1497-1500 | a special opcode in range advances by exactly the two deltas it was made from and appends the row |
| `LineWriter.LineWriter.LineOp` | x86_64-pc-windows-tcc/tccdbg.c:655-664 | appends a byte to the line buffer, growing it by 1024 when full |
| `LineWriter.LineWriter.Uleb128Op` | x86_64-pc-windows-tcc/tccdbg.c:782-790 | the encoding goes to the line buffer |
| `LineWriter.LineWriter.Sleb128Op` | x86_64-pc-windows-tcc/tccdbg.c:792-805 | the signed encoding goes to the line buffer |
| `LineWriter.LineWriter.DebugLine` | x86_64-pc-windows-tcc/tccdbg.c:1472-1526 | the standard machine moves to the new address, file and line, and exactly the rows of NewRows are added; a short move in the same file takes one byte |
| `LineWriter.ReportIsARow` | x86_64-pc-windows-tcc/tccdbg.c:1497-1522 | a report adds a row for the new position exactly if the line changed or the address moved by 1 to 16 |
| `LineWriter.LongJumpHasNoRow` | x86_64-pc-windows-tcc/tccdbg.c:1501-1510 | within a line, moving by 17 bytes adds no row |
| `LineWriter.LineWriter.NewFile` | x86_64-pc-windows-tcc/tccdbg.c:1438-1446 | last_line_num becomes 0, so the next line report is not suppressed; nothing is written |
| `LineWriter.LineWriter.PrologEpilog` | x86_64-pc-windows-tcc/tccdbg.c:2348-2355 | emits the standard byte of the mark, 10 for a prologue and 11 for an epilogue, which does not move the machine |
| `LineWriter.LineWriter.BytesAgree` | x86_64-pc-windows-tcc/tccdbg.c:1472-1525 | after any calls, running the bytes emitted leaves the machine at last_pc, last_line and, once set, last_file |
| `StringPool.StrHash` | x86_64-pc-windows-tcc/tccdbg.c:587-594 | the hash loop |
| `HashFormats.StringHashIs` | x86_64-pc-windows-tcc/tccdbg.c:587-594 | the hash is 5381 * 32^n plus the string read in base 32, modulo 2^32 |
| `HashFormats.BucketIs` | x86_64-pc-windows-tcc/tccdbg.c:596-606 | a string goes into list number 5381 * 32^n plus its base-32 number, modulo 2^32 and then modulo 251 |
| `StringPool.FindSame` | x86_64-pc-windows-tcc/tccdbg.c:605-612 | finds an item of exactly the text, or there is none |
| `StringPool.FindTail` | x86_64-pc-windows-tcc/tccdbg.c:616-626 | finds an item of the bucket that ends with the text exactly when there is one |
| `StringPool.StringPool.DwarfString` | x86_64-pc-windows-tcc/tccdbg.c:596-641 | equal strings of a unit get equal offsets; if an item of its bucket ends with the string the offset is that tail and the section stays, otherwise it is the end of the section, which grows by the string; every earlier promise stays |
| `StringPool.StringPool.FreeStr` | x86_64-pc-windows-tcc/tccdbg.c:573-585 | a new unit forgets the strings but not the bytes handed out |
| `StringPool.GivenReadsBack` | x86_64-pc-windows-tcc/tccdbg.c:596-641 | every offset ever returned reads back as its string |
| `AsmOperands.SkipConstraintModifiers` | x86_64-pc-windows-tcc/i386-asm.c:1222-1227 | skips the leading run of modifiers |
| `AsmOperands.ConstraintPriority` | x86_64-pc-windows-tcc/i386-asm.c:1172-1220 | the loop takes the highest class of the letters, or fails on an unknown one |
| `AsmOperands.PriorityIsLeastBound` | x86_64-pc-windows-tcc/i386-asm.c:1172-1220 | the class is the least that bounds every letter, and exists exactly when all letters are known |
| `AsmOperands.ClassCountsHomes` | x86_64-pc-windows-tcc/i386-asm.c:1172-1220 | the classes put the pair first, then one register, one of four, one of sixteen, and last what may do without |
| `AsmOperands.FindConstraint` | x86_64-pc-windows-tcc/tccasm.c:1174-1210 | a reference means the operand of that number, or the first of that name, or none |
| `AsmMeaning.NumberRefers` | x86_64-pc-windows-tcc/tccasm.c:1181-1189 | the decimal digits of n refer to operand n, if there is one |
| `AsmMeaning.NameRefers` | x86_64-pc-windows-tcc/tccasm.c:1190-1205 | a name in brackets refers to the first operand of that name, if there is one and the bracket is closed |
| `AsmMeaning.PreparedIffAcceptable` | x86_64-pc-windows-tcc/i386-asm.c:1279-1302 | constraints are accepted exactly if each is known letters after modifiers, or a reference from an input to an earlier operand that no earlier reference means |
| `AsmConstraints.ResolveOperands` | x86_64-pc-windows-tcc/i386-asm.c:1279-1302 | references must be earlier, from an input, and the only one to their operand; all others get the class of their letters |
| `AsmAllocation.ReferencesResolve` | x86_64-pc-windows-tcc/i386-asm.c:1279-1302 | after that pass an operand and the one that refers to it name each other, and every reference is the one its text asks for |
| `AsmConstraints.SortOperands` | x86_64-pc-windows-tcc/i386-asm.c:1305-1317 | the visiting order is a permutation sorted by class, and the order as written if that is sorted |
| `AsmOperands.OfferIsBest` | x86_64-pc-windows-tcc/i386-asm.c:1364-1460 | a letter offers a home exactly when it admits one whose registers are free on the sides needed, and then one with the lowest first register |
| `AsmConstraints.TryLetter` | x86_64-pc-windows-tcc/i386-asm.c:1364-1460 | the cases of the switch, probing registers one by one, make the offer of the letter |
| `AsmConstraints.ChooseHome` | x86_64-pc-windows-tcc/i386-asm.c:1351-1465 | the scan of one constraint |
| `AsmOperands.FirstOfferWins` | x86_64-pc-windows-tcc/i386-asm.c:1351-1465 | the first letter with an offer decides, and the scan fails exactly when no letter has one |
| `AsmOperands.ModifiersWidenMask` | x86_64-pc-windows-tcc/i386-asm.c:1354-1363 | `+` and `&` widen the mask to both sides, and only on outputs |
| `AsmConstraints.Place` | x86_64-pc-windows-tcc/i386-asm.c:1332-1470 | one turn of the allocation loop: errors, registers marked, the tied operand given its register |
| `AsmAllocation.PlacedKeepsFair` | x86_64-pc-windows-tcc/i386-asm.c:1332-1470 | one more operand keeps every untied pair apart, every reserved register free and every tie followed |
| `AsmAllocation.RegistersAreExclusive` | x86_64-pc-windows-tcc/i386-asm.c:1257-1490 | in every successful run no two untied operands hold a register on the same side, and none holds a clobbered register or register 4 or 5 |
| `AsmMeaning.ConstraintsAreServed` | x86_64-pc-windows-tcc/i386-asm.c:1351-1465 | in every successful run each operand that is no reference is where one of the letters of its constraint says, and is read and written exactly if it has a + |
| `AsmMeaning.LetterMeansRegister` | x86_64-pc-windows-tcc/i386-asm.c:1372-1404 | a single letter a, b, c, d, S or D puts the operand into register 0, 3, 1, 2, 6 or 7, q into one of the first four, A into the pair |
| `AsmMeaning.SharedByPlainOnly` | x86_64-pc-windows-tcc/i386-asm.c:1257-1490 | a register is shared only by an output and an input, neither tied nor early-clobbered, and is never 4, 5 or clobbered |
| `AsmAllocation.TieIsKept` | x86_64-pc-windows-tcc/i386-asm.c:1466-1470 | an input tied to an operand whose text is no reference ends with the register of that operand; one tied to a reference ends with none |
| `AsmAllocation.ChainedTieIsLost` | x86_64-pc-windows-tcc/i386-asm.c:1466-1470 | "=r", "0", "1": the third operand gets no register although the second has register 0 |
| `AsmAllocation.OutRegIsFree` | x86_64-pc-windows-tcc/i386-asm.c:1473-1490 | the register for storing through pointers is needed exactly when an operand calls for it, and no operand holds it on the output side |
| `AsmAllocation.OutRegIsLowest` | x86_64-pc-windows-tcc/i386-asm.c:1473-1490 | it is looked for exactly if a pointer kept in a local is held in a register; the lowest one not taken on the output side is found, and the search fails exactly if all are taken |
| `AsmConstraints.FindOutReg` | x86_64-pc-windows-tcc/i386-asm.c:1473-1490 | finds it, or fails when all are taken |
| `AsmConstraints.AsmComputeConstraints` | x86_64-pc-windows-tcc/i386-asm.c:1257-1490 | the whole allocation, in place, in an order sorted by class, with its first error |
| `AsmExpr.ParseFlatten` | x86_64-pc-windows-tcc/tccasm.c:142-409 | the six levels parse the tokens of any grammatical tree to that tree, and consume no more |
| `AsmExpr.ParseIsFlat` | x86_64-pc-windows-tcc/tccasm.c:142-409 | whatever they parse is grammatical, is spelled by the tokens consumed, and stops where nothing can continue it |
| `AsmParser.Assembler.AsmExprUnary` | x86_64-pc-windows-tcc/tccasm.c:142-238 | constants, labels, names, signs and parentheses evaluate as the tree read |
| `AsmParser.Assembler.AsmExprProd` | x86_64-pc-windows-tcc/tccasm.c:240-280 | products, with division by zero caught |
| `AsmParser.Assembler.AsmExprLogic` | x86_64-pc-windows-tcc/tccasm.c:282-309 | bitwise operations on numbers |
| `AsmParser.Assembler.AsmExprSum` | x86_64-pc-windows-tcc/tccasm.c:311-362 | sums and differences that keep at most one symbol, and may become relative to the current section |
| `AsmParser.Assembler.AsmExprCmp` | x86_64-pc-windows-tcc/tccasm.c:364-404 | comparisons, all ones for true |
| `AsmParser.Assembler.AsmExpr` | x86_64-pc-windows-tcc/tccasm.c:406-409 | an expression: terminates with the value, or the first error, of the tree parsed |
| `AsmParser.FoldSum` | x86_64-pc-windows-tcc/tccasm.c:323-358 | which pairs of symbols cancel, combine, make the rest relative to the current section, or are refused |
| `AsmArithmetic.ComputeMeans` | x86_64-pc-windows-tcc/tccasm.c:240-404 | what every operator computes: bits for shifts and bitwise operators, congruence modulo 2^64 for sums and products, quotient and remainder, and the order of signed numbers |
| `AsmArithmetic.SignsMean` | x86_64-pc-windows-tcc/tccasm.c:181-193 | minus gives the number that makes the sum vanish modulo 2^64, the tilde flips every bit |
| `AsmArithmetic.AcceptedIff` | x86_64-pc-windows-tcc/tccasm.c:240-404 | exactly which operations on symbols and numbers are accepted |
| `AsmArithmetic.TighterGoesFirst` | x86_64-pc-windows-tcc/tccasm.c:240-409 | products bind tighter than bitwise operators, these tighter than sums, these tighter than comparisons; equals group to the left |
| `AsmValue.EvalIsPlacementIndependent` | x86_64-pc-windows-tcc/tccasm.c:142-409 | value plus symbol address, less that of the current section if relative to it, is what the expression denotes, under every placement, if its operations are faithful |
| `AsmParser.ResultIsPlacementIndependent` | x86_64-pc-windows-tcc/tccasm.c:142-409 | the same for every successful evaluation of tokens |
| `AsmValue.DifferenceIsFaithful` | x86_64-pc-windows-tcc/tccasm.c:329-358 | a difference is right under every placement exactly when common symbols are not subtracted from each other, what is cut to a C int fits, and the right operand is relative to the current section just when the left one is and the difference takes that section away once more |
| `AsmValue.SumIsFaithful` | x86_64-pc-windows-tcc/tccasm.c:324-328 | a sum is right under every placement exactly when its right operand is not relative to the current section |
| `AsmValue.SmallOffsetsAreFaithful` | x86_64-pc-windows-tcc/tccasm.c:329-358 | with offsets below 2^31 and no common symbols, an expression is faithful exactly when no operation forgets that an operand was relative |
| `AsmValue.OriginIsLost` | x86_64-pc-windows-tcc/tccasm.c:324-353 | (9 - .) + 1 is relative to the current section, but 1 + (9 - .) is a plain number that is wrong once the section is placed |
| `AsmValue.CommonDifferenceFails` | x86_64-pc-windows-tcc/tccasm.c:344-348 | two common symbols of alignments 8 and 4 subtract to 4, wherever they are |
| `Plt.CreatePltEntry` | x86_64-pc-windows-tcc/x86_64-link.c:114-153 | appends slot 0 if needed and a slot with its cell, its index and a jump back |
| `Plt.CreatedStep` | x86_64-pc-windows-tcc/x86_64-link.c:137-152 | creating an entry extends the table by the slot that holds the index of the last relocation there is |
| `Plt.CreatedSlots` | x86_64-pc-windows-tcc/x86_64-link.c:126-152 | after any number of creations each slot holds what was written for it |
| `Plt.Add32le` | x86_64-pc-windows-tcc/tcc.h:1665-1667 | adds modulo 2^32 in place |
| `Plt.PatchSlots` | x86_64-pc-windows-tcc/x86_64-link.c:167-176 | after the loop slot 0 pushes GOT+8 and jumps through GOT+16, and slot i jumps through its own cell, pushes index i and jumps to slot 0, modulo 2^32 |
| `Plt.FillCells` | x86_64-pc-windows-tcc/x86_64-link.c:178-186 | the cell of relocation k holds the address of the push in slot k + 1; other bytes of the GOT stay |
| `Plt.RelocatePlt` | x86_64-pc-windows-tcc/x86_64-link.c:157-187 | both phases, for slots and relocations that need not belong together |
| `Plt.TableIsCode` | x86_64-pc-windows-tcc/x86_64-link.c:126-176 | the finished table byte by byte: opcodes, little-endian displacements that lead to their targets, and pushed indices |
| `Plt.EachEntryIsItsOwn` | x86_64-pc-windows-tcc/x86_64-link.c:157-187 | if every entry has its own relocation, slot i + 1 pushes i and its cell leads to that push |
| `Plt.CellIsExact` | x86_64-pc-windows-tcc/x86_64-link.c:178-186 | a cell is exact in all 64 bits exactly when the address survives a C int |
| `Plt.DisplacementIsExact` | x86_64-pc-windows-tcc/x86_64-link.c:167-176 | a patched instruction reaches its target exactly when it is within 31 bits |
| `NaturalOrder.LongerIsLarger` | protocol/steam_paths.c:284-294 | after stripping zeros the longer run of digits is the larger number |
| `NaturalOrder.SameLengthCompares` | protocol/steam_paths.c:295-298 | runs of one length compare as strings do |
| `NaturalOrder.CompareRuns` | protocol/steam_paths.c:274-298 | two runs compare by value |
| `NaturalOrder.NaturalCompare` | protocol/steam_paths.c:271-308 | its sign is that of the lexicographic comparison of token lists, digit runs by value |
| `NaturalMeaning.NumberDecides` | protocol/steam_paths.c:271-298 | after a common start the larger printed number makes the larger string, whatever zeros lead it and whatever follows |
| `NaturalMeaning.ByteDecides` | protocol/steam_paths.c:299-305 | after a common start two different bytes, not both digits, decide |
| `NaturalMeaning.LongerComesLater` | protocol/steam_paths.c:307 | a string comes after its own beginnings, unless they part within a number |
| `NaturalOrder.OrderIsTotalPreorder` | protocol/steam_paths.c:271-308 | reflexive, antisymmetric, transitive, and equal exactly on equal token lists |
| `NaturalOrder.CompareStringsDesc` | protocol/steam_paths.c:310-312 | the reverse order |
| `DebugAlloc.DebugAllocator.Malloc` | x86_64-pc-windows-tcc/libtcc.c:366-391 | a new block at the head of the chain; the chain stays doubly linked, each live block on it once |
| `DebugAlloc.DebugAllocator.LiveBlockPasses` | x86_64-pc-windows-tcc/libtcc.c:350-364 | a live block passes the guard exactly when its size, in 32 bits, does not read as the mark of a freed one |
| `DebugAlloc.DebugAllocator.Free` | x86_64-pc-windows-tcc/libtcc.c:393-410 | takes a live block off the chain, which then never passes the guard again; fails exactly for a size that reads as the mark of a freed one |
| `DebugAlloc.DebugAllocator.Realloc` | x86_64-pc-windows-tcc/libtcc.c:421-450 | resizes, possibly moving; the block keeps its position on the chain and the ledger follows |
| `DebugAlloc.DebugAllocator.LedgerIsExact` | x86_64-pc-windows-tcc/libtcc.c:345-347 | mem_cur_size equals the live total exactly while that fits in 32 bits, and mem_max_size equals the true peak exactly while that does |
| `DebugAlloc.HugeBlock` | x86_64-pc-windows-tcc/libtcc.c:345-347 | one block of 2^32 bytes leaves the ledger at 0 and the high-water mark short of the peak |
| `CtlListener.Listener.PostRequest` | protocol/ctl_protocol.c:322-327 | fills the slot: waiting, pending, neither delivered nor answered |
| `CtlListener.Listener.WakeUp` | protocol/ctl_protocol.c:333-351 | takes the reply if there is one, gives up if time ran out, waits on otherwise |
| `CtlListener.Listener.PollRequest` | protocol/ctl_protocol.c:435-446 | hands out the request being waited for, once |
| `CtlListener.Listener.PutReply` | protocol/ctl_protocol.c:448-455 | stores the reply, whoever is waiting, and changes nothing else |
| `CtlListener.StateExplained` | protocol/ctl_protocol.c:322-351 | in every reachable state the fields say what the last post, reply and successful poll were |
| `CtlListener.PolledOnce` | protocol/ctl_protocol.c:435-446 | over every interleaving a request is polled at most once, and only while it is waited for |
| `CtlListener.PollFinds` | protocol/ctl_protocol.c:435-446 | a poll succeeds exactly while a request is waited for and not yet taken |
| `CtlListener.AnswerIsLastReply` | protocol/ctl_protocol.c:333-351 | an answer is the last reply made between post and retirement; a reply made while the slot is idle is never one |
| `CtlListener.EveryAnswerIsRight` | protocol/ctl_protocol.c:322-351 | if no wait expires and the portal replies once per successful poll, each answer is the reply to that request |
| `CtlListener.AnswerIsForItsRequest` | protocol/ctl_protocol.c:322-351 | with expired waits, an answer is for its own request exactly when `delivered` held as the reply was made |
| `CtlListener.LateReplyAnswersTheNextRequest` | protocol/ctl_protocol.c:322-351 | a run of six steps in which a late reply answers the wrong request |
| `Layout.LoadedIsAlloc` | x86_64-pc-windows-tcc/tccelf.c:2265-2276 | a section is loaded exactly when it is named and allocated |
| `LayoutOrder.RolesInOrder` | x86_64-pc-windows-tcc/tccelf.c:2263-2326 | sections come in the order of their roles, from the interpreter name to the section names, and the standard ones last among those of a role |
| `LayoutOrder.RoleIsLoaded` | x86_64-pc-windows-tcc/tccelf.c:2322-2360 | which roles are loaded, and which are made read-only after relocation and writable until then |
| `LayoutOrder.InFileIff` | x86_64-pc-windows-tcc/tccelf.c:2263-2275 | a section goes to the file exactly if it has a name and, in other formats than ELF, is allocated; those formats empty the rest |
| `LayoutOrder.SeenAsNoteIff` | x86_64-pc-windows-tcc/tccelf.c:2295-2314 | which note sections are seen as such |
| `LayoutWriter.InsertSection` | x86_64-pc-windows-tcc/tccelf.c:2327-2330 | the insertion loop puts a section after all of no higher class |
| `LayoutProof.InsertKeepsSorted` | x86_64-pc-windows-tcc/tccelf.c:2327-2330 | the order stays a permutation sorted by class, stable within a class |
| `LayoutWriter.SortByClass` | x86_64-pc-windows-tcc/tccelf.c:2256-2332 | all sections in that order, adjusted on the way |
| `LayoutWriter.MarkSegments` | x86_64-pc-windows-tcc/tccelf.c:2333-2366 | which sections open a segment, and how many headers are needed |
| `LayoutWriter.LocateSection` | x86_64-pc-windows-tcc/tccelf.c:2456-2530 | one turn: page skip, alignment, offset, address, header |
| `LayoutWriter.GrowLoads` | x86_64-pc-windows-tcc/tccelf.c:2492-2511 | a new header when a segment opens, and the current one grown |
| `LayoutWriter.LayoutSections` | x86_64-pc-windows-tcc/tccelf.c:2397-2530 | the three passes together, from the base address of the options; for ELF every section lies beyond 64 bytes, 56 for each program header and 64 for each section header, and just that much is kept free |
| `LayoutWriter.HeadersFitIn` | x86_64-pc-windows-tcc/tccelf.c:2403-2427 | in an ELF file every section lies beyond 64 bytes, 56 for each program header and 64 for each section header |
| `LayoutProof.SectionsAreApart` | x86_64-pc-windows-tcc/tccelf.c:2455-2530 | loaded sections are disjoint in memory, except zero-initialised thread-local data, all are disjoint in the file, and both lie after the headers |
| `LayoutProof.PagesAreApart` | x86_64-pc-windows-tcc/tccelf.c:2469-2487 | segments share no page in memory, whatever the format: what has contents lies in an earlier page than anything a later segment loads |
| `LayoutProof.SectionsAreAligned` | x86_64-pc-windows-tcc/tccelf.c:2459-2485 | in every run, every section whose alignment is kept ends aligned |
| `LayoutProof.AlignedIffKept` | x86_64-pc-windows-tcc/tccelf.c:2459-2485 | a section is aligned from every state exactly if it opens no later segment of another format, or its alignment divides the segment alignment that then replaces its own |
| `LayoutProof.SegmentAlignmentWins` | x86_64-pc-windows-tcc/tccelf.c:2476-2482 | the layout of two sections in another format than ELF, which puts data of alignment 0x2000 at 0x401000 |
| `LayoutProof.PaceStep` | x86_64-pc-windows-tcc/tccelf.c:2469-2511 | one section keeps addresses and offsets in step within its segment |
| `LayoutProof.SegmentsCover` | x86_64-pc-windows-tcc/tccelf.c:2455-2530 | p_vaddr less the base address is congruent to p_offset, and each section with contents lies in a segment of exactly its own permissions at equal distance from p_vaddr and p_offset |
| `LayoutProof.CongruentIffBaseAligned` | x86_64-pc-windows-tcc/tccelf.c:2455-2511 | once there is a segment, p_vaddr is congruent to p_offset in all of them exactly if the base address is a multiple of the segment alignment |
| `LayoutProof.SortedIsTidy` | x86_64-pc-windows-tcc/tccelf.c:2263-2331 | the sort puts zero-initialised data last among the loaded sections |
| `LayoutWriter.ConventionalLayout` | x86_64-pc-windows-tcc/tccelf.c:2397-2530 | the sections of an ordinary program are apart, in pages of their own segment, covered, congruent exactly if the base is aligned, and aligned where their alignment is kept |

## Left out

- ArchiveLoader.LoadAlacarte: is called only where the search ends, which ArchiveEnds.SearchEndsIffServed characterises, because elsewhere there is no state after it.
- ArchiveLoader.LoadObjectFile: section contents are not read, sections that are skipped (link-once ones already present, and types that are not handled) have no symbols, and whether a member has an invalid relocation is given with it.
- LineWriter.LineWriter.DebugLine: assumes that the address and line deltas do not overflow the C int in which the special opcode is computed; such an overflow is undefined in C.
- GnuHashBuild.UpdateGnuHash: asks for room for a chain word per defined symbol; a section with less room is not modelled.
- LayoutProof.SegmentsCover: asks for zero-initialised data after everything else that is loaded; LayoutProof.SortedIsTidy shows when the sort provides that.
- LayoutProof.SectionsAreAligned: a section whose alignment is not kept is aligned or not as the addresses before it happen to fall; LayoutProof.AlignedIffKept is exact over all of them.
- Layout: contents of the headers other than PT_LOAD (TLS, RELRO, NOTE, DYNAMIC, EH_FRAME, INTERP, PHDR), of which only the number counts; addresses and offsets are unbounded integers, so wrap-around and the C int file offset are not modelled; alignments are taken to be powers of two.
- Symbol table: sizes and indices are unbounded; section buffers are sequences that can be longer than what is in use; the info word of a relocation is a record, not a packed number.
- `set_local_sym`, which makes a hashed symbol local in place, and hash lookups between `sort_syms` and the next rebuild.
- Bloom words are sets of bit positions, and the machine words of the chained hash are unbounded.
- Archive member headers and file input: a member that cannot be read is absent from the map.
- Register variables in the constraint allocator, and `is_label` operands of asm goto.
- The decimal index of a constraint reference is unbounded, where C would overflow an int.
- Shifts by 64 or more are errors of the model, and of relocations only what a value relative to the current section means; symbol lookup, numbered labels and number syntax are settled before parsing; the comparison tokens the lexer never produces are absent.
- The values of `.` and of symbols are fixed while an expression is parsed.
- Line numbers: the guards on debug level, section and suppressed code, stabs, the end of a sequence and file tables.
- String pool: the relocation that accompanies an offset.
- Debug allocator: file and line of a block, its contents, the semaphore, and the guard word after a block, which is a field of its header; callers pass null or a live block.
- Control listener: sockets, the clock (a wait may expire at any wake-up), parsing and encoding of lines, the cursor callback, starting and stopping.
- Natural ordering: directory scanning and `qsort` itself.
- Allocation failure, other targets and object formats beyond the branches named, symbol versions beyond their permutation, TLS relocations.
