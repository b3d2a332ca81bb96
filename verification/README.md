# Table tools, stub IDs and navigation frames, verified

This project models four pieces of the repository in Dafny and proves what they are for.

**The ELF to cFE table converter** (`tools/elf2cfetbl/elf2cfetbl.c`). `Elf.dfy` and `Table.dfy` say what an object
file means, reading every field in the file's own byte order: the file header, the sections and what their scan leaves
in the globals, the symbols, the definition record, the located object, and the table file that comes of it
(`Table.Converted`). `Converter.dfy` is the program: a class whose fields are the C globals and the file cursor, whose
methods read records into memory, swap them in place when the host's byte order differs, and leave indices, offsets
and the cursor to the next stage. `Converter.ConvertFile` is proved to compute `Table.Converted` for every host and
with or without verbose output. `ScanLaws.dfy` and `TableLaws.dfy` prove what that specification amounts to;
`InputLaws.dfy` and `OutputLaws.dfy` state it byte by byte, at the offsets of the ELF format and of the table file.
`Objects.dfy` describes objects without any format: sections whose contents are bytes and definition records in any
order, symbols, and the table file an object stands for. `Renderings.dfy` says when an object file renders such an
object, wherever in the file its sections stand and whatever others it has, and proves that all renderings convert to
that table file. `Formats.dfy` assembles an object into an ELF file of either word size and byte order, with the
section header table at the start or the end and the standard sections at any index, which reads back as that object.
`MacroTable.dfy` is the everyday case, an object and the record that the definition macro declares for it, among any
other sections and symbols, with or without a character in front of the definition's name; the conversion always
succeeds. `Witnesses.dfy` has the object files on which the code departs from its comments or from its input's
meaning.

**The table CRC tool** (`tools/tblCRCTool/cfe_ts_crc.c`). `Crc.dfy` is CRC-16/ARC bit by bit and its algebra;
`CrcDivision.dfy` ties it to polynomial division; `CrcOrder.dfy` computes with powers of x and finds which pairs of
flipped bits the CRC misses; `CrcTable.dfy` proves the 256-entry table; `CrcCheck.dfy` has the check value;
`CrcTool.dfy` is the table-driven loop and the program's read loop, with the C integers' sign extensions.
`ToolChain.dfy` runs the CRC tool on what the converter wrote.

**The stub object-ID allocator** (`osal/src/ut-stubs/utstub-helpers.c`, `osapi-idmap-handlers.c`). `StubIds.dfy` is
the composition of IDs, the abstract allocator over runs of calls, and the consumer that maps an ID to a table slot;
`StubTable.dfy` is the table of counters and bitmaps, proved to refine it.

**The navigation frames** (`tools/giant_integration/ue5_to_giant.py`). `Rotations.dfy` is the vector algebra,
`NavFrames.dfy` the frame matrices and the composed camera rotation, `Geodetic.dfy` the WGS84 positions.

`Bytes.dfy`, `Endian.dfy`, `Records.dfy`, `ElfRecords.dfy`, `ElfEncode.dfy`, `Pieces.dfy`, `SectionFiles.dfy` and
`Folds.dfy` hold the byte, record and fold laws the rest is built on.

## What the code does that its comments or intent do not say

- The object search means to accept one extra character only if it cannot be printed, but tests the terminator after
  it, so any character passes. The search still finds what was meant exactly when no symbol that is the wanted name
  and a printable character stands before the first symbol meant (`TableLaws.SearchMeetsIntent`);
  `TableLaws.SearchTakesNeighbour` has symbols on which it does not.
- A section called ".strtab" that claims offset zero does not settle the choice of string table:
  `ScanLaws.StringTableChoice` has the exact rule. The section the comment names is used exactly when it has an
  offset or no fallback follows it (`ScanLaws.CommentedRule`); `Witnesses.StrtabWithoutOffset` has, in each format,
  files on which it is not.
- The symbol table's offset is cut down to 32 bits before the `int32` guard sees it, so the guard accepts a wrong
  offset for a table at 2^32 (`ScanLaws.OffsetCutDown`). An entry is found at its true offset exactly below 2^31
  (`ScanLaws.OffsetExact`), and `ScanLaws.ReadOffsetsTrue` says exactly when no entry is read from a wrong one.
- Converter symbol `i` is ELF entry `i + 1` only if the section's entry size is the size of the record read
  (`ScanLaws.EntryIsNext`).
- The sum of a section's offset and a symbol's value wraps at 64 bits before its own 32-bit guard, so a place from
  2^64 up to 2^64 + 2^32 is taken for a small one. `TableLaws.DataOffsetExact` and `TableLaws.DataOffsetTrue` have
  the exact conditions, `TableLaws.DataOffsetOf32` shows that 32-bit objects are safe, and `Witnesses.WrappedOutput`
  has accepted 64-bit files whose table file holds the object file's own first bytes.
- Whether an object is all zeros is decided by its section's name, ".bss", not by the section's kind. The data written
  are the object's initial image exactly when name and kind say the same or the file has zeros at that place
  (`TableLaws.DataIsImage`); `Witnesses.NobitsOutput` has, in each format, accepted files with an object in ".bss.Tbl"
  for which the next section's bytes are written instead of zeros.
- Past the end of the source file the copy loop writes the low byte of EOF, 0xFF (`Elf.BytesFrom`,
  `TableLaws.DataByte`). Every data byte is one of the source's exactly when the range ends within the file or is empty
  (`TableLaws.SourceBytesOnly`).
- The 255th and every later ID of a type since the last clear is the same one (`StubIds.IssuedTwice`).

## Preconditions

`Table.InDomain` says where the C program's behaviour is defined: `int32` products and `int64` sums that do not
overflow, names that are terminated in the file and fit the 60-byte scratch buffer, symbol-name offsets, the symbol
count and the byte count within an `int32`, section indices of the two symbols used within the section table, and
the user object's section having a name. Each clause is asked for only where the program gets that far. `Table.ValidOptions`
says what the command line parser guarantees. Files on which the converter gives up are inside the domain.
`StubIds.InBounds` leaves out deletions that index outside the table, `StubIds.HasSlot` the remainder by zero.

## Model

| member | source | states |
|---|---|---|
| Endian.SwapUInt16 | tools/elf2cfetbl/elf2cfetbl.c:2196-2202 | the two bytes are exchanged in place and no other byte of the buffer changes |
| Endian.SwapUInt32 | tools/elf2cfetbl/elf2cfetbl.c:2208-2217 | the four bytes end up in reverse order, everything else untouched |
| Endian.SwapUInt64 | tools/elf2cfetbl/elf2cfetbl.c:2219-2239 | the same for eight bytes |
| Endian.FlipTwice | tools/elf2cfetbl/elf2cfetbl.c:2196-2239 | each swap is an involution |
| Endian.ValueOfReversed | tools/elf2cfetbl/elf2cfetbl.c:2196-2239 | swapping a field of any width is the same as reading it in the other byte order |
| Endian.EncodeReversed | tools/elf2cfetbl/elf2cfetbl.c:2569-2579 | swapping a field held in host order turns it into the other order's encoding |
| Endian.ValueOfFour | tools/elf2cfetbl/elf2cfetbl.c:2208-2217 | which number four bytes stand for, in either order |
| ElfRecords.SwapElfHeader | tools/elf2cfetbl/elf2cfetbl.c:2100-2134 | after the thirteen swaps every header field, in either word size, reads in one byte order as it read in the other: none missed, none swapped twice |
| ElfRecords.SwapSectionHeader | tools/elf2cfetbl/elf2cfetbl.c:2140-2168 | the same for the ten fields of a section header |
| ElfRecords.SwapSymbol | tools/elf2cfetbl/elf2cfetbl.c:2174-2190 | the same for a symbol, whose one-byte fields stay as they are |
| ElfEncode.EhdrRoundTrip | tools/elf2cfetbl/ELF_Structures.h:43-86 | a file header written in any word size and byte order reads back |
| ElfEncode.ShdrRoundTrip | tools/elf2cfetbl/ELF_Structures.h:340-375 | so does a section header |
| ElfEncode.SymRoundTrip | tools/elf2cfetbl/ELF_Structures.h:421-448 | so does a symbol, whose fields come in a different order in the two word sizes |
| SectionFiles.HeaderAt | tools/elf2cfetbl/elf2cfetbl.c:1707-1745 | whatever e_shoff and e_shentsize a file header has, the section header encoded at e_shoff + i * e_shentsize is the one read as section i |
| InputLaws.ImageIs | tools/elf2cfetbl/elf2cfetbl.c:1489-1690 | exactly which first bytes are accepted: magic number, classes, byte orders, versions, types and the machine codes; and at which offset each field of the file header is read, in either word size and byte order |
| InputLaws.SectionHeaderIs | tools/elf2cfetbl/elf2cfetbl.c:1707-1745 | section header i is read exactly if all of it lies in the file at e_shoff + i * e_shentsize, field by field at the offsets of the format |
| InputLaws.SectionsAreNamed | tools/elf2cfetbl/elf2cfetbl.c:1747-1769 | e_shnum sections are read, at least one, with the names at their offsets in the section that e_shstrndx gives |
| InputLaws.SymbolsAreNamed | tools/elf2cfetbl/elf2cfetbl.c:680-684 | as many symbols as were counted, at least one, with the names at their offsets in the string table chosen, whose offset is not zero |
| InputLaws.SymbolStands | tools/elf2cfetbl/elf2cfetbl.c:1899-1945 | in a well-formed object, symbol i is entry i + 1, field by field at the offsets of the format |
| InputLaws.NameFits | tools/elf2cfetbl/elf2cfetbl.c:1757-1760 | the names a 60-byte array holds: some zero byte comes within 60 |
| Converter.Converter.Fread | tools/elf2cfetbl/elf2cfetbl.c:1731-1744 | one item is delivered exactly when all of it is there, with the file's bytes, and moves the cursor by its size |
| Converter.Converter.ReadText | tools/elf2cfetbl/elf2cfetbl.c:1757-1760 | the loop delivers the C string at the cursor and stays within its scratch buffer |
| Converter.Converter.GetElfHeader | tools/elf2cfetbl/elf2cfetbl.c:1489-1690 | on either host, succeeds exactly on the accepted headers, and leaves word size, swap flag and header that together say what the file's own byte order says |
| Converter.Converter.GetSectionHeader | tools/elf2cfetbl/elf2cfetbl.c:1696-1880 | on either host, succeeds exactly when the header can be read; delivers it and its name; moves the four scan globals as one abstract scan step |
| Converter.Converter.GetSectionNames | tools/elf2cfetbl/elf2cfetbl.c:645-656 | the early read of the section-name header leaves the scan's globals alone |
| Converter.Converter.GetSections | tools/elf2cfetbl/elf2cfetbl.c:645-667 | after the section stage the globals are those of the abstract scan over all sections |
| Converter.Converter.GetSymbol | tools/elf2cfetbl/elf2cfetbl.c:1895-1980 | succeeds exactly when the guarded offset is sought and read; delivers entry and name; records the index if the name is the definition's |
| Converter.Converter.GetSymbols | tools/elf2cfetbl/elf2cfetbl.c:679-684 | reads every symbol once, in order, and leaves the index of the last definition symbol |
| Converter.Converter.GetTblDefInfo | tools/elf2cfetbl/elf2cfetbl.c:2274-2340 | succeeds exactly when size, offset and read allow; the record in host memory, with its strings forced to end and its number swapped, is the one in the file |
| Converter.Converter.FindObject | tools/elf2cfetbl/elf2cfetbl.c:2359-2398 | the loop, terminator test included, stops at the first match |
| Converter.Converter.ReconcileSize | tools/elf2cfetbl/elf2cfetbl.c:2456-2479 | only the located symbol's size changes, to the size agreed on |
| Converter.Converter.LocateAndReadUserObject | tools/elf2cfetbl/elf2cfetbl.c:2346-2502 | succeeds exactly when the object is found and can be sought; leaves size, all-zeros flag and cursor so that reading on from there yields the object's data, verbose dump or not |
| Converter.Converter.PutUInt32 | tools/elf2cfetbl/elf2cfetbl.c:2569-2579 | a header number is written big-endian by either host |
| Converter.Converter.OutputDataToTargetFile | tools/elf2cfetbl/elf2cfetbl.c:2508-2645 | from the state the search stage left, writes exactly the table file of definition and data |
| Converter.Converter.Convert | tools/elf2cfetbl/elf2cfetbl.c:622-711 | the pipeline computes the specification: exit status and destination file |
| Converter.ConvertFile | tools/elf2cfetbl/elf2cfetbl.c:622-711 | one run: status and output are a function of source file and options alone, for every host byte order and verbose setting; nothing is written on failure |
| TableLaws.OutputIsObject | tools/elf2cfetbl/elf2cfetbl.c:2611-2642 | any file written is 116 bytes of header with the right count and the first matching symbol's data: zeros for ".bss", else the source file's bytes at section offset plus value, a sum below 2^32, or such a sum and 2^64, from which 2^64 is lost |
| OutputLaws.ConvertedSays | tools/elf2cfetbl/elf2cfetbl.c:2514-2625 | every word and text of a converted file's two headers at its offset: type, subtype, lengths, the three numbers given or 0, time or 0, the overriding description and table name or else the record's, zeros to the end of each array |
| OutputLaws.DefinitionIsRecord | tools/elf2cfetbl/elf2cfetbl.c:2282-2312 | the definition gone by is the 160-byte record at the definition symbol's offset: texts from bytes 0, 64 and 104, size from byte 156 |
| OutputLaws.ArrayTextIs | tools/elf2cfetbl/elf2cfetbl.c:2301-2305 | the text in an array ends at its first zero byte, or before its last byte |
| TableLaws.DataOffsetExact | tools/elf2cfetbl/elf2cfetbl.c:2446-2453 | the offset sought is section offset plus value exactly when that is below 2^32 |
| TableLaws.DataOffsetTrue | tools/elf2cfetbl/elf2cfetbl.c:2446-2453 | whatever offset the guard lets through is that sum, exactly when the sum does not lie from 2^64 up to 2^64 + 2^32 |
| TableLaws.DataOffsetOf32 | tools/elf2cfetbl/elf2cfetbl.c:2446-2453 | in a 32-bit object it always is |
| TableLaws.ReadFitsWord | tools/elf2cfetbl/ELF_Structures.h:340-448 | section offsets and symbol values read from any file fit its word size |
| Witnesses.WrappedOutput | tools/elf2cfetbl/elf2cfetbl.c:2446-2454 | for every record and data, an accepted 64-bit file whose data symbol's place is 2^64 and whose table file holds the object file's first bytes |
| TableLaws.NumBytesIsDataLength | tools/elf2cfetbl/elf2cfetbl.c:2586-2591 | the header's byte count is the number of bytes that follow, its length field the first header's size |
| ScanLaws.StringTableChoice | tools/elf2cfetbl/elf2cfetbl.c:1799-1813 | which section's offset the scan ends with, for every list of sections |
| ScanLaws.CommentedRule | tools/elf2cfetbl/elf2cfetbl.c:1801-1812 | the section the comment names, the last ".strtab" or else the first string table other than the section names', is the one used exactly when it has an offset or no fallback follows it |
| Witnesses.StrtabWithoutOffset | tools/elf2cfetbl/elf2cfetbl.c:1808-1812 | in each format, files whose only ".strtab" is passed over for a string table the comment does not name |
| ScanLaws.SymbolTableChoice | tools/elf2cfetbl/elf2cfetbl.c:1777-1797 | the last named symbol table determines offset, entry size and count |
| ScanLaws.NoSymbolTable | tools/elf2cfetbl/elf2cfetbl.c:810-818 | without one there are no symbols, and the converter gives up |
| ScanLaws.GuardAccepts | tools/elf2cfetbl/elf2cfetbl.c:1899-1908 | exactly which offsets the guard lets pass |
| ScanLaws.EntryReadBelow | tools/elf2cfetbl/elf2cfetbl.c:1905-1929 | an entry is read only at its exact offset, below 2^31 and within the file |
| ScanLaws.OffsetExact | tools/elf2cfetbl/elf2cfetbl.c:1778-1785 | the offset used is the header's and passes the guard exactly when it is below 2^31 |
| ScanLaws.ReadOffsetsTrue | tools/elf2cfetbl/elf2cfetbl.c:1778-1785 | no offset below 2^31 other than the true one comes out, exactly when the first entry stands below 2^31 or what an int32 keeps of its offset does not lead there |
| ScanLaws.OffsetCutDown | tools/elf2cfetbl/elf2cfetbl.c:1786-1789 | a 64-bit table at 2^32 passes the guard with a wrong offset |
| ScanLaws.EntryIsNext | tools/elf2cfetbl/elf2cfetbl.c:1778-1794 | converter symbol i is entry i + 1 exactly when the entry size is the record's |
| ScanLaws.EveryEntryOnce | tools/elf2cfetbl/elf2cfetbl.c:679-684 | in a well-formed table the loop covers entries 1 to n - 1, each inside the section |
| TableLaws.SymbolsAreEntries | tools/elf2cfetbl/elf2cfetbl.c:680-684 | the symbols read are the table's entries but the null one, in order, as the file's format has them |
| TableLaws.NamesDefIs | tools/elf2cfetbl/elf2cfetbl.c:1957-1963 | a name is the definition's exactly if it is "CFE_TBL_FileDef" or any one character and that |
| TableLaws.DefIndexIsLast | tools/elf2cfetbl/elf2cfetbl.c:1958-1963 | an index is the definition's exactly when its name is the definition's, directly or after one character, and no later one's is |
| TableLaws.ObjectIndexIsFirst | tools/elf2cfetbl/elf2cfetbl.c:2359-2398 | an index is the search's exactly when it matches and none before it does |
| TableLaws.MatchesIs | tools/elf2cfetbl/elf2cfetbl.c:2364-2387 | a match is the object's name or that name and any one character |
| TableLaws.SearchMeetsIntent | tools/elf2cfetbl/elf2cfetbl.c:2368-2380 | the search meets its commented intent exactly when every symbol that is the name with a printable character more comes after one that was meant |
| TableLaws.SearchTakesNeighbour | tools/elf2cfetbl/elf2cfetbl.c:2374-2379 | an input on which it does not |
| TableLaws.DataIsImage | tools/elf2cfetbl/elf2cfetbl.c:2422-2463 | the data are the initial image the section's kind asks for exactly when the name ".bss" and the kind without bytes go together, or the file has zeros there |
| Witnesses.NobitsOutput | tools/elf2cfetbl/elf2cfetbl.c:2422-2463 | in each format, accepted files with an all-zero object for which any other bytes come out |
| TableLaws.SourceBytesOnly | tools/elf2cfetbl/elf2cfetbl.c:2635-2641 | the bytes copied are all the source file's exactly when the range lies within it or is empty; the others are 0xFF |
| Objects.FixedIs | tools/elf2cfetbl/elf2cfetbl.c:2315-2316 | of a section's bytes only the sizes in definition records depend on the format |
| Renderings.AnyLayout | tools/elf2cfetbl/elf2cfetbl.c:622-711 | every file that reads as the object's sections and symbols, in whatever places and among whatever other sections, converts to the table defined on the object |
| Renderings.LayoutIndependence | tools/elf2cfetbl/elf2cfetbl.c:622-711 | any two such files convert to the same file, or both to none |
| Renderings.ConvertRendering | tools/elf2cfetbl/elf2cfetbl.c:622-711 | the program on such a file: layout, word size, byte order, host and verbose mode have no say in the outcome |
| Formats.ObjectRead | tools/elf2cfetbl/elf2cfetbl.c:622-684 | a file assembled in any form (word size, byte order, place and padding of the section header table, index of the standard sections) reads back as the object it was assembled from |
| Formats.AssembledRenders | tools/elf2cfetbl/elf2cfetbl.c:622-684 | and renders it |
| Formats.FormatIndependence | tools/elf2cfetbl/elf2cfetbl.c:1577-1647 | the same object in any two forms converts to the same file, whichever sections definition and data are in |
| Formats.AssembledInDomain | tools/elf2cfetbl/elf2cfetbl.c:622-711 | assembled files meet the preconditions |
| Formats.ConvertAssembled | tools/elf2cfetbl/elf2cfetbl.c:622-711 | the program on an assembled file, which always lies in its domain |
| MacroTable.DeclaredTable | cfe/modules/core_api/fsw/inc/cfe_tbl_filedef.h:149-150 | an object whose last definition symbol marks a record, and whose first symbol of the record's object name has the data, stands for the table file of record and data |
| MacroTable.ConvertDeclared | tools/elf2cfetbl/elf2cfetbl.c:622-711 | for every file in the domain that renders such an object, the converter succeeds and writes the record's headers and the data |
| MacroTable.CompiledTable | cfe/modules/core_api/fsw/inc/cfe_tbl_filedef.h:149-150 | a ".data" section with a data object and its record, in either order, with anything around and between, among any other sections and symbols, and with either spelling of the definition's name, is such an object |
| MacroTable.ConvertCompiled | tools/elf2cfetbl/elf2cfetbl.c:622-711 | for every record, data, surroundings, spelling, machine, form, host, options and verbose mode, the converter succeeds and writes the record's headers and the data |
| Crc.CrcConcat | tools/tblCRCTool/cfe_ts_crc.c:147-158 | feeding a message in two pieces is feeding it whole |
| Crc.CrcLinear | tools/tblCRCTool/cfe_ts_crc.c:95-99 | the CRC is linear over GF(2) in message and initial value together |
| Crc.CrcParity | tools/tblCRCTool/cfe_ts_crc.c:95-99 | the parity of the CRC is that of message and initial value |
| Crc.OddErrorDetected | tools/tblCRCTool/cfe_ts_crc.c:20-27 | an odd number of flipped bits always changes the CRC |
| Crc.BurstDetected | tools/tblCRCTool/cfe_ts_crc.c:20-27 | two messages that differ only within sixteen consecutive bits have different CRCs, at every length, position and initial value |
| CrcDivision.CrcIsRemainder | tools/tblCRCTool/cfe_ts_crc.c:22-27 | a register value is the CRC exactly when it is a remainder of dividing the message polynomial by the generator |
| CrcDivision.ResidueZero | tools/tblCRCTool/cfe_ts_crc.c:20-27 | two appended bytes bring the CRC to zero exactly when they are the CRC, low byte first |
| CrcDivision.PolynomialBurstMissed | tools/tblCRCTool/cfe_ts_crc.c:20-27 | sixteen bits is the bound: the generator itself as a burst is never seen |
| CrcOrder.PowerSum | tools/tblCRCTool/cfe_ts_crc.c:22-27 | registers multiply as polynomials modulo the generator, and exponents of x add |
| CrcOrder.PowerSquare | tools/tblCRCTool/cfe_ts_crc.c:22-27 | squaring bit by bit doubles the exponent of every power of x |
| CrcOrder.OrderOfX | tools/tblCRCTool/cfe_ts_crc.c:22-27 | zero bit-steps bring a register of 1 back exactly after the multiples of 32767 |
| CrcOrder.TwoBitErrors | tools/tblCRCTool/cfe_ts_crc.c:20-27 | two flipped bits leave the CRC unchanged exactly when their distance is a multiple of 32767, at every position, length and initial value |
| CrcTable.TableEntry | tools/tblCRCTool/cfe_ts_crc.c:70-90 | each of the 256 entries is eight bit-steps of its index |
| CrcCheck.CheckValue | tools/tblCRCTool/cfe_ts_crc.c:22-27 | the CRC of the digits 1 to 9 is 0xBB3D |
| CrcTool.SignExtendKeepsLow | tools/tblCRCTool/cfe_ts_crc.c:92-101 | the mask on entry undoes the sign extension of the previous result |
| CrcTool.NextCrc | tools/tblCRCTool/cfe_ts_crc.c:97-98 | one table look-up, with C's promotions and arithmetic shift, is eight bit-steps on the message byte |
| CrcTool.CalculateCRC | tools/tblCRCTool/cfe_ts_crc.c:63-102 | for every buffer and input, the lower half of the result is the bit-by-bit CRC, and every bit of the upper half is its top bit |
| CrcTool.ReadAndFeed | tools/tblCRCTool/cfe_ts_crc.c:149-157 | a turn of the loop, however short the read, keeps what the CRC of the whole rest will be |
| CrcTool.Program | tools/tblCRCTool/cfe_ts_crc.c:104-158 | for every pattern of short reads, size and CRC reported, upper half included, are those of one pass over everything after the header; it reports unless seek or read fails |
| ToolChain.SkipIsHeader | tools/tblCRCTool/cfe_ts_crc.c:126-127 | what the CRC tool skips is what the converter writes before the data |
| ToolChain.ConvertAndCheck | tools/elf2cfetbl/elf2cfetbl.c:2611-2642 | the CRC tool on the converter's output reports the header's byte count and the CRC of the object's bytes alone |
| StubIds.DecomposeOfCompose | osal/src/ut-stubs/utstub-helpers.c:170-182 | index and type come back exactly when both fit 16 bits and the type leaves the marker bit alone |
| StubIds.ComposeOfDecompose | osal/src/ut-stubs/utstub-helpers.c:170-182 | the ID comes back exactly when it carries the marker bit |
| StubIds.ComposeIsSum | osal/src/ut-stubs/utstub-helpers.c:170-175 | an ID is 0x40000000, the type shifted by 16 and the index, added up |
| StubIds.IdInjective | osal/src/ut-stubs/utstub-helpers.c:170-175 | IDs are equal exactly when index and type are |
| StubTable.Table.SetBit | osal/src/ut-stubs/utstub-helpers.c:86-101 | setting a bit changes that bit of that type and no other |
| StubTable.Table.ClearBit | osal/src/ut-stubs/utstub-helpers.c:143-150 | so does clearing one |
| StubTable.Table.ClearAll | osal/src/ut-stubs/utstub-helpers.c:52-58 | the whole table represents the initial state |
| StubTable.Table.AllocId | osal/src/ut-stubs/utstub-helpers.c:63-109 | the table moves as the abstract allocator does, and reports what it does: abort, or ID and overlap |
| StubTable.Table.DeleteId | osal/src/ut-stubs/utstub-helpers.c:114-168 | the same for a deletion, which is carried out whatever it complains of |
| StubTable.Replay | osal/src/ut-stubs/utstub-helpers.c:52-168 | every run of calls reports what the abstract allocator reports |
| StubIds.IssueNumber | osal/src/ut-stubs/utstub-helpers.c:80-85 | in every run, the n-th request of a type since the last clear gets index n, up to 255, whatever was deleted |
| StubIds.AbortIff | osal/src/ut-stubs/utstub-helpers.c:71-77 | a request aborts exactly for type 0 and types from 16 on |
| StubIds.SameId | osal/src/ut-stubs/utstub-helpers.c:63-109 | two requests of any run get the same ID exactly when they are of one type and equally many come before them since their last clears, or both come after 254 |
| StubIds.IssuedTwice | osal/src/ut-stubs/utstub-helpers.c:63-109 | with no clear between them, exactly when the later one comes after 255 of the type and the earlier after 254 |
| StubIds.LiveIff | osal/src/ut-stubs/utstub-helpers.c:86-150 | a bit is set exactly when some call issued that index and none since deleted it or cleared the table |
| StubIds.OverlapIff | osal/src/ut-stubs/utstub-helpers.c:97-100 | an overlap is reported exactly when the ID returned is live in that sense |
| StubIds.DeletionIff | osal/src/ut-stubs/utstub-helpers.c:122-167 | in every run, a deletion complains of the type exactly if the ID has another one, and of an object never created exactly if no call has issued that index and left it |
| StubIds.DeleteJustIssued | osal/src/ut-stubs/utstub-helpers.c:63-168 | an ID just issued is deleted without complaint, and a second time with one |
| StubIds.DeletionOfUndefined | osal/src/ut-stubs/utstub-helpers.c:144-167 | of type 0 nothing was ever created |
| StubIds.NoEarlyOverlap | osal/src/ut-stubs/utstub-helpers.c:90-100 | in every run, never for the first 255 of a type since the last clear |
| StubIds.WindowSlots | osal/src/ut-stubs/osapi-idmap-handlers.c:87-119 | two requests of a type, no clear between them and no further apart than its table has slots, get slots within the table, distinct exactly when the earlier comes before the 255th |
| StubIds.DefaultSlots | osal/default_config.cmake:217-274 | the slot of every issued ID of the eleven types with tables, by the default limits as numbers |
| StubIds.OtherSlots | osal/src/ut-stubs/osapi-idmap-handlers.c:97-119 | 0xDEADBEEF on failure, and the index itself for types without a range check |
| NavFrames.AttitudeIsZYX | tools/giant_integration/ue5_to_giant.py:91-103 | the attitude matrix is yaw, then pitch, then roll |
| NavFrames.LocalFrameIsZY | tools/giant_integration/ue5_to_giant.py:79-88 | the local frame is the turn to the longitude and a tilt |
| NavFrames.TurnsOfBody | tools/giant_integration/ue5_to_giant.py:91-103 | yaw turns the nose from north to east, pitch lifts it, roll lowers the right wing |
| NavFrames.FrameOnEquator | tools/giant_integration/ue5_to_giant.py:79-88 | along the equator north is +Z, east the way of increasing longitude and down the way inwards |
| NavFrames.FrameOnMeridian | tools/giant_integration/ue5_to_giant.py:79-88 | along the prime meridian north is the way of increasing latitude and east +Y |
| NavFrames.FramesProper | tools/giant_integration/ue5_to_giant.py:79-103 | both are proper rotations for every angle |
| NavFrames.CameraProper | tools/giant_integration/ue5_to_giant.py:106-112 | the composed camera matrix is a proper rotation, for any mount that is one |
| NavFrames.CamerasProper | tools/giant_integration/ue5_to_giant.py:52-60 | so it is for the nose and the nadir mount |
| NavFrames.CameraSeesBody | tools/giant_integration/ue5_to_giant.py:106-112 | the camera sees the ECEF image of a body direction where the mount puts it, whatever place and attitude |
| NavFrames.Boresights | tools/giant_integration/ue5_to_giant.py:50-60 | the ECEF images of the three body axes come out as the camera axes the source's comments name, for the nose and the nadir camera |
| NavFrames.VelocityKept | tools/giant_integration/ue5_to_giant.py:115-118 | the velocity keeps its length and can be had back |
| Geodetic.AltitudeIsUp | tools/giant_integration/ue5_to_giant.py:67-88 | altitude moves a position against the frame's down column |
| Geodetic.DownIsNormal | tools/giant_integration/ue5_to_giant.py:67-88 | on the ellipsoid that column is against its normal |
| Geodetic.HorizonIsTangent | tools/giant_integration/ue5_to_giant.py:67-88 | north and east are tangent to it |
| Geodetic.EllipsoidIffAltitude | tools/giant_integration/ue5_to_giant.py:67-76 | a position is outside, on or inside the ellipsoid as its altitude is positive, zero or negative, exactly as long as the altitude lies above where the line meets the ellipsoid again |
| Geodetic.DownToTheRadius | tools/giant_integration/ue5_to_giant.py:67-76 | so it is for every altitude down to minus one equatorial radius |
| Geodetic.EquatorPosition | tools/giant_integration/ue5_to_giant.py:67-76 | on the equator a position is 6378137 m and its altitude from the axis, in its longitude's direction |
| Geodetic.PolePosition | tools/giant_integration/ue5_to_giant.py:67-76 | at either pole it is on the axis, 6356752.3142 m and its altitude from the center |
| Rotations.ProperIsRightHanded | tools/giant_integration/ue5_to_giant.py:106-112 | orthonormal with determinant one, exactly when each row is the cross product of the other two |
| Rotations.MulProper | tools/giant_integration/ue5_to_giant.py:110-112 | products of proper rotations are proper rotations |
| Rotations.TransposeProper | tools/giant_integration/ue5_to_giant.py:110-111 | so are their transposes |

## Left out

- Command line, file names, permissions, `stat`, opening and closing files, printed text and time conversion: library calls; the source file's time and the parsed options are parameters.
- Memory allocation failures in the converter: allocation succeeds in the model.
- Inputs on which the C program's behaviour is undefined, as listed under Preconditions; and `printf` of a negative or oversized number.
- Converter.Converter.PutUInt32: each header number is swapped right before it is written, where the source swaps all of them first; the bytes and their order are the same.
- Converter.Converter.GetSectionHeader: section headers and symbols are kept as decoded records in host order, not as byte arrays, once they have been swapped.
- Formats.ConvertAssembled: the files assembled have names, strings, symbols and contents in this order, with the section header table before or behind them; Renderings.ConvertRendering is for all layouts, and asks that the file lie in the converter's domain and be smaller than 2^32 bytes, which bounds the places its guard lets through.
- Renderings.AnyLayout: the definition symbol marks a definition record and the object's data lie within their section, clear of the four size bytes of any record (`Objects.Closed`); other files mean different things in different formats, and ConvertFile alone covers them.
- Floating-point rounding in the frame functions: exact reals; an angle is a sine and a cosine whose squares add up to one, a square root a positive number with the right square.
- The other stub handlers, `OS_ObjectIdToArrayIndex` among them: they pass values through.
- GIANT cameras, JSON sidecars, image loading, ground-system and flight code.
