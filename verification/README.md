# GEL++: a verified model of its core

GEL++ opens executable files, indexes their debug lines and builds memory images of them. This
project models the parts of it that compute something hard, and proves what they promise.

**Bytes.** `ByteOrder` models the SWAP and ENDIAN macros bit by bit and the decoder of a file;
`Cursors` is the cursor over a buffer of bytes, with its 64-bit sums; `Leb128` holds the loops that
read variable-length numbers. `Bits`, `Words` and `Arithmetic` hold the C++ integer operations:
shifts, wrap-around, conversions.

**The line-number program** (sections 6.2 and 7.6 of the DWARF 4 standard). `LineTable` is the
instruction-level semantics: registers, rows, one function per instruction. `LineProgram` reads
instructions from bytes. `StateMachines` and `DwarfReader` hold the reader as it stands in the
repository, objects and loops updating registers, cursor and tables; each of its methods is proved to
end in the state, or the fault, of the corresponding function. `LineEncoding` and
`LineUnitEncoding` are encoders, for the round trips from a list of instructions, a unit or a whole
section, in any LEB128 encoding of its numbers. `ProgramLoop`, `ProgramPrefix` and `LineProgress`
settle when the two loops of the reader end, by `Iteration`, a module on loops over finitely many
configurations. `RowFields` says what each row holds, instruction by instruction, and `UnitMeaning`
what files, paths and lines an index read from encoded units has. `Expansion`, `RowOrder`, `StandardRows`, `UnitRows` and `TargetAddresses` prove what
programs and rows have in common, and where they meet the standard.

**The index.** `DebugIndex` has the file, unit and index objects with their two lookups, by line and
by address; `SectionIndex` goes from the bytes of a section to the duality of the lookups.

**Memory.** `Images` builds an image from file segments; `InitialStack` sizes and writes the initial
stack, `StackLayout` says what it holds and `StackStrings` what a program reads there;
`UnitPlacement` places programs and libraries one after the other; `SymbolTables` converts a symbol
table in place and fills the map from names.

The main results, in short:

* `RunSM` and `ReadSection`: on any bytes, the loops compute the run of the semantics, rows, tables,
  links and faults included. `RunEncoded` and `SectionRoundTrip`: what a producer encodes, in any
  number of groups per LEB128 number and with any padding after instructions, headers and units, is
  read back as it was meant.
* `EndlessIfComesBack` and `SectionEndless`: exactly when the loop over a program, and the
  constructor, never end.
* `RowsAgree` and `UnitRowsAgree`: exactly when the rows of a program, and of an encoded unit, are
  those of the standard.
* `RowHolds` and `SectionLines`: every field of every row, as folds over the instructions; `SectionFiles`
  and `RegisteredPaths`: every file and path, from the tables that were encoded.
* `ExpandMeans`: special opcodes and const_add_pc are abbreviations, in every program and state.
* `RunConserves`: over a whole program, max_ops times the instruction steps plus op_index grows by
  exactly the sum of the operation advances.
* `SectionLookupsAreDual`: an address lies in a range reported for a line of a file exactly when the
  lookup of the address gives a row of that file and line.
* `BuildStack`, `Build`, `FillSymbolTable`: the memory left behind, byte for byte.

Undefined behaviour of the C++ code (a shift by 64 or more, a division by zero, an index out of
bounds, a signed sum that overflows, a failed ASSERT, a variable used without having been read) is
the fault `Undefined`; exceptions are the other faults. So the operations take any input, and a
theorem about a fault says when the code is not defined.

## What the code does differently from its documentation or the standard

* The loops of the reader may never end. An extended opcode can take the cursor back, because its
  length is converted to `int`, and a unit can, because its end is a 64-bit sum. The reader then goes
  on from there: it may end (`BackAndOn`), or read the same bytes for ever (`SpinSection`,
  `WrappedUnitForEver`). The semantics counts turns (`Turns`, `SectionTurns`); `Run` and
  `ParseSection` are what the loops end in, after however many turns, and the fault `Endless` where
  no number of turns is enough (`RunDecides`, `SectionDecides`). The loops of `RunSM` and
  `ReadSection` carry a limit on turns that the source does not have; by these lemmas it stops no
  loop that would end.
* `recordLine` sets the three per-row flags where section 6.2.5.2 of the DWARF 4 standard clears
  them, set_address leaves op_index, which section 6.2.5.3 resets, and a unit stops at its first
  end_sequence, where the standard resets the registers and goes on with the next sequence.
  `RowsAgree` and `UnitRowsAgree` give the exact condition under which the rows are nevertheless the
  standard's; `FlagsDiffer`, `OpIndexDiffers`, `SecondSequenceLost` and `FurtherSequenceLost` are
  failing inputs. Rows are compared in the word sizes of the code; and a row of the code has no
  end_sequence mark, which the standard's row has, so the comparison leaves the mark out.
* Opcodes the code does not know end its reading, where the standard skips them by
  standard_opcode_lengths or by their length (`UnknownOpcodes` says which they are).
* The width of DW_LNE_set_address follows the 32- or 64-bit DWARF format instead of the target.
  `WideAddress` and `NarrowAddress` say what address is read when they differ, and when it is right.
* `Buffer::set` does not convert to the byte order of the file (`SetThenGet`).
* `Cursor::write` of a string does not step over its NUL, while `buildStack` counts it: string i lands
  i bytes below its slot (`StringLandsBelow`). Addresses are stored in 32 bits, whatever the address
  of the stack (`PointersExact`). The strings can be read through argv and envp exactly when there is
  none, or one in a stack whose strings start below 2^32 (`StringsReadable`). Words are stored in the
  byte order of the host; `WordInFileOrder` says when they are right in the order of the file.
* The empty range at address 0 contains every address (`ContainsExactly`).
* The address lookup reads the first row of each unit it asks, which is undefined for a unit without
  rows (`LookupMeans`); a section of one unit that its header fills leads to it
  (`BareSectionLookup`).

## Model

| member | source | states |
|---|---|---|
| ByteOrder.SwapIsReversal | include/gel++/elf/common.h:194-196 | the shift-and-mask macros turn the little-endian value of 1, 2, 4 or 8 bytes into their big-endian value |
| ByteOrder.FirstByteWeighs | include/gel++/elf/common.h:194-206 | the first byte of a little-endian word weighs least, that of a big-endian one most |
| ByteOrder.FileOrderNamesEncoding | include/gel++/elf/common.h:198-206 | on either host, EI_DATA 1 reads as little-endian and 2 as big-endian; any other reads in the order opposite to the host's |
| ByteOrder.GetIsPositional | include/gel++/base.h:103-118 | the value a buffer gives is the positional value of its bytes in file order, for every host, encoding and width |
| ByteOrder.FixInvolutive | src/elf_File.cpp:67-79 | unfix after fix, and fix after unfix, give the word back, within its width |
| ByteOrder.FixInPlace | src/elf_File.cpp:67-72 | fixing a field in memory reverses its bytes for a foreign file and leaves them for a native one |
| ByteOrder.SetThenGet | include/gel++/base.h:124-139 | a stored word is read back if and only if the file has the host's byte order or the bytes are a palindrome |
| Cursors.StringEndUnique | src/gel_Manager.cpp:280-286 | the end of a C string is the first NUL ahead, and there is only one such place |
| Cursors.Cursor.Skip | include/gel++/base.h:171 | succeeds exactly when the 64-bit sum stays in the buffer; otherwise nothing changes; the cursor never leaves the buffer |
| Cursors.Cursor.Move | include/gel++/base.h:172 | succeeds exactly for a position of the buffer, and otherwise changes nothing |
| Cursors.Cursor.Read | include/gel++/base.h:174-189 | a fixed-width read succeeds exactly when the bytes are there, gives their value in file order and steps over them; a failed one changes nothing |
| Cursors.Cursor.ReadString | src/gel_Manager.cpp:276-288 | succeeds exactly when a NUL lies ahead, gives the bytes before the first one and stops one past it; a failed read leaves the cursor at the end |
| Cursors.Cursor.ReadBlock | src/gel_Manager.cpp:297-303 | a block of a size that does not wrap lies inside the buffer; a block asked for at the end fails the ASSERT, even an empty one |
| Cursors.Cursor.Write | include/gel++/base.h:194-209 | a write changes exactly its bytes, to the native encoding of the word, or changes nothing |
| Cursors.Cursor.WriteString | include/gel++/base.h:210-213 | the characters and a NUL are stored, the cursor steps over the characters only |
| Leb128.ReadLEB128U | src/dwarf_DebugLine.cpp:541-551 | the loop gives the decoded number and its end, or the same fault, on any bytes |
| Leb128.ReadLEB128S | src/dwarf_DebugLine.cpp:527-539 | the same for the signed reader, the final shift pair included |
| Leb128.AccumulateIsSum | src/dwarf_DebugLine.cpp:545-549 | or-ing shifted groups computes the sum of the 7-bit groups within 64 bits, from any accumulated word, and takes at most ten groups |
| Leb128.SignExtension | src/dwarf_DebugLine.cpp:536-537 | the pair of shifts is the two's complement of the p bits read |
| Leb128.DecodeIsNumber | src/dwarf_DebugLine.cpp:527-551 | both readers return the standard's number on every input, or fail for the same reason: end of the buffer or an eleventh group |
| Leb128.RoundTripU | src/dwarf_DebugLine.cpp:541-551 | every 64-bit unsigned value in 1 to 10 groups that hold it, zero-padded or not, is read back whatever follows, consuming exactly those bytes |
| Leb128.RoundTripS | src/dwarf_DebugLine.cpp:527-539 | the same for every signed value, sign-padded or not |
| Leb128.AnyEncoding | src/dwarf_DebugLine.cpp:541-551 | every encoding of an unsigned value is its shortest one with some groups more |
| Leb128.PaddedRoundTripU | src/dwarf_DebugLine.cpp:541-551 | such an encoding of up to ten groups is read back whatever follows |
| Leb128.PaddedRoundTripS | src/dwarf_DebugLine.cpp:527-539 | the same for signed values |
| Leb128.ShortestRoundTripU | src/dwarf_DebugLine.cpp:541-551 | every 64-bit unsigned value has a shortest encoding, and it is read back |
| Leb128.ShortestRoundTripS | src/dwarf_DebugLine.cpp:527-539 | the same for every 64-bit signed value |
| LineTable.ReachableWellFormed | src/dwarf_DebugLine.cpp:267-381 | in every state a program reaches, registers fit their C++ types and op_index is below the maximum of operations per instruction |
| LineTable.AdvanceConserves | src/dwarf_DebugLine.cpp:370-377 | an advance by adv raises max_ops times the instruction steps plus op_index by exactly adv, in both branches |
| LineTable.AdvanceAdds | src/dwarf_DebugLine.cpp:370-377 | two advances are one advance by their sum, wrap-around of the address included |
| LineTable.RunConserves | src/dwarf_DebugLine.cpp:276-319 | a whole program without byte-wise placement moves address and op_index as one advance by the sum of its operation advances |
| LineProgram.TurnsAreExec | src/dwarf_DebugLine.cpp:267-368 | any number of turns over any bytes are the execution of the instructions met: first the fault of an instruction, then that of the byte that is none |
| LineProgram.RunIsExec | src/dwarf_DebugLine.cpp:267-368 | running any bytes is executing their program, fault for fault; it is endless exactly when the program goes on and no instruction has a fault |
| LineProgram.StandardNumbers | src/dwarf_DebugLine.cpp:271-335 | the instruction of each standard opcode, by its number |
| LineProgram.SpecialNumbers | src/dwarf_DebugLine.cpp:276-277 | special opcodes count from opcode_base |
| LineProgram.ExtendedNumbers | src/dwarf_DebugLine.cpp:337-359 | the instruction of each extended opcode, by its number |
| LineProgram.UnknownOpcodes | src/dwarf_DebugLine.cpp:337-365 | a standard opcode is rejected exactly if it is above set_isa and below opcode_base, an extended one exactly if it is none of the four |
| LineProgram.FetchAdvances | src/dwarf_DebugLine.cpp:337-361 | a turn fails to move forward if and only if it meets an extended opcode whose declared end, as an int, is a position already passed |
| ProgramLoop.RunDecides | src/dwarf_DebugLine.cpp:267-368 | if the loop ends after some number of turns, Run is what it ends in; Run is Endless if and only if it ends after no number of turns |
| ProgramLoop.EndlessIfComesBack | src/dwarf_DebugLine.cpp:267-368 | the loop never ends if and only if following its instructions comes back to one of them and none has a fault |
| ProgramPrefix.EndlessInPrefix | src/dwarf_DebugLine.cpp:267-368 | where no line advance that is reached can overflow, it never ends if and only if it comes back and the first 2n + 2 instructions have no fault, n being the size of the section |
| ProgramLoop.ComesBackByTarget | src/dwarf_DebugLine.cpp:337-361 | a program that comes back has reached an extended opcode whose declared end is not after it; below 2 GiB its length is negative as an int |
| LineProgress.UnitGoesBack | src/dwarf_DebugLine.cpp:179-204 | the next unit starts at or before this one if and only if the 64-bit end of this one does, or that end is past the section and its program stops there |
| LineProgress.UnitOutcome | src/dwarf_DebugLine.cpp:179-204 | a unit is read if and only if its header can be read and its program, if it starts before the end of the unit, ends without a fault; it never ends if and only if that program comes back to an instruction without a fault |
| LineProgress.SectionDecides | src/dwarf_DebugLine.cpp:151-156 | if the loop over the units ends after some number of turns, ParseSection is what it ends in; if after none, it is Endless |
| LineProgress.SectionEndless | src/dwarf_DebugLine.cpp:151-204 | the constructor never returns if and only if following the starts of units, from the lengths and programs the section holds, comes back to one of them or leads to a unit whose program never ends |
| LineProgress.StartsAgainByUnit | src/dwarf_DebugLine.cpp:151-204 | where the starts come back, a unit has been reached that does not move the reader forward |
| LineEncoding.FetchEncoded | src/dwarf_DebugLine.cpp:271-362 | every encodable instruction, its numbers in any number of groups up to ten, is fetched back at any offset; an extended one is consumed to the end of its padding if and only if its declared end lands there as an int |
| LineEncoding.SmallLands | src/dwarf_DebugLine.cpp:337-361 | below 2 GiB every declared end lands, whatever follows |
| LineEncoding.DisassembleEncoded | src/dwarf_DebugLine.cpp:267-368 | disassembling an encoded program whose declared ends land gives the program and its end |
| LineEncoding.RunEncoded | src/dwarf_DebugLine.cpp:267-368 | the byte loop on the encoding of a program whose only end_sequence is its last instruction, and whose declared ends land, halts at the end of the encoding in the state of the instruction semantics, or with its fault |
| LineEncoding.Unterminated | src/dwarf_DebugLine.cpp:268-270 | an encoded program without end_sequence runs into the exception at the end of its unit, unless an instruction has a fault before |
| LineEncoding.SpinForEver | src/dwarf_DebugLine.cpp:337-361 | eight bytes after which, wherever they stand below 2 GiB, the loop has not halted after any number of turns |
| LineEncoding.BackAndOn | src/dwarf_DebugLine.cpp:337-361 | twelve bytes over which, from any state with a good file register, the loop goes back once, reads some of them again as other instructions, and ends with three rows more |
| TargetAddresses.WideAddress | src/dwarf_DebugLine.cpp:553-564 | in the 32-bit format an 8-byte address is read as its first half, the declared length skipping the other; it is right if and only if it is below 2^32 in a little-endian file, or 0 in a big-endian one |
| TargetAddresses.NarrowAddress | src/dwarf_DebugLine.cpp:553-564 | in the 64-bit format a 4-byte address is read with the four bytes after the instruction, or fails at the end; it is right if and only if these are 0, and in a big-endian file the address too |
| Expansion.ExpandMeans | src/dwarf_DebugLine.cpp:275-319 | replacing special opcodes by advance_line, advance_pc, copy and const_add_pc by the advance of special opcode 255 changes no row, register or fault of any program |
| Expansion.ExpansionRunsTheSame | src/dwarf_DebugLine.cpp:267-368 | the encodings of a program and of its expansion, wherever they stand, run to the same rows and registers or to the same fault |
| Expansion.SpecialOfAdvance | src/dwarf_DebugLine.cpp:276-281 | the opcode of the standard's formula does exactly the line and operation advance it was computed from |
| Expansion.AdvanceOfSpecial | src/dwarf_DebugLine.cpp:276-281 | the division and remainder of a special opcode are the inverse of that formula |
| RowFields.RowHolds | src/dwarf_DebugLine.cpp:276-398 | the row an instruction records is the one after those recorded before it; its line is the start line and the sum of the line advances up to it in 32 bits, its column, file and isa the last set, its discriminator the last set since the row before, its is_stmt the start value with its negations, its other flags those set before it by an instruction or a row |
| RowFields.WhenUndefined | src/dwarf_DebugLine.cpp:276-398 | an instruction is undefined exactly for a zero divisor, a line sum that overflows or a recorded file outside 1..n |
| RowOrder.RunInOrder | src/dwarf_DebugLine.cpp:370-398 | a program that never places the address backwards, nor wraps it, adds rows of non-decreasing addresses and keeps those before |
| RowOrder.EndRowIsLast | src/dwarf_DebugLine.cpp:343-346 | the last row of a program that ends in end_sequence carries the final address |
| RowOrder.AddressIsSum | src/dwarf_DebugLine.cpp:276-326 | without set_address, a program moves the address by the sum of its byte advances |
| RowOrder.RunExtent | src/gel_DebugLine.cpp:170-187 | from the bytes: rows are sorted, and top minus base address is the sum of the byte advances after the first row |
| StandardRows.RowsAgree | src/dwarf_DebugLine.cpp:267-398 | with flags cleared after each row, op_index reset by set_address and registers reset by end_sequence, as the standard says, the rows of a program are the same if and only if it records nothing after its first sequence, and in that one sets all three flags again before every row after the first and records no row under a lag of op_index or address that a set_address left |
| StandardRows.PlacedIfZeroAtSets | src/dwarf_DebugLine.cpp:347-349 | no lag is left where op_index is 0 at every set_address |
| StandardRows.PlacedWithoutVliw | src/dwarf_DebugLine.cpp:371-372 | op_index is 0 at every set_address where an instruction has one operation |
| StandardRows.FlagsDiffer | src/dwarf_DebugLine.cpp:395-397 | two copies in a row are enough for the flags to differ |
| StandardRows.OpIndexDiffers | src/dwarf_DebugLine.cpp:347-349 | advance_pc 1, set_address, copy: the row has op_index 1, and 0 in the standard |
| StandardRows.SecondSequenceLost | src/dwarf_DebugLine.cpp:268-346 | set_address 16 and two end_sequences: one row, where the standard has a second, at address 0 |
| UnitRows.UnitRowsAgree | src/dwarf_DebugLine.cpp:179-204 | an encoded unit whose padding holds further instructions has the standard's rows for all of them if and only if these record nothing and its program meets the two conditions; the reader moves past them |
| UnitRows.FurtherSequenceLost | src/dwarf_DebugLine.cpp:179-204 | an encoded unit that holds a further sequence has fewer rows than the standard's table |
| StateMachines.StateMachine.AdvancePC | src/dwarf_DebugLine.cpp:370-377 | the two-branch method on registers updates them as the advance of the semantics |
| StateMachines.RecordLine | src/dwarf_DebugLine.cpp:383-398 | the line added to the unit has the registers' address, line, column, flags, isa, discriminator and op_index, and the file at the file register less one; undefined exactly when that is out of 1..n |
| StateMachines.Special | src/dwarf_DebugLine.cpp:276-282 | a special opcode on the objects is its instruction in the semantics |
| StateMachines.Standard | src/dwarf_DebugLine.cpp:286-335 | each standard opcode on the objects is the instruction fetched at its place |
| StateMachines.ReadAddress | src/dwarf_DebugLine.cpp:553-564 | four or eight bytes in file order, by DWARF format, or an error |
| StateMachines.Extended | src/dwarf_DebugLine.cpp:337-361 | an extended opcode on the objects, with the move to its declared end, is the instruction fetched at its place |
| StateMachines.RunTurns | src/dwarf_DebugLine.cpp:267-368 | on any bytes and from any state, any number of turns of the loop leave registers, rows, cursor and fault of as many turns of the semantics |
| StateMachines.RunSM | src/dwarf_DebugLine.cpp:267-368 | the loop leaves those of the run of the semantics; where it would never end, the fault is Endless |
| LineUnit.NextUnit | src/dwarf_DebugLine.cpp:179-204 | whatever header and program consumed, the unit after one that fits its section is at its declared end |
| LineUnit.UnitsTile | src/dwarf_DebugLine.cpp:151-156 | units of declared lengths inside the section tile it, in any number of turns: each starts where the previous length says, always forward, and the last ends with the section |
| LineUnit.LengthByWord | src/dwarf_DebugLine.cpp:514-525 | a first word below 0xffffff00 is the length; all others announce a 64-bit length |
| LineUnit.VersionByWord | src/dwarf_DebugLine.cpp:209-212 | versions above 5 are rejected, exactly |
| LineUnitEncoding.DirsRoundTrip | src/dwarf_DebugLine.cpp:566-577 | every list of include directories is read back from its encoding |
| LineUnitEncoding.FilesRoundTrip | src/dwarf_DebugLine.cpp:400-427 | every file table is read back from its encoding |
| LineUnitEncoding.HeaderRoundTrip | src/dwarf_DebugLine.cpp:206-265 | every header of versions up to 4, in both formats and with any padding, is read back, and the program starts where header_length says |
| LineUnitEncoding.LengthRoundTrip | src/dwarf_DebugLine.cpp:514-525 | an initial length of either format is read back |
| LineUnitEncoding.UnitRoundTrip | src/dwarf_DebugLine.cpp:179-204 | an encoded unit anywhere in a section, its length fitting its format and its declared ends landing, gives its tables and the rows of the semantics, and the reader moves past it; it fails exactly as the semantics does |
| LineUnitEncoding.SectionRoundTrip | src/dwarf_DebugLine.cpp:151-204 | an encoded section of any such units gives each unit's tables and rows, in order |
| LineUnitEncoding.SmallSectionLands | src/dwarf_DebugLine.cpp:337-361 | below 2 GiB all units are such units |
| LineUnitEncoding.BareSection | src/dwarf_DebugLine.cpp:187-203 | a section of one unit that its header fills is read to a unit without rows |
| LineUnitEncoding.SpinUnitForEver | src/dwarf_DebugLine.cpp:267-368 | in a section of one unit, with any tables and the eight bytes as its program, the loop has not halted after any number of turns |
| LineUnitEncoding.SpinSection | src/dwarf_DebugLine.cpp:151-156 | the constructor never returns from it |
| LineUnitEncoding.WrappedUnitForEver | src/dwarf_DebugLine.cpp:151-204 | a section of one 64-bit unit, with any tables and the length 2^64 - 12, is read to k units in k turns, and the reader is at its start |
| LineUnitEncoding.WrappedSection | src/dwarf_DebugLine.cpp:151-156 | the constructor never returns from it either |
| DwarfReader.ReadDir | src/dwarf_DebugLine.cpp:566-577 | the directories added after those before are the strings up to the empty one |
| DwarfReader.ReadEntry | src/dwarf_DebugLine.cpp:405-416 | the three numbers of an entry; undefined exactly for a directory index outside the table |
| DwarfReader.FirstEntryEnters | src/dwarf_DebugLine.cpp:420-424 | a path gets the date and the size of the first entry that names it |
| DwarfReader.EnteredStays | src/dwarf_DebugLine.cpp:420-424 | and keeps them through every later file table |
| DwarfReader.Reader.Register | src/dwarf_DebugLine.cpp:420-424 | a path keeps the file registered for it or gets a new one with the date and size given; no other registration changes and the links hold |
| DwarfReader.Reader.Link | src/gel_DebugLine.cpp:161-164 | linking a registered file to a unit keeps the file a member of the unit as often as the unit is of the file |
| DwarfReader.Reader.ReadFile | src/dwarf_DebugLine.cpp:400-427 | the files of the unit are those of the table, in its order, by path; dates and sizes are those of first entries; the links hold |
| DwarfReader.Reader.ReadHeader | src/dwarf_DebugLine.cpp:206-265 | registers, tables, cursor and fault are those of the parsed header; the links hold |
| DwarfReader.Reader.ReadUnitLength | src/dwarf_DebugLine.cpp:514-525 | length, format and cursor are those of the parsed initial length |
| DwarfReader.Reader.RunLinked | src/dwarf_DebugLine.cpp:383-393 | a program keeps every row's file among the files of its unit, and all other links |
| DwarfReader.Reader.ReadCU | src/dwarf_DebugLine.cpp:179-204 | one unit is added, last; it represents the parsed unit; the cursor is at the next; the links hold |
| DwarfReader.Reader.ReadUnits | src/dwarf_DebugLine.cpp:151-156 | any number of turns of the loop leave the units, files, links, cursor and fault of as many turns of the semantics |
| DwarfReader.Reader.ReadSection | src/dwarf_DebugLine.cpp:151-156 | the units of the index represent the parsed units, in order, files have the date and size of the first entry naming them, files and units are linked, and the reader fails exactly where parsing does; where the loop would never end, the fault is Endless |
| UnitMeaning.UnitFiles | src/dwarf_DebugLine.cpp:405-425 | file j of a unit read from its encoding has the path join(".", name) for directory 0, and join(directory dir of the table, counted from 1, name) otherwise |
| UnitMeaning.SectionFiles | src/dwarf_DebugLine.cpp:405-425 | the same for every unit of an index read from an encoded section |
| UnitMeaning.RegisteredPaths | src/dwarf_DebugLine.cpp:420-424 | the registered paths are those of the entries that were encoded, and no others |
| UnitMeaning.UnitLines | src/dwarf_DebugLine.cpp:383-398 | every line of a unit read from its encoding has the file and the fields its instructions give, from line 1, column 0, file 1 and the default of is_stmt on; there are as many as instructions that record |
| UnitMeaning.SectionLines | src/dwarf_DebugLine.cpp:383-398 | the same for every unit of an index read from an encoded section |
| UnitMeaning.FirstRegisters | include/gel++/dwarf/DebugLine.h:41-54 | the registers a program starts from |
| DebugIndex.File.Find | src/gel_DebugLine.cpp:61-68 | reports the ranges of the file's units, unit by unit and row by row |
| DebugIndex.FoundMembers | src/gel_DebugLine.cpp:61-68 | a range is reported if and only if some unit of the file has a row of the file and line, followed by another row, with that range |
| DebugIndex.FoundInOrder | src/gel_DebugLine.cpp:61-68 | each matching row is reported once, by unit and then by row, with the range to the row after it |
| DebugIndex.CompilationUnit.AddFile | src/gel_DebugLine.cpp:161-164 | both lists grow at their end |
| DebugIndex.CompilationUnit.LineAt | src/gel_DebugLine.cpp:192-197 | the first row whose range holds the address, or none if no row's does |
| DebugIndex.LookupIsTotal | src/gel_DebugLine.cpp:192-197 | between base and top of a unit some row always crosses the address, sorted or not |
| DebugIndex.DebugLine.LineAt | src/gel_DebugLine.cpp:228-233 | the answer of the first unit that spans the address |
| DebugIndex.LookupMeans | src/gel_DebugLine.cpp:228-233 | no line exactly when no unit spans the address; otherwise the first crossing of the first unit that spans it; undefined when an empty unit comes first |
| DebugIndex.LookupsAreDual | src/gel_DebugLine.cpp:61-68 | over sorted units that do not overlap, an address is in a range found for a line of a file if and only if the address lookup gives a row of that file and line |
| SectionIndex.AscendingUnitInOrder | src/dwarf_DebugLine.cpp:267-398 | a unit whose program never goes backwards has sorted rows ending at the final address |
| SectionIndex.UnitsAreDisjoint | src/gel_DebugLine.cpp:170-180 | objects representing units in order and apart meet the condition of the duality |
| SectionIndex.SectionLookupsAreDual | src/gel_DebugLine.cpp:228-233 | the duality for the index read from a section, its condition being one on the parsed rows |
| SectionIndex.BareSectionLookup | src/gel_DebugLine.cpp:170-180 | in the index read from such a section every address lookup is undefined |
| Images.ContainsExactly | include/gel++/base.h:36-45 | a range that does not wrap contains exactly its addresses, but for the empty range at 0 |
| Images.ImageSegment.FromFile | src/gel_Image.cpp:84-107 | fresh storage with the content of the file segment, zero up to its size |
| Images.Image.At | src/gel_Image.cpp:378-383 | the first segment whose range contains the address |
| Images.Build | src/gel_Image.cpp:466-484 | the image holds a copy of each segment with a size and bytes, in order: its address, size, flags and bytes, zero past the content, in fresh storage; undefined exactly when the content of one is longer than it |
| Images.ImageRefinesFile | src/gel_Image.cpp:378-383 | for the image of a program whose segments with a size and bytes do not meet or wrap, the segment found at an address of one of them is its copy and the byte there is the file's, or zero past the content, in storage not the file's; elsewhere none is found |
| InitialStack.ContentsRounded | src/elf_UnixBuilder.cpp:489-502 | the contents are the words and the strings with their NUL, rounded up to words |
| InitialStack.StackEnds | src/elf_UnixBuilder.cpp:510-514 | a stack that does not wrap ends at stack_addr if one is asked for and at 0x80000000 otherwise, and the stack pointer is the contents below that end |
| InitialStack.BuildStack | src/elf_UnixBuilder.cpp:483-564 | no stack, an error or a stack segment, by the parameters; the segment is writable, ends at stack_addr or at 0x80000000, and holds exactly the image of words and strings; the stack pointer given is the contents below its end |
| InitialStack.WriteStack | src/elf_UnixBuilder.cpp:525-561 | the writing pass fills every part where the sizing pass put it; no write fails, and bytes outside are untouched |
| StackLayout.HeadLayout | src/elf_UnixBuilder.cpp:528-530 | argc and the addresses of argv and envp, as 32-bit words |
| StackLayout.ArgvLayout | src/elf_UnixBuilder.cpp:532-538 | at argv, word i is the address of slot i in 32 bits, and a null word ends the array |
| StackLayout.EnvpLayout | src/elf_UnixBuilder.cpp:540-546 | at envp, the same |
| StackLayout.AuxvLayout | src/elf_UnixBuilder.cpp:548-553 | the pairs of the auxiliary vector follow envp, and its null type ends just below the strings |
| StackLayout.PointersExact | src/elf_UnixBuilder.cpp:527-543 | each of these words is the whole address if and only if the address is below 2^32 |
| StackLayout.WordInFileOrder | src/elf_UnixBuilder.cpp:527-553 | a word read in the byte order of the file is right if and only if the file has the host's order or the bytes are a palindrome |
| StackLayout.SmallCountIsNoPalindrome | src/elf_UnixBuilder.cpp:528 | argc, from 1 to 255, is none |
| StackLayout.SlotsTile | src/elf_UnixBuilder.cpp:496-502 | string slots are contiguous, as long as their strings with the NUL, and inside the segment |
| StackLayout.EnvSlotsFollow | src/elf_UnixBuilder.cpp:499-501 | the slots of the variables follow those of the arguments |
| StackLayout.StringLandsBelow | src/elf_UnixBuilder.cpp:555-561 | string i stands i bytes below its slot |
| StackStrings.LastStringMisses | src/elf_UnixBuilder.cpp:555-561 | with two strings or more in an addressable stack, some memory contents make the last one unreadable through its word |
| StackStrings.FirstStringMisses | src/elf_UnixBuilder.cpp:509-543 | in a stack that is not addressable, some memory contents make the first one unreadable |
| StackStrings.StringsReadable | src/elf_UnixBuilder.cpp:527-561 | following argv and envp from the stack pointer gives every string, whatever the memory held, if and only if there is none, or one in a stack that does not wrap and whose strings start below 2^32 |
| SymbolTables.FixEntry | src/elf_File32.cpp:259-263 | the four multi-byte fields of an entry are reversed for a foreign file, and no other byte changes |
| SymbolTables.ConvertTwice | src/elf_File32.cpp:298-305 | converting a table twice restores it, whatever lies between entries |
| SymbolTables.FieldsAreNative | src/elf_File32.cpp:259-263 | after the conversion, st_name, st_value, st_size and st_shndx at their offsets in either structure have natively the values they have in the file |
| SymbolTables.FillSymbolTable | src/elf_File32.cpp:244-268 | every entry is visited, converted once and put under its name; other bytes stay; each error is reported exactly when it arises |
| SymbolTables.WalkFills | src/elf_File64.cpp:260-269 | the walk with the cursor visits exactly size over entsize entries and ends in the table of all of them |
| SymbolTables.NamesLeadToLast | src/elf_File32.cpp:264-266 | each name leads to its last entry, and a name of no entry keeps what it had |
| SymbolTables.SymbolFound | src/elf_File32.cpp:264-266 | a name that the string table holds, with its NUL, at the offset that st_name of an entry gives, and of no later entry, leads to that entry |
| SymbolTables.GarbageExactly | src/elf_File32.cpp:255-256 | garbage is reported exactly when no number of entries fills the table |
| UnitPlacement.RoundUpIsLeast | src/elf_UnixBuilder.cpp:383 | rounding up gives the least multiple not below the value |
| UnitPlacement.Load | src/elf_UnixBuilder.cpp:110-156 | the loadable headers become segments, in order, each on the header's own memory, at base plus vaddr and with its flags; the result is the highest end, in 32 bits |
| UnitPlacement.SegmentOf | src/elf_UnixBuilder.cpp:115-132 | each header of type 1, and no other, becomes a segment at base plus vaddr in 64 bits, on its memory, with the flags of its bits 0, 1 and 2 |
| UnitPlacement.TopIsHighest | src/elf_UnixBuilder.cpp:112-131 | the top is the highest end of these, or the base |
| UnitPlacement.BuildUnits | src/elf_UnixBuilder.cpp:369-384 | the loop over the worklist places each unit at the rounded top of the one before |
| UnitPlacement.BasesAligned | src/elf_UnixBuilder.cpp:383 | bases are multiples of the page size |
| UnitPlacement.BasesLeast | src/elf_UnixBuilder.cpp:376-384 | the first base is 0, each later one the least multiple of the page size not below the 32-bit top before |
| UnitPlacement.BasesAscend | src/elf_UnixBuilder.cpp:376-384 | no unit starts below the top of an earlier one |
| UnitPlacement.UnitsDisjoint | src/elf_UnixBuilder.cpp:376-384 | segments of different units have no address in common |

## Left out

- LineEncoding.RunEncoded: for programs whose declared ends land, which all do below 2 GiB; past that the code itself skips padding wrongly, as FetchEncoded states.
- TargetAddresses.WideAddress: below 2 GiB, like NarrowAddress, so that the declared length lands.
- StandardRows.RowsAgree: for operation advances below 2^64 - 256, because the sum with op_index is a 64-bit one; the standard is read in the word sizes of the code's registers and rows, without the end_sequence mark of a row, and for programs it has no fault on.
- StackStrings.StringsReadable: for stacks with contents below 4 GiB; past that a truncated address can point into the stack by chance.
- UnitPlacement.UnitsDisjoint: for units that end within 32-bit addresses, because `load` takes and returns 32-bit words.
- DwarfReader.Reader.ReadSection: after a fault, the partial state is not described; the unit being read is discarded but its files stay registered and keep it in their lists.
- Images.ImageSegment.FromFile: content must fit the size of its segment; where the copy would pass the end, `Build` is undefined.
- InitialStack.BuildStack: arguments and variables are sequences of bytes; the optional outputs for stack pointer and segment are its result.
- SymbolTables.FillSymbolTable: a symbol keeps the offset of its entry instead of a pointer to it; the section it names for strings is given as its bytes.
- The DWARF 5 directory and file tables, and DW_LNE_define_file: the fault `Unsupported`.
- `sys::Path`: joining a directory and a name is any function of the two.
- ELM containers: sequences and maps. The order in which a file lists its units is that of insertion; the ELM list is not part of this model. A `cstring` is true when it is not empty.
- Buffers are below 2^63 bytes; memory allocation does not fail.
- `Cursor::read(string&)`, 8-bit and signed variants of reads: the unsigned reads with a conversion.
- The buffer of a program header, and that of a PE-COFF section: segment contents are given as inputs.
- Caching of symbols, sections and program headers in `File`; streams and file access.
- `Unit::link`, `resolve`, `open`, `retrieve`: dynamic linking is unfinished and is not reached from `build`.
- Note and dynamic-entry iterators, PE-COFF and COFFI readers, command-line tools, plugins, debug output, freeing of memory.
