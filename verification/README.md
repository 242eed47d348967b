# OmegaOS: a model of its memory, device and text libraries

OmegaOS is a small 64-bit operating system.  Its boot loader is linked against a
bundled copy of gnu-efi; its kernel has a heap of its own.  This project models the
parts of both in which most can go wrong, in Dafny 4.11, and proves what they keep,
undo and compute.  `dafny verify dfyconfig.toml` checks all of it.

| part | files | what is proved |
|---|---|---|
| Device paths | `DevicePath*.dfy` | Byte routines that walk, measure, split, append, align and match device paths are tied to operations on lists of nodes.  Parsing and encoding are inverse.  Instances come back from a joined path.  The two passes of the unpacker agree. |
| CRC-32 | `Words.dfy`, `Crc*.dfy` | The table-driven loop equals the bit-at-a-time division, every burst of up to 32 bits is detected, and both are lifted to table headers that are sealed and checked.  The published check value and the residue of every message tell it from other checksums. |
| Printing | `PrintSpec.dfy`, `PrintInk.dfy`, `Printing.dfy`, `PrintFormat.dfy`, `PrintSinks.dfy`, `PrintAppend.dfy`, `PrintMeaning.dfy` | The staged output refines an unbuffered rendering, in text and in colour.  Bounded and growing strings receive exactly that text.  Formats compose.  What each conversion and flag puts on the page is told by what the text denotes. |
| Numbers | `Division.dfy`, `Numbers.dfy`, `NumberParsing.dfy` | The shift-subtract division is division exactly for divisors up to 2^31.  Printers and parsers undo each other. |
| Wildcards | `Strings.dfy`, `Glob.dfy`, `GlobLaws.dfy` | The backtracking matcher decides a declarative matching relation, which is given for every kind of pattern and for patterns one behind the other. |
| Lists | `LinkList.dfy` | The intrusive ring over every run of operations, and the entry swap with its exact condition. |
| SMBIOS | `Smbios.dfy` | The structure walk against the encoding of a table. |
| Buffers from the firmware | `GrowBuffer.dfy` | The retry loop against any firmware and any allocation failure. |
| Protocol installation | `ProtocolInstall.dfy` | All or nothing, with the exact condition for the rollback. |
| Relocation | `Relocation.dfy`, `RelocationTable.dfy` | What the in-place relocator does to every word, order independence, and when it equals the other architecture's form, for tables as a linker writes them. |
| Kernel heap | `HeapModel.dfy`, `HeapOps.dfy`, `HeapResize.dfy`, `HeapRuns.dfy`, `HeapFit.dfy`, `HeapBytes.dfy`, `HeapLayout.dfy` | The invariant of the allocator over every run.  Freeing undoes allocating.  A drained heap is the initial heap.  Which requests are met, and by which block.  The bytes of a block are safe from all other calls.  When clearing and moving a block stay inside it, and what happens otherwise to the links in memory. |
| Kernel heap in memory | `KernelLists.dfy`, `KernelChunks.dfy`, `KernelHeap.dfy` | The link surgery of the allocator, on headers in the memory that it hands out, refines those values over every run. |

`Machine.dfy`, `Seqs.dfy`, `Arith.dfy` and `Bytes.dfy` hold the constants, the laws and the
block operations that the others share.

## How the code is represented

- Read-only memory is a sequence of bytes with offsets for addresses.  Memory that a
  routine writes is an array or an object's field, changed in place.
- Whether memory is granted is a parameter of each call that asks for it, or of each
  request in turn, and a fresh buffer holds anything.  `ASSERT` is compiled out, as in a
  release build.
- The firmware is a small state machine (pool, handle database) or an arbitrary
  function of the call, so that the results hold for every behaviour it may show.
- A link of an intrusive list knows the address of the record it is part of; a chunk
  header of the kernel heap is an object found by its address, with one link for the ring
  of all chunks and one for the list of its size class.  `HeapLayout.dfy` has the same
  links as bytes.
- Machine words wrap around where the source lets them: the character count of the
  printer, widths in formats, parsed numbers, relocated words, rounded heap requests.

## Where the code does not do what one expects

The code is modelled as it is.  Each of these has a lemma that says exactly when the
expectation holds, and many have one more with an input for which it does not.

- An instance of more than 513 nodes is cut by the octal guard of `DevicePathInstance`
  (`DevicePath.PiecesAreInstances`, `DevicePath.LongInstanceIsCut`), and iterating over a
  joined path then need not get to its second part (`DevicePathOps.JoinPieces`,
  `DevicePathOps.JoinedIsLost`).
- The end node of a path is copied with four bytes, whatever its length, so that a
  duplicate is the same path only for a plain end node (`DevicePathOps.DuplicateDevicePath`).
- The comment of `AppendDevicePath` promises the second path behind every instance of
  the first.  Only the first instance gets it (`DevicePathAppend.AppendsToEachInstance`),
  and the allocation is large enough only for one instance or a short second path
  (`DevicePathAppend.AppendFits`, `DevicePathAppend.AppendOverruns`).
- `LibDuplicateDevicePathInstance` ends its copy after the first node
  (`DevicePathMatch.DuplicateIsWhole`).
- Unpacking to an alignment that needs 65536 bytes for a node leaves a length of zero
  (`DevicePathUnpack.UnpackedReadable`, `DevicePathUnpack.LongNodeUnreadable`).
- The 64-by-32 division loses a carry for divisors above 2^31
  (`Division.DividesExactlyUpTo31Bits`).
- The minus flag of the printer, documented as "justify on left", moves only the spaces
  of the field width (`PrintSpec.LeftJustified`, `PrintSpec.MinusDoesNotJustify`).
- %u, documented as "value as unsigned decimal", shows numbers from 2^63 on with a sign
  (`PrintMeaning.ShowsUnsigned`), and %p shows 32 bits of a pointer unless the item is long
  (`PrintMeaning.ShowsPointer`).
- A dash at the start or the end of a set of characters is not one of them
  (`GlobLaws.LeadingDash`, `GlobLaws.TrailingDash`).
- The colours "for this field only" are not always taken back behind the field.  With one
  colour the old one is back unless it was zero (`PrintInk.TintForOneField`); with more, the
  last but one stays (`PrintInk.LastButOneStays`).  `PrintInk.ForThisFieldOnly` has the exact
  condition for every item, and `PrintInk.ColourStays` a format that fails it.
- `UnicodeVSPrint` with a size of two or three bytes stores nothing, not even a
  terminator, and only a size below two bytes is unlimited (`PrintSinks.UnicodeVSPrint`).
- `SwapListEntries` loses the ring when the second entry stands in front of the first
  already (`LinkList.SwapListEntries`).
- An old SMBIOS system record without a UUID stops the search for good
  (`Smbios.FindsFirstSystem`).
- The result of the retry loop is null exactly on errors if and only if the first size
  is not zero (`GrowBuffer.Retry`).
- The rollback of an installation is complete if and only if the firmware gives every
  interface back (`ProtocolInstall.LibInstallProtocolInterfaces`).
- `kmalloc` refuses a request although a free chunk is large enough, when that chunk is
  in the size class below (`HeapFit.RefusedExactly`, `HeapRuns.RefusedThoughLargeEnough`),
  and grants the last three sizes below 2^64 with a block of 16 bytes
  (`HeapOps.RoundedExactly`), of which `kcalloc` then clears more
  (`HeapResize.ClearInsideExactly`).
- `krealloc` copies the whole old block.  The copy stays inside the new one if and only if
  the old block is no longer than what is granted (`HeapResize.CopyInsideExactly`), which
  shrinking by a chunk or more never is (`HeapResize.ShrinkingOverruns`).  Otherwise it
  writes over the links of the next chunk, and the heap itself is lost
  (`HeapLayout.CopyKeepsLinks`, `HeapRuns.ShrinkingExample`).

## Model

| member | source | states |
|---|---|---|
| `Bytes.CopyMem` | gnu-efi/lib/runtime/efirtlib.c:82-86 | between different buffers, exactly the target stretch is overwritten with the source bytes |
| `Bytes.CopyWithin` | gnu-efi/lib/runtime/efirtlib.c:65-87 | within one buffer, the target stretch gets the bytes that the source stretch held before, however the two overlap |
| `Bytes.CopyFromStart` | kernel/include/libc/string.h:5-14 | the same for a copy that always starts at the front, unless the target begins inside the source |
| `Bytes.CompareMem` | gnu-efi/lib/runtime/efirtlib.c:94-111 | true exactly when all bytes agree; only bytes up to the first difference need to be readable |
| `Bytes.AllocateZeroPool` | gnu-efi/lib/misc.c:41-54 | a fresh buffer of zeros if memory is granted, and null if not |
| `DevicePath.ParseIsValid` | gnu-efi/inc/efidevp.h:35-58 | what is read from memory is a valid path: lengths fit, one end at the end |
| `DevicePath.ParseIsFaithful` | gnu-efi/inc/efidevp.h:50-57 | the bytes read are the encoding of the path that is read |
| `DevicePath.ParseUndoesEncoding` | gnu-efi/inc/efidevp.h:50-57 | memory that holds the encoding of a valid path is read as that path |
| `DevicePath.HeaderRead` | gnu-efi/inc/efidevp.h:50-53 | type, subtype, length and payload of an encoded node are read back |
| `DevicePath.HeaderLayout` | gnu-efi/inc/efidevp.h:35-58 | the bytes of a header: type, subtype, low and high byte of the length; those of the two end nodes as numbers |
| `DevicePath.SplitConcat` | gnu-efi/lib/dpath.c:68-98 | cutting at end nodes: the instances of two lists with a separator between them are those of both |
| `DevicePath.PiecesAreInstances` | gnu-efi/lib/dpath.c:68-105 | the pieces that the iteration delivers are the instances if and only if none has more than 513 nodes |
| `DevicePath.LongInstanceIsCut` | gnu-efi/lib/dpath.c:68-98 | a single instance of 514 nodes or more is delivered in several pieces, the first of 513 nodes |
| `DevicePathOps.FindEnd` | gnu-efi/lib/dpath.c:293-300 | the walk stops at the end node of the parsed path, at the sum of the lengths |
| `DevicePathOps.DevicePathSize` | gnu-efi/lib/dpath.c:286-307 | the size of the encoding, the end node counted with four bytes |
| `DevicePathOps.ReportedSizeIsExact` | gnu-efi/lib/dpath.c:302-306 | that size is the length of the encoding if and only if the end node has no payload |
| `DevicePathOps.DevicePathInstance` | gnu-efi/lib/dpath.c:48-106 | one call delivers the first piece of the path, its size, and the place of the rest, or null |
| `DevicePathOps.DevicePathInstanceCount` | gnu-efi/lib/dpath.c:108-121 | the number of pieces |
| `DevicePathOps.SetDevicePathEndNode` | gnu-efi/inc/efidevp.h:66-71 | exactly four bytes are overwritten with an end node |
| `DevicePathOps.DuplicateDevicePath` | gnu-efi/lib/dpath.c:309-334 | if memory is granted, a fresh buffer with the reported bytes, and null if not; it spells the same path if and only if the end node is plain |
| `DevicePathOps.AppendDevicePathInstance` | gnu-efi/lib/dpath.c:397-433 | the bytes of the first path with its end turned into a separator, and the reported bytes of the second; with a plain end of the second they spell the joined path; a null first path gives a copy of the second |
| `DevicePathOps.JoinInstances` | gnu-efi/lib/dpath.c:397-433 | the instances of the joined path are those of the first followed by those of the second, and sizes add up |
| `DevicePathOps.JoinPieces` | gnu-efi/lib/dpath.c:48-121 | iterating over the joined path delivers the pieces of the first path and then those of the second if and only if the iteration over the first comes to its end node |
| `DevicePathOps.JoinedIsLost` | gnu-efi/lib/dpath.c:75-98 | a first path behind which every second one is lost to the iteration |
| `DevicePathOps.LimitUncut` | gnu-efi/lib/dpath.c:48-106 | which it does when no instance has more than 513 nodes |
| `DevicePathOps.JoinValid` | gnu-efi/lib/dpath.c:417-431 | the joined path is valid |
| `DevicePathAppend.AppendPaths` | gnu-efi/lib/dpath.c:163-193 | the buffer holds each piece of the first path followed by the reported bytes of the second and a separator, the last separator turned into an end |
| `DevicePathAppend.AppendFits` | gnu-efi/lib/dpath.c:163-167 | what is written fits the allocation if and only if the first path has one instance or the second is not longer; with one instance it is filled exactly |
| `DevicePathAppend.AppendOverruns` | gnu-efi/lib/dpath.c:163-193 | two instances and a longer second path: 56 bytes are written to 52 |
| `DevicePathAppend.AppendDevicePath` | gnu-efi/lib/dpath.c:124-194 | the bytes of the result; with a plain end node it parses to the nodes of the first piece followed by the second path; null arguments give copies |
| `DevicePathAppend.AppendDevicePathNode` | gnu-efi/lib/dpath.c:197-230 | the same for a path of that one node, which is empty if the node is itself an end |
| `DevicePathAppend.AppendsToEachInstance` | gnu-efi/lib/dpath.c:129-132 | the second path stands behind each instance of the first if and only if there is one instance |
| `DevicePathAppend.AppendedNode` | gnu-efi/lib/dpath.c:197-230 | appending a node to a single instance extends its node list by that node |
| `DevicePathAppend.AppendAssociates` | gnu-efi/lib/dpath.c:124-194 | appending is associative on single instances if and only if the first two together stay within 513 nodes |
| `DevicePathUnpack.CumulativeRounding` | gnu-efi/lib/dpath.c:350-359 | rounding a running total equals rounding each length |
| `DevicePathUnpack.UnpackedSize` | gnu-efi/lib/dpath.c:344-359 | the sizing pass computes exactly the bytes that the copying pass writes |
| `DevicePathUnpack.CopyNode` | gnu-efi/lib/dpath.c:377-383 | a node is written with its rounded length, its unpacked mark and zero padding |
| `DevicePathUnpack.UnpackDevicePath` | gnu-efi/lib/dpath.c:336-394 | the buffer holds the encoding of the unpacked path and nothing else |
| `DevicePathUnpack.Aligned` | gnu-efi/lib/dpath.c:27 | every node starts at a multiple of the alignment |
| `DevicePathUnpack.UnpackIdempotent` | gnu-efi/lib/dpath.c:336-394 | unpacking twice is unpacking once |
| `DevicePathUnpack.UnpackedParses` | gnu-efi/lib/dpath.c:336-394 | if the rounded lengths fit 16 bits, the result parses to the same nodes, padded |
| `DevicePathUnpack.UnpackedReadable` | gnu-efi/lib/dpath.c:380-381 | for alignments that divide 65536 the result can be read if and only if the rounded lengths fit 16 bits |
| `DevicePathUnpack.LongNodeUnreadable` | gnu-efi/lib/dpath.c:380-381 | a node of 65535 bytes, unpacked for 4 or 8, cannot be read |
| `DevicePathMatch.MismatchShowsEarly` | gnu-efi/lib/dpath.c:1224-1228 | a list of ordinary nodes that is not a prefix differs from the other path no later than in the type byte of its first end node |
| `DevicePathMatch.PieceComparison` | gnu-efi/lib/dpath.c:1224-1228 | comparing the bytes of a piece stays in bounds, and succeeds exactly when it is, node for node, a prefix |
| `DevicePathMatch.LibMatchDevicePaths` | gnu-efi/lib/dpath.c:1210-1230 | true exactly when some piece of the first path is a prefix of the second |
| `DevicePathMatch.LibDuplicateDevicePathInstance` | gnu-efi/lib/dpath.c:1232-1262 | the copy parses to the first node of the instance alone |
| `DevicePathMatch.DuplicateIsWhole` | gnu-efi/lib/dpath.c:1257-1258 | the copy is the whole instance if and only if it has one node |
| `Crc.RegisterConcat` | gnu-efi/lib/crc.c:201-218 | the register after two parts is the register of the second started from the first |
| `Crc.FeedAll` | gnu-efi/lib/crc.c:201-218 | feeding bits one by one and mixing them in at once commute |
| `Crc.TableIsByteStep` | gnu-efi/lib/crc.c:22-66 | each of the 256 table entries is eight division steps of its index |
| `Crc.TableStepIsBitwise` | gnu-efi/lib/crc.c:211-215 | one table step equals feeding the eight bits of the byte |
| `CrcBursts.SameInputKeepsApart` | gnu-efi/lib/crc.c:201-218 | different registers stay different under the same input |
| `CrcBursts.MeetingRegisters` | gnu-efi/lib/crc.c:201-218 | registers that meet within k bits differ in the lowest k bits at most |
| `CrcBursts.BurstChangesRegister` | gnu-efi/lib/crc.c:201-218 | inputs that differ, within 32 consecutive bits only, end in different registers |
| `CrcBursts.DetectsBurst` | gnu-efi/lib/crc.c:201-218 | buffers that differ within a burst have different CRCs |
| `CrcBursts.FourBytesAreBurst` | gnu-efi/lib/crc.c:201-218 | a change within four consecutive bytes is such a burst |
| `CrcValues.CheckValues` | gnu-efi/lib/crc.c:201-218 | nothing has checksum 0, and the text 123456789 has 0xCBF43926 |
| `CrcValues.Residue` | gnu-efi/lib/crc.c:201-218 | every message with its checksum behind it, lowest byte first, has checksum 0x2144DF1C |
| `CrcValues.FieldsOfHeader` | gnu-efi/inc/efiapi.h:763-769 | in a header given by its fields, the size is read from and the checksum stored in the field of that name |
| `CrcHeader.CalculateCrc` | gnu-efi/lib/crc.c:201-218 | the loop computes the bitwise CRC-32, and its 64-bit accumulator stays within 32 bits |
| `CrcHeader.SetCrcAltSize` | gnu-efi/lib/crc.c:93-116 | only the CRC field changes, to the CRC of the header with that field zero |
| `CrcHeader.SetCrc` | gnu-efi/lib/crc.c:70-91 | the same, with the size from the header |
| `CrcHeader.CheckCrcAltSize` | gnu-efi/lib/crc.c:146-198 | the header is left as it was; true exactly when size and CRC are right |
| `CrcHeader.CheckCrc` | gnu-efi/lib/crc.c:119-141 | the same, with the size from the header |
| `CrcHeader.SetThenCheck` | gnu-efi/lib/crc.c:93-198 | a sealed header checks if and only if its size is not zero and not above the largest allowed, if there is one |
| `CrcHeader.TamperingDetected` | gnu-efi/lib/crc.c:93-198 | after a burst in the covered bytes the header does not check |
| `CrcHeader.ByteTamperingDetected` | gnu-efi/lib/crc.c:93-198 | after any change within four bytes outside the CRC field the header does not check |
| `CrcHeader.FieldTamperingDetected` | gnu-efi/lib/crc.c:146-198 | after any change of the CRC field the header does not check |
| `Glob.MatchesCons` | gnu-efi/lib/str.c:333-408 | the relation, read token by token: a first part for the first token and a match of the rest |
| `Glob.MatchSet` | gnu-efi/lib/str.c:360-397 | the character is in the set, and the pattern goes on behind the closing bracket |
| `Glob.TryAll` | gnu-efi/lib/str.c:342-350 | the loop over the string decides a star followed by the rest of the pattern |
| `Glob.MetaMatch` | gnu-efi/lib/str.c:325-409 | terminates, and is true exactly when the string can be cut into parts that the tokens of the pattern denote |
| `Glob.PlainMatchesItself` | gnu-efi/lib/str.c:399-406 | a pattern without wildcards matches itself and nothing else |
| `GlobLaws.StarMatches` | gnu-efi/lib/str.c:342-350 | a star matches every string |
| `GlobLaws.QuestionMatches` | gnu-efi/lib/str.c:352-358 | a question mark matches exactly the strings of one character |
| `GlobLaws.ListMatches` | gnu-efi/lib/str.c:360-397 | characters between brackets match any one of them |
| `GlobLaws.RangeMatches` | gnu-efi/lib/str.c:373-388 | two characters with a dash between them match those from one to the other |
| `GlobLaws.LeadingDash` | gnu-efi/lib/str.c:367-382 | a dash in front admits everything up to the character behind it |
| `GlobLaws.TrailingDash` | gnu-efi/lib/str.c:373-377 | a dash at the end admits nothing |
| `GlobLaws.SetsAddUp` | gnu-efi/lib/str.c:367-389 | a set made of two admits what either admits, if no dash stands where they meet |
| `GlobLaws.PatternsConcat` | gnu-efi/lib/str.c:333-408 | two patterns one behind the other match what can be cut into a match of the first and one of the second |
| `Division.DivU64x32` | gnu-efi/lib/ia32/math.c:134-199 | the result of 64 rounds; quotient and remainder for divisors of 31 bits |
| `Division.RoundCombined` | gnu-efi/lib/ia32/math.c:177-189 | one round on three words shifts one bit and subtracts, and the remainder stays below the divisor |
| `Division.DividesCorrectly` | gnu-efi/lib/ia32/math.c:158-197 | 64 rounds are `/` and `%` for divisors up to 2^31, as in gnu-efi/lib/aarch64/math.c |
| `Division.CarryLost` | gnu-efi/lib/ia32/math.c:158-197 | for every larger divisor, 2^32 is divided to zero |
| `Division.DividesExactlyUpTo31Bits` | gnu-efi/lib/ia32/math.c:141-152 | a divisor divides every 64-bit number correctly if and only if it is at most 2^31 |
| `Numbers.DigitsDenote` | gnu-efi/lib/print.c:1348-1352 | the digits collected by division denote the number |
| `Numbers.ValueToHex` | gnu-efi/lib/print.c:1330-1358 | exactly the hexadecimal text and its terminator are written |
| `Numbers.ValueToString` | gnu-efi/lib/print.c:1361-1404 | exactly the decimal text, with or without commas, and its terminator are written, also for the smallest number |
| `NumberParsing.Xtoi` | gnu-efi/lib/str.c:267-296 | the number that the digits behind the spaces denote, in 64 bits |
| `NumberParsing.Atoi` | gnu-efi/lib/str.c:298-323 | the same for decimal digits |
| `NumberParsing.HexRoundTrip` | gnu-efi/lib/str.c:267-296 | parsing the printed number gives it back |
| `NumberParsing.DecRoundTrip` | gnu-efi/lib/str.c:298-323 | parsing the printed number gives it back if and only if it is not negative |
| `NumberParsing.StripGrouped` | gnu-efi/lib/print.c:1392-1403 | without its commas the text is the plain one |
| `NumberParsing.CommaPlaces` | gnu-efi/lib/print.c:1392-1403 | commas stand exactly at every fourth place from the right, and none leads |
| `NumberParsing.SignedSpelled` | gnu-efi/lib/print.c:1361-1404 | the printed number: digits without leading zeros that denote its magnitude, commas at every fourth place or none, and a minus sign in front exactly if it is negative |
| `NumberParsing.HexSpelled` | gnu-efi/lib/print.c:1330-1358 | digits 0 to 9 and A to F without leading zeros that denote the number |
| `NumberParsing.CaseIrrelevant` | gnu-efi/lib/str.c:267-296 | the case of letters does not change what a hexadecimal text denotes |
| `NumberParsing.Surrounded` | gnu-efi/lib/str.c:267-323 | spaces in front, and what follows the first character that is no digit, do not matter |
| `NumberParsing.LeadingZeros` | gnu-efi/lib/str.c:267-323 | nor do zeros in front |
| `NumberParsing.Readings` | gnu-efi/lib/str.c:267-323 | two texts that denote 1709 |
| `PrintSpec.PaddedLength` | gnu-efi/lib/print.c:994-1028 | the width of an item is the largest of text, width and field width |
| `PrintSpec.LeftJustified` | gnu-efi/lib/print.c:1047 | with the minus flag the text stands at the left if and only if it fills the width itself or is all padding |
| `PrintSpec.MinusDoesNotJustify` | gnu-efi/lib/print.c:1012-1015 | an item with the minus flag that stands on the right |
| `Printing.Printer.Flush` | gnu-efi/lib/print.c:903-915 | what was staged goes out as one string, and the stage is empty |
| `Printing.Printer.SetColour` | gnu-efi/lib/print.c:917-932 | what is staged goes out before the colour changes, so that every unit keeps the colour it was printed in; the old colour is remembered |
| `Printing.Printer.Put` | gnu-efi/lib/print.c:934-954 | the text grows by the character, a newline by its carriage return too; staging stays within bounds and the count right |
| `Printing.Printer.PutItem` | gnu-efi/lib/print.c:972-1029 | the text grows by the padded item |
| `Printing.ItemLength` | gnu-efi/lib/print.c:982-992 | the length of the text, at most the field width |
| `Printing.ExpandConcat` | gnu-efi/lib/print.c:941-944 | expanding line ends distributes over concatenation |
| `PrintFormat.Interpret` | gnu-efi/lib/print.c:1117-1301 | a flag or conversion means what the reference says, with the conversions done in a scratch buffer |
| `PrintFormat.ParseWidth` | gnu-efi/lib/print.c:1148-1163 | the number that the longest run of digits denotes, modulo 2^64, and where that run ends |
| `PrintFormat.PrintItem` | gnu-efi/lib/print.c:1102-1319 | the item's text is printed, and the rest of the format renders as it would alone |
| `PrintFormat.Print` | gnu-efi/lib/print.c:1082-1325 | the chunks together are the rendered text with its line ends, each has at most 199 units and no terminator, the count is the total modulo 2^64, and every unit goes out in the colour that the format asks for there |
| `PrintInk.ItemColours` | gnu-efi/lib/print.c:1204-1319 | every complete item is shown in the last colour it asks for, and behind it comes the one in force before that, if there is one |
| `PrintInk.ForThisFieldOnly` | gnu-efi/lib/print.c:1050-1052 | the colour behind an item is the one in front of it if and only if the item asks for none, or the one before its last is that colour, or is zero and the last is that colour |
| `PrintInk.TintForOneField` | gnu-efi/lib/print.c:1303-1319 | with one colour anywhere in the item the old one is back behind it unless that was zero |
| `PrintInk.LastButOneStays` | gnu-efi/lib/print.c:1204-1240 | with several colours the last but one stays behind the item, unless that is zero |
| `PrintInk.ColourStays` | gnu-efi/lib/print.c:1204-1240 | a format with two colours behind which the console is not in the old one |
| `PrintMeaning.ShowsDecimal` | gnu-efi/lib/print.c:1191-1198 | %d takes the next word as a signed number of 32 or 64 bits and shows it as one writes it |
| `PrintMeaning.ShowsUnsigned` | gnu-efi/lib/print.c:1273-1280 | %u shows the unsigned number if and only if it is below 2^63, and the signed one otherwise |
| `PrintMeaning.ShowsHex` | gnu-efi/lib/print.c:1288-1294 | %x shows the word of 32 or 64 bits in hexadecimal |
| `PrintMeaning.ShowsFullHex` | gnu-efi/lib/print.c:1282-1294 | %X the same, with zeros up to 8 or 16 digits |
| `PrintMeaning.ShowsPointer` | gnu-efi/lib/print.c:1242-1254 | %p shows 0x and the word, the whole pointer if and only if it is below 2^32 or the item is long |
| `PrintMeaning.ShowsChar` | gnu-efi/lib/print.c:1173-1177 | %c shows the character in the low 16 bits, and nothing for zero |
| `PrintMeaning.ShowsString` | gnu-efi/lib/print.c:1165-1171 | %s and %a show the string, and (null) for a null pointer |
| `PrintMeaning.ShowsGiven` | gnu-efi/lib/print.c:1179-1189 | text from another routine is shown up to 99 units |
| `PrintMeaning.PaddedUnits` | gnu-efi/lib/print.c:982-1028 | every unit of a padded item: text, padding or space, by its place |
| `PrintMeaning.PlainText` | gnu-efi/lib/print.c:1094-1100 | text without a percent sign is printed as it is |
| `PrintMeaning.PrintsDecimal` | gnu-efi/lib/print.c:1191-1198 | the format %d, for every argument |
| `PrintMeaning.PrintsCommas` | gnu-efi/lib/print.c:1128-1130 | the format %,ld, for every argument |
| `PrintMeaning.PrintsEightDigits` | gnu-efi/lib/print.c:1144-1146 | the formats %08x and %X: exactly eight digits that denote the argument modulo 2^32 |
| `PrintMeaning.PrintsAligned` | gnu-efi/lib/print.c:1148-1163 | the format %6d: the number at the right of six units or more |
| `PrintMeaning.PrintsField` | gnu-efi/lib/print.c:1132-1142 | the formats %.3s and %-.3s: exactly three units of the string, or spaces in front or behind |
| `PrintMeaning.PrintsWidthArgument` | gnu-efi/lib/print.c:1136-1138 | the format %*x: the width is an argument in front of the number |
| `PrintMeaning.PrintsSigns` | gnu-efi/lib/print.c:1119-1126 | a doubled percent sign is one, and an unknown conversion a question mark |
| `PrintMeaning.LineEnds` | gnu-efi/lib/print.c:941-944 | a newline gets a carriage return in front, and nothing else does |
| `PrintMeaning.ColourForTheRest` | gnu-efi/lib/print.c:1200-1236 | %E, %H and %N put the text behind in the colour for errors, for highlights, or the normal one |
| `PrintMeaning.ColourForTheField` | gnu-efi/lib/print.c:1204-1240 | %e, %h and %n ask for those colours within an item |
| `PrintAppend.RenderShift` | gnu-efi/lib/print.c:1094-1115 | what a format renders to does not depend on what stands in front of it |
| `PrintAppend.RenderAppend` | gnu-efi/lib/print.c:1094-1320 | the concatenation of two formats renders to the text of the first and that of the second with the arguments left |
| `PrintSinks.PoolString.AppendCut` | gnu-efi/lib/print.c:313-352 | the string grows by the chunk, cut to the limit, and is terminated; nothing behind is touched |
| `PrintSinks.PoolString.Reallocate` | gnu-efi/lib/misc.c:56-79 | a copy of what fits the new size if memory is granted, and null if not or for size zero |
| `PrintSinks.PoolString.AppendGrowing` | gnu-efi/lib/print.c:355-397 | the string grows by the whole chunk, with memory for 200 units more if it has to be moved, or is lost when that is not granted |
| `PrintSinks.PoolString.TakeCut` | gnu-efi/lib/print.c:313-352 | cutting chunk by chunk is cutting the whole |
| `PrintSinks.PoolString.TakeGrowing` | gnu-efi/lib/print.c:355-397 | without a refusal the string grows by all chunks; otherwise it holds those behind the last refusal |
| `PrintSinks.UnicodeVSPrint` | gnu-efi/lib/print.c:423-463 | from four bytes on the first size/2-1 units or the whole text, and a terminator; nothing for two or three bytes; all below two; nothing behind the size is written |
| `PrintSinks.CatPrint` | gnu-efi/lib/print.c:566-600 | without a refusal the string grows by the text of the format and is terminated |
| `PrintSinks.CatPrintRun` | gnu-efi/lib/print.c:566-600 | after any run of calls without a refusal the string holds all outputs |
| `LinkList.InitializeListHead` | gnu-efi/inc/efilink.h:43-45 | an empty list |
| `LinkList.IsListEmpty` | gnu-efi/inc/efilink.h:54-55 | true exactly when the list has no entries |
| `LinkList.Rotate` | gnu-efi/inc/efilink.h:28-31 | a ring can be read from any of its entries |
| `LinkList.InsertTailList` | gnu-efi/inc/efilink.h:90-98 | the entry stands at the end, the rest as before |
| `LinkList.InsertHeadList` | gnu-efi/inc/efilink.h:108-116 | the entry stands at the front, the rest as before |
| `LinkList.RemoveEntryList` | gnu-efi/inc/efilink.h:64-80 | the ring without that entry; an entry alone keeps its ring |
| `LinkList.SwapListEntries` | gnu-efi/inc/efilink.h:126-139 | the second entry has moved in front of the first if and only if it did not stand there already |
| `LinkList.SwapInList` | gnu-efi/inc/efilink.h:126-139 | the same for a list with a head: the other entries keep their order |
| `LinkList.Run` | gnu-efi/inc/efilink.h:64-116 | over every run of inserts and removals the list is a ring with the entries that the run leaves |
| `LinkList.WalkForward` | gnu-efi/inc/efilink.h:28-31 | forward links visit the entries in order |
| `LinkList.WalkBackward` | gnu-efi/inc/efilink.h:28-31 | backward links visit them in reverse |
| `Smbios.GetString` | gnu-efi/lib/smbios.c:84-135 | string n is the n-th encoded string; a number behind the last moves to the next structure; number one without strings is the empty string |
| `Smbios.FindString` | gnu-efi/lib/smbios.c:105-134 | the walk through the strings, against the encoding of the set |
| `Smbios.FindsFirstSystem` | gnu-efi/lib/smbios.c:48-79 | in a table of the stated length the search finds the first Type 1 record, at its place, if and only if it has a UUID |
| `Smbios.OldRecordHides` | gnu-efi/lib/smbios.c:50-55 | a table in which an old record hides a new one |
| `Smbios.IdentityByFields` | gnu-efi/inc/libsmbios.h:76-89 | for a record given by its named fields, the identity is its UUID and the string of its serial number |
| `Smbios.OldRecordIsShort` | gnu-efi/lib/smbios.c:50-55 | a record that ends with the serial number is not accepted |
| `Smbios.GetSystemGuidAndSerialNumber` | gnu-efi/lib/smbios.c:29-82 | terminates, stays within the table, and returns the UUID of the record that the search stops at and the place in that record of the string that is its serial number, or nothing; number one without strings is the empty string |
| `GrowBuffer.GrowBuffer` | gnu-efi/lib/misc.c:131-200 | one step: the old buffer is freed before a new one is taken, and the status that results |
| `GrowBuffer.Retry` | gnu-efi/lib/misc.c:227-229 | at most one buffer is held at any time, of the size the firmware is told; null exactly on errors if and only if the first size is not zero; the status is the firmware's unless there was no memory; at most two calls if the size needed is stable |
| `GrowBuffer.LibGetVariableAndSize` | gnu-efi/lib/misc.c:242-281 | the size and the buffer of the last answer, or zero and nothing held; the first call offers 100 bytes |
| `GrowBuffer.LibLocateHandle` | gnu-efi/lib/hand.c:57-102 | the number of handles of the last answer, or zero and nothing held; the first call offers room for 50 |
| `Machine.StatusCodes` | gnu-efi/inc/efierr.h:28-43 | the status codes as numbers; errors have the top bit |
| `ProtocolInstall.InstalledSnoc` | gnu-efi/lib/hand.c:466-490 | installing one more pair adds exactly its entry |
| `ProtocolInstall.InstalledValues` | gnu-efi/lib/hand.c:466-490 | every pair is found on the handle, and what was in the database before is still there |
| `ProtocolInstall.TakeOut` | gnu-efi/lib/hand.c:498-507 | the database is as before the installation if and only if no interface was refused |
| `ProtocolInstall.LibInstallProtocolInterfaces` | gnu-efi/lib/hand.c:437-519 | an error exactly when an interface could not be installed; all pairs on one handle, or the old handle and, unless the firmware refuses an interface, the old database; the priority level is restored |
| `Relocation.FindTable` | gnu-efi/gnuefi/reloc_x86_64.c:52-71 | the last entry of each tag counts |
| `Relocation.WholeTable` | gnu-efi/gnuefi/reloc_x86_64.c:79-96 | a table of k entries takes k rounds |
| `Relocation.AddedCounts` | gnu-efi/gnuefi/reloc_x86_64.c:79-96 | every word grows by the base once for each entry that names it, modulo 2^64, and no other changes |
| `Relocation.OrderIrrelevant` | gnu-efi/gnuefi/reloc_x86_64.c:79-96 | entries in another order make the same image |
| `Relocation.SameImage` | gnu-efi/gnuefi/reloc_aarch64.c:78-95 | with at most one entry for a word, adding and storing make the same image if and only if the words hold the addends |
| `RelocationTable.PlaceRead` | gnu-efi/gnuefi/reloc_x86_64.c:52-71 | tag 7 gives the place of the table, 8 its size and 9 the size of an entry, each by its last entry |
| `RelocationTable.PlaceMissing` | gnu-efi/gnuefi/reloc_x86_64.c:47-50 | what is missing counts as zero, and no table as none |
| `RelocationTable.StatusValues` | gnu-efi/gnuefi/reloc_x86_64.c:73-77 | a load error exactly when only one of table and entry size is there |
| `RelocationTable.TableRead` | gnu-efi/gnuefi/reloc_x86_64.c:79-96 | a table of 24-byte entries is read as it was written |
| `RelocationTable.ImageOfX86` | gnu-efi/gnuefi/reloc_x86_64.c:79-96 | every word grows by the base once for each entry of type 8 that names it, modulo 2^64 |
| `RelocationTable.ImageOfAarch64` | gnu-efi/gnuefi/reloc_aarch64.c:78-95 | a word that an entry of type 1027 names holds base and addend, and a word that none names is as it was |
| `Relocation.RelocateX86` | gnu-efi/gnuefi/reloc_x86_64.c:43-98 | the status for a missing table or entry size, and the image with the base added, although the table is read from the image that changes |
| `Relocation.RelocateAarch64` | gnu-efi/gnuefi/reloc_aarch64.c:42-97 | the same with base and addend stored |
| `HeapModel.SlotBounds` | kernel/src/mem/heap.c:173-183 | the size class is the number of the highest bit |
| `HeapOps.AllocateKeeps` | kernel/src/mem/heap.c:224-265 | the invariant is kept; exactly one block, of the rounded size and less than a chunk more, is added to those in use, or nothing changes |
| `HeapFit.RoundedLeast` | kernel/src/mem/heap.c:226-228 | a request becomes the least multiple of four that is not below it nor below 16; the last three sizes become 16 |
| `HeapFit.RefusedExactly` | kernel/src/mem/heap.c:231-246 | a request is refused if and only if no free block reaches the least power of two that is not below its rounded size |
| `HeapFit.PowerIsEnough` | kernel/src/mem/heap.c:231-246 | a free block of any power of two that is not below it is enough |
| `HeapFit.LessThanTwice` | kernel/src/mem/heap.c:238-248 | the block taken is less than twice as long as any free block that would have done |
| `HeapFit.FrontIsTaken` | kernel/src/mem/heap.c:248-264 | the front of a free block is given out behind the same header; a rest of 40 bytes or more becomes a free block, and no other block changes |
| `HeapFit.FreedIsFirst` | kernel/src/mem/heap.c:305-323 | a freed chunk, joined with its neighbours, is the first of its list |
| `HeapFit.FreedIsNext` | kernel/src/mem/heap.c:248-323 | of its size class, the chunk freed last is given out next |
| `HeapFit.AlignedInside` | kernel/src/mem/heap.c:205-206 | the ends of the heap are the multiples of four nearest to the memory's, on the inside |
| `HeapOps.TwiceIsEnough` | kernel/src/mem/heap.c:231-246 | a free block of twice the size is always enough |
| `HeapOps.RoundedExactly` | kernel/src/mem/heap.c:226-228 | the rounded request is not below the request if and only if that is at most 2^64-4 |
| `HeapOps.ReleaseKeeps` | kernel/src/mem/heap.c:296-326 | the invariant is kept, and exactly the freed block is no longer in use |
| `HeapRuns.FreeUndoesAllocate` | kernel/src/mem/heap.c:224-326 | freeing what was just allocated gives back the very same heap, lists included |
| `HeapRuns.RunKeeps` | kernel/src/mem/heap.c:199-326 | the invariant holds in every state of every legal run |
| `HeapRuns.Disjoint` | kernel/src/mem/heap.c:166-171 | blocks do not overlap |
| `HeapRuns.InitialValid` | kernel/src/mem/heap.c:199-222 | the initial heap satisfies the invariant |
| `HeapRuns.DrainedIsInitial` | kernel/src/mem/heap.c:199-326 | after every legal run that has freed everything, the heap is the initial one |
| `HeapRuns.RefusedThoughLargeEnough` | kernel/src/mem/heap.c:231-246 | a heap with 24 free bytes that refuses a request for 20 |
| `HeapResize.GrantedLength` | kernel/src/mem/heap.c:166-171 | the new block is as long as the request was granted, which can be told before the call |
| `HeapResize.ResizeKeeps` | kernel/src/mem/heap.c:277-294 | the heap is spoiled if and only if a block shorter than the old one is granted; otherwise the invariant is kept, and the old block is no longer in use and the new one is, or nothing changes |
| `HeapResize.CopyInsideExactly` | kernel/src/mem/heap.c:284-291 | the bytes copied end before the next chunk if and only if the old block is no longer than what is granted |
| `HeapResize.GrowingIsSafe` | kernel/src/mem/heap.c:284-291 | they do for every request of at least the old size, up to 2^64-4 |
| `HeapResize.ShrinkingOverruns` | kernel/src/mem/heap.c:284-291 | they do not for a request smaller by a chunk or more |
| `HeapRuns.ShrinkingExample` | kernel/src/mem/heap.c:284-291 | a block of 100 bytes moved to one of 16, in a heap that a run reaches, spoils it |
| `HeapResize.ClearInsideExactly` | kernel/src/mem/heap.c:267-275 | the bytes cleared are in the block if and only if the request is at most 2^64-4 |
| `HeapBytes.BlocksApart` | kernel/src/mem/heap.c:166-171 | two blocks in use do not overlap, nor does one reach into the header of the other |
| `HeapBytes.ContentsMoved` | kernel/src/mem/heap.c:277-294 | the bytes of the old block stand at the start of the new one, which is in use and long enough |
| `HeapBytes.BlockKept` | kernel/src/mem/heap.c:224-326 | over every legal run a block that is neither freed nor moved stays in use, and no call for another block changes a byte of it |
| `HeapLayout.WriteInside` | kernel/src/mem/heap.c:140-154 | whatever is written inside a block in use, the headers of all chunks and the links of all lists stay in memory as they were |
| `HeapLayout.CopyKeepsLinks` | kernel/src/mem/heap.c:284-291 | the copy keeps those links, whatever the old block holds, if and only if the old block is no longer than what is granted |
| `KernelLists.InsertBefore` | kernel/src/mem/heap.c:35-44 | the four link writes put one ring in front of an entry of another |
| `KernelLists.InsertAfter` | kernel/src/mem/heap.c:24-33 | the four link writes put one ring behind an entry of another |
| `KernelLists.Remove` | kernel/src/mem/heap.c:46-52 | the ring without the entry, which is a ring alone; also for an entry that is alone |
| `KernelChunks.Heap.Push` | kernel/src/mem/heap.c:54-60 | the list of a size class gets the chunk as its head; the other rings and headers stay as they are |
| `KernelChunks.Heap.Pop` | kernel/src/mem/heap.c:62-73 | the head is taken, and the list is empty or starts with the next |
| `KernelChunks.Heap.RemoveFrom` | kernel/src/mem/heap.c:75-81 | the list without the chunk, wherever it stands |
| `KernelChunks.Heap.InsertChunk` | kernel/src/mem/heap.c:252-254 | a header is made in the memory of a chunk and linked behind it; all lists stay as they are |
| `KernelChunks.Heap.RemoveChunk` | kernel/src/mem/heap.c:46-52 | the ring of all chunks without one; all lists stay as they are |
| `KernelHeap.ChunkSlot` | kernel/src/mem/heap.c:173-183 | the halving loop computes the size class |
| `KernelHeap.HeapInit` | kernel/src/mem/heap.c:205-221 | two sentinels and one free chunk in the aligned memory between them, linked as one ring and filed |
| `KernelHeap.Malloc` | kernel/src/mem/heap.c:224-265 | the rings spell the state, and the result is the address, that the specification gives; null exactly when no list that is searched has a chunk |
| `KernelHeap.Free` | kernel/src/mem/heap.c:296-326 | the rings spell the state that the specification gives, joined with both neighbours where they are free |
| `KernelHeap.Realloc` | kernel/src/mem/heap.c:277-294 | unless a block shorter than the old one is granted, the rings spell the state, and the memory holds the bytes, that the specification gives; a heap that is written over is not known any more |
| `KernelHeap.RunCalls` | kernel/src/mem/heap.c:224-326 | over every legal run of kmalloc, kfree and krealloc the rings and the bytes of the blocks are what the run of the specification gives, so that its invariant and its round trips hold of them |

## Left out

- DevicePathAppend.AppendDevicePath: requires that what is written fits the allocation, because the source writes past it otherwise; `AppendFits` says exactly when it fits.
- DevicePathAppend.AppendPaths: requires the same.
- DevicePathAppend.AppendDevicePathNode: requires the same.
- DevicePathOps.AppendDevicePathInstance: requires an end node without payload of the first path, because the source steps over the payload that it has not copied and writes past the allocation otherwise.  A failed allocation, which the source tests only with an `ASSERT`, gives null.
- Bytes.CopyMem: the null pointers, for which the source does nothing, are left to the callers.
- Glob.MetaMatch: requires that every `[` has its `]`, because the source reads past the terminator otherwise.
- PrintFormat.Print: requires complete % items and arguments of the right kinds, because the source reads past them otherwise.
- PrintSinks.UnicodeVSPrint: the chunks are handed over after the engine has run, not while it runs; engine and sink share no state.
- Relocation.RelocateX86: requires positive entry sizes in whole words and targets that are whole words of the image outside of the table; otherwise the source reads beyond the table, at odd addresses, or entries that it has changed.
- Relocation.RelocateAarch64: requires the same.
- KernelHeap.Malloc: the spin lock around each call is not modelled.
- KernelHeap.Realloc: headers are objects and the bytes of the blocks an array, so that the bytes of a copy that leaves its block are not followed into the headers; `HeapLayout.CopyKeepsLinks`, on one memory for both, says exactly when that happens.
- KernelHeap.RunCalls: runs with a call that spoils the heap are not legal.
- KernelHeap.HeapInit: requires memory for three chunks, of less than 2^32 bytes, at an address above zero, which the source's constants give; the mapping of the pages is left out.
- Device path to text, and the text of status codes, GUIDs, times and floating-point numbers, which the printer takes as given.
- `LibReinstallProtocolInterfaces`, `LibUninstallProtocolInterfaces`, `LibLocateHandleByDiskSignature` and `LibMemoryMap`, which repeat the shapes above.
- The lookup of the SMBIOS table among the system's configuration tables.
- Freeing of scratch buffers in the device path routines.
- Sizes and lengths that would not fit a 64-bit address space, in buffers and strings.
- The boot loader's main routine, console and disk access, the page and frame managers, the scheduler, the file system, and the shell.
