# Verified models of the WaifuOS boot library and kernel console

Dafny models of the algorithms at the core of WaifuOS and of the gnu-efi library
it boots with, each proved against a specification that does not mention the code:

* `CrcBits`, `CrcRegister`, `CrcTable`, `Crc32`, `CrcResidue`, `CrcDetection` - the table-driven
  CRC-32 of EFI table headers (section 4.2 of the UEFI 2.4 Specification, section 8 of RFC 1952)
  against long division of polynomials over two elements, with its residue, its check value and
  its error detection.
* `DevicePathFormat`, `DevicePath`, `DevicePathAppend`, `DevicePathUnpack`,
  `DevicePathMatch`, `DevicePathBytes` - the device path code (section 9.3 of the UEFI 2.4 Specification),
  raw byte buffers against a decoder into nodes and instances.
* `MetaMatch`, `MetaPieces` - the wildcard matcher against the existence of a cut into words,
  and over patterns written from pieces.
* `Digits`, `WideStrings`, `Numbers`, `PrintFormat`, `FormatPieces`, `PrintedNumbers`, `Print`,
  `PrintExamples` - the number printers and readers and the print engine: format state machine, 200-character
  buffer, truncating and growing output; the format language against formats written from
  pieces.
* `Terminal`, `ConsoleImage`, `Console` - the kernel text console: an in-place scrolled
  framebuffer and a cursor overlay against an abstract terminal grid, and the grid against
  an unbounded sheet of paper.
* `KernelStrings`, `KernelFormat` - the kernel's number texts and `format`, whose write
  position wraps around modulo 2^64 on purpose.
* `LinkedList` - the circular list macros on heap nodes against sequences.
* `Handles`, `Pool` - transactional protocol installation and the grow-and-retry buffer
  loops, against a handle database and a pool whose services may refuse.
* `ByteWords`, `Relocate` - the self-relocators for x86-64, AArch64 and MIPS over byte
  memory.

Code that changes state in the repository is a method over arrays or objects here; its
contract ties the new state to a specification function, and the lemmas are about those
functions. `dafny verify dfyconfig.toml` checks everything.

## Conventions of the model

* Machine integers are written out: `Word` is reduction modulo 2^64, `Signed` the two's
  complement reading; C division truncates (`TruncDiv`). Signed overflow, undefined in
  C, is taken to wrap (negating INT64_MIN, `value *= 10` in `_ToIntBase10`).
* The answers of the pool, of boot services and of runtime services are parameters
  (`allocOk`, `grants`, `fails`, `data`); every theorem holds for all of them.
* NULL is `None`, 0 or a nullable array, as the code needs.
* A framebuffer pixel (x, y), at `x + y * PixelsPerScanline` in the source, is element
  `[y, x]` of a two-dimensional array.
* Loops over bytes inside `CopyMem`, `memcpy`, `memset64`, `StrLen` and `strlen` are
  methods of the model; their assembly is not.

## Where the code decides otherwise than its comments

* `AppendDevicePath` says each instance of Src1 gets Src2 appended. It copies the END node
  of Src2 along, so a reader stops there: `PromiseKeptIff`. It also writes past its
  allocation when there are several instances and Src2 is longer: `FitsAllocationIff`,
  `OverflowExample`.
* `VSPrint` says a StrSize of 0 means no limit. So does 1, and with 2 or 3 nothing is
  written, not even a terminator: `VSPrintLimits`, `VSPrint`.
* `VPoolPrint` loses the beginning of the text when an allocation is refused and a later one
  granted, and does not say so: `VPoolPrint`, `NothingLostIff`, `FirstRefused`, `LostExample`.
* `SwapListEntries` cuts Entry2 off when it already is Entry1's predecessor.
* `LibReinstallProtocolInterfaces` undoes in forward order, which restores a repeated
  protocol only sometimes (`UndoneIffRewound`, `UndoneIff`, `RestoredExample`), and passes the
  pointer to the handle where the service takes the handle; the model's `h` is whatever
  value is passed.
* A `%` in `cstr::format` that starts no directive leaves a NUL in the buffer, so the rest
  is invisible: `VisibleIffNoStray`.
* The decimal digits of INT64_MIN come out as characters below '0', and still read back:
  `DecimalTextIsPlainIff`, `ToIntUndoesToString`.
* `WriteChar` with the cursor shown in the last cell scrolls the cursor's image along: it stays
  on the line above until that is printed over, scrolled off or cleared, and what it covered
  comes back on the new line: `PrintChar`, `ScrolledImageIff`, `LeaveCursorBehind`.
* `Backspace` erasing with the cursor shown in the first cell brings back the part of the old
  character that was under the cursor: `EraseAtHome`, `ErasedBlock`.
* The node copied by `UnpackDevicePath` claims length 0 when its length rounds up to 65536,
  and the copy cannot be read beyond it: `UnpackDevicePath`, `ReaderStops`.

## Model

| member | source | states |
|---|---|---|
| `CrcRegister.RunIsRemainder` | Bootloader/lib/crc.c:206-218 | The bit-serial register after a whole message is the remainder of the schoolbook polynomial division, for every start value and message. |
| `CrcTable.TableIsEightSteps` | Bootloader/lib/crc.c:22-66 | Each of the 256 table literals is eight shift-and-subtract steps with the reflected polynomial 0xEDB88320. |
| `CrcTable.TableStep` | Bootloader/lib/crc.c:212-212 | The lookup `(Crc >> 8) ^ CRCTable[...]` advances the register by the eight bits of one byte. |
| `Crc32.CalculateCrc` | Bootloader/lib/crc.c:201-218 | On every byte string the table-driven loop computes the CRC-32 of RFC 1952 section 8, defined by division. |
| `CrcResidue.EmptyChecksum` | Bootloader/lib/crc.c:201-218 | The checksum of the empty message is 0. |
| `CrcResidue.CheckValue` | Bootloader/lib/crc.c:201-218 | The checksum of the nine characters 1 to 9 is 0xCBF43926, the check value of the CRC-32. |
| `CrcResidue.Residue` | Bootloader/lib/crc.c:201-218 | For every message, the checksum of the message followed by its own checksum is the constant 0x2144DF1C. |
| `CrcResidue.AppendOwnCrc` | Bootloader/lib/crc.c:201-218 | The same on bytes: whatever the message, running the loop on it, appending the four bytes lowest first and running it again gives the residue. |
| `Crc32.SetCrcAltSize` | Bootloader/lib/crc.c:93-116 | The stored word becomes the checksum of the covered bytes with a zeroed field; every other byte is untouched. |
| `Crc32.CheckCrcAltSize` | Bootloader/lib/crc.c:146-198 | TRUE exactly when the size is nonzero, within MaxSize, and the stored word is the checksum; the table is left as it was. |
| `Crc32.SetCrc` | Bootloader/lib/crc.c:70-91 | The same with the size read from the header, which stamping does not change. |
| `Crc32.CheckCrc` | Bootloader/lib/crc.c:119-141 | The same decision with the size read from the header. |
| `CrcResidue.StoredInBytes` | Bootloader/lib/crc.c:183-186 | The stored word is that of bytes 16 to 19, lowest first. |
| `CrcResidue.AcceptsInBytes` | Bootloader/lib/crc.c:146-198 | A table passes exactly when bytes 16 to 19 are the checksum of its first Size bytes with zeros in their place. |
| `CrcResidue.HeaderSizeInBytes` | Bootloader/lib/crc.c:141-141 | The size taken from the header is that of bytes 12 to 15, lowest first. |
| `Crc32.StampThenCheck` | Bootloader/lib/crc.c:93-198 | A stamped table passes the check, unless its size is 0 or over the limit. |
| `CrcRegister.RunLinear` | Bootloader/lib/crc.c:201-218 | The register is linear over XOR: sums of messages and start values give sums of registers. |
| `CrcRegister.RunInjective` | Bootloader/lib/crc.c:201-218 | For a fixed message different start values never meet. |
| `CrcRegister.BurstOfBits` | Bootloader/lib/crc.c:201-218 | Messages that differ only inside 32 consecutive bits leave different registers, whatever surrounds them. |
| `CrcDetection.BurstDetected` | Bootloader/lib/crc.c:93-198 | After a table passes, any real change to at most four consecutive covered bytes outside the CRC32 field makes the check fail, for every length. |
| `CrcDetection.FieldDamageDetected` | Bootloader/lib/crc.c:146-198 | Any change of the CRC32 field alone makes the check fail. |
| `CrcDetection.UndetectedIffDivisible` | Bootloader/lib/crc.c:146-198 | A change outside the field escapes exactly when its difference is divisible by the polynomial. |
| `DevicePathFormat.DecodeEncoded` | Bootloader/inc/efidevp.h:50-57 | Decoding finds exactly the path that was encoded, at any offset and whatever follows it. |
| `DevicePathFormat.EncodeDecoded` | Bootloader/inc/efidevp.h:50-57 | Whatever decodes is a complete path and the bytes there are its encoding. |
| `DevicePathFormat.SizesSumToPath` | Bootloader/lib/dpath.c:48-121 | Instance sizes plus four bytes each add up to the size of the path. |
| `DevicePathFormat.InstancesOfJoin` | Bootloader/lib/dpath.c:397-433 | Turning the END of a path into an END_INSTANCE and appending another path concatenates their instance lists. |
| `DevicePathFormat.UnpackKeepsAndAligns` | Bootloader/lib/dpath.c:336-394 | Every unpacked node lies on an aligned offset and keeps payload, subtype and masked type; what is added is zeros. |
| `DevicePathFormat.UnpackTwice` | Bootloader/lib/dpath.c:336-394 | Unpacking an unpacked path changes nothing. |
| `DevicePathFormat.BytePrefix` | Bootloader/lib/dpath.c:1209-1229 | The bytes of an instance start the bytes of a path exactly when its nodes start the nodes of the path. |
| `DevicePathBytes.EndMarkers` | Bootloader/inc/efidevp.h:42-45 | The marker between instances is 7F 01 04 00, the END node 7F FF 04 00. |
| `DevicePathBytes.EndBytes` | Bootloader/inc/efidevp.h:47-57 | A node has an end type exactly for type bytes 7F and FF, and ends the path exactly with subtype FF besides. |
| `DevicePathBytes.EncodedBytes` | Bootloader/inc/efidevp.h:26-64 | A node is its type, its subtype, its length from the low byte to the high one, and its data. |
| `DevicePathBytes.DecodedBytes` | Bootloader/inc/efidevp.h:50-57 | Reading fails at a length below 4 and at the end of memory and stops at the END node, told by bytes. |
| `DevicePathBytes.InstancesInBytes` | Bootloader/lib/dpath.c:48-121 | A marker ends an instance, the END node the last one; every other node belongs to the instance it stands in. |
| `DevicePathBytes.CappedAt513` | Bootloader/lib/dpath.c:66-82 | The walk goes over up to 513 nodes of one instance. |
| `DevicePathBytes.JoinedInBytes` | Bootloader/lib/dpath.c:397-433 | The bytes of a path with another appended are those of both, with the FF of the first END changed to 01. |
| `DevicePathBytes.WrittenInBytes` | Bootloader/lib/dpath.c:169-191 | Each instance is written with all of Src2 behind it, followed by 7F 01 04 00, or by 7F FF 04 00 for the last. |
| `DevicePathBytes.UnpackedInBytes` | Bootloader/lib/dpath.c:360-389 | An unpacked node in bytes: bit 7 of the type set, subtype and data as before, zeros up to the next multiple of the alignment, and that length in the header. |
| `DevicePath.DevicePathInstance` | Bootloader/lib/dpath.c:48-106 | Returns the start and size of the first instance and the pointer behind its end marker, NULL after the END node; the 513-node cap is never met on capped paths. |
| `DevicePath.DevicePathInstanceCount` | Bootloader/lib/dpath.c:108-121 | Counts exactly the instances. |
| `DevicePath.DevicePathSize` | Bootloader/lib/dpath.c:286-307 | Is the byte length of the whole path with its END node. |
| `DevicePath.DuplicateDevicePath` | Bootloader/lib/dpath.c:309-334 | A fresh buffer of exactly that size that decodes to the same nodes, or NULL. |
| `DevicePath.AppendDevicePathInstance` | Bootloader/lib/dpath.c:397-433 | The nodes of both paths with the END between them turned into a marker, so that their instance lists are joined, in a buffer they fill exactly; a NULL Src gives a copy. |
| `DevicePathAppend.FitsAllocationIff` | Bootloader/lib/dpath.c:163-191 | For all paths, what is written fits what was allocated exactly when Src1 has one instance or Src2 is no longer than Src1. |
| `DevicePathAppend.OverflowExample` | Bootloader/lib/dpath.c:163-191 | Two empty instances and a path of one 14-byte node: 44 bytes are written into 34. |
| `DevicePathAppend.WrittenSize` | Bootloader/lib/dpath.c:124-195 | Exactly Src1Size + n * Src2Size bytes are written for n instances. |
| `DevicePathAppend.AppendedDecodes` | Bootloader/lib/dpath.c:124-195 | A reader of the result finds the first instance of Src1 followed by all of Src2. |
| `DevicePathAppend.PromiseKeptIff` | Bootloader/lib/dpath.c:129-132 | The instance list that the comment announces is what a reader finds exactly when Src1 has a single instance. |
| `DevicePathAppend.AppendDevicePath` | Bootloader/lib/dpath.c:124-195 | The bytes written, the nodes they decode to, the NULL cases and the failed allocation. |
| `DevicePathAppend.AppendDevicePathNode` | Bootloader/lib/dpath.c:197-230 | Exactly one node is added behind the first instance. |
| `DevicePathUnpack.RunningTotal` | Bootloader/lib/dpath.c:348-359 | Rounding the running total, as the first pass does, equals the sum of the rounded lengths of the second. |
| `DevicePathUnpack.UnpackDevicePath` | Bootloader/lib/dpath.c:336-394 | For every path the buffer is filled exactly with the unpacked nodes; it decodes to them exactly when all rounded lengths fit 16 bits, and a longer node claims length 0. |
| `DevicePathUnpack.ReaderStops` | Bootloader/lib/dpath.c:378-383 | A reader of the copy does not get past a node whose rounded length needs a 17th bit. |
| `DevicePathUnpack.UnpackAgain` | Bootloader/lib/dpath.c:336-394 | Running it on its own result gives the same bytes. |
| `DevicePathUnpack.UnpackedWalkableIff` | Bootloader/lib/dpath.c:378-383 | The unpacked form of a single node can be walked exactly when its length is at most 65536 minus the alignment. |
| `DevicePathMatch.ComparisonDecides` | Bootloader/lib/dpath.c:1223-1226 | Comparing Size bytes decides the prefix relation on nodes, and a longer instance differs before the END node of Single is left. |
| `DevicePathMatch.LibMatchDevicePaths` | Bootloader/lib/dpath.c:1209-1229 | TRUE exactly when the nodes of some instance of Multi start the nodes of Single; FALSE for NULL. |
| `MetaMatch.MetaMatch` | Bootloader/lib/str.c:325-409 | Terminates and returns TRUE exactly when the string can be cut into one word per pattern token. |
| `MetaMatch.MatchSet` | Bootloader/lib/str.c:360-397 | The `[...]` case succeeds exactly when the character is covered by the set, and stops behind its bracket. |
| `MetaMatch.MatchStrings` | Bootloader/lib/str.c:325-409 | Called on whole buffers it decides the declarative relation, for every string and every pattern with closed sets. |
| `MetaPieces.InMembers` | Bootloader/lib/str.c:360-397 | A set written from single characters and ranges covers exactly those characters and, for each range, the characters from its lower to its upper end. |
| `MetaPieces.MatchesPieces` | Bootloader/lib/str.c:325-409 | A string matches a pattern written from characters, question marks, stars and sets exactly when it is made of one word for each piece. |
| `MetaPieces.FirstOfPattern` | Bootloader/lib/str.c:325-409 | What the first character of any pattern means: the end, a set, a question mark, a star, or itself. |
| `MetaPieces.DashAtTheEnds` | Bootloader/lib/str.c:372-386 | A dash in front starts a range at 0; one behind the last character stands for nothing. |
| `MetaPieces.MatchBracket` | Bootloader/lib/str.c:325-409 | `MatchStrings` on a bracket: TRUE exactly for the strings of one character that some single equals or some range has between its ends. |
| `Numbers.ValueToHex` | Bootloader/lib/print.c:1260-1288 | Leaves the upper-case numeral without leading zeros, NUL-terminated, for every 64-bit value. |
| `Numbers.ValueToString` | Bootloader/lib/print.c:1291-1333 | Leaves the decimal numeral with sign, and with commas in groups of three from the right when asked, INT64_MIN included. |
| `Numbers.PrintedGroups` | Bootloader/lib/print.c:1317-1331 | Printing digit by digit, with a comma wherever a multiple of three digits remain, gives groups of three from the right. |
| `Numbers.CountdownStep` | Bootloader/lib/print.c:1322-1331 | The countdown started at `ca[(p1 - str) % 3] + 1` reaches 0 exactly at those places and starts again at 3. |
| `Numbers.CommasOnlyDecorate` | Bootloader/lib/print.c:1291-1333 | Removing the commas gives the plain form. |
| `Numbers.Xtoi` | Bootloader/lib/str.c:267-296 | Reads the hexadecimal digits after blanks, either case, modulo 2^64, up to the first other character. |
| `Numbers.Atoi` | Bootloader/lib/str.c:298-323 | The same for decimal digits. |
| `Numbers.HexRoundTrip` | Bootloader/lib/print.c:1260-1288 | Reading a printed hexadecimal number gives it back, for all 64-bit values. |
| `Numbers.DecimalRoundTripIff` | Bootloader/lib/print.c:1291-1333 | Reading a printed decimal number gives it back exactly when it is not negative and has no comma, that is, is below 1000 if commas were asked for. |
| `Numbers.DecimalDoesNotRoundTrip` | Bootloader/lib/print.c:1291-1333 | Two values that do not read back: a negative one, and 1000 with its comma. |
| `PrintFormat.CrlfField` | Bootloader/lib/print.c:915-971 | A field goes out as padding and the characters of its text with a carriage return before each newline. |
| `FormatPieces.ExpandRenders` | Bootloader/lib/print.c:974-1253 | A format written from plain characters, attribute directives and conversions - flags in any order, width and field width as digits or `*`, % itself and unknown conversions included - expands to its rendered pieces from left to right, and takes exactly their arguments. |
| `FormatPieces.FlagsMean` | Bootloader/lib/print.c:1070-1084 | Each flag sets its own property of the item, in whatever order and however often the flags come. |
| `PrintedNumbers.HexTextIs` | Bootloader/lib/print.c:1260-1288 | Hexadecimal texts digit by digit, with the sixteen characters written out. |
| `PrintedNumbers.DecimalTextIs` | Bootloader/lib/print.c:1291-1333 | Decimal texts digit by digit, behind a sign for negative numbers. |
| `PrintedNumbers.ReadNumberIs` | Bootloader/lib/str.c:267-323 | The readers character by character: blanks, digits of either case in 64 bits, and nothing behind the first other character. |
| `PrintedNumbers.CommaPlaces` | Bootloader/lib/print.c:1291-1333 | Commas stand at every fourth place from the right and never in front. |
| `PrintedNumbers.HexConversion` | Bootloader/lib/print.c:1132-1145 | %x and %X print upper-case digits without leading zeros that read back as the argument modulo 2^32, or as all of it with l. |
| `PrintedNumbers.UnsignedConversion` | Bootloader/lib/print.c:1153-1160 | %u prints digits that read back as the argument modulo 2^32. |
| `PrintedNumbers.SignedConversion` | Bootloader/lib/print.c:1162-1169 | %d prints a minus exactly when bit 31 is set, then digits that read back as the magnitude. |
| `PrintedNumbers.LongConversion` | Bootloader/lib/print.c:1153-1169 | %ld and %lu do the same for bit 63. |
| `PrintedNumbers.CommaConversion` | Bootloader/lib/print.c:1153-1169 | With commas, the same text once they are taken out, and they stand at every fourth place from the right. |
| `PrintedNumbers.PaddedHex` | Bootloader/lib/print.c:1132-1145 | %X without a field width prints exactly 8 digits, 16 with l, that read back as the argument. |
| `PrintedNumbers.FieldForm` | Bootloader/lib/print.c:915-971 | Every character of a field: padding, the text cut to the field width, and blanks before or behind. |
| `PrintExamples.HexFormats` | Bootloader/lib/print.c:974-1253 | %x and %lx as whole formats, for every argument: what is printed reads back as its low 32 bits, and as all of it. |
| `PrintExamples.PaddedHexFormats` | Bootloader/lib/print.c:974-1253 | %X and %lX as whole formats, for every argument: exactly 8 and 16 digits that read back likewise. |
| `PrintExamples.DecimalFormats` | Bootloader/lib/print.c:974-1253 | %d and %,d print 42, -1234 and -1,234. |
| `PrintExamples.WidthFormats` | Bootloader/lib/print.c:974-1253 | %05d and %*d print 00042 and a padded 42. |
| `PrintExamples.FieldFormats` | Bootloader/lib/print.c:974-1253 | A field width puts the blanks in front, or behind with a minus. |
| `PrintExamples.TextFormats` | Bootloader/lib/print.c:1107-1126 | %c, %s, %a, and %s of NULL, with the texts written out. |
| `PrintExamples.OtherFormats` | Bootloader/lib/print.c:974-1253 | %%, a character that is no conversion, and the attribute directives. |
| `PrintExamples.CharacterFormat` | Bootloader/lib/print.c:1122-1126 | %c prints the low 16 bits of its argument, and nothing when they are 0. |
| `PrintExamples.AttributeFormats` | Bootloader/lib/print.c:1214-1226 | %N, %H and %E end at once when the device has the attribute and are read over when it has not. |
| `PrintExamples.WidthIs` | Bootloader/lib/print.c:1090-1103 | A width is read digit by digit, in 64 bits. |
| `PrintExamples.LinesOut` | Bootloader/lib/print.c:877-897 | A carriage return goes before each newline and nowhere else. |
| `Print.Sink.SPrint` | Bootloader/lib/print.c:313-352 | Appends what fits, NUL-terminates, and touches nothing behind the terminator. |
| `Print.Sink.PoolPrint` | Bootloader/lib/print.c:355-398 | One more text: appended and terminated where it fits, or in an allocation 200 characters larger when that is granted; otherwise everything so far is gone and the string is NULL. |
| `Print.PrintState.PFlush` | Bootloader/lib/print.c:846-857 | Passes on everything put out so far and empties the buffer. |
| `Print.PrintState.PPutc` | Bootloader/lib/print.c:877-897 | Puts out one character, with a carriage return before a newline, never overrunning the 200 characters. |
| `Print.PrintState.PItem` | Bootloader/lib/print.c:915-971 | Puts out the item truncated to its field width, padded to its width, and placed in its field. |
| `Print.PrintState.PrintDirective` | Bootloader/lib/print.c:1045-1245 | One directive puts out exactly the text its flags, widths and conversion stand for, and takes exactly its arguments. |
| `Print.PrintState.Run` | Bootloader/lib/print.c:974-1253 | The whole expansion reaches the output function, cut into texts exactly at full buffers and at attributes, and its length modulo 2^64 is returned. |
| `Print.PassedIsPrinted` | Bootloader/lib/print.c:847-914 | The texts passed to the output function one by one join to the whole expansion, none is longer than the buffer, and without attributes all but the last are exactly 199 characters. |
| `Print.PassedExample` | Bootloader/lib/print.c:847-914 | The format a%n%b is passed on as two texts, the first one a: an attribute directive passes on what waits. |
| `Print.RoomForMore` | Bootloader/lib/print.c:370-380 | A granted allocation has room for exactly 200 characters more than were asked for. |
| `Print.VSPrintLimits` | Bootloader/lib/print.c:457-457 | Sizes 0 and 1 set no limit, 2 and 3 leave room for nothing, any other size leaves one place for the terminator. |
| `Print.VSPrint` | Bootloader/lib/print.c:423-463 | The buffer holds the longest prefix of the expansion that StrSize allows, terminated unless StrSize is 2 or 3, when the buffer is left as it was; nothing behind the text is touched. |
| `Print.VPoolPrint` | Bootloader/lib/print.c:503-532 | The result is NULL exactly when the last allocation is refused, and else the expansion, NUL-terminated, without what the last refused allocation lost; where allocations are asked for follows from the format, the arguments and the answers. |
| `Print.NothingLostIff` | Bootloader/lib/print.c:355-398 | Nothing is lost exactly when every refused allocation was asked for before there was anything to keep. |
| `Print.FirstRefused` | Bootloader/lib/print.c:355-398 | When only the first allocation is refused, exactly the first text passed on is lost. |
| `Print.LostExample` | Bootloader/lib/print.c:355-398 | Texts a and b, the first allocation refused: allocations are asked for at 1 and 2 characters, and one is lost. |
| `Print.LoseBeginning` | Bootloader/lib/print.c:355-398 | Those two texts passed on to a pool that refuses its first allocation leave the string b. |
| `ConsoleImage.QuotientIsDivision` | Kernel/src/PrimitiveConsole.cpp:11-12 | The grid size, defined by repeated subtraction, is the quotient the constructor computes. |
| `ConsoleImage.GridSizeIs` | Kernel/src/PrimitiveConsole.cpp:11-12 | As many cells as fit, each half as wide as high. |
| `ConsoleImage.GlyphInBuffer` | Kernel/src/PrimitiveConsole.cpp:76-97 | Row dy of a glyph is byte chr * charsize + dy of the font, its highest bit leftmost; what is wider than 8 pixels is background. |
| `ConsoleImage.PlainPixel` | Kernel/src/PrimitiveConsole.cpp:29-97 | Every pixel of the picture of a plain text of any length, scrolled or not, from the bytes of the font and the sizes alone. |
| `ConsoleImage.ShadeOfPut` | Kernel/src/PrimitiveConsole.cpp:76-97 | Putting a cell into the grid repaints exactly the pixels of that cell. |
| `ConsoleImage.ShadeOfScroll` | Kernel/src/PrimitiveConsole.cpp:143-167 | The picture of the scrolled grid is the picture moved up by one glyph over background, even when the height is no multiple of the glyph size. |
| `Terminal.ScrolledAway` | Kernel/src/PrimitiveConsole.cpp:169-182 | Scrolling by n drops the top n lines, and all of them from the grid height on, which is what Clear leaves. |
| `Terminal.ScreenShowsPaper` | Kernel/src/PrimitiveConsole.cpp:29-75 | For every text, the grid is the last lines of an unbounded sheet on which nothing is ever dropped. |
| `Terminal.HistoryIsFinal` | Kernel/src/PrimitiveConsole.cpp:29-75 | Nothing that is written later changes a line that has scrolled off. |
| `Terminal.PlainTextLayout` | Kernel/src/PrimitiveConsole.cpp:29-75 | Character i of a plain text stands on line i / width in column i % width, and all else is blank. |
| `Terminal.StepIs` | Kernel/src/PrimitiveConsole.cpp:29-75 | The control characters by their codes: 10 a line, 8 back, 9 four spaces, 0 nothing; any other is put where the cursor is. |
| `Terminal.NewLinesIs` | Kernel/src/PrimitiveConsole.cpp:126-141 | n lines further down, or as far as the last one with the rest scrolled away, row by row. |
| `Terminal.BackIsOnePlaceLess` | Kernel/src/PrimitiveConsole.cpp:184-222 | A backspace is one place less in reading order, stopping at the first cell. |
| `Terminal.BackTimesPlace` | Kernel/src/PrimitiveConsole.cpp:184-222 | n backspaces, erasing or not, are n places less, stopping at the first cell. |
| `Terminal.ErasesElsewhereIff` | Kernel/src/PrimitiveConsole.cpp:184-222 | Going back from the cursor never erases the cell it started from, except at home, where it cannot go back. |
| `Console.PrimitiveConsole.PutChar` | Kernel/src/PrimitiveConsole.cpp:76-97 | Every pixel of the cell gets the glyph or background colour and no other pixel changes. |
| `Console.PrimitiveConsole.PutCharPixel` | Kernel/src/PrimitiveConsole.cpp:76-97 | Pixel (dx, dy) of the cell is the foreground exactly when dx is below 8 and bit 7 - dx of byte chr * charsize + dy of the font is set. |
| `Console.PrimitiveConsole.ScrollDown` | Kernel/src/PrimitiveConsole.cpp:143-167 | The framebuffer moves up by the glyph height and the last rows become background. |
| `Console.PrimitiveConsole.ScrollDownLines` | Kernel/src/PrimitiveConsole.cpp:169-182 | Shows the grid scrolled by that many lines; clearing when all are scrolled away sends the cursor home. |
| `Console.PrimitiveConsole.Clear` | Kernel/src/PrimitiveConsole.cpp:224-239 | Every pixel gets the colour, the cursor goes home. |
| `Console.PrimitiveConsole.NewLine` | Kernel/src/PrimitiveConsole.cpp:126-141 | Refines moving to the start of a lower line with scrolling, with the cursor shown or not. |
| `Console.PrimitiveConsole.Backspace` | Kernel/src/PrimitiveConsole.cpp:184-222 | For every count, erasing or not, cursor shown or not: n places less; every pixel is that of the erased grid except that pixels saved from under a drawn cursor come back; the picture is right when no erased cell is the one the cursor was drawn in, so always when the cursor stands where it is drawn and not at home. |
| `Console.PrimitiveConsole.EraseAtHome` | Kernel/src/PrimitiveConsole.cpp:184-222 | Erasing with the cursor drawn at home: its three rows of the old character come back. |
| `ConsoleImage.ErasedBlock` | Kernel/src/PrimitiveConsole.cpp:184-222 | A screen of one cell with a full block: the cursor pixel (0, 13) is lit before and should be blank after. |
| `Console.PrimitiveConsole.PrintChar` | Kernel/src/PrimitiveConsole.cpp:54-73 | Refines printing a cell and advancing. With the cursor shown in the last cell every pixel is stated: its image stays on the line above and what it covered comes back on the new line; so with visible colours and at least two columns and rows the picture stays right exactly when the cursor is not shown in the last cell. |
| `ConsoleImage.ScrolledImageIff` | Kernel/src/PrimitiveConsole.cpp:54-73 | For every size and colour, the picture left there is right exactly when nothing stood at the start of the last line and the image is off the screen, overwritten or of the background colour. |
| `Console.LeaveCursorBehind` | Kernel/src/PrimitiveConsole.cpp:54-73 | A screen of two by two cells: after printing in the last one the first, blank cell shows the cursor. |
| `Console.PrimitiveConsole.WriteChar` | Kernel/src/PrimitiveConsole.cpp:29-74 | Refines one step of the abstract terminal in every state; with the cursor shown the picture stays right as long as nothing is printed in the last cell, and for a printed character, visible colours and at least two columns and rows only then. |
| `Console.PrimitiveConsole.Write` | Kernel/src/PrimitiveConsole.cpp:104-108 | The same for a whole text. |
| `Console.PrimitiveConsole.ShowText` | Kernel/src/PrimitiveConsole.cpp:29-239 | From a cleared screen, after any text the framebuffer is the picture of the grid that the terminal reaches. |
| `Console.PrimitiveConsole.ShowPlainText` | Kernel/src/PrimitiveConsole.cpp:29-239 | From a cleared screen, every pixel after a plain text of any length, from the bytes of the font: the last lines of it, each of as many characters as fit. |
| `Console.PrimitiveConsole.UpdateCursor` | Kernel/src/PrimitiveConsole.cpp:287-331 | Draws three rows of the foreground at the cursor; every other pixel, and every one under it, is that of the picture before. |
| `Console.PrimitiveConsole.EnableCursor` | Kernel/src/PrimitiveConsole.cpp:333-338 | Exactly rows 13 to 15 of the 8 by 16 pixels at the cursor become the foreground; the picture under them is kept. |
| `Console.PrimitiveConsole.DisableCursor` | Kernel/src/PrimitiveConsole.cpp:340-365 | Puts every covered pixel back. |
| `Console.PrimitiveConsole.ShowCursor` | Kernel/src/PrimitiveConsole.cpp:287-413 | Any run of moves and updates between enabling and disabling leaves the framebuffer as it was, whatever it shows. |
| `Console.PrimitiveConsole.MoveCursor` | Kernel/src/PrimitiveConsole.cpp:367-413 | Left and right are one place in reading order, clamped; down is clamped; up from the first line goes home; the cursor stays in the grid. |
| `KernelStrings.ToIntBase10` | Kernel/src/cstr.cpp:306-325 | Reads a signed decimal text modulo 2^64. |
| `KernelStrings.ToIntBase16` | Kernel/src/cstr.cpp:327-347 | Reads a hexadecimal text with or without 0x modulo 2^64. |
| `KernelStrings.ToInt` | Kernel/src/cstr.cpp:349-353 | Reads in the chosen base. |
| `KernelStrings.ToIntUndoesToString` | Kernel/src/cstr.cpp:127-191 | ToInt of ToString is the identity in both bases for every 64-bit value, INT64_MIN included because its odd digits wrap back. |
| `KernelStrings.DecimalTextIsPlainIff` | Kernel/src/cstr.cpp:127-154 | The decimal text is a sign and digits exactly when the number is not INT64_MIN. |
| `KernelStrings.DecimalTextIs` | Kernel/src/cstr.cpp:127-154 | Decimal texts digit by digit behind a sign. |
| `KernelStrings.NoZeroInFront` | Kernel/src/cstr.cpp:127-154 | A decimal text of several digits does not start with 0 behind its sign. |
| `KernelStrings.LeastNumber` | Kernel/src/cstr.cpp:127-154 | The text of INT64_MIN: a minus, and characters as far below 0 as the digits should be above it. |
| `KernelStrings.HexTextIs` | Kernel/src/cstr.cpp:156-185 | Hexadecimal texts digit by digit, at least two behind 0x. |
| `KernelStrings.ReadDecimalIs` | Kernel/src/cstr.cpp:306-325 | Reading decimals character by character, in 64 bits, with a minus in front. |
| `KernelStrings.ReadHexIs` | Kernel/src/cstr.cpp:327-347 | Reading hexadecimals character by character, with either prefix or none. |
| `KernelFormat.Buffers.Reverse` | Kernel/src/cstr.cpp:110-125 | Reverses the text in place. |
| `KernelFormat.Buffers.ToString` | Kernel/src/cstr.cpp:187-191 | Leaves the text of the number in its shared buffer, NUL-terminated. |
| `KernelFormat.ExpandSubstitutes` | Kernel/src/cstr.cpp:193-304 | Expansion replaces every %n and %xn of a text written from such pieces, from left to right. |
| `KernelFormat.StrayFreeIsSubstituted` | Kernel/src/cstr.cpp:193-304 | Every text without a stray % is written from pieces, and expands to them substituted whatever the parameters. |
| `KernelFormat.ExpandIs` | Kernel/src/cstr.cpp:257-299 | Expansion by character codes: %x and a digit, % and a digit, any other %, and all the rest. |
| `KernelFormat.ThreadZero` | Kernel/src/cstr.cpp:193-304 | #%0 with 0 becomes #0. |
| `KernelFormat.VisibleIffNoStray` | Kernel/src/cstr.cpp:257-299 | A caller sees all of the result exactly when no % is astray; a stray one leaves a NUL. |
| `KernelFormat.Buffers.Format` | Kernel/src/cstr.cpp:193-304 | The buffer holds exactly the expansion and zeros behind it whenever it is under 512 characters; x + fBufferOffset is the written length modulo 2^64 throughout. |
| `LinkedList.RingIsUnique` | Bootloader/inc/efilink.h:28-31 | The links alone determine the nodes of a list and their order. |
| `LinkedList.ListInLinks` | Bootloader/inc/efilink.h:28-31 | Flink leads from the head through the entries in order and back to it, Blink the other way. |
| `LinkedList.InitializeListHead` | Bootloader/inc/efilink.h:43-45 | Makes an empty list: both links of the head lead to itself. |
| `LinkedList.IsListEmpty` | Bootloader/inc/efilink.h:54-55 | TRUE exactly for the empty list. |
| `LinkedList.InsertHeadList` | Bootloader/inc/efilink.h:108-116 | The entry comes first and the rest follows in order, Flink and Blink inverse all around; the four links are stated. |
| `LinkedList.InsertTailList` | Bootloader/inc/efilink.h:90-98 | The entry comes last; the four links are stated. |
| `LinkedList.RemoveEntryList` | Bootloader/inc/efilink.h:64-80 | Exactly that entry goes, its neighbours are linked to each other, and its own links are left. |
| `LinkedList.SwapListEntries` | Bootloader/inc/efilink.h:118-139 | Entry2 comes directly before Entry1 unless it was there already; then Entry2 becomes a ring of its own, the rest still links forward, and no ring has Entry1 any more. |
| `LinkedList.RunOperations` | Bootloader/inc/efilink.h:43-139 | Every run of the macros keeps a proper list whose order is that of the same operations on a sequence; swapping in front of the head, to the end of the list, included. |
| `LinkedList.RemovedIs` | Bootloader/inc/efilink.h:64-80 | In a run, removing takes exactly the one entry out. |
| `LinkedList.PutIs` | Bootloader/inc/efilink.h:118-139 | In a run, the entry put in front of another stands directly before it, or last for the head, and the others keep their order. |
| `Handles.LibInstallProtocolInterfaces` | Bootloader/lib/hand.c:437-517 | All of the list is installed on one handle and nothing else changes, or the database, the caller's handle and the task priority are as before; no service is called below TPL_NOTIFY; it succeeds whenever the handle is good for the list and the firmware grants the calls. |
| `Handles.InstallItems` | Bootloader/lib/hand.c:462-490 | The first loop installs a prefix and nothing else, on the given or one new handle. |
| `Handles.UninstallItems` | Bootloader/lib/hand.c:497-506 | Undoing forward over the installed items restores the database, and a new handle goes with its last protocol. |
| `Handles.LibReinstallProtocolInterfaces` | Bootloader/lib/hand.c:558-636 | Each protocol has the interface of its last exchange and nothing else changes, or the database is exactly what the forward undo leaves: as before for pairwise distinct protocols, and otherwise exactly under the condition of UndoneIff; the task priority is as before, and no service is called below TPL_NOTIFY. |
| `Handles.DistinctUndone` | Bootloader/lib/hand.c:616-628 | Undoing forward restores everything when the protocols are pairwise distinct. |
| `Handles.UndoneIff` | Bootloader/lib/hand.c:616-628 | When no earlier exchange of a protocol ends in the interface its last one ends in, undoing forward restores everything exactly when each last exchange started from the first interface. |
| `Handles.UndoneIffRewound` | Bootloader/lib/hand.c:616-628 | For any list, undoing forward restores everything exactly when rewinding each protocol over the list from its last interface ends at its first. |
| `Handles.NeverReturningIff` | Bootloader/lib/hand.c:616-628 | When no protocol returns to a former interface, that is exactly for pairwise distinct protocols. |
| `Handles.RestoredExample` | Bootloader/lib/hand.c:616-628 | A protocol exchanged there, back and away again is restored although it is repeated. |
| `Handles.RepeatedExample` | Bootloader/lib/hand.c:616-628 | A protocol exchanged twice and then undone is left half way. |
| `Pool.ReallocatePool` | Bootloader/lib/misc.c:56-79 | The old block is freed in any case; the new one, if granted, starts with the smaller of both sizes. |
| `Pool.GrowBuffer` | Bootloader/lib/misc.c:131-200 | Asks for a new attempt with exactly one larger block in place of the old one, or leaves none after an error. |
| `Pool.LibLocateHandle` | Bootloader/lib/hand.c:57-102 | Terminates for bounded sizes; on success exactly one new block is live and holds the data of the last call, the first with a buffer large enough, starting from 400 bytes; on error none. |
| `Pool.LibMemoryMap` | Bootloader/lib/misc.c:203-240 | The same starting from one descriptor, with the number of descriptors set only on success. |
| `Pool.LibGetVariableAndSize` | Bootloader/lib/misc.c:242-281 | The same starting from 100 bytes and an uninitialized status. |
| `Relocate.LastEntryWins` | Bootloader/gnuefi/reloc_x86_64.c:51-70 | Of several dynamic entries with one tag the last one counts. |
| `Relocate.TagsAre` | Bootloader/gnuefi/reloc_x86_64.c:51-70 | By the tags' numbers: where the table and the GOT are, from the base, and their signed sizes. |
| `Relocate.MissingTag` | Bootloader/gnuefi/reloc_x86_64.c:43-50 | A missing tag counts as 0. |
| `Relocate.EntriesAre` | Bootloader/gnuefi/reloc_x86_64.c:78-96 | Entry i of a table is at its start plus i times the entry size, and counts as long as that is below the table size. |
| `Relocate.MarkedX86` | Bootloader/gnuefi/reloc_x86_64.c:80-89 | An x86-64 entry is RELATIVE exactly when bytes 8 to 11 of it are 8, 0, 0, 0. |
| `Relocate.MarkedAarch64` | Bootloader/gnuefi/reloc_aarch64.c:79-88 | An AArch64 entry is RELATIVE exactly when bytes 8 to 11 of it are 3, 4, 0, 0. |
| `Relocate.MarkedMips` | Bootloader/gnuefi/reloc_mips64el.c:97-104 | A MIPS entry is relative exactly when bytes 12 to 15 of it are 0, 0, 18, 3. |
| `Relocate.RelocateX86` | Bootloader/gnuefi/reloc_x86_64.c:43-98 | The status for missing parts, and the image after all relocations one by one. |
| `Relocate.RelocateAarch64` | Bootloader/gnuefi/reloc_aarch64.c:42-97 | The same with the addend taken from the table. |
| `Relocate.RelocateMips` | Bootloader/gnuefi/reloc_mips64el.c:44-115 | The same for the local GOT loop followed by the relocation loop. |
| `Relocate.SwapReverses` | Bootloader/inc/mips64el/efibind.h:155-165 | dsbh and dshd together reverse the eight bytes of r_info. |
| `Relocate.InPlaceShiftsExactly` | Bootloader/gnuefi/reloc_x86_64.c:78-96 | With distinct targets apart from the table, the base is added to exactly the RELATIVE targets and no other byte changes. |
| `Relocate.TargetsPatched` | Bootloader/gnuefi/reloc_aarch64.c:77-95 | Every relative target gets its new word exactly once, computed from the word that was there at first. |
| `Relocate.OthersKept` | Bootloader/gnuefi/reloc_aarch64.c:77-95 | Bytes outside the targets are left alone. |
| `Relocate.InPlaceIsExplicitIff` | Bootloader/gnuefi/reloc_aarch64.c:77-95 | Two images that differ only in how their info words mark the relative entries: in-place and explicit relocation agree outside those words exactly when every target held its addend. |
| `Relocate.RelocateBoth` | Bootloader/gnuefi/reloc_x86_64.c:43-98 | The same for the x86-64 and the AArch64 relocator run on the two images. |
| `Relocate.RelocateX86Exactly` | Bootloader/gnuefi/reloc_x86_64.c:43-98 | From the dynamic section to the image, in bytes: the word at the target of exactly the entries marked 8, 0, 0, 0 has the base added, and no other byte changes. |
| `Relocate.RelocateAarch64Exactly` | Bootloader/gnuefi/reloc_aarch64.c:42-97 | From the dynamic section to the image, in bytes: base plus addend is stored at the targets of exactly the entries marked 3, 4, 0, 0, and no other byte changes. |
| `Relocate.RelocateMipsExactly` | Bootloader/gnuefi/reloc_mips64el.c:44-115 | From the dynamic section to the image, in bytes: exactly the local GOT entries and the targets of entries marked 0, 0, 18, 3 have the base added. |
| `Relocate.MipsShiftsExactly` | Bootloader/gnuefi/reloc_mips64el.c:91-113 | Exactly the local GOT entries and the relative targets move by the base, once each. |

## Left out

- Crc32.CheckCrcAltSize: demands that the covered bytes exist whenever the size passes the MaxSize test, as the source's pointer does.
- DevicePath.DevicePathInstance: demands paths within the cap of 513 nodes per instance and end nodes the ASSERT allows; the DumpHex diagnosis and the failing ASSERT are not modelled.
- DevicePathAppend.AppendDevicePath: demands that what is written fits the allocation, the condition of `FitsAllocationIff`; beyond it the source writes outside its buffer.
- DevicePathAppend.AppendDevicePathNode: the same condition, for a Src2 of one node and an END node; a Src2 that is itself an end node is not covered.
- DevicePath.AppendDevicePathInstance: a failed allocation is an ASSERT in the source and not modelled.
- DevicePathUnpack.UnpackAgain: demands rounded lengths below 65536, without which the first copy cannot be walked (`ReaderStops`).
- MetaMatch.MetaMatch: demands that every `[` from the current position on is closed; an open one makes the source read behind its pattern.
- Print.PrintState.Run: demands complete directives with arguments of the right kind; an incomplete directive makes the source read behind its format, a missing argument is undefined in C.
- Print.VSPrint: demands a buffer as large as StrSize says, or as large as the text when StrSize stands for no limit.
- Print.PrintState.PrintDirective: text conversions of GUIDs, times, device paths, status codes and floating point numbers are opaque texts; calls of the output device's SetAttribute are not recorded.
- KernelFormat.Buffers.Format: demands a result under 512 characters; a longer one runs over the shared buffer.
- Console.PrimitiveConsole.UpdateCursor: glyphs of 16 rows only, since the cursor image and its saved pixels are fixed at 8 by 16; EnableCursor is covered while the cursor is not drawn.
- Console.PrimitiveConsole.ShowText: the background colour stays the same; after a change of colour the rows below the last line keep the old one and scroll into view.
- Console.PrimitiveConsole.PutChar: character codes 0 to 127 and glyphs of at most 64 rows; negative codes index in front of the font in the source, wider shifts are undefined in C.
- Handles.LibInstallProtocolInterfaces: restoring the database after a failure supposes that the firmware grants the calls that undo it; their status is ignored in the source.
- Handles.LibReinstallProtocolInterfaces: the same supposition.
- Pool.LibLocateHandle: termination supposes that the sizes the service asks for are bounded.
- Pool.LibMemoryMap: the same supposition, and a descriptor size that is not 0.
- Pool.LibGetVariableAndSize: the same supposition.
- Relocate.RelocateX86: all accesses stay in the modelled memory, and a table with entries of negative size is excluded; the source would not end.
- Relocate.RelocateAarch64: the same.
- Relocate.RelocateMips: the same, and entries of size 0, on which the source would not end.
- The per-node text dumpers of `Bootloader/lib/dpath.c`, `FloatToString`, `TimeToString`, `DumpHex` and the status and GUID name tables: tables and console output.
- `LibDuplicateDevicePathInstance`, `cstr::substring` and `wsubstring`: the code does not do what its name says.
- The list macro `RemoveEntryList` with EFI_DEBUG, which also overwrites the links of the removed entry.
- Bitmaps, box drawing, locks, command line, SMBIOS and `ValidMBR`: would only add easy members.
- The relocators for ia32 and arm: the same shape as x86-64.
- Boot flow, interrupts, paging, scheduling, file access and graphics setup: firmware calls and assembly, or headers that are not in the repository.
