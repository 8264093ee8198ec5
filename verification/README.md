# Verified models of the EFI library and the PCI glue

This project models the parts of the bundled gnu-efi library that compute something, and the PCI configuration
accessors of the kernel, and proves properties of them. It is organised by component:

- `Common`: machine words, bytes and the copy routine that several components share.
- `CrcTable`, `BitPolynomials`, `Crc32`, `TableHeader`: the table-driven CRC-32 against polynomial long division over
  GF(2) (section 8 of RFC 1952), and the set/check pair on EFI table headers built on it, with burst detection.
- `DevicePathNodes`, `DevicePathWalk`, `DevicePathMatch`, `DevicePathAppend`, `DevicePathUnpack`: device paths
  (section 9.3.1 of UEFI 2.4) as bytes, against a plain list of nodes and its split into instances.
- `Chars`, `Glob`: the backtracking glob matcher against the language that a pattern denotes.
- `Division`, `Numbers`, `NumberParsing`: the bit-serial division of the ia32 build, the number printers that use it,
  and the parsers that read their output back.
- `PrintSinks`, `Formatter`: the buffered output stage of the formatter, with its truncating and its growing sink.
- `SimpleRead`: opening, reading and closing through the simple read interface against arbitrary firmware answers.
- `Protocols`: installing a list of protocol interfaces as one transaction over the handle database.
- `Links`: circular doubly linked lists kept in link words, and the conversion of their pointers.
- `Relocation`: the self-relocators of the x86_64 and aarch64 builds on byte memory.
- `Smbios`: the string lookup of SMBIOS structures that doubles as the walk to the next one (section 6.1.3 of DMTF
  DSP0134), and the search for the system record.
- `PciConfig`: the six configuration space accessors (section 3.2.2.3.2 of PCI Local Bus 2.2) against a byte space.

Code that changes memory is written as methods over arrays and classes; each is proved against a specification
function or predicate, and the theorems are lemmas about those. Machine integers are unbounded here and every
wrap-around that the code can meet is written out. Firmware answers, allocation outcomes, the pointer conversion
service and variadic arguments are parameters. Ghost parameters name the abstract value (a node list, a ring, a
string) that the memory holds on entry.

Some promises turn out to hold only under a condition. Each of these has a lemma that gives the exact condition:
`Division.DivisionRange`, `NumberParsing.DecRoundTrip`, `DevicePathWalk.WalkIsPartition`,
`DevicePathAppend.PastedFits`, `DevicePathAppend.AppendMeetsComment`, `DevicePathUnpack.UnpackedReadable`,
`Links.SwapExact`, `Relocation.FormsAgree`, `SimpleRead.ClampRead`, `Smbios.SkipMoves`, `Smbios.ReportedWhen` and
`PciConfig.OutsideAliases`. Beside each stands a lemma at a concrete input that fails it: `Division.DivisionWrong`,
`NumberParsing.ThousandReadsOne`, `DevicePathWalk.LongInstanceSplit`, `DevicePathAppend.PastedOverruns`,
`DevicePathAppend.CommentNotMet`, `DevicePathUnpack.LongNodeUnreadable`, `Links.SwapInPairBreaks`,
`Relocation.TwiceRelocatedDiffers`, `SimpleRead.WrappingRead`, `Smbios.ManyStringsStay`, `Smbios.ShortHides` and
`PciConfig.SlotSpills`.

Where code and comment disagree, the model follows the code: `AppendDevicePath` is described as putting the second
path on each instance of the first, and the division is described as limited to 31-bit divisors while it is correct up
to 2^31 inclusive.

## Model

| member | source | states |
|---|---|---|
| CrcTable.TableEntry | gnu-efi/lib/crc.c:22-66 | Each of the 256 table constants is eight shift-and-cancel steps of its own index by the reflected polynomial. |
| Crc32.EightStepsBits | gnu-efi/lib/crc.c:22-66 | Eight register steps bring eight zero coefficients down in a long division by the generator. |
| Crc32.ShiftsDivide | gnu-efi/lib/crc.c:211-215 | Shifting the register once per zero coefficient keeps the remainder of the dividend it overlays. |
| Crc32.TableStepDivides | gnu-efi/lib/crc.c:211-215 | One turn of the loop consumes the eight coefficients of one byte without changing the remainder, and the 64-bit accumulator stays a zero-extended 32-bit register. |
| Crc32.LookUp | gnu-efi/lib/crc.c:212 | A table access yields the index after eight division steps. |
| Crc32.Finish | gnu-efi/lib/crc.c:216-217 | Inverting and truncating the accumulator after the last byte gives the CRC of the message. |
| Crc32.CalculateCrc | gnu-efi/lib/crc.c:201-218 | For every length the loop returns the remainder of the message polynomial with preset and final inversion; no bit above 31 of the accumulator is ever set. |
| Crc32.CheckValue | gnu-efi/lib/crc.c:201-218 | The ASCII digits 1 to 9 have the CRC 0xCBF43926, the value by which catalogues identify CRC-32. |
| Crc32.RemainderLinear | gnu-efi/lib/crc.c:201-218 | Division by the generator is linear over GF(2). |
| Crc32.RemainderNonzero | gnu-efi/lib/crc.c:201-218 | A nonzero polynomial of degree below 32 times any power of x is never a multiple of the generator. |
| Crc32.BurstDetected | gnu-efi/lib/crc.c:201-218 | Two messages of one length whose differing bits lie within 32 consecutive bits have different CRCs. |
| Crc32.FourByteBurst | gnu-efi/lib/crc.c:201-218 | Two messages that differ only within four consecutive bytes have different CRCs. |
| TableHeader.StoreCrc | gnu-efi/lib/crc.c:114-115 | Writes the little-endian CRC32 field and no other byte. |
| TableHeader.SetCrcAltSize | gnu-efi/lib/crc.c:93-116 | The field ends as the CRC of the covered bytes with the field read as zero; every other byte keeps its value. |
| TableHeader.SetCrc | gnu-efi/lib/crc.c:70-91 | The same for the size in the header, which is not disturbed. |
| TableHeader.CheckCrcAltSize | gnu-efi/lib/crc.c:146-198 | True exactly for a nonzero size within the bound and a field that matches; the table is left as it was found. |
| TableHeader.CheckCrc | gnu-efi/lib/crc.c:119-144 | The same with the size from the header. |
| TableHeader.SignedPrefix | gnu-efi/lib/crc.c:146-198 | Whether a table checks depends on its first Size bytes and the field, and on no other byte. |
| TableHeader.BurstFailsCheck | gnu-efi/lib/crc.c:93-198 | After a change within 32 consecutive covered bits that leaves the field alone, the check fails. |
| TableHeader.FourBytesFailCheck | gnu-efi/lib/crc.c:93-198 | After a change within four consecutive covered bytes that leaves the field alone, the check fails. |
| TableHeader.FieldChangeFailsCheck | gnu-efi/lib/crc.c:93-198 | After a change of the stored field alone, the check fails. |
| DevicePathNodes.NodeAt | gnu-efi/inc/efidevp.h:50-57 | Type, subtype and length read from the bytes of an encoded path are those of its first node, and the length leads to the next one. |
| DevicePathNodes.EndNodes | gnu-efi/inc/efidevp.h:35-57 | The end nodes are the bytes 7F FF 04 00 and 7F 01 04 00, and the types 7F and FF, alone, mark an end. |
| DevicePathWalk.InstancesOfJoined | gnu-efi/lib/dpath.c:48-106 | Splitting a path at its end nodes undoes joining instances. |
| DevicePathWalk.WalkIsPartition | gnu-efi/lib/dpath.c:48-106 | Repeated calls yield exactly the instances, in order, if and only if no instance has more than 513 nodes. |
| DevicePathWalk.LongInstanceSplit | gnu-efi/lib/dpath.c:48-106 | An instance of 513 nodes is yielded as it is, one of 514 is not. |
| DevicePathWalk.LongPiece | gnu-efi/lib/dpath.c:67-98 | Of a longer instance the first 513 nodes are yielded, the node behind them is skipped, and the walk goes on behind that. |
| DevicePathWalk.DevicePathInstance | gnu-efi/lib/dpath.c:48-106 | A call returns the start and byte size of the next piece and the start of the piece behind it, or none after the end of the path; a NULL path yields nothing. |
| DevicePathWalk.DevicePathInstanceCount | gnu-efi/lib/dpath.c:108-121 | Counts exactly the pieces that repeated calls yield. |
| DevicePathWalk.SizesAddUp | gnu-efi/lib/dpath.c:48-121 | Instance sizes plus four bytes for each instance sum to the size of the path. |
| DevicePathWalk.WalkedSizes | gnu-efi/lib/dpath.c:48-121 | Whatever the instances, the pieces yielded and four bytes for each never exceed the path. |
| DevicePathWalk.FindEnd | gnu-efi/lib/dpath.c:286-307 | The node loop stops exactly at the end node of the whole path. |
| DevicePathWalk.DevicePathSize | gnu-efi/lib/dpath.c:286-307 | The size covers exactly the bytes of the path, end node included. |
| DevicePathWalk.DuplicateDevicePath | gnu-efi/lib/dpath.c:309-334 | The copy holds the same bytes in new memory, or is NULL when allocation fails. |
| DevicePathMatch.StaysInside | gnu-efi/lib/dpath.c:1209-1229 | While the compared bytes agree, the comparison has not passed the first end node of Single. |
| DevicePathMatch.PrefixBytes | gnu-efi/lib/dpath.c:1209-1229 | Equal bytes force equal node boundaries: a byte prefix is a node prefix, and conversely. |
| DevicePathMatch.SingleOfPath | gnu-efi/lib/dpath.c:1209-1229 | The first instance of every complete path can be the one compared against. |
| DevicePathMatch.CompareMem | gnu-efi/lib/runtime/efirtlib.c:82-101 | Returns zero exactly when the instance is a node prefix of Single, and otherwise the difference of the first bytes that differ, reading no byte behind them. |
| DevicePathMatch.LibMatchDevicePaths | gnu-efi/lib/dpath.c:1209-1229 | True exactly when some piece that walking Multi yields, its instances by WalkIsPartition, is a prefix of the first instance of Single; NULL paths never match. |
| DevicePathAppend.InstancesAppend | gnu-efi/lib/dpath.c:397-433 | The instances of the result are those of the source followed by those of the added path. |
| DevicePathAppend.WithInstanceAssociative | gnu-efi/lib/dpath.c:397-433 | Appending instances is associative. |
| DevicePathAppend.AppendDevicePathInstance | gnu-efi/lib/dpath.c:397-433 | The allocated bytes are filled exactly with the source, its end turned into an end of instance, and the added path; without a source it is a copy, or NULL when its allocation fails. |
| DevicePathAppend.PasteInstances | gnu-efi/lib/dpath.c:176-186 | The copy loop writes each instance, the whole second path and an end of instance, one after the other. |
| DevicePathAppend.PastedFits | gnu-efi/lib/dpath.c:163-190 | For every pair of paths, the copy stays inside the allocation if and only if the pieces after the first, times the second path, are covered by as many times the first path and the bytes the walk skips; with no instance over 513 nodes: one instance, or a second path no longer than the first. |
| DevicePathAppend.PastedOverruns | gnu-efi/lib/dpath.c:163-190 | Two empty instances and a path of one node with a byte of payload: the copy leaves the allocation. |
| DevicePathAppend.AppendDevicePath | gnu-efi/lib/dpath.c:124-194 | The result has the allocated size and holds each instance with the second path behind it, the last end node ending the path; a NULL argument gives a copy of the other path, a failed allocation NULL. |
| DevicePathAppend.PastedPath | gnu-efi/lib/dpath.c:176-190 | What is read from the start of the result is the first piece that walking the first path yields, followed by the second path. |
| DevicePathAppend.PastedPathAt | gnu-efi/lib/dpath.c:176-190 | From the start of every piece in the result, at the sum of the pieces before it and one second path and end node each, that piece followed by the second path is read. |
| DevicePathAppend.SingleAppend | gnu-efi/lib/dpath.c:163-193 | On a path of one instance exactly the allocated bytes are written: its nodes, the second path and one more end node, readable as one complete path. |
| DevicePathAppend.FirstAppended | gnu-efi/lib/dpath.c:124-195 | Nodes put in front of a path extend its first instance and leave the others. |
| DevicePathAppend.AppendMeetsComment | gnu-efi/lib/dpath.c:129-193 | The path read back puts the second path on each instance of the first, as the comment says, if and only if the first has one instance, of at most 513 nodes. |
| DevicePathAppend.CommentNotMet | gnu-efi/lib/dpath.c:129-193 | It does not for two empty instances, nor for one of 514 nodes, whatever the second path. |
| DevicePathAppend.AppendDevicePathNode | gnu-efi/lib/dpath.c:197-230 | The node, read as a path with an end node behind it, is appended as by AppendDevicePath; either failed allocation gives NULL. |
| DevicePathAppend.SetDevicePathEndNode | gnu-efi/inc/efidevp.h:66-71 | Writes 7F FF 04 00 and nothing else. |
| DevicePathUnpack.UnpackedNode | gnu-efi/lib/dpath.c:378-383 | An unpacked node keeps masked type, subtype and payload, gains only zero bytes, fewer than four, up to a multiple of four, and is a fixed point. |
| DevicePathUnpack.UnpackedSize | gnu-efi/lib/dpath.c:348-359 | Rounding the running total after each node gives the sum of the rounded node lengths. |
| DevicePathUnpack.UnpackNode | gnu-efi/lib/dpath.c:378-383 | Copying a node, rewriting its length and marking its type writes exactly the unpacked node. |
| DevicePathUnpack.UnpackDevicePath | gnu-efi/lib/dpath.c:336-394 | The allocation is filled exactly with the unpacked nodes in order. |
| DevicePathUnpack.UnpackTwice | gnu-efi/lib/dpath.c:336-394 | With no node longer than 65532 bytes the result can be unpacked again, and that gives the same bytes. |
| DevicePathUnpack.UnpackedInstances | gnu-efi/lib/dpath.c:336-394 | Unpacking acts on each instance by itself. |
| DevicePathUnpack.UnpackedReadable | gnu-efi/lib/dpath.c:336-394 | The result starts with some complete path if and only if no node is longer than 65532 bytes. |
| DevicePathUnpack.LongNodeUnreadable | gnu-efi/lib/dpath.c:336-394 | From the unpacked form of a node of 65535 bytes no complete path can be read. |
| Glob.SinglePattern | gnu-efi/lib/str.c:325-409 | A pattern that starts with a one-character piece accepts exactly the strings whose first character fits and whose rest is accepted by the rest. |
| Glob.RangeSet | gnu-efi/lib/str.c:373-386 | A range lo-hi holds a character if and only if it lies from lo to hi or is one of the two ends. |
| Glob.MemberSet | gnu-efi/lib/str.c:367-388 | A set without 2D (-) holds exactly its members. |
| Glob.UnionSet | gnu-efi/lib/str.c:367-388 | Members and ranges written one after the other hold what each of them holds. |
| Glob.LeadingMinus | gnu-efi/lib/str.c:367-382 | A range without a low end reaches from the lowest character. |
| Glob.TrailingMinus | gnu-efi/lib/str.c:373-377 | A range without a high end holds nothing. |
| Glob.StarMatches | gnu-efi/lib/str.c:342-350 | The pattern 2A (*) matches every string. |
| Glob.QuestionMatches | gnu-efi/lib/str.c:352-358 | The pattern 3F (?) matches exactly the strings of one character. |
| Glob.CharacterMatches | gnu-efi/lib/str.c:399-406 | Any other character but 5B matches itself alone. |
| Glob.SetMatches | gnu-efi/lib/str.c:360-397 | A set between 5B and 5D matches exactly the strings of one character that it holds. |
| Glob.PatternsInTurn | gnu-efi/lib/str.c:325-409 | Two patterns one after the other match a string if and only if it splits into a string for each. |
| Glob.PlainMatches | gnu-efi/lib/str.c:399-406 | A pattern without special characters matches itself and nothing else. |
| Glob.ParseSet | gnu-efi/lib/str.c:360-396 | A closed set ends at its first closing bracket and parsing goes on behind it. |
| Glob.FindMember | gnu-efi/lib/str.c:367-388 | The set loop finds a hit exactly when the character is in the set; what a set holds is given by RangeSet, MemberSet and UnionSet. |
| Glob.SkipSet | gnu-efi/lib/str.c:390-394 | After a hit the cursor moves just behind the closing bracket. |
| Glob.MatchSet | gnu-efi/lib/str.c:360-397 | A set step succeeds and advances exactly when acceptance goes on behind it. |
| Glob.MatchRun | gnu-efi/lib/str.c:342-350 | The star case is true exactly when the rest accepts some suffix of the string. |
| Glob.MetaMatch | gnu-efi/lib/str.c:325-409 | For every string and every pattern with closed sets, the matcher terminates within both strings and returns whether the string is in the language of the pattern; on a set of one range it is true for exactly the one-character strings in the range. |
| Division.RoundTotal | gnu-efi/lib/ia32/math.c:159-175 | One round doubles remainder:dividend and moves one quotient bit in, as long as the remainder is below 2^31. |
| Division.RoundsTotal | gnu-efi/lib/ia32/math.c:159-175 | After any number of rounds the remainder is below the divisor, so for divisors up to 2^31 no shift loses a bit of it, and the registers account for the quotient bits so far. |
| Division.DivisionExact | gnu-efi/lib/ia32/math.c:134-199 | For every divisor from 1 to 2^31, 64 rounds leave the quotient and the remainder. |
| Division.DivisionWrong | gnu-efi/lib/ia32/math.c:134-199 | For every divisor above 2^31 some dividend is divided wrongly. |
| Division.DivisionRange | gnu-efi/lib/ia32/math.c:134-199 | All dividends are divided correctly if and only if the divisor is at most 2^31. |
| Division.ShiftSubtract | gnu-efi/lib/ia32/math.c:161-175 | The loop body, written flag by flag, performs one round; while Rem is below the divisor and below 2^31 that doubles rem:dividend and moves one quotient bit out of Rem. |
| Division.CompareSubtract | gnu-efi/lib/ia32/math.c:165-171 | The compare, complement, borrow, mask and subtract instructions take the divisor off Rem and count it exactly when it fits, without a branch. |
| Division.DivU64x32 | gnu-efi/lib/ia32/math.c:134-199 | The loop returns quotient and remainder for divisors up to 2^31. |
| Numbers.ValueOfDigits | gnu-efi/lib/print.c:1260-1334 | The digits of a number have that value. |
| Numbers.HexTextAt | gnu-efi/lib/print.c:1257-1288 | Character k from the right of the hexadecimal text is 0 to 9 or A to F for the digit of weight 16^k, and there are as many as the number needs. |
| Numbers.DecTextAt | gnu-efi/lib/print.c:1303-1334 | Character k from the right of the decimal text is the digit of weight 10^k, and there are as many as the number needs. |
| Numbers.NegativeText | gnu-efi/lib/print.c:1312-1315 | The text of a negative number is a minus sign and the text of its magnitude. |
| Numbers.ValueToHex | gnu-efi/lib/print.c:1260-1288 | The buffer holds the hexadecimal digits without leading zeros, or 0, terminated; other characters keep their value. |
| Numbers.DecBackwards | gnu-efi/lib/print.c:1317-1320 | The division loop stores the decimal digits, least significant first. |
| Numbers.WriteDigits | gnu-efi/lib/print.c:1322-1333 | The countdown loop writes digits with a comma before each group of three. |
| Numbers.EmittedGrouped | gnu-efi/lib/print.c:1322-1333 | What the countdown writes is the text grouped in threes from the right. |
| Numbers.ValueToString | gnu-efi/lib/print.c:1291-1334 | The buffer holds the signed decimal text, grouped on request, terminated, for every INT64 including the least one. |
| NumberParsing.Xtoi | gnu-efi/lib/str.c:267-295 | Returns the value of the leading hexadecimal digits behind spaces, modulo 2^64; any number of spaces and a printed UINT64 read as that number. |
| NumberParsing.Atoi | gnu-efi/lib/str.c:298-323 | Returns the value of the leading decimal digits behind spaces, modulo 2^64; any number of spaces and a printed nonnegative INT64 without commas read as that number. |
| NumberParsing.SpacesSkipped | gnu-efi/lib/str.c:276-279 | Any number of spaces in front of any text does not change what is read from it. |
| NumberParsing.RunIsRead | gnu-efi/lib/str.c:276-294 | Behind any number of spaces, characters that spell digits, letters in either case, are read as the value of those digits modulo 2^64, up to the first that spells none. |
| NumberParsing.HexRoundTrip | gnu-efi/lib/str.c:267-295 | Reading back a printed hexadecimal number gives it, for every UINT64. |
| NumberParsing.HexThereAndBack | gnu-efi/lib/str.c:267-295 | Printing any UINT64 in hexadecimal into memory and reading that memory gives the number back. |
| NumberParsing.DecRoundTrip | gnu-efi/lib/str.c:298-323 | Reading back a printed nonnegative INT64 gives it if and only if no commas were asked for or it is below 1000. |
| NumberParsing.DecThereAndBack | gnu-efi/lib/str.c:298-323 | Printing a nonnegative INT64 in decimal into memory and reading that memory gives it back, if and only if no comma was written. |
| NumberParsing.ThousandReadsOne | gnu-efi/lib/str.c:298-323 | 1000 printed with commas is not read back. |
| NumberParsing.NegativeReadsZero | gnu-efi/lib/str.c:298-323 | A printed negative number reads as zero. |
| NumberParsing.DeletingCommas | gnu-efi/lib/print.c:1322-1333 | Deleting the commas gives the comma-free text. |
| NumberParsing.CommaPositions | gnu-efi/lib/print.c:1322-1333 | Commas stand exactly before each group of three counted from the right, never first. |
| PrintSinks.Sink.SPrint | gnu-efi/lib/print.c:313-351 | Appends what fits under the limit, terminates it and changes nothing else; with limit zero it writes nothing. |
| PrintSinks.ContentsNext | gnu-efi/lib/print.c:313-351 | Appending chunk after chunk leaves what one append of the whole text would have left. |
| PrintSinks.Sink.TruncatingPrint | gnu-efi/lib/print.c:313-351 | A fixed buffer always holds the first characters of all text given to it, terminated, and its old contents behind that. |
| PrintSinks.Sink.PoolPrint | gnu-efi/lib/print.c:355-397 | The pool buffer grows, by what is needed and 200 characters, exactly when text and terminator do not fit, and truncates nothing; a failed growth empties it. |
| PrintSinks.ReallocatePool | gnu-efi/lib/misc.c:56-79 | The new block starts with the kept part of the old one. |
| Formatter.PrintState.Flush | gnu-efi/lib/print.c:845-855 | The sink gains the buffered characters up to the first NUL, or is emptied when its buffer must grow and cannot, and the buffer is empty again. |
| Formatter.PrintState.Put | gnu-efi/lib/print.c:876-896 | The text put so far grows by 0D 0A for a newline and by the character itself otherwise, whether or not the buffer is flushed. |
| Formatter.Measure | gnu-efi/lib/print.c:924-934 | The shown length is the string length cut to the field width. |
| Formatter.PrintState.PutItem | gnu-efi/lib/print.c:914-971 | The text put so far grows by the item: cut to its field, padded to its width, filled with spaces before or after. |
| Formatter.ShownAt | gnu-efi/lib/print.c:924-971 | Character by character, an item is its text cut to the field, behind padding up to its width, with spaces up to the field width on the side asked for. |
| Formatter.PrintedText | gnu-efi/lib/print.c:876-896 | In the text of every format each newline stands right behind a carriage return, and deleting the carriage returns gives back the characters of a format that has none of its own. |
| Formatter.TypedSum | gnu-efi/lib/print.c:1030-1254 | The characters of a format are those of its parts in order. |
| Formatter.TypedOne | gnu-efi/lib/print.c:1030-1254 | A plain character stands for itself, an item for its shown text, an attribute change for nothing. |
| Formatter.ExpandedSum | gnu-efi/lib/print.c:876-896 | Carriage returns are added character by character, independent of how the text is split. |
| Formatter.PrintState.Print | gnu-efi/lib/print.c:1030-1254 | Whatever the chunks are, text without NUL reaches the sink complete and in order, and the count of characters put is returned. |
| Formatter.VSPrint | gnu-efi/lib/print.c:423-463 | With at least 4 bytes the buffer ends as the first StrSize/2-1 characters, terminated; with 2 or 3 bytes nothing is written; below 2 nothing is cut. |
| Formatter.VPoolPrint | gnu-efi/lib/print.c:503-532 | Without a failed allocation the pool buffer holds the whole text, terminated; with failed ones it holds the end of the text, from behind the last chunk that was lost. |
| SimpleRead.Firmware.LibOpenRoot | gnu-efi/lib/hand.c:298-327 | Opens the root of the volume or gives no handle. |
| SimpleRead.Firmware.WalkFileSystem | gnu-efi/lib/sread.c:98-180 | Follows the path one directory at a time; success opens exactly the file the path names, failure leaves no handle open and restores the path exactly when a directory was still open. |
| SimpleRead.FollowEnd | gnu-efi/lib/sread.c:104-170 | The loop ends successfully exactly when the root and every node open, and otherwise with the status of the failing node. |
| SimpleRead.WalkServed | gnu-efi/lib/sread.c:98-169 | In the firmware's answers: the file system serves the file exactly when root and every node open, with the status of the last open. |
| SimpleRead.WalkUnsupported | gnu-efi/lib/sread.c:98-188 | It counts as unsupported exactly when there is none, its root does not open, or the first node that fails is no component, has one that is none behind it, or fails as unsupported. |
| SimpleRead.WalkRefused | gnu-efi/lib/sread.c:113-188 | Otherwise a failure ends with the status of the first node that fails. |
| SimpleRead.WalkLeaves | gnu-efi/lib/sread.c:176-180 | The caller's path is put back exactly when a directory was open at the node that failed. |
| SimpleRead.LibDevicePathToInterface | gnu-efi/lib/dpath.c:435-471 | Succeeds exactly when the device is located, matches the whole path and has the interface, and otherwise returns the failing status, not found for a partial match. |
| SimpleRead.Firmware.LoadFromDevice | gnu-efi/lib/sread.c:190-259 | The buffer, once allocated, is recorded in the handle with its size and contents; the path copy is freed; the status is that of the load, or of asking for the size when no buffer was allocated, if it is no error or ALREADY_STARTED, and unsupported otherwise. |
| SimpleRead.Firmware.OpenSimpleReadFile | gnu-efi/lib/sread.c:32-277 | For every firmware behaviour the status is given in the answers alone; the caller holds a handle exactly on success or EFI_ALREADY_STARTED, and the live resources gained are then exactly those recorded in it; with any other status nothing stays live, and a handle stored before the failure names a freed block; a loaded buffer is never handed out successfully unless its load succeeded; no file handle is closed twice. |
| SimpleRead.Firmware.CloseSimpleReadFile | gnu-efi/lib/sread.c:327-358 | Releases exactly the resources recorded in the handle. |
| SimpleRead.Firmware.OpenAndClose | gnu-efi/lib/sread.c:32-358 | Closing what an open returned leaves the live resources as they were. |
| SimpleRead.ClampRead | gnu-efi/lib/sread.c:299-305 | The request is cut to the largest part that does not pass the end of the file if and only if its end does not wrap around into the file. |
| SimpleRead.WrappingRead | gnu-efi/lib/sread.c:299-305 | Two bytes from the last address on, of a file of 16 bytes, are not cut. |
| SimpleRead.ReadSimpleReadFile | gnu-efi/lib/sread.c:279-324 | From memory, a request whose end does not wrap into the file copies the bytes that lie in the file and reports their number; from a file, the firmware's answers are handed on. |
| Protocols.BootServices.LibInstallProtocolInterfaces | gnu-efi/lib/hand.c:437-517 | All or nothing: success exactly when every pair fits, with all pairs on one handle, the given one or a new one; on failure database and handle are as before and the status is that of the first pair that does not fit; the TPL is restored either way, and no step of it runs below TPL_NOTIFY, 16. |
| Protocols.BootServices.Rollback | gnu-efi/lib/hand.c:497-506 | Uninstalling the installed pairs in forward order restores the database, removing a handle that was created. |
| Protocols.InstallStep | gnu-efi/lib/hand.c:466-490 | A pair is accepted exactly when it fits behind the earlier ones, and then the database holds one pair more. |
| Protocols.RollbackStep | gnu-efi/lib/hand.c:499-506 | Uninstalling the oldest pair leaves what the later pairs alone would have installed. |
| Protocols.InstalledPairs | gnu-efi/lib/hand.c:437-517 | After success every pair is found on the handle, older protocols are kept and other handles are untouched. |
| Protocols.BootServices.LibUninstallProtocolInterfaces | gnu-efi/lib/hand.c:520-555 | Removes exactly the protocols that some pair names with their own interface. |
| Protocols.UninstallUndoesInstall | gnu-efi/lib/hand.c:437-555 | Uninstalling the installed list gives back the database from before. |
| Links.LinkMemory.InitializeListHead | gnu-efi/inc/efilink.h:43-45 | The head alone is a ring. |
| Links.LinkMemory.IsListEmpty | gnu-efi/inc/efilink.h:54-55 | True exactly for the ring of the head alone. |
| Links.LinkMemory.InsertHeadList | gnu-efi/inc/efilink.h:108-116 | The words form the ring with the entry behind the head. |
| Links.LinkMemory.InsertTailList | gnu-efi/inc/efilink.h:90-98 | The words form the ring with the entry last. |
| Links.LinkMemory.RemoveEntryList | gnu-efi/inc/efilink.h:64-70 | The words form the ring without the entry. |
| Links.LinkMemory.SwapListEntries | gnu-efi/inc/efilink.h:126-139 | The words form the ring with the second entry moved in front of the first, when it was not just in front of it. |
| Links.InsertRing | gnu-efi/inc/efilink.h:90-116 | Relinking the words around one gap takes an entry into the ring there. |
| Links.RemoveRing | gnu-efi/inc/efilink.h:64-70 | Relinking the neighbours of an entry leaves the ring of the others. |
| Links.SwappedRing | gnu-efi/inc/efilink.h:126-139 | With every link read beforehand, the swap equals removing the entry and taking it in again. |
| Links.SwapExact | gnu-efi/inc/efilink.h:126-139 | A ring of the same entries remains if and only if the entries differ and the second is not just in front of the first. |
| Links.MovedOrder | gnu-efi/inc/efilink.h:126-139 | After a swap the moved entry stands right in front of the other one, and the other entries are in their old order. |
| Links.SwapInPairBreaks | gnu-efi/inc/efilink.h:126-139 | Swapping the two entries of a ring of two breaks it. |
| Links.StepRing | gnu-efi/inc/efilink.h:43-139 | Each allowed operation turns the ring of a list into the ring of the list it should give, head first. |
| Links.RunFromInitialize | gnu-efi/inc/efilink.h:43-139 | Every run of allowed operations from an initialised head leaves the ring of the abstract list. |
| Links.Walks | gnu-efi/inc/efilink.h:43-139 | In a ring the forward walk is the list, the backward walk its reverse, and both return to the head. |
| Links.LinkMemory.RtConvertList | gnu-efi/lib/runtime/vm.c:72-105 | Terminates having converted both words of every entry, head included, in ring order, with the disposition passed exactly for words that point to the head; other words are untouched. |
| Links.WordsOnce | gnu-efi/lib/runtime/vm.c:90-104 | The converted words are each word of the ring exactly once. |
| Links.WordsInOrder | gnu-efi/lib/runtime/vm.c:90-104 | For each entry in turn its Flink is converted and then its Blink. |
| Links.ConvertedRing | gnu-efi/lib/runtime/vm.c:72-105 | When conversion gives each entry its new address, the moved list is a ring in the same order. |
| Relocation.LoadStored | gnu-efi/gnuefi/reloc_x86_64.c:86-88 | A stored word is read back. |
| Relocation.LoadBytes | gnu-efi/gnuefi/reloc_x86_64.c:86-88 | A word is its eight bytes, the least significant one first. |
| Relocation.Scan | gnu-efi/gnuefi/reloc_x86_64.c:52-71 | Table address (tag 7, plus base), size (tag 8) and entry size (tag 9), as signed words, are those of the last entry with the tag in front of the first with tag 0, zero where there is none. |
| Relocation.OnlyEntryGives | gnu-efi/gnuefi/reloc_x86_64.c:52-71 | A tag that only one entry has gets that entry's value, in whatever order the entries stand. |
| Relocation.Image.RelocateX86 | gnu-efi/gnuefi/reloc_x86_64.c:43-98 | For every dynamic section: a load error exactly when only one of table and entry size is given, memory untouched without both, otherwise the in-place loop; and for every section that gives n entries at a, with distinct targets outside the table, the base is added to the target of each relative entry k, read at a + base + k times the entry size, and no other byte changes. |
| Relocation.Image.RelocateAarch64 | gnu-efi/gnuefi/reloc_aarch64.c:42-97 | The same for the addend loop: each relative entry's target ends as base plus the entry's third word. |
| Relocation.LoopAppliesTable | gnu-efi/gnuefi/reloc_x86_64.c:79-96 | When no target lies in the bytes the loop reads of the table, it applies the relocations that the table held at the start. |
| Relocation.InPlaceWord | gnu-efi/gnuefi/reloc_x86_64.c:85-89 | A word ends as its old value plus the load base once for each relocation of it, modulo 2^64. |
| Relocation.AddendWord | gnu-efi/gnuefi/reloc_aarch64.c:84-88 | A target ends as load base plus its last addend; other words keep their value. |
| Relocation.Untouched | gnu-efi/gnuefi/reloc_x86_64.c:79-96 | Bytes outside every target keep their value, in both forms. |
| Relocation.LoopExact | gnu-efi/gnuefi/reloc_x86_64.c:79-96 | With distinct targets outside the table the load base is added to exactly those words and nothing else changes. |
| Relocation.X86Table | gnu-efi/gnuefi/reloc_x86_64.c:43-98 | From the section to the image: a table of n entries has the base added to the word of every entry of type 8, once, and no other byte changes. |
| Relocation.TwoEntries | gnu-efi/gnuefi/reloc_x86_64.c:43-98 | With table size 48 and entry size 24, given in any order, both of two relative entries' words gain the base. |
| Relocation.Aarch64Table | gnu-efi/gnuefi/reloc_aarch64.c:42-97 | The same with type 1027 and base plus third word stored. |
| Relocation.FormsAgree | gnu-efi/gnuefi/reloc_aarch64.c:78-95 | Both forms leave the same image if and only if, for each target, its word plus one load base per relocation equals the load base plus its last addend. |
| Relocation.TwiceRelocatedDiffers | gnu-efi/gnuefi/reloc_aarch64.c:78-95 | A word relocated twice by its own value ends differently in the two forms. |
| Relocation.SameImage | gnu-efi/gnuefi/reloc_aarch64.c:78-95 | Tables of the two architectures that name the same distinct words, each holding its addend, leave the same image. |
| Relocation.OrderIrrelevant | gnu-efi/gnuefi/reloc_x86_64.c:79-96 | Tables that differ only in the order of their entries leave the same image. |
| Smbios.StructurePointer.GetString | gnu-efi/lib/smbios.c:84-135 | For every string number: NULL for 0, the n-th string of k in place, the empty string for number 1 of none, with the cursor unmoved; beyond that NULL, with the cursor on the next header. |
| Smbios.EncodedExamples | gnu-efi/lib/smbios.c:105-133 | The bytes of a structure with two strings and of one with none, where two NULs end it. |
| Smbios.AnswerIsString | gnu-efi/lib/smbios.c:84-135 | The pointer returned for 1 to k is that string, NUL-terminated in place. |
| Smbios.NoStringIsEmpty | gnu-efi/lib/smbios.c:113-116 | Number 1 of a structure without strings points to an empty string. |
| Smbios.SkipMoves | gnu-efi/lib/smbios.c:113-133 | Number -1 moves to the next header if and only if the structure has fewer than 65535 strings. |
| Smbios.ManyStringsStay | gnu-efi/lib/smbios.c:113-133 | With 65535 strings, number -1 returns the last of them and the cursor stays. |
| Smbios.SkipsVisitAll | gnu-efi/lib/smbios.c:84-135 | Calls with -1 visit every structure of a table in order: after k of them the cursor is exactly on header k, after all of them at the end of the table. |
| Smbios.StructureAt | gnu-efi/lib/smbios.c:66-69 | Each structure of a table lies at its offset, and the next one right behind it. |
| Smbios.GetSystemInfo | gnu-efi/lib/smbios.c:29-82 | Reports the 16 bytes at offset 8 and the string numbered at offset 7 of the first type 1 record that starts before the table's length, or nothing if there is none or it is shorter than 0x19 bytes. |
| Smbios.ReportedWhen | gnu-efi/lib/smbios.c:48-79 | Something is reported if and only if a complete system record comes before any short one. |
| Smbios.ShortHides | gnu-efi/lib/smbios.c:50-55 | A short system record in front hides a complete one behind it. |
| PciConfig.Ports.ReadB | kernel/src/lai_wrapper.c:89-98 | Returns the byte at the location, 0xFF outside 256 bytes, and changes no dword. |
| PciConfig.Ports.ReadW | kernel/src/lai_wrapper.c:100-109 | Returns two bytes little-endian, 0xFFFF when out of range or odd. |
| PciConfig.Ports.ReadD | kernel/src/lai_wrapper.c:111-119 | Returns four bytes little-endian, all ones when out of range or unaligned. |
| PciConfig.Ports.WriteB | kernel/src/lai_wrapper.c:122-133 | Replaces exactly one byte; refused accesses change nothing. |
| PciConfig.Ports.WriteW | kernel/src/lai_wrapper.c:135-146 | Replaces exactly two bytes, low byte first; refused accesses change nothing. |
| PciConfig.Ports.WriteD | kernel/src/lai_wrapper.c:148-156 | Replaces exactly four bytes, low byte first; refused accesses change nothing. |
| PciConfig.SelectorLayout | kernel/src/lai_wrapper.c:93-94 | The address word is 0x80, eight bits of bus, five of slot, three of function and the dword offset. |
| PciConfig.DwordFloor | kernel/src/lai_wrapper.c:93-94 | The dword of a byte starts at the multiple of four at or below it. |
| PciConfig.LowFirst2 | kernel/src/lai_wrapper.c:100-109 | A word value has its first byte in its low eight bits. |
| PciConfig.LowFirst4 | kernel/src/lai_wrapper.c:111-119 | A dword value has its first byte in its low eight bits. |
| PciConfig.AddressInjective | kernel/src/lai_wrapper.c:93-94 | Existing locations share an address exactly when bus, slot, function and dword agree. |
| PciConfig.OutsideAliases | kernel/src/lai_wrapper.c:93-94 | A location reaches itself if and only if slot is below 32 and function below 8; otherwise it reaches another existing one. |
| PciConfig.SlotSpills | kernel/src/lai_wrapper.c:93-94 | Slot 32 of bus 0 has the address of slot 0 of bus 1. |
| PciConfig.RunRefines | kernel/src/lai_wrapper.c:89-156 | Every run of accesses of mixed widths answers and leaves bytes as the little-endian byte space does. |

## Left out

- Kernel heap, paging, scheduler, ELF loader, FAT and the LAI interpreter: only headers or thin wrappers are present.
- Bootloader, console, events, GUID and protocol tables: I/O and declarations.
- The parsing of the format string, varargs, FloatToString, TimeToString, GUID and device path text: the formatter is modelled from the list of directives on; attribute changes are modelled only as flushes.
- LibDuplicateDevicePathInstance, LibReinstallProtocolInterfaces and ValidMBR: no clean property to state.
- MetaMatch: patterns with an unclosed set are outside the model, because the pattern cursor then passes the terminator.
- AppendDevicePath: calls whose copy would leave the allocation are excluded; PastedFits says, for all paths, exactly which those are.
- AppendDevicePathNode: the same calls are excluded, and end nodes with a payload or an unknown subtype, which stand in no complete path.
- AppendDevicePathInstance: with a source, a failed allocation is excluded, as the source asserts that it succeeds; without one, it is modelled.
- ReadSimpleReadFile: requests from memory whose end wraps into the file are excluded, because the copy then leaves the buffer; ClampRead covers them. The contents of a file are what the firmware answers.
- OpenSimpleReadFile: the device path is a list of node kinds, and the device handle and the boot policy are not modelled.
- LoadFromDevice: the contents that the firmware loads are a parameter.
- LibInstallProtocolInterfaces: the firmware's uninstall service is taken to succeed on an interface that is installed, and interfaces are native.
- RtConvertList: the firmware's pointer conversion is a function of disposition and pointer.
- RelocateX86: a negative entry size with a positive table size is excluded, because the loop then does not end; a word that straddles the top of the address space is not wrapped.
- RelocateAarch64: the same exclusions.
- GetSystemInfo: the lookup of the configuration table is not modelled; table lengths beyond the encoded structures are excluded.
- VSPrint: text that contains NUL characters is modelled but only its flushing is described, not the final buffer.
- SPrint: lengths are taken to stay below 2^64, so the sum of length and chunk does not wrap.
- ReadB: configuration dwords are plain storage; device side effects and the segment number are not modelled.
