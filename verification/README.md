# CAN database library and settings compiler: verified models

This project models five parts of the Kvaser SDK and proves what they are for. From the CAN database library
(`kvadblib`) it takes the packing of signals into CAN payloads, the containers of a database, and the text of
DBC files; from the compiler of Memorator settings (`kvamemolibxml`) the checksum, the parser of trigger
expressions, the printer of compiled expressions, and the bit-timing arithmetic.

Each operation that the source performs in place is a class method or a loop, proved against a function that
says what it computes; the theorems are about that function. Where such a function holds an alphabet, a limit or a
format of the source, a lemma states it once more in plain characters and numbers, without the function.

| files | subject |
|---|---|
| `Bits` | C's fixed-width operators on naturals, each described by the bits of its result |
| `SignalLayout`, `SignalCodec`, `StartBit`, `SignalTheorems`, `SignalFrames` | signals in payloads, bit by bit; DBC start bits |
| `MessageIndex` | messages of a database: linked list and chained hash index |
| `KeywordTable` | the lexer's open-addressing keyword table |
| `MemoryRange`, `MemoryRangeList` | the list of merged address ranges |
| `DbcString`, `DbcStringTheorems`, `DbcStringForms` | quoted strings of DBC files, printed and read |
| `Enumeration`, `EnumerationTheorems`, `EnumerationFile` | enumerations of attribute definitions, in memory and in DBC files |
| `ShortNames` | names of at most 32 characters for DBC objects |
| `Crc32`, `Crc32Theorems` | the checksum of a settings file |
| `ExprGrammar`, `ExprParser`, `ExprTheorems`, `ExprErrors` | trigger expressions, parsed |
| `InfixPrinter` | compiled trigger expressions, printed as text |
| `OperatorWords`, `OperatorWordTheorems` | the words AND and OR in trigger expressions |
| `PostfixCompiler`, `PostfixTheorems`, `PostfixForms` | text of trigger expressions, compiled to device code |
| `BitTiming` | bitrates and prescalers |
| `Wrappers` | a value that may be missing |

## Findings

The proofs settle some questions that the source leaves open.

- The check `is_signal_too_large` lets some signals through that do not fit, and `SignalTheorems.TooLargeExactly`
  says which, for all 32-bit start bits, lengths 1 to 64 and payloads below 2^28 bytes, with `int` sums that wrap:
  those for which the sum of start bit (mirrored for Motorola) and length exceeds 0x7FFFFFFF, and Motorola signals
  with a start bit from -7 to -1 or from -15 to -9 that are short enough, because C's division truncates. A DBC
  file can give both: the start bit 2147483647 of an Intel signal
  (`SignalTheorems.OverflowIsLetThrough`) and 4294967295 of a Motorola signal
  (`SignalTheorems.NegativeStartIsLetThrough`). Elsewhere the check agrees with the byte walk.
- The trigger parser accepts texts outside its grammar: a ")" is taken where an operand is expected, and the
  operator before it is dropped, as in `a&b&)`. On texts with no operator directly before a ")" it accepts
  exactly the grammar (`ExprTheorems.AcceptedLanguage`).
- A comment at `kvlibsdk/kvadblib/CANdbDbc.cpp:396` calls the map to short names injective. It is so exactly
  when no two objects share a name that is short already (`ShortNames.InjectiveWhen`,
  `ShortNames.SharedNameIsKept`).
- A printed string is read back as it was exactly when it meets a condition on its bytes
  (`DbcStringTheorems.RoundTrip`). One part of it is that a backslash must not stand before byte 255: `char` is
  signed, so the reader takes that byte for the end of the file and cannot put it back
  (`DbcStringTheorems.ByteAfterBackslashIsLost`).
- The array of a statement has 32 bytes (statement.h:83), and the compiler of trigger expressions looks at the
  length only after storing an item (trigger.cpp:1478-1497). When all names are known, items and terminator stay
  inside the array exactly if there are at most 31 items, that is, 16 operands; 17 operands joined by OR overrun it
  (`PostfixTheorems.CodeOfText`, `PostfixTheorems.SeventeenOperandsOverrun`). Code that a statement holds always
  comes back from its printed text, unless a variable is no trigger (`PostfixTheorems.StoredCodeSurvives`).
- A name in a trigger expression that is no trigger's is reported, except when it spells an operator: the
  lookup ignores case and the last step does not, so that "And" is never looked up and becomes variable 0
  (`PostfixTheorems.AndIsVariableZero`). `PostfixTheorems.CompiledIff` gives the exact condition under which a
  text compiles.
- Listing and compiling bit timings loses nothing: every prescaler that can be listed is found again from
  the bitrate printed for it (`BitTiming.RegisterRoundTrip`), and the printed bitrate is the least one at or
  above the requested one (`BitTiming.RoundsUp`).

## Model

| member | source | states |
|---|---|---|
| SignalCodec.Signal.StoreValueUint | kvlibsdk/kvadblib/CANdb.cpp:1419-1449 | the payload afterwards is `Stored`, in which bit k of the value sits at the place the layout gives it and every other bit is unchanged; refused starts and lengths change nothing |
| SignalCodec.Signal.GetValueUint | kvlibsdk/kvadblib/CANdb.cpp:1543-1605 | succeeds if and only if the whole signal lies inside the payload; then the value consists of the signal's bits, or of those with the sign bit repeated up to bit 63 |
| SignalCodec.Signal.GetValueInt | kvlibsdk/kvadblib/CANdb.cpp:1677-1687 | the sign-extended bits as a two's complement number |
| SignalCodec.StoreByte | kvlibsdk/kvadblib/CANdb.cpp:1430-1438 | one turn of the store moves the bits that fit in the byte from the word to the payload, and goes on at the bottom of the next byte |
| SignalCodec.MergeBits | kvlibsdk/kvadblib/CANdb.cpp:1430-1437 | mask, shift and merge take the selected bits from the value and keep the others |
| SignalCodec.MaskBits | kvlibsdk/kvadblib/CANdb.cpp:1384-1393 | each of the 64 byte masks is the run of low ones that its index asks for |
| SignalCodec.SignMaskBits | kvlibsdk/kvadblib/CANdb.cpp:1396-1413 | sign mask n has exactly the bits from n up to 63 |
| SignalCodec.PickedBits | kvlibsdk/kvadblib/CANdb.cpp:1569-1575 | one turn of the read appends the signal's next bits to the value |
| SignalCodec.SignBits | kvlibsdk/kvadblib/CANdb.cpp:1598-1602 | testing the top bit and or-ing the mask repeats the sign bit up to bit 63 |
| SignalLayout.IndexOfPosition | kvlibsdk/kvadblib/CANdb.cpp:1429-1447 | the walk visits a different payload bit for each value bit: place and index are inverse |
| SignalTheorems.ReadAfterStore | kvlibsdk/kvadblib/CANdb.cpp:1416-1449 | a value stored into a fitting signal reads back modulo 2^length |
| SignalTheorems.SignedReadAfterStore | kvlibsdk/kvadblib/CANdb.cpp:1677-1687 | every integer in the signed range of the signal reads back as itself |
| SignalTheorems.OtherSignalKept | kvlibsdk/kvadblib/CANdb.cpp:1419-1449 | storing a signal leaves the bits and the values of every disjoint one alone |
| SignalTheorems.StoresCommute | kvlibsdk/kvadblib/CANdb.cpp:1419-1449 | stores of disjoint signals, fitting or not, give the same payload in either order |
| SignalTheorems.StoreOrderIrrelevant | kvlibsdk/kvadblib/CANdb.cpp:1419-1449 | two fitting signals can be stored in either order, for all values, if and only if they share no bit |
| SignalTheorems.EachReadsItsOwn | kvlibsdk/kvadblib/CANdb.cpp:1419-1605 | two disjoint signals stored into one payload each read back their own value |
| SignalFrames.AllReadTheirOwn | kvlibsdk/kvadblib/CANdb.cpp:1419-1605 | however many disjoint signals are stored into one payload, each reads back its own value |
| SignalFrames.UncoveredBit | kvlibsdk/kvadblib/CANdb.cpp:1429-1447 | a payload bit that belongs to none of them is as before |
| SignalFrames.AnyOrder | kvlibsdk/kvadblib/CANdb.cpp:1419-1449 | the payload does not depend on the order in which disjoint signals are stored |
| SignalTheorems.TooLargeIsNotFitting | kvlibsdk/kvadblib/CANdb.cpp:1984-1993 | from start bit 0 upwards, as long as start bit plus length and eight times the payload size plus 64 stay within `int`, the bounds check refuses exactly the signals whose byte walk leaves the payload, in both byte orders |
| SignalTheorems.TooLargeExactly | kvlibsdk/kvadblib/CANdb.cpp:1984-1993 | over all 32-bit start bits, lengths 1 to 64 and payloads below 2^28 bytes, with wrapping sums, the check is right exactly outside two stated families: sums with the length beyond `int`, and certain negative Motorola start bits |
| SignalTheorems.OverflowIsLetThrough | kvlibsdk/kvadblib/CANdb.cpp:1992 | an Intel signal of one bit at 2147483647 passes for eight bytes and does not fit |
| SignalTheorems.NegativeStartIsLetThrough | kvlibsdk/kvadblib/CANdbDbc.cpp:795-801 | a DBC start bit of 4294967295 becomes -1, which passes for eight bytes and does not fit |
| SignalTheorems.FitsByEnd | kvlibsdk/kvadblib/CANdb.cpp:1984-1993 | a signal fits if and only if its start bit is not negative, its length is 1 to 64, and the mirrored start bit plus the length ends inside the payload |
| StartBit.Reflect | kvlibsdk/kvadblib/CANdbDbc.cpp:325-328 | the mask expression counts the bits of each byte from the other end |
| StartBit.StartBitRoundTrip | kvlibsdk/kvadblib/CANdbDbc.cpp:331-340 | reading a DBC start bit and writing it back is the identity on all 32-bit inputs, in spite of wrap-around |
| StartBit.DbcStartBitRoundTrip | kvlibsdk/kvadblib/CANdbDbc.cpp:331-340 | so is writing and reading |
| SignalTheorems.DbcMotorolaRead | kvlibsdk/kvadblib/CANdbDbc.cpp:325-340 | a Motorola signal from a DBC file fits if and only if its consecutive bits do, and then its value is the big-endian integer of those bits |
| MessageIndex.Bucket.Insert | kvlibsdk/kvadblib/CANdb.cpp:2978-2985 | a message goes into the embedded entry if that is empty, otherwise right behind it |
| MessageIndex.Bucket.Remove | kvlibsdk/kvadblib/CANdb.cpp:3014-3031 | the first entry of a message is emptied or unlinked, and nothing else changes |
| MessageIndex.HashIndex.Remove | kvlibsdk/kvadblib/CANdb.cpp:3014-3032 | every bucket goes on holding exactly the members that hash to it |
| MessageIndex.HashIndex.Find | kvlibsdk/kvadblib/CANdb.cpp:2866-2877 | finds a member with the identifier and frame format, or nothing exactly when there is none |
| MessageIndex.CANdb.InsertMessage | kvlibsdk/kvadblib/CANdb.cpp:2975-2997 | appends to the list and keeps index and list in agreement; a null message is refused |
| MessageIndex.CANdb.RemoveMessage | kvlibsdk/kvadblib/CANdb.cpp:3010-3063 | takes exactly that message out of list and index, and fails if and only if it is not there |
| MessageIndex.CANdb.FindMessageById | kvlibsdk/kvadblib/CANdb.cpp:2866-2877 | a message of the list with the identifier and the frame format that the top bit tells, null if and only if the list has none |
| MessageIndex.IdAndExtIsOr | kvlibsdk/kvadblib/include/CANdb.h:805 | the identifier of an extended message is or-ed with 0x80000000 |
| MessageIndex.CANdb.ClearHashTable | kvlibsdk/kvadblib/CANdb.cpp:2621-2633 | leaves an index of no messages |
| MessageIndex.CANdb.RebuildHashTable | kvlibsdk/kvadblib/CANdb.cpp:2636-2650 | restores the agreement of index and list, whatever became of the identifiers |
| MessageIndex.InsertedElements | kvlibsdk/kvadblib/CANdb.cpp:2978-2985 | inserting adds exactly one message to a bucket and no duplicate |
| MessageIndex.RemovedElements | kvlibsdk/kvadblib/CANdb.cpp:3014-3031 | removing takes exactly one message out of a bucket |
| KeywordTable.HashValue | kvlibsdk/kvadblib/CANdbDbc.cpp:217-227 | the hash never exceeds 0x1000001, so that the 32-bit field of the table does not truncate it |
| KeywordTable.BuildKeywordHashTable | kvlibsdk/kvadblib/CANdbDbc.cpp:230-271 | a table of 2n+1 slots in which each keyword lies behind used slots only, starting from its home |
| KeywordTable.SomeSlotEmpty | kvlibsdk/kvadblib/CANdbDbc.cpp:234-252 | with fewer keywords than slots some slot stays empty, so that each probe loop ends |
| KeywordTable.MissingKeyword | kvlibsdk/kvadblib/CANdbDbc.cpp:279-286 | a search that reaches an empty slot has missed no keyword |
| KeywordTable.FindToken | kvlibsdk/kvadblib/CANdbDbc.cpp:274-292 | agrees with a linear search on every input, for any list of keywords; -1 while there is no table |
| KeywordTable.LinearSearchFinds | kvlibsdk/kvadblib/CANdbDbc.cpp:279-289 | the linear search gives the token of the first keyword with the name, and 0 without one |
| MemoryRangeList.RangeList.AddRange | kvlibsdk/kvadblib/CANdb.cpp:438-498 | if a range lies fewer than 256 addresses away, the first of the nearest ranges becomes the hull with the new one and all others stay; otherwise the new range is inserted before the first that does not start before it |
| MemoryRange.AddedTakesIn | kvlibsdk/kvadblib/CANdb.cpp:438-498 | the same of the list that the method is proved to give |
| MemoryRangeList.RangeList.Collect | kvlibsdk/kvadblib/CANdb.cpp:421-435 | the linked list afterwards is `Collected`: close neighbours are merged, and the result with its next neighbour |
| MemoryRangeList.RangeList.FindNearest | kvlibsdk/kvadblib/CANdb.cpp:442-459 | the scan, with its early exit, finds the first of the nearest ranges |
| MemoryRangeList.CollectStep | kvlibsdk/kvadblib/CANdb.cpp:424-434 | one turn of collecting keeps the collected list that is still to come |
| MemoryRange.AddedDescribes | kvlibsdk/kvadblib/CANdb.cpp:438-498 | adding a range keeps the list sorted and covering, and adds only gaps shorter than 256 |
| MemoryRange.CollectedDescribes | kvlibsdk/kvadblib/CANdb.cpp:421-435 | collecting keeps that too, and leaves neighbours 256 or more apart |
| MemoryRange.CanonicalUnique | kvlibsdk/kvadblib/CANdb.cpp:421-435 | only one list of ranges 256 apart describes a set of addresses |
| MemoryRange.RunDescribes | kvlibsdk/kvadblib/CANdb.cpp:406-498 | over every run of adding and collecting the list stays sorted and covers every address added |
| MemoryRange.OrderIrrelevant | kvlibsdk/kvadblib/CANdb.cpp:406-498 | two runs that add the same addresses collect into the same list, in whatever order they add them |
| DbcString.Writer.PrintString | kvlibsdk/kvadblib/CANdbDbc.cpp:713-728 | writes the quoted, escaped text of the C string, that of a null pointer being empty |
| DbcString.Reader.ReadString | kvlibsdk/kvadblib/CANdbDbc.cpp:465-502 | text, rest of the file and line count are those of `Decode`, which `PiecesRead` describes byte by byte, with the buffer limit and NUL |
| DbcString.Reader.SkipSpace | kvlibsdk/kvadblib/CANdbDbc.cpp:452-462 | stops at the first character above the blank, where bytes from 128 up count as blank and byte 255 as the end |
| DbcString.Reader.Lex | kvlibsdk/kvadblib/CANdbDbc.cpp:593-706 | the next token, for line ends, strings, punctuation and the end of the file |
| DbcStringTheorems.ReadBack | kvlibsdk/kvadblib/CANdbDbc.cpp:465-502 | a string that survives is read back whole, with the line ends in it counted |
| DbcStringTheorems.Damaged | kvlibsdk/kvadblib/CANdbDbc.cpp:713-728 | any other string is not even a prefix of what is read back, whatever follows |
| DbcStringTheorems.RoundTrip | kvlibsdk/kvadblib/CANdbDbc.cpp:465-502 | printing and reading gives the string and the rest of the file if and only if the string survives, is shorter than 1000 bytes, and no quote follows |
| DbcStringTheorems.ByteAfterBackslashIsLost | kvlibsdk/kvadblib/CANdbDbc.cpp:484-490 | a backslash and byte 255 come back as the backslash alone |
| DbcStringTheorems.LongStringCut | kvlibsdk/kvadblib/CANdbDbc.cpp:473 | a longer string is cut to 999 bytes, and the reader still stops behind its closing quote |
| DbcStringForms.PiecesRead | kvlibsdk/kvadblib/CANdbDbc.cpp:465-502 | plain bytes, the four escape sequences, doubled quotes and backslashes that escape nothing each read as their value, up to the closing quote |
| DbcStringForms.NotClosed | kvlibsdk/kvadblib/CANdbDbc.cpp:492-494 | without a closing quote there is no string |
| DbcStringForms.TokenIs | kvlibsdk/kvadblib/CANdbDbc.cpp:473-499 | a token holds 999 bytes at most and ends before a NUL |
| DbcStringForms.PrintedForm | kvlibsdk/kvadblib/CANdbDbc.cpp:717-725 | what each of the 256 bytes is printed as |
| DbcStringForms.TokenAfterBlanks | kvlibsdk/kvadblib/CANdbDbc.cpp:600-705 | the token after any blank space, by the first visible byte and the line ends before it |
| DbcStringForms.TokenAtEnd | kvlibsdk/kvadblib/CANdbDbc.cpp:602-607 | at the end of the file, or at byte 255, first a line end and then the end |
| Enumeration.AttributeDefinition.AddEnumeration | kvlibsdk/kvadblib/CANdb.cpp:883-935 | the entry for the value is replaced or appended, the gap before it filled with "reserved", and entry k has value k; refused calls change nothing |
| Enumeration.ReservedIs | kvlibsdk/kvadblib/CANdb.cpp:894-905 | the padding spells "reserved" |
| Enumeration.AttributeDefinition.GetEnumerationNameByValue | kvlibsdk/kvadblib/CANdb.cpp:868-880 | the name at that place, or null outside the list |
| Enumeration.AttributeDefinition.GetEnumerationValueByName | kvlibsdk/kvadblib/CANdb.cpp:849-865 | the smallest value with that name, or -1 if and only if there is none |
| EnumerationTheorems.RunLength | kvlibsdk/kvadblib/CANdb.cpp:883-935 | after any run of additions the list reaches exactly to the greatest value added |
| EnumerationTheorems.RunEntries | kvlibsdk/kvadblib/CANdb.cpp:883-935 | after any run of additions each value has the last name added for it, or "reserved" if there was none |
| EnumerationFile.WriteEnumeration | kvlibsdk/kvadblib/CANdbDbc.cpp:2157-2167 | counting up until a value has no name writes all names, separated by commas |
| EnumerationFile.ReadEnumeration | kvlibsdk/kvadblib/CANdbDbc.cpp:1384-1394 | the names of the new enumeration are the strings up to the token that ends the list |
| EnumerationFile.ListRoundTrip | kvlibsdk/kvadblib/CANdbDbc.cpp:2157-2167 | a written list is read back as it was if and only if each name survives and is shorter than 1000 bytes; the reader then stands behind the semicolon |
| EnumerationFile.Delimiters | kvlibsdk/kvadblib/CANdbDbc.cpp:2160-2163 | ENUM and two blanks stand before the list, and commas between the names |
| EnumerationFile.GapSkipped | kvlibsdk/kvadblib/CANdbDbc.cpp:1387-1393 | blanks, line ends and punctuation before a name or the semicolon make no difference |
| ShortNames.ConstructShortSyms | kvlibsdk/kvadblib/CANdbDbc.cpp:396-429 | the names are those of `Shortened` for the order in which the map is walked, and it fails when the number needs a fifth digit |
| ShortNames.NextFreeIsFirst | kvlibsdk/kvadblib/CANdbDbc.cpp:421-425 | every number passed over gives a name that is taken |
| ShortNames.CandidateNumber | kvlibsdk/kvadblib/CANdbDbc.cpp:423 | the four digits write the number |
| ShortNames.ShortSyms | kvlibsdk/kvadblib/CANdbDbc.cpp:396-429 | names of up to 32 characters stay; a replacement has 32 characters, the first 27, an underscore and four digits, and differs from all original names and from the others |
| ShortNames.InjectiveWhen | kvlibsdk/kvadblib/CANdbDbc.cpp:396-429 | the map is injective if and only if no two objects share a name that is short already |
| ShortNames.SharedNameIsKept | kvlibsdk/kvadblib/CANdbDbc.cpp:396-429 | two objects with one short name both keep it, so that the map is not injective |
| ShortNames.CounterBound | kvlibsdk/kvadblib/CANdbDbc.cpp:416-426 | the counter is at most the number of long names and of numbers that names of 32 characters already end in |
| ShortNames.StepsTaken | kvlibsdk/kvadblib/CANdbDbc.cpp:416-426 | the counter lies between the number of long names and that plus the number of distinct names, which bounds when the numbers run out |
| Crc32.Register.Generate | kvlibsdk/kvamemolibxml/crc32.c:146-152 | the register afterwards is that of bitwise division by the generator |
| Crc32.Compute | kvlibsdk/kvamemolibxml/crc32.c:160-167 | the checksum of the first bytes of the buffer |
| Crc32.TableIsEightSteps | kvlibsdk/kvamemolibxml/crc32.c:74-139 | each of the 256 table entries is eight steps of bitwise division of its index |
| Crc32.StepsXor | kvlibsdk/kvamemolibxml/crc32.c:151 | the register update is linear |
| Crc32.TableStep | kvlibsdk/kvamemolibxml/crc32.c:151 | the table-driven update is eight steps on the register with the byte added |
| Crc32.FeedSplit | kvlibsdk/kvamemolibxml/crc32.c:146-152 | feeding two parts one after the other is feeding the whole |
| Crc32Theorems.PolynomialIsGenerator | kvlibsdk/kvamemolibxml/crc32.c:71-72 | the constant in the register has the coefficients of the polynomial that the source names |
| Crc32Theorems.FeedMessageBits | kvlibsdk/kvamemolibxml/crc32.c:146-152 | feeding bytes is feeding their bits, lowest first |
| Crc32Theorems.ChecksumIsDivision | kvlibsdk/kvamemolibxml/crc32.c:71-167 | the checksum is that of section 3.2.9 of IEEE 802.3: the complemented remainder of the schoolbook division, with the first 32 bits complemented |
| Crc32Theorems.FeedBitsInjective | kvlibsdk/kvamemolibxml/crc32.c:146-152 | different registers stay different whatever follows |
| Crc32Theorems.BurstDetected | kvlibsdk/kvamemolibxml/crc32.c:146-167 | messages of equal length that differ only inside a window of 32 bits, at any bit, have different checksums |
| Crc32Theorems.FourBytesDetected | kvlibsdk/kvamemolibxml/crc32.c:146-167 | so have messages that differ only inside four consecutive bytes |
| Crc32Theorems.ResidueIffChecksum | kvlibsdk/kvamemolibxml/crc32.c:146-167 | a message and four more bytes leave 0xDEBB20E3 in the register if and only if the bytes are the message's checksum in little-endian order |
| ExprParser.NextToken | kvlibsdk/kvamemolibxml/kv_parser.cpp:162-244 | the token and the new position are those of `Lex`, within the text |
| ExprParser.PeekToken | kvlibsdk/kvamemolibxml/kv_parser.cpp:248-252 | the same token, without moving on |
| ExprParser.Parse | kvlibsdk/kvamemolibxml/kv_parser.cpp:282-517 | on every text the state machine ends inside it, with a finite tree of fresh tokens, the one that the recursive description gives |
| ExprParser.ParseExpr | kvlibsdk/kvamemolibxml/kv_parser.cpp:532-547 | a tree in all cases; an error token for an empty text or for text left over |
| ExprParser.ExprHasErrors | kvlibsdk/kvamemolibxml/kv_parser.cpp:567-572 | true if and only if the tree holds an error token |
| ExprTheorems.ParseAcceptsText | kvlibsdk/kvamemolibxml/kv_parser.cpp:269-547 | every text of the grammar, with any white space and extra parentheses, is used up and gives its tree, associated to the left, without an error |
| ExprTheorems.ParsePrint | kvlibsdk/kvamemolibxml/kv_parser.cpp:282-547 | parsing undoes printing, for every tree over names and the two operators |
| ExprTheorems.ParseReads | kvlibsdk/kvamemolibxml/kv_parser.cpp:282-517 | where no operator precedes a ")", a tree without errors comes from a text of the grammar with that tree |
| ExprTheorems.AcceptedLanguage | kvlibsdk/kvamemolibxml/kv_parser.cpp:269-572 | accepted with no operator directly before a ")" if and only if the text belongs to the grammar |
| ExprTheorems.StrayCloseIsAccepted | kvlibsdk/kvamemolibxml/kv_parser.cpp:458-462 | `a&b&)` is accepted and is not in the grammar |
| ExprTheorems.Alphabet | kvlibsdk/kvamemolibxml/kv_parser.cpp:86-98 | the characters of names, and of white space, one by one |
| ExprErrors.OperandMissing | kvlibsdk/kvamemolibxml/kv_parser.cpp:440-444 | an operator at the end of a text of the grammar is an empty expression there |
| ExprErrors.OperatorTwice | kvlibsdk/kvamemolibxml/kv_parser.cpp:446-451 | a second operator is reported as such, behind it |
| ExprErrors.OperatorThenClose | kvlibsdk/kvamemolibxml/kv_parser.cpp:458-462 | after a pair, an operator and ")" are dropped; after a single operand nothing is left |
| ExprErrors.CloseTooMany | kvlibsdk/kvamemolibxml/kv_parser.cpp:540-543 | a ")" too many is trailing garbage |
| ExprErrors.GroupAfterText | kvlibsdk/kvamemolibxml/kv_parser.cpp:466-517 | a "(" without an operator before it lacks the operator, or is trailing garbage after a pair |
| ExprErrors.NameAfterText | kvlibsdk/kvamemolibxml/kv_parser.cpp:466-517 | so does a name |
| ExprErrors.IllegalAfterText | kvlibsdk/kvamemolibxml/kv_parser.cpp:213-219 | a character of no token is reported where it stands, or as trailing garbage after a pair |
| ExprErrors.IllegalOperand | kvlibsdk/kvamemolibxml/kv_parser.cpp:453-456 | as an operand it is reported in either case |
| ExprErrors.GroupNotClosed | kvlibsdk/kvamemolibxml/kv_parser.cpp:282-547 | a group without its ")" is unbalanced, at the end of the text |
| ExprErrors.NothingThere | kvlibsdk/kvamemolibxml/kv_parser.cpp:282-547 | the errors for no text and for a ")" alone |
| InfixPrinter.GetInfixExpr | kvlibsdk/kvamemolibxml/convert.cpp:444-486 | succeeds if and only if the code is the postorder of a tree, and then prints that tree, fully parenthesised; on no code the top of an empty stack is read |
| InfixPrinter.RunIsPostorder | kvlibsdk/kvamemolibxml/convert.cpp:452-484 | the stack machine leaves a single tree if and only if the code is its postorder |
| InfixPrinter.InfixParsesBack | kvlibsdk/kvamemolibxml/convert.cpp:444-486 | with its operators spelled as the parser expects, the printed text parses into the tree it was printed from |
| InfixPrinter.PostfixTextSurvives | kvlibsdk/kvamemolibxml/trigger.cpp:1519-1539 | printing and parsing code and walking the tree gives the comma-separated postfix text of that code |
| PostfixForms.PrintedForm | kvlibsdk/kvamemolibxml/convert.cpp:449-465 | byte 101 is printed as AND, 102 as OR, between parentheses, and any other byte but 100 as a variable |
| PostfixForms.DecimalForm | kvlibsdk/kvamemolibxml/util.cpp:505-510 | a number is printed in digits without leading zeros |
| OperatorWords.ReplaceAllWithNeighbourConditions | kvlibsdk/kvamemolibxml/util.cpp:544-559 | the word is replaced wherever it stands between blanks and parentheses, from the second character on; at the end of the text the source's bounds check fails |
| OperatorWords.ReplaceOperators | kvlibsdk/kvamemolibxml/trigger.cpp:1413-1417 | quotes are removed, then the four spellings are replaced one after the other; `AllSpellings` and `QuoteDropped` say what that comes to |
| OperatorWords.PrintedOperators | kvlibsdk/kvamemolibxml/trigger.cpp:1413-1417 | in the printed text of any expression this leaves exactly the operators that the parser knows |
| OperatorWordTheorems.WordReplacedEverywhere | kvlibsdk/kvamemolibxml/util.cpp:544-559 | for every text cut at the places where the word stands between blanks and parentheses: there it becomes the operator, and the pieces stay |
| OperatorWordTheorems.AllSpellings | kvlibsdk/kvamemolibxml/trigger.cpp:1413-1417 | for every text cut at AND, OR, "and" and "or" between blanks and parentheses: each becomes its operator, and the pieces stay |
| OperatorWordTheorems.QuoteDropped | kvlibsdk/kvamemolibxml/trigger.cpp:1413 | a quote makes no difference, wherever it stands |
| OperatorWordTheorems.EndFails | kvlibsdk/kvamemolibxml/util.cpp:553-554 | a word at the end of a text, after a blank or a parenthesis, makes the bounds check fail |
| PostfixCompiler.WalkTokens | kvlibsdk/kvamemolibxml/trigger.cpp:1519-1539 | the walk over the token tree appends the postfix text of the tree |
| PostfixCompiler.StringToList | kvlibsdk/kvamemolibxml/trigger.cpp:1375-1392 | the non-empty pieces between commas of the text without white space, quotes and parentheses |
| PostfixCompiler.ParseExpression | kvlibsdk/kvamemolibxml/trigger.cpp:1331-1373 | names become the numbers of the triggers; operators, in any case of letters, stay; the first other name that is no trigger's is reported |
| PostfixCompiler.PostfixToBin | kvlibsdk/kvamemolibxml/trigger.cpp:1452-1514 | in an array of 32 bytes: an overrun if and only if the text has 32 items or more, else the code of the items up to the terminator, or an error when it is unbalanced |
| PostfixCompiler.XmlstringToPostfix | kvlibsdk/kvamemolibxml/trigger.cpp:1399-1447 | replacing, parsing, walking, numbering and compiling together give `CodeOf` the infix text, which `CodeOfText` characterises |
| PostfixTheorems.ParsedWellNamed | kvlibsdk/kvamemolibxml/kv_parser.cpp:162-547 | whatever the text, names in the tree are words of letters, digits, `_` and `-` |
| PostfixTheorems.WalkWords | kvlibsdk/kvamemolibxml/trigger.cpp:1519-1539 | the items of the walked text are the names and operators of the tree in postorder |
| PostfixTheorems.AtoiDecimal | kvlibsdk/kvamemolibxml/trigger.cpp:1485-1486 | reading a printed number gives that number |
| PostfixTheorems.BalanceOfTree | kvlibsdk/kvamemolibxml/trigger.cpp:1500-1512 | the balance is 1 if and only if all leaves of the tree are names that do not become operators, and below 1 otherwise |
| PostfixTheorems.CodeOfText | kvlibsdk/kvamemolibxml/trigger.cpp:1399-1514 | for every text and at most 32 triggers: an unknown name is an error, 32 words or more overrun the array, and otherwise the code is the postorder of the tree's expression, or an error if a part of the tree was lost |
| PostfixTheorems.CompiledIff | kvlibsdk/kvamemolibxml/trigger.cpp:1399-1514 | a text compiles if and only if all leaves of its tree are names, each a trigger's or spelled like an operator but not exactly so, and there are at most 31 names and operators |
| PostfixTheorems.VariablesAreTriggers | kvlibsdk/kvamemolibxml/trigger.cpp:1343-1357 | compiled code holds numbers of triggers and 0 only, none from 32 up |
| PostfixTheorems.AndIsVariableZero | kvlibsdk/kvamemolibxml/trigger.cpp:1345-1347 | `And` compiles into variable 0, whatever the triggers |
| PostfixTheorems.SmallLettersCompile | kvlibsdk/kvamemolibxml/trigger.cpp:1399-1447 | `a and b` compiles into 0, 1 and the operator |
| PostfixForms.Dropped | kvlibsdk/kvamemolibxml/trigger.cpp:1383-1387 | white space, quotes and parentheses are dropped from items wherever they stand, and nothing else |
| PostfixForms.OperatorSpellings | kvlibsdk/kvamemolibxml/util.cpp:636-642 | the twelve spellings that count as operators when names are looked up |
| PostfixForms.ItemForm | kvlibsdk/kvamemolibxml/trigger.cpp:1479-1489 | the four spellings that become 101 and 102, and what becomes of numbers |
| PostfixForms.NumberRead | kvlibsdk/kvamemolibxml/trigger.cpp:1485-1486 | a number is read up to the first other character, after a sign or none |
| PostfixForms.FirstUndefined | kvlibsdk/kvamemolibxml/trigger.cpp:1344-1353 | the first item that is neither operator nor trigger is reported |
| PostfixForms.OverrunExactly | kvlibsdk/kvamemolibxml/trigger.cpp:1476-1497 | the array is overrun from 32 items on |
| PostfixTheorems.CodeSurvivesRoundTrip | kvlibsdk/kvamemolibxml/trigger.cpp:1399-1514 | device code, as `GetInfixExpr` prints it and compiled again with triggers named by their numbers, is the same code if all its variables are triggers and it has at most 31 items; it is an error if a variable is no trigger, and overruns the array otherwise |
| PostfixTheorems.StoredCodeSurvives | kvlibsdk/kvamemolibxml/statement.cpp:136-137 | code that the array of a statement holds comes back, or is refused for a variable that is no trigger |
| PostfixTheorems.SeventeenOperandsOverrun | kvlibsdk/kvamemolibxml/trigger.cpp:1478-1497 | 17 operands joined by OR overrun the array, 16 compile |
| PostfixTheorems.OddLength | kvlibsdk/kvamemolibxml/trigger.cpp:1519-1539 | a tree has an odd number of items, so that at most 32 means at most 31 |
| PostfixTheorems.ListedCode | kvlibsdk/kvamemolibxml/trigger.cpp:1452-1514 | the last step alone compiles a tree's postfix text into its postorder if and only if its variables are below 32 and its items are at most 31 |
| PostfixTheorems.LargeVariableCutsCode | kvlibsdk/kvamemolibxml/trigger.cpp:1485-1512 | the last step alone compiles `1,40,AND`, which no text leads to, into the single item 1 |
| BitTiming.BitrateToBusParams | kvlibsdk/kvamemolibxml/convert.cpp:821-853 | the registers are those of `Encoded`, untouched in case of an error |
| BitTiming.BusParamsToBitrate | kvlibsdk/kvamemolibxml/convert.cpp:857-885 | bitrate and segments are those of `Decoded`, with its errors |
| BitTiming.EncodedExactly | kvlibsdk/kvamemolibxml/convert.cpp:684-847 | which elements compile, in numbers, and the prescaler as the quotient of 16000000 |
| BitTiming.ErrorIsFirst | kvlibsdk/kvamemolibxml/convert.cpp:684-710 | the error of the first limit violated |
| BitTiming.DecodedExactly | kvlibsdk/kvamemolibxml/convert.cpp:857-885 | which registers can be listed, in numbers, and the bitrate as the quotient of 16000000 |
| BitTiming.Galois | kvlibsdk/kvamemolibxml/busparams.cpp:353 | prescaler and bitrate form a Galois connection |
| BitTiming.AcceptedBitrates | kvlibsdk/kvamemolibxml/convert.cpp:833-838 | a bitrate is accepted if and only if it lies in a range that the number of time quanta fixes |
| BitTiming.BitrateRoundTrip | kvlibsdk/kvamemolibxml/convert.cpp:821-885 | listing what was compiled keeps the segments, rounds the bitrate b up to b' with b' * psc < b * (psc + 1), and compiling b' gives the same registers |
| BitTiming.RoundsUp | kvlibsdk/kvamemolibxml/convert.cpp:821-885 | b' is the least bitrate at or above b that any prescaler gives |
| BitTiming.RegisterRoundTrip | kvlibsdk/kvamemolibxml/convert.cpp:821-885 | compiling what was listed gives back the prescaler and both segments |

## Left out

What the models do not capture of the code they model:

- SignalCodec.Signal.StoreValueUint: a start bit from -7 to -1 with a byte 0 to write is excluded, because C leaves a shift by a negative amount undefined.
- SignalCodec.Signal.IsSignalTooLarge: C leaves `int` overflow undefined; the model takes it to wrap.
- SignalTheorems.TooLargeExactly: payloads of 2^28 bytes or more, whose size in bits is no `int`, are excluded.
- SignalTheorems.TooLargeIsNotFitting: holds where no sum can leave `int`; what happens elsewhere is in TooLargeExactly.
- MessageIndex.CANdb.InsertMessage: a message that is in the list already is excluded; inserting it again would tie the list into a ring.
- MessageIndex.CANdb.RemoveMessage: removal from schedule tables and the iteration state `current_message` are not modelled.
- MessageIndex.Message: of a message, only identifier, frame format, list link and owner are modelled.
- MemoryRangeList.RangeList.AddRange: addresses are unbounded integers; pointer comparison across objects is taken as integer comparison.
- DbcString.Reader.Lex: the text of comments, words and numbers is not modelled; where one begins, the token is `Other`.
- EnumerationFile.ReadEnumeration: stops at a token `Other`, where the source reads on and ignores it.
- EnumerationFile.ListRoundTrip: begins after the word ENUM, which the lexer takes for a word.
- EnumerationFile.WriteEnumeration: requires an enumeration whose names hold no NUL, as C strings do.
- Enumeration.AttributeDefinition.AddEnumeration: `delete_enumeration` breaks the positional invariant and is left out, as are the iteration functions and `first_enum`.
- ShortNames.ConstructShortSyms: the walk over nodes, messages, signals and variables that collects the names is a map given as input; the order of the hash map is a parameter.
- ShortNames.StepsTaken: bounds the counter from both sides; which names collide decides between the bounds.
- ExprParser.Parse: the token list kept for freeing is not modelled, nor memory that runs out.
- ExprGrammar.Tree: the positions of tokens in the text are checked for the lexer only, not kept in trees.
- PostfixCompiler.PostfixToBin: what an overrun does to the memory behind the array is not modelled, nor the error that the source reports behind the 33rd item, after the overrun.
- PostfixCompiler.ItemCode: numbers that are no `int` are read as they stand.
- PostfixCompiler.XmlstringToPostfix: which error is reported is not modelled, nor the text of the message.
- PostfixTheorems.CodeOfText: requires at most 32 triggers, as the source does (trigger.cpp:1070).
- PostfixTheorems.ListedNames: the names that the triggers of a device get when its settings are listed (trigger.cpp:915-920); reading the triggers themselves is not modelled.
- BitTiming.BitrateToBusParams: `unsigned long` has 64 bits, as on Linux; with 32 bits the product could wrap for bitrates above 80 million.
- BitTiming.BusElement: reading numbers from XML attributes is not modelled.

Parts of the repository that are not modelled:

- Floating point: scaling of signals, double-valued stores and reads, printing of factors.
- The rest of the DBC grammar, and the LDF reader, whose lexer resembles the DBC one.
- J1939 parameter groups, attribute values, schedule tables, signal groups, environment variables.
- File handles, locales, XML trees and writers, script files, and the C interface with its handles.
- Binary layouts of filters, messages, scripts and statements in the settings file.
- Allocation and freeing of memory, and deletion callbacks.
