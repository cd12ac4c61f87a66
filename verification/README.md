# Protocols, memory maps and text tools of EDK II, modelled in Dafny

Five parts of the repository, each modelled as its code works and with the properties it is
there for proved over every input, every stream or every interleaving.

- **GDB remote serial stub** (`GdbBytes`, `GdbNumbers`, `GdbPacket`, `GdbGrammar`,
  `GdbDelivery`, `GdbEscape`, `GdbMemory`, `GdbLibraryList`, `GdbFileIo`): packet sender and
  receiver over a serial line that is a byte sequence, where a read with nothing left is a read that
  blocks; the exact language of the receiver; sender and receiver in lock step over a damaging line;
  the numbers of packets; binary escaping; the `m` and `M` commands on memory; the resumable library
  listing; and File-I/O reads interleaved, serial operation by serial operation, with the periodic
  callback.
- **PEI memory initialisation** (`MemoryInit`): placement of the UEFI region, and the split of a
  system memory descriptor around the firmware device in the HOB list.
- **Source-format tools** (`FormatDos`, `PyText`, `PatchCheck`, `PatchLines`,
  `PatchDiffs`, `FormatMeetsCheck`): the five substitutions of the formatter, the three-state machine
  of the diff checker, and their agreement.
- **Text transformations** (`DetectNotUsed`, `MasmLabels`): removal from a list walked backwards,
  comment groups, anonymous labels, and PROC USES.
- **SMBIOS record packing** (`Smbios`).

`Basics` holds the byte and option types they share.

A `Receive`, `Send`, `Run` or `RunAll` function is the specification of the method with the same
job; the lemmas about it compare it with something defined without it: a grammar, an inverse, a
one-pass reference, an assembler's rule, a history.

## Where a promise does not hold

Each of these is stated exactly: when the promise holds, in terms a caller can check.

- The reply to a library request is meant to start with `m` or `l`; it does so only when the text
  itself does, because the output position is rewound over the type byte, and no text of a listing
  does (`TypeByteIsLost`, `NoReplyHasItsType`).
- The tests for address and length texts that are too long (`m` and `M`) come after the copy has
  left its buffer, and never report what they test for (`LengthTestsNeverReport`,
  `LongAddressOverruns`); `ReadFitsIff` and `WriteFitsIff` have the exact conditions.
- A read of up to 999 bytes is answered, but the write that takes the reply back does not always fit
  the receive buffer (`WriteBackArrivesIff`).
- A library line that passes the size test may not fit the output buffer once it is escaped, and is
  then written past it; the listing is complete exactly when every line fits (`LineCanOverrun`,
  `ListingFitsIff`).
- The library offset counts the type bytes that never reach the debugger, so a debugger that counts
  the data it has received is refused after the first reply (`DataOffsetIsRefused`).
- The code of a failed File-I/O call is written -1, and read as 0, because a sign ends the number
  (`NegativeCodeIsLost`).
- `SendPacket` returns the payload length both when it was acknowledged and when it gave up
  (`SendOutcomes`).
- A damaged packet that keeps the framing is accepted exactly when its 8-bit sum is unchanged
  (`AcceptedIffSumMatches`).
- A descriptor that lies below system memory counts as its declaration, and system memory is then
  not declared (`DeclarationCanBeMissed`, `DeclarationCovers`); appending the declaration keeps
  descriptors disjoint exactly when nothing touches it (`DeclareKeepsDisjoint`).
- The firmware device is not split off when it starts its descriptor, ends at the top of system
  memory and the descriptor continues (`FdIsSplitOff`).
- A firmware device that ends with the 64-bit address space has its top at 0: it counts as part of
  any system memory, and a descriptor that does not contain it is split (`SplitCanInvent`,
  `HoldsFdExactly`, `PeimConserves`). A descriptor that ends with the address space is not found for
  a device inside it (`LastDescriptorIsNotFound`).
- On a 32-bit processor the size ASSERT can pass by wrap-around (`AssertCanWrap`), and the region
  can be put on top of a device that ends at 4 GB (`DeviceTopCanWrap`); `PlacementIsSafe` has the
  exact condition.
- Formatted files satisfy the checker exactly when they had no CR outside a CRLF
  (`FormatPassesIff`).
- Only the first `ret` of a PROC restores its registers (`RetRestoresIff`); a `ret` before any
  PROC fails on a missing attribute (`Convert`, `RetAloneFails`).
- An anonymous label that shares its line with code is not counted and stays as it is, and references
  to it go elsewhere (`SharedLabelIsMissed`, `TargetsArePreserved`).
- A string array with an empty string is read back only up to it (`RecordReadsBack`); a missing
  array, documented as allowed, passes the sizing loop and is dereferenced by the copying loop
  (`LogSmbiosData`).

## Model

| member | source | states |
|---|---|---|
| GdbBytes.HexCharInverts | EmbeddedPkg/GdbStub/GdbStub.c:413-427 | a character has value n exactly when it is one of the two digits of n, and -1 exactly when it is no digit |
| GdbBytes.HexByteReadsBack | EmbeddedPkg/GdbStub/GdbStub.c:306-308 | the two checksum digits that are sent are read back by the receiver's number parser as the checksum |
| GdbBytes.SumDetectsOneByte | EmbeddedPkg/GdbStub/GdbStub.c:300-303 | changing exactly one byte always changes the 8-bit checksum |
| GdbNumbers.NumberIsRead | MdePkg/Library/BaseLib/SafeString.c:2365-2413 | after any blanks, a string of hexadecimal digits of either case, up to a character that is no digit, is read as its place value, and as the largest UINTN where that is exceeded |
| GdbNumbers.PrefixedNumberIsRead | MdePkg/Library/BaseLib/SafeString.c:2375-2413 | the same behind zeros and an `x` |
| GdbNumbers.NoNumberIsZero | MdePkg/Library/BaseLib/SafeString.c:2379-2413 | a text that begins with no digit, a bare `x` and a sign among them, is 0 |
| GdbNumbers.HexIsRead | MdePkg/Library/BaseLib/SafeString.c:2365-2413 | the text of a number, with any leading zeros, is read as that number |
| GdbNumbers.PrefixedHexIsRead | MdePkg/Library/BaseLib/SafeString.c:2375-2413 | so is the text behind `0x` |
| GdbPacket.PutFrame | EmbeddedPkg/GdbStub/GdbStub.c:297-308 | one transmission puts `$`, the bytes before the NUL, `#` and the digits of their sum on the line |
| GdbPacket.SendPacket | EmbeddedPkg/GdbStub/GdbStub.c:274-314 | replies consumed, frames put on the line and value returned are those of the retry specification, for every reply stream and retry count |
| GdbPacket.SendOutcomes | EmbeddedPkg/GdbStub/GdbStub.c:285-313 | k+1 transmissions and the payload length when the first `+` is reply k below the retry count; waiting or giving up otherwise, with the value returned in each case |
| GdbPacket.WaitForStart | EmbeddedPkg/GdbStub/GdbStub.c:347-351 | consumes exactly the bytes up to and with the first `$`, or everything when there is none |
| GdbPacket.StoreRun | EmbeddedPkg/GdbStub/GdbStub.c:353-365 | stores the run up to `#` or a full buffer with its sum kept in 8 bits, starting over at every `$` |
| GdbPacket.OneAttempt | EmbeddedPkg/GdbStub/GdbStub.c:346-387 | one trip through the receive loop ends blocked, rejected with `-`, or accepted with `+` and a NUL-terminated buffer, as the byte automaton says |
| GdbPacket.ReceivePacket | EmbeddedPkg/GdbStub/GdbStub.c:332-390 | returns exactly when the byte automaton is done; the buffer then holds the payload, NUL-terminated in bounds, and the replies sent are the automaton's |
| GdbGrammar.AttemptIsAnswered | EmbeddedPkg/GdbStub/GdbStub.c:346-387 | any well-formed attempt (noise, abandoned runs, payload, digits) is consumed whole and answered once, whatever follows |
| GdbGrammar.GoodIffValue | EmbeddedPkg/GdbStub/GdbStub.c:372-376 | two checksum digits of either case are good exactly when their value is the sum |
| GdbGrammar.DeliveryIsReceived | EmbeddedPkg/GdbStub/GdbStub.c:322-390 | rejected attempts followed by a good one deliver its payload after one `-` each, consuming exactly those bytes |
| GdbGrammar.ReceivesExactly | EmbeddedPkg/GdbStub/GdbStub.c:322-390 | on every stream: a payload is returned after n naks if and only if the stream begins with n rejected attempts and a good one carrying it, the run after the last `$` being free of `$` and `#` |
| GdbGrammar.WaitsExactly | EmbeddedPkg/GdbStub/GdbStub.c:346-387 | while the receiver has not returned, one `-` was sent per rejected attempt and nothing else |
| GdbDelivery.SenderSide | EmbeddedPkg/GdbStub/GdbStub.c:288-313 | the lock-step exchange, seen from the sender, is SendPacket on the receiver's replies |
| GdbDelivery.ReceiverSide | EmbeddedPkg/GdbStub/GdbStub.c:346-387 | the lock-step exchange, seen from the receiver, is ReceivePacket on the delivered bytes |
| GdbDelivery.AcceptedIffSumMatches | EmbeddedPkg/GdbStub/GdbStub.c:372-386 | damaged data that keeps the framing is accepted if and only if its sum is the one sent |
| GdbDelivery.FrameArrivesIff | EmbeddedPkg/GdbStub/GdbStub.c:353-386 | an intact frame is received as its payload if and only if the payload leaves room for NUL and `#`, or for NUL alone with a checksum of zero |
| GdbDelivery.EndToEnd | EmbeddedPkg/GdbStub/GdbStub.c:274-390 | after k detectably damaged transmissions: k naks, delivery of exactly the payload by transmission k+1 if k is below the retry count, and giving up after all retries otherwise |
| GdbDelivery.OneByteErrorsAreRepaired | EmbeddedPkg/GdbStub/GdbStub.c:274-390 | any k below the retry count of transmissions with one changed byte each: k naks, then the payload, and the sender returns its length after k+1 transmissions |
| GdbEscape.UnescapeEscape | EmbeddedPkg/GdbStub/GdbStub.c:797-811 | the debugger's unescaping rule undoes the escaping, on every string |
| GdbEscape.EscapeIsClean | EmbeddedPkg/GdbStub/GdbStub.c:801-807 | the escaped form has no `$`, `#` or `*`, and a NUL only if the string has one |
| GdbEscape.EscapeTable | EmbeddedPkg/GdbStub/GdbStub.c:801-808 | the four characters that are escaped, each with its two bytes; every other character stands for itself |
| GdbEscape.EscapedDelivery | EmbeddedPkg/GdbStub/GdbStub.c:797-812 | escape, frame, receive, unescape is the identity for every string whose escaped form fits |
| GdbEscape.CopyEscaped | EmbeddedPkg/GdbStub/GdbStub.c:798-811 | the buffer holds the escaped string from its first byte, then NUL, and the count is the unescaped length, if and only if they fit; otherwise the copy passes the end of the buffer |
| GdbEscape.XferObjectReadResponse | EmbeddedPkg/GdbStub/GdbStub.c:782-815 | the packet sent is the escaped string alone, and the count returned is one more than the unescaped length; an escaped string that does not fit is written past the buffer |
| GdbEscape.TypeByteIsLost | EmbeddedPkg/GdbStub/GdbStub.c:792-798 | a reply begins with its type byte if and only if the text does |
| GdbLibraryList.NoReplyHasItsType | EmbeddedPkg/GdbStub/GdbStub.c:1033-1084 | no reply of a listing begins with its `m` or `l` |
| GdbMemory.WriteKeepsOthers | EmbeddedPkg/GdbStub/GdbStub.c:194-204 | a cell that a write changes belongs to a pair before the first bad one, inside the data |
| GdbMemory.WriteStoresPairs | EmbeddedPkg/GdbStub/GdbStub.c:194-204 | every pair before the first bad one is stored at its own address |
| GdbMemory.WriteBackIsIdentity | EmbeddedPkg/GdbStub/GdbStub.c:184-255 | writing back the dump of a range leaves memory unchanged and meets no bad pair |
| GdbMemory.ReadAfterWrite | EmbeddedPkg/GdbStub/GdbStub.c:184-255 | the dump of a range just written is the written data in lower case |
| GdbMemory.Target.TransferFromInBufToMem | EmbeddedPkg/GdbStub/GdbStub.c:184-207 | memory after the loop, and OK or E0E sent, for any data |
| GdbMemory.Target.TransferFromMemToOutBufAndSend | EmbeddedPkg/GdbStub/GdbStub.c:218-255 | the lower-case dump of the range is sent, or E0E for an unreadable address; the buffer is overrun exactly for a readable address and more than 999 bytes |
| GdbMemory.Target.CopyText | EmbeddedPkg/GdbStub/GdbStub.c:616-621 | the copy of a text up to its delimiter stays in packet and buffer if and only if the delimiter is there and the text leaves room for its NUL; the buffer then holds the text |
| GdbMemory.Target.ReadFromMemory | EmbeddedPkg/GdbStub/GdbStub.c:604-643 | the handler sends the reply of the `m` specification, and stops exactly where the source leaves a buffer |
| GdbMemory.Target.WriteToMemory | EmbeddedPkg/GdbStub/GdbStub.c:651-712 | memory and reply are those of the `M` specification, for every packet; it stops exactly where the source leaves a buffer |
| GdbMemory.ReadPacketParses | EmbeddedPkg/GdbStub/GdbStub.c:616-642 | effect of every `m` packet with a comma: overrun for an address text of 32 characters or a dump of more than 999 bytes, the error codes, else the dump |
| GdbMemory.ReadFitsIff | EmbeddedPkg/GdbStub/GdbStub.c:616-642 | an `m` packet stays in the buffers if and only if its address text before the comma has at most 31 characters and, unless length text or address is refused, at most 999 bytes are asked for |
| GdbMemory.MemoryIsRead | EmbeddedPkg/GdbStub/GdbStub.c:604-643 | an `m` packet with the texts of address and length is answered with the bytes from that address on, two lower-case digits each, wrapping at 2^64 |
| GdbMemory.WritePacketParses | EmbeddedPkg/GdbStub/GdbStub.c:666-711 | effect of every `M` packet with its comma and colon: overrun for an address or length text of 32 characters, the error code, else the write and its answer |
| GdbMemory.WriteFitsIff | EmbeddedPkg/GdbStub/GdbStub.c:666-711 | an `M` packet stays in the buffers if and only if it has an address and a length text of at most 31 characters, each with its delimiter |
| GdbMemory.MemoryIsWritten | EmbeddedPkg/GdbStub/GdbStub.c:651-712 | an `M` packet with the texts of address, count and bytes is answered OK, stores each byte at its address and changes no other |
| GdbMemory.LengthTestsNeverReport | EmbeddedPkg/GdbStub/GdbStub.c:625-629 | no `m` or `M` packet is answered E0B and no `M` packet E0C |
| GdbMemory.LongAddressOverruns | EmbeddedPkg/GdbStub/GdbStub.c:670-694 | a concrete `M` packet whose address text runs past its buffer |
| GdbMemory.ReadThenWriteBack | EmbeddedPkg/GdbStub/GdbStub.c:604-712 | sending the reply of an `m` back in an `M` with the same texts is answered OK and changes nothing, for every length that can be read |
| GdbMemory.WriteBackArrivesIff | EmbeddedPkg/GdbStub/GdbStub.c:1118 | over the line that `M` is received whole if and only if it has at most 1998 characters, or 1999 with a checksum of zero |
| GdbMemory.WriteStaysInRange | EmbeddedPkg/GdbStub/GdbStub.c:653-712 | any `M` packet that stays in the buffers changes only bytes of [address, address + length) before the first bad nibble |
| GdbLibraryList.Stub.QxferLibrary | EmbeddedPkg/GdbStub/GdbStub.c:1013-1087 | the handler's new offset, index and cursor, and the reply it sends, are those of one request of the specification; it overruns its buffer exactly where the specification says so |
| GdbLibraryList.Stub.SkipIneligible | EmbeddedPkg/GdbStub/GdbStub.c:1044-1081 | the table loop stops at the next entry that is listed, index and cursor together |
| GdbLibraryList.ListingIsComplete | EmbeddedPkg/GdbStub/GdbStub.c:1013-1087 | a debugger that counts for itself, each text and its type byte, from any state with offset 0: its first n requests are answered with the first n of header, each eligible entry once in table order, footer, if and only if these fit the output buffer; the stub then expects exactly what the debugger has counted, and 0 after the footer |
| GdbLibraryList.DataOffsetIsRefused | EmbeddedPkg/GdbStub/GdbStub.c:1023-1036 | a debugger whose offset is the data received, without type bytes, is answered with an error after any reply |
| GdbLibraryList.SlotIsListed | EmbeddedPkg/GdbStub/GdbStub.c:1045-1061 | a slot gives a line exactly when it is a normal, loaded image with a line of 1 to 1998 characters |
| GdbLibraryList.SlotsAreListed | EmbeddedPkg/GdbStub/GdbStub.c:1045-1081 | the slots give their lines one after the other |
| GdbLibraryList.ListingFitsIff | EmbeddedPkg/GdbStub/GdbStub.c:1023-1087 | the whole listing is handed out if and only if every eligible line fits the output buffer once it is escaped |
| GdbLibraryList.LineCanOverrun | EmbeddedPkg/GdbStub/GdbStub.c:1053-1062 | lines that pass the size test and whose escaped form does not fit the output buffer |
| GdbLibraryList.MismatchRestarts | EmbeddedPkg/GdbStub/GdbStub.c:1023-1031 | any other offset is answered E1F, after which the whole listing is produced if its lines fit, and an overrun is met if not |
| GdbLibraryList.ListingIsTheDocument | EmbeddedPkg/GdbStub/GdbStub.c:980-1087 | the replies of a listing whose lines fit, unescaped and joined, are the one-shot document |
| GdbFileIo.GdbParseFReplyPacket | EmbeddedPkg/GdbStub/SerialIo.c:63-98 | return code, error number and flag of the reply specification, for every packet |
| GdbFileIo.FReplyOneField | EmbeddedPkg/GdbStub/SerialIo.c:76-83 | a reply with one field: its number, no error, no break |
| GdbFileIo.FReplyTwoFields | EmbeddedPkg/GdbStub/SerialIo.c:76-91 | a reply with two fields: code and error number, no break |
| GdbFileIo.FReplyFields | EmbeddedPkg/GdbStub/SerialIo.c:76-95 | each number of a full reply is that of its own field, and the flag is set exactly when the third field begins with `C` |
| GdbFileIo.FReplyNumbers | EmbeddedPkg/GdbStub/SerialIo.c:76-95 | numbers written in hexadecimal come back as these numbers, in one, two or three fields |
| GdbFileIo.ToIntnIsSigned | EmbeddedPkg/GdbStub/SerialIo.c:76 | the code is the UINTN modulo 2^64 in the range of an INTN |
| GdbFileIo.NegativeCodeIsLost | EmbeddedPkg/GdbStub/SerialIo.c:76 | a code that begins with a minus sign is 0 |
| GdbFileIo.EveryRunIsRight | EmbeddedPkg/GdbStub/SerialIo.c:113-181 | for every interleaving: each callback did exactly what it should, the flags tell the truth, and every byte was taken once, in order, or is pending |
| GdbFileIo.NoByteIsStolen | EmbeddedPkg/GdbStub/GdbStub.c:1212-1240 | a callback takes no byte while an exchange is in progress |
| GdbFileIo.IdleCallbackScans | EmbeddedPkg/GdbStub/GdbStub.c:1223-1240 | in every run a callback outside an exchange, with no break waiting, takes the bytes up to the first Ctrl-C and steps, or takes all and does not |
| GdbFileIo.BreakIsServedOnce | EmbeddedPkg/GdbStub/GdbStub.c:1242-1250 | a Ctrl-C in an F reply causes an AddSingleStep at the next callback, which reads nothing; the callback after that, if no break came in between, steps only for a Ctrl-C it finds itself |
| GdbFileIo.ExchangeIgnoresCallbacks | EmbeddedPkg/GdbStub/SerialIo.c:138-178 | an exchange with any callbacks in between reads, writes, stores and returns what it does with none |
| GdbFileIo.ReadCompletes | EmbeddedPkg/GdbStub/SerialIo.c:113-181 | an answered GdbRead, for any replies on which its SendPacket calls return and any bytes on which its ReceivePacket calls return, with any packets served before the F reply: it returns the reply's code, has done the memory writes in order, has sent request, replies, answers and error packet as often as the packet layer makes it, and leaves the break flag exactly as the reply asks |
| GdbFileIo.DeliveryArrives | EmbeddedPkg/GdbStub/GdbStub.c:322-390 | any rejected attempts and a good one are bytes on which ReceivePacket returns, with the naks and the ack it sends |
| GdbFileIo.AckSettles | EmbeddedPkg/GdbStub/GdbStub.c:288-313 | an ack after fewer other replies than retries makes SendPacket return, with one transmission per reply |
| GdbFileIo.Stub.GdbPeriodicCallBack | EmbeddedPkg/GdbStub/GdbStub.c:1206-1251 | flags, line and single steps after the loop are those of the callback step |
| MemoryInit.HobList.MemoryPeim | ArmPlatformPkg/MemoryInitPei/MemoryInitPeiLib.c:95-186 | the HOB list after both searches is that of the specification; an ASSERT that fails is reported |
| MemoryInit.HobList.SplitAroundFd | ArmPlatformPkg/MemoryInitPei/MemoryInitPeiLib.c:129-185 | the first descriptor that holds the firmware device is the one that is split |
| MemoryInit.HobList.SplitAt | ArmPlatformPkg/MemoryInitPei/MemoryInitPeiLib.c:138-177 | the descriptor changed in place and the HOBs appended, in every branch |
| MemoryInit.DeclaredIs | ArmPlatformPkg/MemoryInitPei/MemoryInitPeiLib.c:95-116 | the list stays as it is if a descriptor counts as the declaration, and else gains one for exactly system memory |
| MemoryInit.PeimStopsIff | ArmPlatformPkg/MemoryInitPei/MemoryInitPeiLib.c:78-186 | an ASSERT fails exactly without memory size, or when the device counts as part of memory and no descriptor passes the search |
| MemoryInit.DeclaresExactly | ArmPlatformPkg/MemoryInitPei/MemoryInitPeiLib.c:98-100 | the declaration test without wrap-around |
| MemoryInit.FdInMemoryExactly | ArmPlatformPkg/MemoryInitPei/MemoryInitPeiLib.c:128 | when the device counts as part of system memory, without wrap-around |
| MemoryInit.HoldsFdExactly | ArmPlatformPkg/MemoryInitPei/MemoryInitPeiLib.c:134-136 | the search test without wrap-around: it holds for the descriptors that contain the device, for every descriptor that starts low enough if the device ends with the address space, and not for one that ends there |
| MemoryInit.PiecesPartition | ArmPlatformPkg/MemoryInitPei/MemoryInitPeiLib.c:142-172 | each address of the descriptor lies in exactly one piece, no piece exceeds it, attributes are kept |
| MemoryInit.SplitConserves | ArmPlatformPkg/MemoryInitPei/MemoryInitPeiLib.c:138-177 | if the descriptor contains the device, each address is described with exactly the attributes it had before |
| MemoryInit.SplitKeepsDisjoint | ArmPlatformPkg/MemoryInitPei/MemoryInitPeiLib.c:138-177 | if the descriptor contains the device, disjoint descriptors stay disjoint |
| MemoryInit.SplitIsRightIff | ArmPlatformPkg/MemoryInitPei/MemoryInitPeiLib.c:138-177 | for every device and descriptor: the split keeps the descriptors disjoint and their memory the same if and only if the descriptor contains the device, being its end if it runs past the address space, or is left as it is |
| MemoryInit.PeimConserves | ArmPlatformPkg/MemoryInitPei/MemoryInitPeiLib.c:128-186 | search and split together: one allocation HOB for exactly the firmware device, all other HOBs untouched; disjoint with the same addresses and attributes if and only if the descriptor found contains the device or is left as it is |
| MemoryInit.SplitCanInvent | ArmPlatformPkg/MemoryInitPei/MemoryInitPeiLib.c:128-172 | a device that ends with the address space, outside system memory, is described as memory |
| MemoryInit.FdIsSplitOff | ArmPlatformPkg/MemoryInitPei/MemoryInitPeiLib.c:125-153 | the device has a descriptor of its own if and only if it is not the one excepted case |
| MemoryInit.DeclareKeepsDisjoint | ArmPlatformPkg/MemoryInitPei/MemoryInitPeiLib.c:92-116 | declaring system memory keeps descriptors disjoint if and only if one counts as the declaration or none touches system memory |
| MemoryInit.DeclarationCovers | ArmPlatformPkg/MemoryInitPei/MemoryInitPeiLib.c:98-104 | a descriptor that counts as the declaration covers system memory if and only if it ends at its top or with the address space |
| MemoryInit.DeclarationCanBeMissed | ArmPlatformPkg/MemoryInitPei/MemoryInitPeiLib.c:98-108 | a concrete list after which no address of system memory is described |
| MemoryInit.PlaceAsSeen | ArmPlatformPkg/MemoryInitPei/MemoryInitPeim.c:101-134 | the placement, or its refusal by an ASSERT, without modular arithmetic |
| MemoryInit.PlacementIsSafe | ArmPlatformPkg/MemoryInitPei/MemoryInitPeim.c:101-134 | for every configuration whose asserts hold, the region is in system memory and clear of the device if and only if: below the device, there is room without wrap-around and the device as seen starts in memory; at the top, the region fits, memory does not wrap, the device does not enclose it, and a device that reaches the end of a UINTN starts behind it; it then ends at the device or at the top of usable memory |
| MemoryInit.AssertCanWrap | ArmPlatformPkg/MemoryInitPei/MemoryInitPeim.c:122-127 | a concrete 32-bit configuration that passes the ASSERT and gets a region outside system memory |
| MemoryInit.DeviceTopCanWrap | ArmPlatformPkg/MemoryInitPei/MemoryInitPeim.c:109-121 | a concrete 32-bit configuration with the device at the end of 4 GB, whose region is put on top of it |
| MemoryInit.RegionIsInOneDescriptor | ArmPlatformPkg/MemoryInitPei/MemoryInitPeiLib.c:122-186 | with one descriptor for system memory, a safe region lies wholly in one descriptor that is not the device's, the descriptors disjoint and their memory as before, if and only if MemoryPeim splits nothing or finds a descriptor that contains the device |
| MemoryInit.LastDescriptorIsNotFound | ArmPlatformPkg/MemoryInitPei/MemoryInitPeiLib.c:134-136 | a concrete descriptor that ends with the address space, contains the device and is not found |
| MemoryInit.RegionIsUsable | ArmPlatformPkg/MemoryInitPei/MemoryInitPeim.c:104-140 | placement and split together: the region is safe and usable after the split if and only if the condition of the placement and that of the split hold |
| FormatDos.FormatIsOnePass | BaseTools/Scripts/FormatDosFiles.py:31-40 | the five substitutions equal one pass over lines, on every string |
| FormatDos.LineIsFormatted | BaseTools/Scripts/FormatDosFiles.py:31-40 | any line with any blanks behind it and either line end becomes its text with tabs expanded and CRLF, and the rest is formatted |
| FormatDos.LastLineIsFormatted | BaseTools/Scripts/FormatDosFiles.py:31-40 | what follows the last LF becomes a line too, unless it is empty or ends in a CR |
| FormatDos.TabIsTwoSpaces | BaseTools/Scripts/FormatDosFiles.py:40 | a tab becomes two spaces and everything else stays |
| FormatDos.FormatIsNormal | BaseTools/Scripts/FormatDosFiles.py:32-40 | every LF follows a CR, no blank precedes a CRLF, no tab remains |
| FormatDos.FormatIsIdempotent | BaseTools/Scripts/FormatDosFiles.py:32-40 | formatting twice is formatting once |
| FormatDos.FormatKeepsInk | BaseTools/Scripts/FormatDosFiles.py:32-40 | input and output agree after deleting space, tab, CR and LF |
| PatchCheck.Consume | BaseTools/Scripts/PatchCheck.py:359-426 | the fields a later line reads are set, ok never returns to true, and a format error is an error |
| PatchCheck.RunOnce | BaseTools/Scripts/PatchCheck.py:340-426 | on any line list a step strictly advances within the lines and keeps every field it reads set |
| PatchCheck.RunAll | BaseTools/Scripts/PatchCheck.py:323-326 | the loop ends at the last line or at a format error, and ok never returns to true |
| PatchCheck.GitDiffCheck.constructor | BaseTools/Scripts/PatchCheck.py:315-322 | the initial fields; those __init__ does not set are unset |
| PatchCheck.GitDiffCheck.CutLineEndings | BaseTools/Scripts/PatchCheck.py:467-471 | the suffix loop, which goes on after a match |
| PatchCheck.GitDiffCheck.CheckAddedLine | BaseTools/Scripts/PatchCheck.py:466-487 | ok is kept exactly when line ending, tabs, trailing blanks and debug levels pass under the current flags |
| PatchLines.LineOkIff | BaseTools/Scripts/PatchCheck.py:466-487 | a text and its ending pass if and only if the ending is CRLF, or is not enforced, or the text names a subproject commit; tabs are absent or allowed; the last character is no white space; and no old debug call stands in it |
| PatchLines.CutExactly | BaseTools/Scripts/PatchCheck.py:467-471 | the line-end characters of any line of splitlines are cut off whole and reported as its ending |
| PatchLines.CutGoesOn | BaseTools/Scripts/PatchCheck.py:467-471 | the loop goes on after a match, and reports the ending it cuts off last |
| PatchLines.OldDebugIff | BaseTools/Scripts/PatchCheck.py:458-464 | the regular expression finds exactly the calls of a grammar: DEBUG, two brackets, any new levels, an old level |
| FormatMeetsCheck.AddedLineIsTextAndEnding | BaseTools/Scripts/PatchCheck.py:318-319 | every added line that splitlines gives is such a text and ending |
| PatchCheck.GitDiffCheck.EndOfPatch | BaseTools/Scripts/PatchCheck.py:352-357 | a later diff command is a format error; all remaining lines are skipped |
| PatchCheck.GitDiffCheck.HandleStart | BaseTools/Scripts/PatchCheck.py:359-387 | the fields after a line in the START state |
| PatchCheck.GitDiffCheck.HandlePrePatch | BaseTools/Scripts/PatchCheck.py:389-411 | the fields after a line in the PRE_PATCH state |
| PatchCheck.GitDiffCheck.HandlePatch | BaseTools/Scripts/PatchCheck.py:413-426 | the fields after a line in the PATCH state that does not end the patch |
| PatchCheck.GitDiffCheck.Run | BaseTools/Scripts/PatchCheck.py:340-426 | one call of run is one step of the machine |
| PatchCheck.GitDiffCheck.Check | BaseTools/Scripts/PatchCheck.py:323-326 | the loop over all lines is the machine over all lines |
| PatchDiffs.StructuredDiffIsRead | BaseTools/Scripts/PatchCheck.py:323-426 | for every structured diff: no format error, all lines read, exactly the `+` lines of text hunks checked, in order, under their own file's flags, the new binaries named, and ok exactly when all those lines pass |
| PatchDiffs.TrailerEndsDiff | BaseTools/Scripts/PatchCheck.py:346-357 | behind a diff that ends in a text hunk, the first line that cannot belong to it ends the patch, and is a format error exactly when a diff command follows |
| PatchDiffs.FormatErrorIff | BaseTools/Scripts/PatchCheck.py:340-426 | in every state, the lines that are a format error |
| PatchDiffs.CommandIsRead | BaseTools/Scripts/PatchCheck.py:360-385 | the diff command opens its file under its name and sets both flags by what the name consists of |
| PatchDiffs.NewFileIff | BaseTools/Scripts/PatchCheck.py:406 | a header marks a new file exactly when it is `index`, one or more zeros and two dots |
| PatchDiffs.HeaderIff | BaseTools/Scripts/PatchCheck.py:428-440 | the headers that may precede a hunk |
| FormatMeetsCheck.FormatPassesIff | BaseTools/Scripts/PatchCheck.py:466-481 | every line of a formatted source text passes the line-ending, tab and trailing-whitespace checks if and only if the text had no stray CR |
| FormatMeetsCheck.OnlyOldDebugIsLeft | BaseTools/Scripts/PatchCheck.py:473-487 | under any flags the only complaint left about such a line is an old debug level |
| DetectNotUsed.RemoveStep | BaseTools/Scripts/DetectNotUsedItem.py:91-93 | removing the first equal element touches nothing behind the index and keeps the answer, whichever copy it was |
| DetectNotUsed.ParseDscFdfInfContent | BaseTools/Scripts/DetectNotUsedItem.py:88-98 | the backwards loop computes the order-preserving filter and stripping, for any duplicates, within bounds |
| DetectNotUsed.LineIsKept | BaseTools/Scripts/DetectNotUsedItem.py:91-97 | nothing is kept of an empty line or a comment, and of any other line the text before its first `#`, stripped |
| DetectNotUsed.ParseDecContent | BaseTools/Scripts/DetectNotUsedItem.py:60-79 | the items and, for each, exactly the parsed lines behind the previous item and up to it, in order |
| DetectNotUsed.NameIs | BaseTools/Scripts/DetectNotUsedItem.py:76 | the name of an item is the text up to the first `=`, bar or `#`, stripped |
| DetectNotUsed.GroupEndsAtItem | BaseTools/Scripts/DetectNotUsedItem.py:72-78 | a group ends at its own item and otherwise holds only comment and blank lines of parsed sections |
| DetectNotUsed.ParsedIff | BaseTools/Scripts/DetectNotUsedItem.py:68-72 | a line is parsed when the last section head at or before it is of a needed section |
| DetectNotUsed.SectionIs | BaseTools/Scripts/DetectNotUsedItem.py:61-71 | the section name stands between the first `[` and the last `]` |
| DetectNotUsed.HasSectionIff | BaseTools/Scripts/DetectNotUsedItem.py:61-71 | a line has a section exactly when a `]` stands behind a `[` |
| DetectNotUsed.NeededIff | BaseTools/Scripts/DetectNotUsedItem.py:81-85 | a section is needed when one of the five words is in its name |
| DetectNotUsed.ItemIff | BaseTools/Scripts/DetectNotUsedItem.py:72-76 | an item is a parsed line that is neither a comment nor empty |
| DetectNotUsed.CommentIff | BaseTools/Scripts/DetectNotUsedItem.py:68 | a comment is white space and `#` |
| DetectNotUsed.GroupsAreDisjoint | BaseTools/Scripts/DetectNotUsedItem.py:72-78 | groups are disjoint and in the order of their items |
| DetectNotUsed.Clean | BaseTools/Scripts/DetectNotUsedItem.py:126-139 | the lines written are those not in a group of an unused item, in order |
| DetectNotUsed.CleanDeletesExactly | BaseTools/Scripts/DetectNotUsedItem.py:126-139 | a line is deleted if and only if it is parsed and the next item at or behind it is unused; no used item is |
| MasmLabels.Convert | BaseTools/Scripts/ConvertMasmToNasm.py:270-514 | one block of output per line from the label counter and the saved registers, up to a ret that finds no register list; all lines are converted if and only if every ret has a PROC before it |
| MasmLabels.RetAloneFails | BaseTools/Scripts/ConvertMasmToNasm.py:427-429 | a ret without a PROC is not converted |
| MasmLabels.EmitPops | BaseTools/Scripts/ConvertMasmToNasm.py:427-433 | the registers are popped in reverse |
| MasmLabels.NamesAreUnique | BaseTools/Scripts/ConvertMasmToNasm.py:421-423 | no numbered label is emitted twice |
| MasmLabels.EveryReferenceIsNumbered | BaseTools/Scripts/ConvertMasmToNasm.py:503-532 | the last line of a block has one number for each reference of its line |
| MasmLabels.NumberMeetsTarget | BaseTools/Scripts/ConvertMasmToNasm.py:503-532 | the number in the emitted line is defined in a block if and only if that is the nearest `@@:` standing alone; it is the one MASM means if and only if no `@@:` that shares its line comes before it |
| MasmLabels.TargetsArePreserved | BaseTools/Scripts/ConvertMasmToNasm.py:503-532 | on the emitted file, with the scopes of its own labels: the MASM target of a reference is the NASM target of the number put for it if and only if its `@@:` stands alone and no ordinary label lies between, one on the reference's own line included; another line is meant exactly when an `@@:` that shares its line was passed over |
| MasmLabels.SharedLabelIsMissed | BaseTools/Scripts/ConvertMasmToNasm.py:421-423 | three lines on which that happens |
| MasmLabels.RetRestoresIff | BaseTools/Scripts/ConvertMasmToNasm.py:427-488 | a ret undoes the pushes of its PROC if and only if it is its first ret or there were none |
| Smbios.RecordSize | EmulatorPkg/CpuRuntimeDxe/Cpu.c:183-199 | the sizing loop gives exactly the length of the record that is written |
| Smbios.AppendStrings | EmulatorPkg/CpuRuntimeDxe/Cpu.c:208-215 | the copying loop stays in the buffer and leaves the fixed part and the string set |
| Smbios.LogSmbiosData | EmulatorPkg/CpuRuntimeDxe/Cpu.c:160-228 | the record handed over and the status returned for it, or the failure, in each case |
| Smbios.RecordReadsBack | EmulatorPkg/CpuRuntimeDxe/Cpu.c:183-215 | read back, the record gives the array up to its first empty string; the whole array if and only if none is empty |
| Smbios.RecordEnds | EmulatorPkg/CpuRuntimeDxe/Cpu.c:183-215 | the record keeps the template's fixed part and ends in two NULs |

## Left out

- GdbFileIo.ReadCompletes: GdbRead is a machine of single serial operations on values, so that the callback can come between any two; the local packet buffer and its aliasing are not modelled.
- GdbPacket.ReceivePacket: says nothing about the buffer behind the terminating NUL, where bytes of rejected packets remain.
- GdbLibraryList.Stub.QxferLibrary: the position is stated for a call that returns; while a reply is awaited only the line is.
- MemoryInit.RegionIsUsable: stated for a firmware device that does not run past the end of the 64-bit address space, and for system memory in one descriptor.
- MasmLabels.TargetsArePreserved: takes ordinary labels to be distinct, as the assembler demands.
- MasmLabels.Convert: works on lines whose kind and references are already recognised; the regular expressions and the text replacement of `@b` and `@f` are not modelled.
- DetectNotUsed.Clean: the unused items are given; the regular-expression search that finds them is not modelled.
- Blocking: a byte that never arrives is the end of the input, and the call is then still waiting.
- Packets without their delimiters, texts and replies longer than their buffers are reported as an overrun; what C does beyond a buffer, or beyond the NUL of a packet, is not modelled.
- CHAR8 is treated as signed where a nibble is compared with zero, and a UINTN as 64 bits wide in the stub.
- AsciiStrHexToUintn is written out; an `x` that opens a string is taken as not preceded by a zero.
- AsciiSPrint, CopyMem, AllocateZeroPool, the HOB library and the debug image table are parameters or small specifications; PE/COFF headers, registers and breakpoints are not modelled.
- GdbWrite takes no part in the flag protocol and is left out.
- `splitlines` in `PatchCheck`: the checker starts from its list of lines; only the comparison with the formatter splits text.
- The commit-message and e-mail checks of PatchCheck, git and file handling, BuildMemoryTypeInformationHob and InitMmu take no part in what is stated here and are not modelled.
- Smbios.LogSmbiosData: the ASSERT on the status of the Add service, which stops a debug build, is not modelled.
