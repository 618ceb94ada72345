# Verified models of firmware components

Dafny models of parts of a UEFI firmware source tree and of its support scripts, with
proofs about them. Each module follows one component of the tree; a component that changes
state step by step is a class or a method with loops, proved against a specification
function, and the properties are then lemmas about that function.

| file | component |
|---|---|
| Bytes.dfy, Text.dfy | bytes, C strings, hexadecimal text; Python string operations |
| GdbLink.dfy, GdbFraming.dfy | the packet layer of the GDB remote serial link |
| GdbMemory.dfy | its memory read and write commands |
| GdbLibrary.dfy | binary escaping and the resumable library transfer |
| GdbFileIo.dfy, GdbRead.dfy | F-packet file input and output interleaved with the periodic callback |
| GdbSession.dfy | whole file exchanges, from the bytes on the line to memory |
| BootMemory.dfy | placement of UEFI memory and the split of the firmware's resource descriptor |
| SecondaryBoot.dfy | secondary cores parked on a mailbox |
| TemporaryRam.dfy | temporary RAM split and its migration |
| DeviceTree.dfy | device-tree search and RAM registration |
| DosFormat.dfy, DiffScan.dfy, UnusedItems.dfy | FormatDosFiles.py, PatchCheck.py, DetectNotUsedItem.py |
| Strtoul.dfy, Smbios.dfy | strtoul of libfdt_env.h, SMBIOS string packing |

`dafny verify dfyconfig.toml` checks the whole project.

## How the models read the source

- A serial line is the sequence of bytes still to arrive. `GdbGetChar` waits; on a line that
  never delivers another byte it never returns, which a method reports as `None`.
- Integer widths are written out where they matter: checksums modulo 256, UINTN
  addresses, 2*Length and transfer offsets modulo 2^64, INTN return codes, 64-bit sums of
  physical addresses, unsigned long in strtoul.
- Concurrency (callback, cores) is a state machine over single steps, and a theorem about it
  quantifies over every sequence of steps.
- Given as parameters: the retry count, the result of `ValidateAddress`, the signedness of
  CHAR8, the debug information of an image, the failures of `AddMemorySpace`, the search of
  the old-DEBUG-macro pattern, and whether an item of a DEC file is used.

## What the proofs found out about the code

- A library transfer counts one byte per reply that is never sent, because the output
  position is reset after the type byte is stored. A client that asks for the number of
  document bytes received so far is refused at every point after the start
  (`GdbLibrary.ByteOffsetsAreRefused`).
- The length test of a library line looks at the text before it is escaped. A line with
  enough of the characters } # $ * passes it and runs past gOutBuffer
  (`GdbLibrary.EligibleCanOverrun`), so the document goes out whole exactly if every line
  fits escaped (`GdbLibrary.TransferComplete`, `GdbLibrary.LineFitsIff`).
- Malformed data in a memory write is refused exactly where CHAR8 is signed; the ARM builds
  compile with unsigned char (`GdbMemory.BadDataRefusedIffSigned`).
- The return code of a file-I/O reply is read as written exactly if it is 0, or has no '-'
  and is below 2^63 (`GdbFileIo.RetCodeReadIff`). The failing reply "F-1,errno" is read as
  0, while the header comment promises -1 for errors.
- GdbWrite does not set the flag that keeps the periodic callback off the line. No byte is
  lost exactly if every callback finds nothing waiting or a flag set
  (`GdbFileIo.LineWholeIff`).
- A wake-up call to a parked core whose mailbox is set is lost exactly when it comes between
  the core's reading of a zero mailbox and its acknowledgement, with no other interrupt
  pending (`SecondaryBoot.WakeUpWorksIff`). An earlier wake-up with the same interrupt, such
  as the one PrimaryMain sends to all cores, leads there (`SecondaryBoot.WindowIsReachable`).
- A spurious acknowledge of a parked core is taken for a valid interrupt and ended where the
  distributor counts 1024 interrupts (`SecondaryBoot.SpuriousEndedIff`).
- The first descriptor search of MemoryPeim accepts descriptors that do not cover system
  memory, after which ASSERT(Found) can fail (`BootMemory.AssertCanFail`); the split can
  leave a descriptor of length zero (`BootMemory.EmptyRemainderIff`) and can leave the
  firmware without a descriptor of its own (`BootMemory.FirmwareSplitOffIff`).
- The migration of temporary RAM copies the stack first. Where the new stack covers part of
  the old heap, that part is lost unless the bytes happen to agree
  (`TemporaryRam.MigratesIff`, `TemporaryRam.MeetingCanLoseHeap`).
- strtoul leaves *endptr at the start for a lone "0" in base 8 or 0
  (`Strtoul.ParsesExactly`). Its comment promises ULONG_MAX for a number that does not fit.
  A detected overflow gives UINT32_MAX, which is that only where unsigned long has 32 bits,
  and an undetected one gives the wrapped value (`Strtoul.PromiseKeptIff`,
  `Strtoul.WideOverflowMisreported`, `Strtoul.OverflowCanGoUnseen`).
- LogSmbiosData documents a NULL string array as allowed and sizes for it, but its copying
  loop dereferences it (`Smbios.LogSmbiosData`); packed strings read back under their
  numbers exactly if none is empty (`Smbios.PackedStringsReadBackIff`).

Where code and comment disagree, the model follows the code.

## Model

| member | source | states |
|---|---|---|
| GdbLink.ReceivePacket | EmbeddedPkg/GdbStub/GdbStub.c:333-390 | reads up to the end of the first packet the byte machine accepts, leaves the rest on the line, fills the buffer with its payload and a NUL, puts one '+' or '-' per ended packet |
| GdbLink.AwaitStart | EmbeddedPkg/GdbStub/GdbStub.c:348-351 | drops bytes up to the first '$' and nothing else |
| GdbLink.ReceiveBody | EmbeddedPkg/GdbStub/GdbStub.c:353-366 | collects the body, restarting on '$', stopping on '#' or a full buffer, with its checksum |
| GdbLink.ReceiveSum | EmbeddedPkg/GdbStub/GdbStub.c:372-386 | acknowledges with '+' exactly if the two characters spell the checksum |
| GdbLink.RunAppend | EmbeddedPkg/GdbStub/GdbStub.c:346-387 | reading a stream in two portions is reading it at once |
| GdbLink.PutFrame | EmbeddedPkg/GdbStub/GdbStub.c:297-308 | the bytes of one pass are '$', the C string, '#' and its checksum in two hex digits |
| GdbLink.FrameIs | EmbeddedPkg/GdbStub/GdbStub.c:297-308 | a frame byte for byte, its two digits 0 to 9 or A to F and worth the checksum |
| GdbLink.SumIsTotal | EmbeddedPkg/GdbStub/GdbStub.c:300-303 | the checksum is the sum of all bytes modulo 256 |
| GdbLink.SendPacket | EmbeddedPkg/GdbStub/GdbStub.c:275-314 | for every reply stream: at most the retry count of identical frames, stopping at the first '+', and what is returned |
| GdbFraming.AcceptedIsReceived | EmbeddedPkg/GdbStub/GdbStub.c:346-387 | every stream of failed attempts and a good one is received, with one '-' per failure and then '+' |
| GdbFraming.ReceivedIsAccepted | EmbeddedPkg/GdbStub/GdbStub.c:346-387 | only such streams are: whatever was received splits into failed attempts and a good one, each with its noise and abandoned packets |
| GdbFraming.ReceivesExactly | EmbeddedPkg/GdbStub/GdbStub.c:346-387 | on a line that starts with such a stream ReceivePacket does return, with the good body, and leaves exactly what follows |
| GdbFraming.FramingRoundTrip | EmbeddedPkg/GdbStub/GdbStub.c:297-382 | after any '$'-free noise and any abandoned packets, SendPacket's bytes come back as exactly the payload |
| GdbFraming.FrameSurvivesIff | EmbeddedPkg/GdbStub/GdbStub.c:354-370 | a frame is taken whole and gives back its payload if and only if the payload has no '$' or '#' and at most size - 2 bytes |
| GdbFraming.StopAndWait | EmbeddedPkg/GdbStub/GdbStub.c:285-313 | sender, damaging channel and receiver together: k damaged frames below the retry count, then one passed, give k '-' and one '+', the payload once, and k + 1 frames sent |
| GdbFraming.StopAndWaitGivesUp | EmbeddedPkg/GdbStub/GdbStub.c:292-295 | when every frame is damaged the sender stops after the retry count and nothing is delivered |
| GdbLibrary.EscapeRoundTrip | EmbeddedPkg/GdbStub/GdbStub.c:799-809 | unescaping an escaped text gives the text |
| GdbLibrary.FlipIs | EmbeddedPkg/GdbStub/GdbStub.c:800-807 | an escaped byte differs in exactly the bit worth 32, and only four characters are escaped |
| GdbLibrary.EscapedIsSafe | EmbeddedPkg/GdbStub/GdbStub.c:799-809 | escaped text has no raw '#', '$' or '*' and no new NUL |
| GdbLibrary.EscapedSurvives | EmbeddedPkg/GdbStub/GdbStub.c:798-812 | escaped text survives framing if and only if it fits, and decodes to the original |
| GdbLibrary.EscapeInto | EmbeddedPkg/GdbStub/GdbStub.c:795-811 | the loop leaves the escaped text as a C string in the output buffer and counts one more than the text, exactly if the escaped text fits; otherwise it runs past the buffer |
| GdbLibrary.XferObjectReadResponse | EmbeddedPkg/GdbStub/GdbStub.c:783-815 | what is framed is the escaped text alone, without the type byte, exactly if it fits the output buffer; the frames put, the acknowledgements read, and whether the call returns at all |
| GdbLibrary.LibraryTransfer.Advance | EmbeddedPkg/GdbStub/GdbStub.c:1045-1080 | both cursors stop together at the next eligible entry, or at the end |
| GdbLibrary.LineFitsIff | EmbeddedPkg/GdbStub/GdbStub.c:1054-1062 | an image's line fits the output buffer exactly if its length and the bytes of its name and address to escape are below 2000 together |
| GdbLibrary.EligibleCanOverrun | EmbeddedPkg/GdbStub/GdbStub.c:1061-1062 | an image that passes the length test and whose escaped line does not fit |
| GdbLibrary.AllFitIff | EmbeddedPkg/GdbStub/GdbStub.c:1045-1062 | the whole document fits exactly if the line of every eligible entry does |
| GdbLibrary.LineReadsBack | EmbeddedPkg/GdbStub/GdbStub.c:1054-1060 | a reader of a line's attributes finds the image's symbol file as the name and its load address as the address |
| GdbLibrary.DocumentReadsBack | EmbeddedPkg/GdbStub/GdbStub.c:1034-1084 | the document is the opening tag, one line for each normal, loaded image with a symbol file and a short enough line, in table order, which reads back as its name and address, and the closing tag |
| GdbLibrary.LibraryTransfer.QxferLibrary | EmbeddedPkg/GdbStub/GdbStub.c:1014-1087 | the reply of a request goes out on the port, unless it overruns the output buffer; the new state, and that table cursor and entry index stay in step |
| GdbLibrary.RequestNext | EmbeddedPkg/GdbStub/GdbStub.c:1033-1086 | a request at the expected offset sends exactly the next reply of the document, if it fits, and overruns the output buffer otherwise |
| GdbLibrary.CountableIff | EmbeddedPkg/GdbStub/GdbStub.c:1062-1062 | the UINTN offset does not wrap exactly if the document's bytes and replies number less than 2^64 |
| GdbLibrary.TransferComplete | EmbeddedPkg/GdbStub/GdbStub.c:1033-1086 | a client that follows the expected offsets gets header, each eligible image once in table order, footer, in 2 + eligible requests, if and only if every line fits; otherwise the lines before the first that does not |
| GdbLibrary.TransferReadsBack | EmbeddedPkg/GdbStub/GdbStub.c:1033-1086 | what a client that follows the offsets reads, reply by reply, when every line fits |
| GdbLibrary.WrongOffsetRestarts | EmbeddedPkg/GdbStub/GdbStub.c:1023-1042 | a wrong offset at any point is refused and the next request at 0 starts the document again, whole exactly if every line fits |
| GdbLibrary.ServesDocumentPrefixes | EmbeddedPkg/GdbStub/GdbStub.c:1023-1086 | over every run of requests the last replies are a prefix of the document, up to the first line that does not fit if the run reaches one |
| GdbLibrary.ByteOffsetsAreRefused | EmbeddedPkg/GdbStub/GdbStub.c:795-798 | a request is served if and only if it asks for the bytes sent plus the number of replies |
| GdbMemory.TransferFromInBufToMem | EmbeddedPkg/GdbStub/GdbStub.c:185-207 | stores exactly the bytes of the accepted pairs, up to the first rejected one, and the reply |
| GdbMemory.TransferFromMem | EmbeddedPkg/GdbStub/GdbStub.c:234-254 | the lower-case hex text of the bytes in memory, exactly if it fits the output buffer |
| GdbMemory.WriteToMemory | EmbeddedPkg/GdbStub/GdbStub.c:653-712 | fields, checks and effect of a write command |
| GdbMemory.ReadFromMemory | EmbeddedPkg/GdbStub/GdbStub.c:606-643 | fields, checks and reply of a read command |
| GdbMemory.WriteReplies | EmbeddedPkg/GdbStub/GdbStub.c:670-711 | for all fields of a write command, the error number each fault gets, and the transfer otherwise |
| GdbMemory.TransferReplies | EmbeddedPkg/GdbStub/GdbStub.c:194-206 | a transfer is refused exactly if some pair is rejected |
| GdbMemory.ReadReplies | EmbeddedPkg/GdbStub/GdbStub.c:606-643 | for all fields of a read command, the error number each fault gets, and the text otherwise |
| GdbMemory.HexTextRoundTrip | EmbeddedPkg/GdbStub/GdbStub.c:194-254 | text made by a read decodes to the bytes it was made from |
| GdbMemory.PairIsHexValue | EmbeddedPkg/GdbStub/GdbStub.c:195-203 | a pair of hex digits stores the number it spells |
| GdbMemory.HexTextSpells | EmbeddedPkg/GdbStub/GdbStub.c:234-248 | the text of a byte spells it |
| GdbMemory.HexTextIsLower | EmbeddedPkg/GdbStub/GdbStub.c:237-247 | the text holds digits and a to f only |
| GdbMemory.WriteIsTransfer | EmbeddedPkg/GdbStub/GdbStub.c:670-711 | every well-formed write command performs its transfer, or changes nothing if the text has the wrong length |
| GdbMemory.WriteStores | EmbeddedPkg/GdbStub/GdbStub.c:670-711 | a write command with the text of some bytes stores exactly those bytes and is answered Ok |
| GdbMemory.LoadStored | EmbeddedPkg/GdbStub/GdbStub.c:194-204 | stored bytes are loaded back and every other address keeps its byte, wrap-around included |
| GdbMemory.RemoteMemoryRoundTrip | EmbeddedPkg/GdbStub/GdbStub.c:604-712 | a write and then a read of the same valid range give hex text for exactly the data, and no other address changes |
| GdbMemory.BadDataRefusedIffSigned | EmbeddedPkg/GdbStub/GdbStub.c:194-202 | text with a non-hex character is refused if CHAR8 is signed and accepted if it is not |
| Bytes.HexToUintnExact | MdePkg/Library/BaseLib/SafeString.c:2442-2485 | any hex digits are read as their value, which saturates at MAX_UINTN, whatever non-digit follows |
| Bytes.BlanksAreSkipped | MdePkg/Library/BaseLib/SafeString.c:2442-2449 | spaces and tabs in front change nothing |
| Bytes.PrefixIsSkipped | MdePkg/Library/BaseLib/SafeString.c:2450-2470 | an 'x' behind a zero is a prefix, and without a zero gives 0 |
| Bytes.ByteHexRoundTrip | EmbeddedPkg/GdbStub/GdbStub.c:306-308 | the two checksum digits read back as the checksum |
| Bytes.HexCharToInt | EmbeddedPkg/GdbStub/GdbStub.c:414-427 | non-negative exactly for the hex digits of either case |
| Bytes.HexCharValues | EmbeddedPkg/GdbStub/GdbStub.c:414-427 | digits count from 0 and letters of either case from 10 |
| GdbFileIo.GdbParseFReplyPacket | EmbeddedPkg/GdbStub/SerialIo.c:64-98 | INTN return code, error number and Ctrl-C flag of a reply, and -1 for any other packet |
| GdbFileIo.OtherIsNoReply | EmbeddedPkg/GdbStub/SerialIo.c:71-74 | a packet without 'F' gives -1 and leaves the error number alone |
| GdbFileIo.CtrlCIsThirdField | EmbeddedPkg/GdbStub/SerialIo.c:78-95 | Ctrl-C is flagged exactly by a third field that starts with 'C' |
| GdbFileIo.ErrNoIsSecondField | EmbeddedPkg/GdbStub/SerialIo.c:78-85 | the error number is the value of the second field, 0 without one |
| GdbFileIo.FailureReadsAsZero | EmbeddedPkg/GdbStub/SerialIo.c:76-76 | whatever follows "F-", the return code is 0 |
| GdbFileIo.RetCodeReadIff | EmbeddedPkg/GdbStub/SerialIo.c:76-76 | for every sign and digits: the code equals the number written if and only if that is 0, or has no '-' and is below 2^63 |
| GdbFileIo.ErrorTextReadsBack | EmbeddedPkg/GdbStub/GdbStub.c:441-452 | an error reply carries the low byte of its number in hex |
| GdbFileIo.OthersGetEmptyReply | EmbeddedPkg/GdbStub/SerialIo.c:163-166 | every packet that is neither the F reply nor the command served gets the empty reply and changes nothing |
| GdbFileIo.FPacketIsolation | EmbeddedPkg/GdbStub/GdbStub.c:1208-1251 | under every interleaving of callback and arriving bytes the reader does what it does alone, and until it returns no byte is missing |
| GdbFileIo.CallbackReadsIff | EmbeddedPkg/GdbStub/GdbStub.c:1219-1240 | the callback leaves the line alone if and only if a flag is set or nothing waits |
| GdbFileIo.AfterCtrlCIs | EmbeddedPkg/GdbStub/GdbStub.c:1219-1240 | the callback drops what waits up to the first Ctrl-C and leaves what comes after it, or drops everything |
| GdbFileIo.LineWholeIff | EmbeddedPkg/GdbStub/GdbStub.c:1208-1251 | with or without the flag, for every run: no byte is missing if and only if every callback found nothing waiting or a flag set, and then the thread did what it does alone |
| GdbFileIo.UnguardedReplyCanBeLost | EmbeddedPkg/GdbStub/SerialIo.c:197-261 | without the flag, as in GdbWrite, a callback can take the whole reply and the thread then waits forever |
| GdbFileIo.TrapsKept | EmbeddedPkg/GdbStub/GdbStub.c:1219-1250 | in the guarded part only a flagged reply asks for a trap, whatever bytes the packets hold |
| GdbFileIo.FlagGivenUpAtReturn | EmbeddedPkg/GdbStub/SerialIo.c:178-180 | GdbRead gives its flag up with its last step and no sooner, GdbWrite never touches it |
| GdbFileIo.CtrlCBreaksOnce | EmbeddedPkg/GdbStub/SerialIo.c:93-95 | a flagged reply leads to exactly one AddSingleStep, at the next callback |
| GdbReadMethod.Stub.GdbPeriodicCallBack | EmbeddedPkg/GdbStub/GdbStub.c:1208-1251 | the method has the effect of the callback step |
| GdbReadMethod.SendReaches | EmbeddedPkg/GdbStub/GdbStub.c:285-313 | SendPacket's contract describes the machine's steps from sending to what follows, or to waiting for a reply that never comes |
| GdbReadMethod.ReceiveReaches | EmbeddedPkg/GdbStub/GdbStub.c:346-387 | ReceivePacket's contract describes the machine's steps from hunting to a packet |
| GdbReadMethod.FinalUnique | EmbeddedPkg/GdbStub/SerialIo.c:114-181 | a run of the machine on a line has at most one end |
| GdbReadMethod.Dispatch | EmbeddedPkg/GdbStub/SerialIo.c:148-167 | the reply to each packet that is not the F reply, and its effect on memory, for both functions |
| GdbReadMethod.AwaitFReply | EmbeddedPkg/GdbStub/SerialIo.c:142-168 | serves packets until the F reply or waits forever; either way the loop is a run of the machine |
| GdbReadMethod.Conclude | EmbeddedPkg/GdbStub/SerialIo.c:170-176 | the code of the reply, its flag, and its error number sent back |
| GdbReadMethod.GdbRead | EmbeddedPkg/GdbStub/SerialIo.c:114-181 | bytes read and put, packets and memory are those of the machine's one end on the line; it returns exactly if that is a return, with the reply's code and the flags left |
| GdbReadMethod.GdbWrite | EmbeddedPkg/GdbStub/SerialIo.c:197-261 | the same, serving memory reads, with memory and the flag untouched |
| GdbSession.ExchangeEnds | EmbeddedPkg/GdbStub/SerialIo.c:136-180 | on a line with any packets and then an F reply, each after failed attempts and noise and each reply repeated until '+' or the retry count, that end is the return, every packet served in turn, nothing behind the exchange read |
| GdbSession.ClosingReportsErrNo | EmbeddedPkg/GdbStub/SerialIo.c:170-176 | an exchange reports 'E' and the low byte of the second field exactly if that field is not 0 |
| GdbSession.ReadDelivers | EmbeddedPkg/GdbStub/SerialIo.c:114-181 | GdbRead on such a line: memory holds exactly the chunks the host wrote, each answered OK |
| GdbSession.WriteDelivers | EmbeddedPkg/GdbStub/SerialIo.c:197-261 | GdbWrite on such a line: memory is unchanged and each read is answered with text that decodes to the bytes there |
| GdbSession.FrameArrives | EmbeddedPkg/GdbStub/GdbStub.c:346-387 | a clean packet in its frame, after any noise and abandoned packets, is one way to arrive |
| BootMemory.HobList.MemoryPeim | ArmPlatformPkg/MemoryInitPei/MemoryInitPeiLib.c:95-186 | the list after both searches and the split, and the value ASSERT(Found) sees |
| BootMemory.HobList.SplitFirmware | ArmPlatformPkg/MemoryInitPei/MemoryInitPeiLib.c:129-185 | the first descriptor that holds the firmware is split in place, or nothing changes |
| BootMemory.PiecesCover | ArmPlatformPkg/MemoryInitPei/MemoryInitPeiLib.c:138-172 | the pieces of a descriptor cover exactly what it covered |
| BootMemory.SplitConserves | ArmPlatformPkg/MemoryInitPei/MemoryInitPeiLib.c:138-177 | the address-to-attributes map of system memory is unchanged by the split |
| BootMemory.SplitKeepsDisjoint | ArmPlatformPkg/MemoryInitPei/MemoryInitPeiLib.c:138-177 | pairwise disjoint system memory stays so |
| BootMemory.FirmwareSplitOffIff | ArmPlatformPkg/MemoryInitPei/MemoryInitPeiLib.c:142-159 | some descriptor is exactly the firmware, unless the found one starts with it, it ends at the memory top and the descriptor goes above |
| BootMemory.EmptyRemainderIff | ArmPlatformPkg/MemoryInitPei/MemoryInitPeiLib.c:142-153 | exactly when a descriptor of length zero is left |
| BootMemory.OtherPiecesNonempty | ArmPlatformPkg/MemoryInitPei/MemoryInitPeiLib.c:142-172 | no other descriptor of the split is empty |
| BootMemory.AllocationsAre | ArmPlatformPkg/MemoryInitPei/MemoryInitPeiLib.c:175-177 | the firmware is recorded as boot-services data exactly when a descriptor was found for it, and nothing else is |
| BootMemory.FdInMemoryIff | ArmPlatformPkg/MemoryInitPei/MemoryInitPeiLib.c:122-128 | the firmware counts as inside memory exactly if each of its addresses is |
| BootMemory.DeclaresIff | ArmPlatformPkg/MemoryInitPei/MemoryInitPeiLib.c:98-104 | which descriptors pass the first search |
| BootMemory.AddedDescriptorIsFound | ArmPlatformPkg/MemoryInitPei/MemoryInitPeiLib.c:108-116 | ASSERT(Found) holds whenever the first search added its own descriptor |
| BootMemory.AssertHoldsIff | ArmPlatformPkg/MemoryInitPei/MemoryInitPeiLib.c:95-185 | exactly when ASSERT(Found) holds |
| BootMemory.AssertCanFail | ArmPlatformPkg/MemoryInitPei/MemoryInitPeiLib.c:98-100 | a configuration on which it fails |
| BootMemory.MemoryPeimConserves | ArmPlatformPkg/MemoryInitPei/MemoryInitPeiLib.c:95-186 | over the whole call, for every address and attributes, coverage is what it was, plus one on system memory exactly if no descriptor passed the first search; disjointness is kept |
| BootMemory.DeclaredDisjointIff | ArmPlatformPkg/MemoryInitPei/MemoryInitPeiLib.c:95-116 | exactly when the descriptor the first search adds keeps the list disjoint |
| BootMemory.InitializeMemory | ArmPlatformPkg/MemoryInitPei/MemoryInitPeim.c:100-134 | where nothing wraps: a region in capped memory, the highest that avoids the firmware, or none exactly if memory is unusable, the firmware is partly in it, or no place is left |
| BootMemory.PlacementSafe | ArmPlatformPkg/MemoryInitPei/MemoryInitPeim.c:104-134 | the choice has that meaning; it avoids the firmware if and only if the firmware does not strictly surround memory |
| BootMemory.RegionAvoidsFirmwareAllocation | ArmPlatformPkg/MemoryInitPei/MemoryInitPeiLib.c:175-177 | the region handed to PEI never meets the allocation recorded for the firmware |
| SecondaryBoot.FindCore | ArmPlatformPkg/PrePeiCore/MainMPCore.c:67-71 | the first table entry with the core's cluster and core numbers |
| SecondaryBoot.ParkOnMailbox | ArmPlatformPkg/PrePeiCore/MainMPCore.c:79-96 | jumps at the first nonzero read, having ended exactly the valid interrupts of all passes |
| SecondaryBoot.ValidOnesAre | ArmPlatformPkg/PrePeiCore/MainMPCore.c:88-91 | the interrupts to end are the acknowledged ones below the number of interrupts, each as often as it was acknowledged |
| SecondaryBoot.StepAcknowledges | ArmPlatformPkg/PrePeiCore/MainMPCore.c:86-91 | exactly the acknowledge step takes an interrupt: a pending one, or the spurious identifier if there is none, and records it |
| SecondaryBoot.SpuriousEndedIff | ArmPlatformPkg/PrePeiCore/MainMPCore.c:86-91 | a spurious acknowledge is taken for valid and ended exactly if the distributor counts 1024 interrupts |
| SecondaryBoot.Reachable | ArmPlatformPkg/PrePeiCore/MainMPCore.c:66-96 | the inductive invariant holds after every sequence of core steps, mailbox writes and interrupts |
| SecondaryBoot.BootSafety | ArmPlatformPkg/PrePeiCore/MainMPCore.c:66-96 | a core jumps only to a nonzero address written to its mailbox after its own clear, the first nonzero value it read, having ended exactly the valid ones among the interrupts it acknowledged, one for each read |
| SecondaryBoot.OwnMailbox | ArmPlatformPkg/PrePeiCore/MainMPCore.c:66-83 | different cores use different table entries, hence different mailboxes where those are distinct |
| SecondaryBoot.WakeUpWorksIff | ArmPlatformPkg/PrePeiCore/MainMPCore.c:79-92 | in every interleaving with other cores and writers, for every set of pending interrupts: after 8 own steps the core has jumped to its mailbox if and only if the interrupt did not come between reading zero and acknowledging with nothing else pending |
| SecondaryBoot.WindowOversleeps | ArmPlatformPkg/PrePeiCore/MainMPCore.c:82-91 | in that window the core ends asleep with its mailbox set and nothing pending, and stays so |
| SecondaryBoot.WindowIsReachable | ArmPlatformPkg/PrePeiCore/MainMPCore.c:79-86 | the window is met in an ordinary pass, woken by an earlier interrupt |
| TemporaryRam.PrimaryMain | ArmPlatformPkg/PrePeiCore/MainMPCore.c:127-144 | the hand-off tiles the RAM above the PPI list, heap first, exactly if at most one byte or at least one alignment unit is left; the heap is half of it, rounded up by less than the alignment |
| TemporaryRam.HalfFitsIff | ArmPlatformPkg/PrePeiCore/MainMPCore.c:142-142 | the rounded-up half fits exactly for sizes of at most 1 or at least the alignment |
| TemporaryRam.AlignedIsMultiple | MdePkg/Include/Base.h:881-881 | the rounded value is a multiple of the alignment |
| TemporaryRam.SplitPartitionsIff | ArmPlatformPkg/PrePeiCore/MainMPCore.c:127-144 | the fields computed, as a function, tile the RAM exactly under that condition |
| TemporaryRam.TemporaryRamSupport | ArmPlatformPkg/PrePeiCore/PrePeiCore.c:108-142 | both copies, for regions that overlap in any way; the new region holds old stack then old heap, all else unchanged, exactly if the heap survives the copy of the stack; the stack delta |
| TemporaryRam.MigratesIff | ArmPlatformPkg/PrePeiCore/PrePeiCore.c:126-136 | the same of the two copies: the condition compares the heap bytes that the new stack covers with those written there |
| TemporaryRam.ApartSurvives | ArmPlatformPkg/PrePeiCore/PrePeiCore.c:126-136 | it holds for all contents where the new stack and the old heap share no address |
| TemporaryRam.MeetingCanLoseHeap | ArmPlatformPkg/PrePeiCore/PrePeiCore.c:126-136 | where they share one, some contents lose a heap byte |
| TemporaryRam.SplitAndMigrationAgree | ArmPlatformPkg/PrePeiCore/PrePeiCore.c:121-139 | every old stack byte is at its address plus the delta and the heap fills the rest of the new region |
| DeviceTree.EnabledIff | ArmVirtPkg/FdtClientDxe/FdtClientDxe.c:84-99 | a node is enabled exactly if it has no status or one that starts with "okay" or "ok" and a NUL |
| DeviceTree.HasName | ArmVirtPkg/FdtClientDxe/FdtClientDxe.c:134-144 | the cursor loop finds a name exactly if it is in the list up to the first empty string |
| DeviceTree.NamesPack | ArmVirtPkg/FdtClientDxe/FdtClientDxe.c:134-144 | a packed list of strings is read back |
| DeviceTree.FindNextCompatibleNode | ArmVirtPkg/FdtClientDxe/FdtClientDxe.c:105-147 | the first enabled later node that holds the name, or that there is none |
| DeviceTree.EnumerateCompatible | ArmVirtPkg/FdtClientDxe/FdtClientDxe.c:105-159 | repeated calls from node 0 give the list of compatible nodes |
| DeviceTree.CompatibleAfterIs | ArmVirtPkg/FdtClientDxe/FdtClientDxe.c:119-146 | that list is sound, complete, in tree order and without repetition |
| DeviceTree.FindNextMemoryNodeReg | ArmVirtPkg/FdtClientDxe/FdtClientDxe.c:226-283 | the next enabled memory node whose 'reg' is a multiple of 16 bytes |
| DeviceTree.MemoryNodeIff | ArmVirtPkg/FdtClientDxe/FdtClientDxe.c:245-270 | what a memory node is: enabled, of type "memory", with whole base and size pairs |
| DeviceTree.CountdownEndsIff | ArmVirtPkg/HighMemDxe/HighMemDxe.c:59-68 | the 32-bit countdown of the decoder reaches zero if and only if it starts at a multiple of 16 |
| DeviceTree.QuantityIsBigEndian | ArmVirtPkg/HighMemDxe/HighMemDxe.c:60-67 | two swapped cells anywhere in a property are one big-endian number |
| DeviceTree.RangesAre | ArmVirtPkg/HighMemDxe/HighMemDxe.c:59-68 | the k-th range of a property is its k-th group of sixteen bytes, base then size |
| DeviceTree.MemorySpace.Register | ArmVirtPkg/HighMemDxe/HighMemDxe.c:70-86 | what one range leads to |
| DeviceTree.MemorySpace.RegisterReg | ArmVirtPkg/HighMemDxe/HighMemDxe.c:59-124 | a property is decoded into size / 16 ranges, registered in order |
| DeviceTree.InitializeHighMemDxe | ArmVirtPkg/HighMemDxe/HighMemDxe.c:21-128 | ends, having registered exactly the ranges of the enabled memory nodes in tree order |
| DeviceTree.MemoryAfterIs | ArmVirtPkg/HighMemDxe/HighMemDxe.c:49-55 | exactly the ranges of the memory nodes are looked at |
| DeviceTree.ExistingKept | ArmVirtPkg/HighMemDxe/HighMemDxe.c:77-86 | an address that exists never changes its kind |
| DeviceTree.AddedAreDisjointRanges | ArmVirtPkg/HighMemDxe/HighMemDxe.c:77-86 | everything added comes from the tree and no two added ranges overlap |
| DeviceTree.FreeRangeIsAdded | ArmVirtPkg/HighMemDxe/HighMemDxe.c:70-86 | a nonempty, acceptable, nonexistent range that no earlier one touches is added |
| DosFormat.Subs12 | BaseTools/Scripts/FormatDosFiles.py:33-34 | the first two substitutions together put a CR before every bare LF and change nothing else |
| DosFormat.Sub3Closes | BaseTools/Scripts/FormatDosFiles.py:36-36 | the third appends CR LF exactly to a file that ends in neither |
| DosFormat.Sub4Line | BaseTools/Scripts/FormatDosFiles.py:38-38 | the fourth removes exactly the trailing blanks of a line |
| DosFormat.Sub5IsJoin | BaseTools/Scripts/FormatDosFiles.py:40-40 | the fifth replaces each tab by two spaces and nothing else |
| DosFormat.FormatFileIsFormatLines | BaseTools/Scripts/FormatDosFiles.py:32-40 | the five substitutions equal a line-by-line formatter on every byte string |
| DosFormat.FormatOneLine | BaseTools/Scripts/FormatDosFiles.py:32-40 | a line of text without trailing blanks comes out with tabs as two spaces and CR LF, whichever way it ended |
| DosFormat.FormatFileCorrect | BaseTools/Scripts/FormatDosFiles.py:32-40 | the result is in normal form, formatting again changes nothing, and all other bytes are kept in order |
| DiffScan.GitDiffCheck.constructor | BaseTools/Scripts/PatchCheck.py:299-310 | the lines checked are exactly the added lines of text hunks before the first halt, each once; ok says the format is fine and all of them satisfy the rules in force |
| DiffScan.GitDiffCheck.Run | BaseTools/Scripts/PatchCheck.py:324-403 | always advances, keeps the attributes set, and goes on scanning or is finished |
| DiffScan.GitDiffCheck.RunStart | BaseTools/Scripts/PatchCheck.py:343-365 | the START branch keeps the scanner in agreement with the lines read |
| DiffScan.GitDiffCheck.RunPrePatch | BaseTools/Scripts/PatchCheck.py:366-389 | the PRE_PATCH branch likewise |
| DiffScan.GitDiffCheck.RunPatch | BaseTools/Scripts/PatchCheck.py:390-403 | the PATCH branch likewise; "unexpected patch line" is unreachable |
| DiffScan.GitDiffCheck.EndOfPatch | BaseTools/Scripts/PatchCheck.py:333-341 | the scan ends, with an error exactly if another diff follows |
| DiffScan.GitDiffCheck.CheckAddedLine | BaseTools/Scripts/PatchCheck.py:443-464 | ok stays true exactly if the line satisfies the rules |
| DiffScan.NextMode | BaseTools/Scripts/PatchCheck.py:327-374 | the state after a line is given by the last marker line |
| DiffScan.NextRules | BaseTools/Scripts/PatchCheck.py:344-380 | how a line changes the rules in force |
| DiffScan.AddedBeforeIs | BaseTools/Scripts/PatchCheck.py:395-396 | the list of checked lines is complete, sound and increasing |
| DiffScan.CrlfRuleIff | BaseTools/Scripts/PatchCheck.py:444-454 | the CRLF rule accepts exactly text plus CR LF where the text ends in neither |
| DiffScan.LineFineIff | BaseTools/Scripts/PatchCheck.py:443-464 | what an added line must be: no forbidden tab, no white space before its ending, no old DEBUG macro, and CR LF where that is demanded |
| DiffScan.EndsPatchIff | BaseTools/Scripts/PatchCheck.py:328-341 | which lines of a text hunk end it |
| DiffScan.KnownLines | BaseTools/Scripts/PatchCheck.py:327-389 | the lines of git that the scanner knows, whatever follows |
| DiffScan.FileNameOf | BaseTools/Scripts/PatchCheck.py:346-346 | the name taken from a header line |
| UnusedItems.ParseDscFdfInfContent | BaseTools/Scripts/DetectNotUsedItem.py:88-98 | the backward loop with remove equals filter and tidy in order, duplicates included |
| UnusedItems.KeptWithout | BaseTools/Scripts/DetectNotUsedItem.py:92-93 | which of several equal comment lines is removed makes no difference |
| UnusedItems.HashIff | BaseTools/Scripts/DetectNotUsedItem.py:92-92 | a line is a comment exactly if '#' is its first character that is no white space |
| UnusedItems.DroppedIff | BaseTools/Scripts/DetectNotUsedItem.py:92-92 | exactly comments and bare line ends are dropped |
| UnusedItems.TidyIs | BaseTools/Scripts/DetectNotUsedItem.py:94-97 | a kept line is its text without the white space around it and the comment behind it |
| UnusedItems.ItemNameIs | BaseTools/Scripts/DetectNotUsedItem.py:75-75 | an item's name is what stands before the first of its three separators, without white space around it |
| UnusedItems.SectionOfIs | BaseTools/Scripts/DetectNotUsedItem.py:61-70 | a section name is what stands between the first '[' and the last ']' |
| UnusedItems.NeedParseIff | BaseTools/Scripts/DetectNotUsedItem.py:82-86 | the sections looked at are those whose name contains one of five words |
| UnusedItems.FlaggedIff | BaseTools/Scripts/DetectNotUsedItem.py:69-71 | a line is flagged exactly if the last section header up to it names such a section |
| UnusedItems.ParseDecContent | BaseTools/Scripts/DetectNotUsedItem.py:60-79 | every item with its name and its block of lines |
| UnusedItems.BlockIs | BaseTools/Scripts/DetectNotUsedItem.py:72-78 | a line is in an item's block exactly if it is flagged and that item is the first from it on |
| UnusedItems.BlocksDisjoint | BaseTools/Scripts/DetectNotUsedItem.py:72-78 | blocks of different items share no line |
| UnusedItems.Clean | BaseTools/Scripts/DetectNotUsedItem.py:126-139 | removes exactly the flagged lines whose item is unused and keeps the others in order |
| UnusedItems.RemainingIs | BaseTools/Scripts/DetectNotUsedItem.py:133-138 | what remains is the lines whose numbers are not removed, in order |
| Strtoul.StrToUl | EmbeddedPkg/Include/libfdt_env.h:144-205 | the value and the end position |
| Strtoul.ParsesEvery | EmbeddedPkg/Include/libfdt_env.h:159-204 | in every base, for every digit string: the wrapped value, or UINT32_MAX if the wrapped value drops at some digit, and how many digits are taken |
| Strtoul.ParsesExactly | EmbeddedPkg/Include/libfdt_env.h:159-204 | in every base the positional value of digits that fit, and *endptr past the last digit except exactly for a lone octal 0 |
| Strtoul.HexPrefixExactly | EmbeddedPkg/Include/libfdt_env.h:167-173 | the value after a 0x prefix, and the end position |
| Strtoul.BaseZeroSelects | EmbeddedPkg/Include/libfdt_env.h:167-183 | base 0 behaves as base 16, 8 or 10 by the prefix |
| Strtoul.PromiseKeptIff | EmbeddedPkg/Include/libfdt_env.h:132-141 | the promised value or ULONG_MAX is returned if and only if the value fits, or the test fires and unsigned long has 32 bits, or it does not fire and the value wraps to ULONG_MAX; the value itself exactly when it fits |
| Strtoul.OverflowSeenAtOnceIff | EmbeddedPkg/Include/libfdt_env.h:189-196 | the test never fires before the first prefix that does not fit, and fires there exactly if the wrapped value is below the prefix before |
| Strtoul.OneDigitTooMany | EmbeddedPkg/Include/libfdt_env.h:189-196 | what is returned when only the last digit overflows, and exactly when that is ULONG_MAX |
| Strtoul.WideOverflowMisreported | EmbeddedPkg/Include/libfdt_env.h:192-196 | with more than 32 bits a detected overflow returns UINT32_MAX and never ULONG_MAX |
| Strtoul.OverflowCanGoUnseen | EmbeddedPkg/Include/libfdt_env.h:190-196 | a string whose overflow the test misses |
| Strtoul.Digit2ValIs | EmbeddedPkg/Include/libfdt_env.h:109-116 | digits count from 0 and letters from 10, in either case |
| Strtoul.IsDigitIff | EmbeddedPkg/Include/libfdt_env.h:96-116 | a character is a digit of a base exactly if it stands for a value below it |
| Strtoul.RefusedIff | EmbeddedPkg/Include/libfdt_env.h:153-158 | exactly negative bases, 1 and those above 36 are refused |
| Smbios.SizeOf | EmulatorPkg/CpuRuntimeDxe/Cpu.c:184-199 | the precomputed size is that of the template and the string set |
| Smbios.AppendStrings | EmulatorPkg/CpuRuntimeDxe/Cpu.c:209-215 | the strings fill the room behind the template exactly |
| Smbios.LogSmbiosData | EmulatorPkg/CpuRuntimeDxe/Cpu.c:161-215 | the record handed over, and the failure on a NULL array |
| Smbios.PackedStringsReadBackIff | EmulatorPkg/CpuRuntimeDxe/Cpu.c:184-215 | the record ends in two NULs, and every string reads back under its number exactly if none is empty |

## Left out

- GdbMemory.WriteToMemory: a missing separator, and an address or length field longer than its local buffer before the length check, run past arrays in the source; the model replies Runaway for the first and applies the check for the second.
- GdbMemory.ReadFromMemory: the same, and a read whose text exceeds the output buffer is also Runaway.
- GdbMemory.TransferFromMem: what is overwritten when the text runs past the output buffer.
- GdbLibrary.EscapeInto: what is overwritten when the escaped text runs past the output buffer.
- GdbLibrary.LibraryTransfer.QxferLibrary: what is overwritten, and anything the stub does, after a response has run past the output buffer.
- Bytes.HexToUintnExact: a string that starts with 'x' makes the source look at the byte before it; the model takes that byte not to be '0'.
- GdbReadMethod.GdbRead: the request text is given, since its formatting is AsciiSPrint's.
- GdbReadMethod.GdbWrite: the same.
- SecondaryBoot.WakeUpWorksIff: interrupt priorities and masking; the acknowledge register returns any pending interrupt.
- DeviceTree.HasName: a last string without NUL ends with its property, where the source would read on.
- DeviceTree.FindNextMemoryNodeReg: likewise, a device_type "memory" without its NUL is taken as ended, where the source would read on.
- DeviceTree.MemorySpace.Register: setting memory attributes after a successful add.
- DeviceTree.InitializeHighMemDxe: setting memory attributes and its failures, which change no kind.
- DiffScan.GitDiffCheck.Run: the list of newly added binary files, which only feeds a message.
- SecondaryBoot.FindCore: the search of the PPI list before it.
- CreatePpiList, the common PPI table and the terminate flag: a list concatenation.
- BuildMemoryTypeInformationHob, MMU set-up and driver entry points: no logic of their own.
- GdbExceptionHandler's dispatch, register and breakpoint commands, T signals, PeCoffLoaderGetDebuggerInfo: they depend on processor code or raw image layouts.
- Choosing the unused items in DetectNotUsedItem.py, directory walking and file input and output in the scripts, commit-message checks.
- Everything else in the tree, among it the crypto wrappers, the dynamic tables and the other scripts.
