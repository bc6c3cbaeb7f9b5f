# LEAP platform: verified models of drivers, tools and messages

A Dafny model of the parts of the LEAP FPGA platform that move bytes between a host and a board, and proofs of
what they promise. Every oracle (kernel, USB device, bus, other users) is arbitrary: an answer function, a
nondeterministic choice, or an event of a run.

| modules | what they model |
|---|---|
| `Ihex`, `IhexLines`, `EzUsb`, `RamLoad`, `EepromLoad`, `EepromWrap`, `EepromOverflow` | the fxload firmware loader: Intel HEX records merged into segments, loading RAM in one or two phases, burning a boot EEPROM |
| `Tap`, `JtagKey`, `JtagKeyFacts` | the JTAGkey back end, which combines parallel-port writes into bit-bang bytes, against the TAP controller of section 6.1.1 of IEEE Std 1149.1-2001 |
| `ResFile`, `Reservation`, `LockRaces` | device reservations and the programming lock of leap-fpga-ctrl, as interleaved processes over shared files |
| `Dictionary`, `CText`, `Ini`, `IniProgram`, `IniRoundTrip`, `IniErrors`, `IniValues` | the INI dictionary: a hashed slot array, its printer and its parser |
| `PageTiling`, `DmaQueue`, `Activation` | the BlueNoC PCIe driver: page tiling for scatter-gather, the 16-deep command queue, the activation ladder and board numbers |
| `UmfHeader`, `UmfBytes`, `Umf` | UMF messages: packed headers with symbolic widths, little-endian marshalling, transfer in chunks |
| `IsoPackets`, `UsbTransfer` | USB transfers: isochronous packet layout, compaction in place, and the loop that serves a caller's buffer |
| `UnixPipe` | the simulated pipe device: chunks from fragmented reads, and its ring of channel handles |
| `Common`, `Arith` | an option type, bytes, and products and quotients |

Code that updates state in place is a class or a method over arrays, proved against a specification function or
against a statement of its result; the lemmas then say what that function keeps. `dafny verify dfyconfig.toml`
checks everything.

## Where the code does less than it seems to promise

Each of these is proved: the exact condition under which the promise does hold, and an input that breaks it.

- parse_ihex reads lines of at most 511 characters, so records of 250 bytes and more are refused
  (`Ihex.ScanOfPrint`, `Ihex.LongRecordRefused`).
- parse_ihex moves the write address only when its buffer is empty at a record that starts a new block, so an
  empty data record can misplace the bytes of the next one (`Ihex.MergePreservesStream`, `Ihex.EmptyRecordMisplaces`).
- An EEPROM image that does not fit 16-bit addresses wraps around onto the boot byte, and can make a half-written
  EEPROM bootable (`EepromWrap.ReservedBytesIffFits`, `EepromWrap.UnbootableUntilLastIff`,
  `EepromOverflow.BigFileBootsHalfWritten`).
- The reply loop of jtagkey_transfer compares port values where the send loop compared pin bytes, so a write that
  changes only PROG shifts every later read of its batch (`JtagKeyFacts.AlignedIffFaithful`, `JtagKeyFacts.ProgWriteMisaligns`).
- A process that is refused the programming of a device, or that takes its own device out of PROGRAM, removes the
  lock even if another process on that device relies on it. The lock protects exactly the runs in which this does
  not happen (`LockRaces.CoveredIffRaceFree`), and every other one can go wrong (`LockRaces.RacesCanBreak`,
  `LockRaces.LostLockBreaks`, `LockRaces.StolenLockBreaks`).
- A refused request to program a FREE device leaves the programming lock behind (`Reservation.LockLeakedIff`,
  `Reservation.LeakHappens`).
- The DMA queue depends on the cached level not being stale when a transfer starts (`DmaQueue.Channel.SendPieces`,
  `DmaQueue.OverrunFromScratch`).
- The last channel of the pipe device shares handle 0 with the first (`UnixPipe.Table.OpenMany`).
- iniparser_load forgets the errors of all lines before the last one that sets an entry, because such a line
  overwrites the error count (`IniErrors.LoadRefusesIff`, `IniErrors.JunkLoads`).

## Model

| member | source | states |
|---|---|---|
| `Ihex.ParseOfPrint` | drivers/linux/Xilinx_Platform_Cable/fxload/ezusb.c:329-394 | a line buffer holding a printed record, with any checksum, is parsed back to the same address and bytes |
| `Ihex.ScanOfPrint` | drivers/linux/Xilinx_Platform_Cable/fxload/ezusb.c:320-430 | the text of a printed file is read back as its records, up to the end record, if and only if every record has at most 249 bytes, so that its line fits the 512-byte line buffer |
| `Ihex.LongRecordRefused` | drivers/linux/Xilinx_Platform_Cable/fxload/ezusb.c:323-390 | a record of 250 bytes is taken, but its left-over newline ends the file with -2; one of 251 to 255 bytes is cut and ends it with -4 |
| `Ihex.LongCommentRefused` | drivers/linux/Xilinx_Platform_Cable/fxload/ezusb.c:323-340 | a comment of 511 characters or more ends the file with -2, unless what is left of it looks like a comment or a record |
| `Ihex.FeedAppends` | drivers/linux/Xilinx_Platform_Cable/fxload/ezusb.c:396-424 | one merge step never loses, repeats or reorders a byte; it can only decide where the record lands |
| `Ihex.MergePreservesStream` | drivers/linux/Xilinx_Platform_Cable/fxload/ezusb.c:322-430 | the (address, byte) stream of the merged segments equals the stream of the records if and only if every data record after an address-changing empty record starts at that record's address |
| `Ihex.NonEmptyRecordsWellPlaced` | drivers/linux/Xilinx_Platform_Cable/fxload/ezusb.c:322-430 | files without empty data records always keep their stream |
| `Ihex.EmptyRecordMisplaces` | drivers/linux/Xilinx_Platform_Cable/fxload/ezusb.c:364-367 | a concrete file whose empty record makes the next byte land at the wrong address |
| `Ihex.MisplacedStaysMisplaced` | drivers/linux/Xilinx_Platform_Cable/fxload/ezusb.c:396-424 | from the first misplaced record on, the merged stream differs for good |
| `Ihex.MergeWellCut` | drivers/linux/Xilinx_Platform_Cable/fxload/ezusb.c:396-424 | every segment has 1 to 1023 bytes, and two segments are separate only where there is a gap or the record at the seam, the one behind as many bytes of the file as the segments before it hold, would not have fitted |
| `Ihex.SegmentsInRange` | drivers/linux/Xilinx_Platform_Cable/fxload/ezusb.c:396-430 | the size bound holds of the segments of any text at all, malformed or not |
| `Ihex.FileStream` | drivers/linux/Xilinx_Platform_Cable/fxload/ezusb.c:297-432 | from the text of a file whose records fit the line buffer to its segments: the stream is kept exactly when the records are well placed |
| `IhexLines.CommentIgnored` | drivers/linux/Xilinx_Platform_Cable/fxload/ezusb.c:328-336 | a comment line that fits the line buffer is as good as absent, between any complete lines and any text |
| `IhexLines.UnsupportedRefused` | drivers/linux/Xilinx_Platform_Cable/fxload/ezusb.c:382-385 | a record of a type other than data and end of file ends the file with -3, whatever its length, address and contents and whatever stands around it; the records before it are taken |
| `IhexLines.EndRecordEnds` | drivers/linux/Xilinx_Platform_Cable/fxload/ezusb.c:370-379 | an end record ends the file, whatever its length, address and contents |
| `IhexLines.ShortRecordRefused` | drivers/linux/Xilinx_Platform_Cable/fxload/ezusb.c:387-391 | a data record shorter than it declares ends the file with -4 |
| `IhexLines.StrangeLineRefused` | drivers/linux/Xilinx_Platform_Cable/fxload/ezusb.c:338-341 | a line that starts neither as a comment nor as a record, or is empty, ends it with -2 |
| `IhexLines.CaseIgnored` | drivers/linux/Xilinx_Platform_Cable/fxload/ezusb.c:352-394 | the digits of a record may be in either case |
| `IhexLines.DigitsEndAt` | drivers/linux/Xilinx_Platform_Cable/fxload/ezusb.c:352-394 | a character that is no digit ends a number |
| `EzUsb.ExternalIffSomeByteOffChip` | drivers/linux/Xilinx_Platform_Cable/fxload/ezusb.c:67-118 | the three address predicates say external if and only if some byte of the block lies outside the chip's own memory map, or the address of an empty block does |
| `EzUsb.ByteAtUntouched` | drivers/linux/Xilinx_Platform_Cable/fxload/ezusb.c:214-233 | a byte that later requests do not cover keeps its value |
| `EzUsb.Loader.Write` | drivers/linux/Xilinx_Platform_Cable/fxload/ezusb.c:214-233 | one vendor request is issued and its answer returned |
| `EzUsb.Loader.Cpucs` | drivers/linux/Xilinx_Platform_Cable/fxload/ezusb.c:243-267 | the run bit is written to the CPUCS register, and success means a complete write |
| `EzUsb.Loader.WriteRetrying` | drivers/linux/Xilinx_Platform_Cable/fxload/ezusb.c:502-514 | a timed-out RAM write is tried again up to the limit; any other answer ends it |
| `EzUsb.PersistRepeats` | drivers/linux/Xilinx_Platform_Cable/fxload/ezusb.c:502-514 | on any device: the request is issued again exactly while it times out and tries are left, always the same, and the last answer is the result |
| `EzUsb.Loader.RamPoke` | drivers/linux/Xilinx_Platform_Cable/fxload/ezusb.c:456-514 | which segments the current mode takes, skips or refuses, and the totals kept |
| `EzUsb.Loader.EepromPoke` | drivers/linux/Xilinx_Platform_Cable/fxload/ezusb.c:624-673 | header and data go to consecutive EEPROM addresses, wrapping at 16 bits, and the free address moves on |
| `EzUsb.Loader.Poke` | drivers/linux/Xilinx_Platform_Cable/fxload/ezusb.c:400-424 | a segment goes to the writer chosen by the context |
| `EzUsb.Loader.Append` | drivers/linux/Xilinx_Platform_Cable/fxload/ezusb.c:411-424 | bytes of a record are copied behind those already buffered |
| `EzUsb.Loader.Merge` | drivers/linux/Xilinx_Platform_Cable/fxload/ezusb.c:396-424 | one record joins or flushes the buffer exactly as the merge step says, and is poked when flushed |
| `EzUsb.NextLine` | drivers/linux/Xilinx_Platform_Cable/fxload/ezusb.c:322-349 | one call of fgets on the line buffer, and the newline taken off |
| `EzUsb.Loader.ParseIhex` | drivers/linux/Xilinx_Platform_Cable/fxload/ezusb.c:297-432 | the whole read-and-poke loop over the text of a file, line buffer by line buffer, with every early return, leaves the device as the record-by-record specification says |
| `RamLoad.LoadRam` | drivers/linux/Xilinx_Platform_Cable/fxload/ezusb.c:530-611 | the program that loads RAM, in one or two phases, from opening the image to restarting the CPU |
| `RamLoad.LoadDelivers` | drivers/linux/Xilinx_Platform_Cable/fxload/ezusb.c:557-608 | a successful load delivers every merged segment exactly once: external ones first when there is a second stage, on-chip ones only after the CPU is stopped; without a second stage no segment is external |
| `RamLoad.SelectPartitions` | drivers/linux/Xilinx_Platform_Cable/fxload/ezusb.c:468-497 | external and on-chip segments together are exactly the segments of the file |
| `RamLoad.TotalsPartition` | drivers/linux/Xilinx_Platform_Cable/fxload/ezusb.c:499-500 | their byte counts add up to the file's |
| `RamLoad.LoadCountsBytes` | drivers/linux/Xilinx_Platform_Cable/fxload/ezusb.c:499-608 | the total kept by a successful load equals the number of bytes in the file's records |
| `RamLoad.LoadedMemory` | drivers/linux/Xilinx_Platform_Cable/fxload/ezusb.c:557-608 | after a successful load of a well-placed, consistent image, every byte of the image is in memory, the CPUCS register aside |
| `RamLoad.OnePhaseSucceedsIff` | drivers/linux/Xilinx_Platform_Cable/fxload/ezusb.c:557-568 | with a device that takes every write, a one-stage load succeeds exactly when the file is well formed and fits on chip |
| `RamLoad.TwoPhasesSucceedIff` | drivers/linux/Xilinx_Platform_Cable/fxload/ezusb.c:570-608 | and a two-stage load exactly when the file is well formed |
| `EepromLoad.LoadEeprom` | drivers/linux/Xilinx_Platform_Cable/fxload/ezusb.c:683-819 | the program that burns a boot EEPROM: what it refuses without writing anything, and what it writes otherwise |
| `EepromLoad.LayoutsAre` | drivers/linux/Xilinx_Platform_Cable/fxload/ezusb.c:704-759 | the four known chip types: where the image starts, the boot byte, the memory map, and which bits of the configuration byte are written |
| `EepromLoad.WalkImage` | drivers/linux/Xilinx_Platform_Cable/fxload/ezusb.c:651-670 | reading 4-byte headers from the start of an image up to the one flagged last decodes the segments in order, then the one-byte CPUCS reset |
| `EepromLoad.PutImageHolds` | drivers/linux/Xilinx_Platform_Cable/fxload/ezusb.c:772-790 | the segments and the reset record are packed end to end from the first free address |
| `EepromLoad.PrepareHolds` | drivers/linux/Xilinx_Platform_Cable/fxload/ezusb.c:772-805 | everything but byte 0 is in place before the type byte is written, and nothing below address 7 is touched |
| `EepromLoad.NeverBootableHalfWritten` | drivers/linux/Xilinx_Platform_Cable/fxload/ezusb.c:763-812 | for every chip type and an image that fits, whatever fails: once byte 0 was made unbootable, it is 0 after every single write request until the final type byte, and at that point the rest is complete |
| `EepromLoad.BurnOutcome` | drivers/linux/Xilinx_Platform_Cable/fxload/ezusb.c:763-819 | every early return leaves the EEPROM unbootable or complete |
| `EepromLoad.BurnSucceeds` | drivers/linux/Xilinx_Platform_Cable/fxload/ezusb.c:763-819 | a burn that reports success has written everything and made it bootable |
| `EepromLoad.BootsTheFile` | drivers/linux/Xilinx_Platform_Cable/fxload/ezusb.c:683-819 | for every chip type, booting a successfully burned EEPROM whose image fits loads exactly the file's segments, in order, then resets the CPU |
| `EepromWrap.ReservedBytesIffFits` | drivers/linux/Xilinx_Platform_Cable/fxload/ezusb.c:646-670 | writing the image leaves the reserved bytes alone if and only if it fits in 16-bit addresses |
| `EepromWrap.OversizedTouchesBoot` | drivers/linux/Xilinx_Platform_Cable/fxload/ezusb.c:646-670 | an image that does not fit writes address 0, the boot byte |
| `EepromWrap.HarmlessStaysUnbootable` | drivers/linux/Xilinx_Platform_Cable/fxload/ezusb.c:646-670 | on any device and through any failure, byte 0 stays 0 while an image is written whose bytes that fall on address 0 are all 0 |
| `EepromWrap.UnbootableUntilLastIff` | drivers/linux/Xilinx_Platform_Cable/fxload/ezusb.c:763-819 | for every chip type, device and file that is burned without an error, whether it fits or not: byte 0 is 0 after every request between the first and the last if and only if every byte of the image that falls on address 0 is 0; an image that fits has none |
| `EepromOverflow.BigFileFitsIff` | drivers/linux/Xilinx_Platform_Cable/fxload/ezusb.c:646-670 | a file of 16-byte records at two on-chip addresses in turn fits the EEPROM exactly up to 3276 records |
| `EepromOverflow.BigFileBootsHalfWritten` | drivers/linux/Xilinx_Platform_Cable/fxload/ezusb.c:763-819 | for every chip type, 3277 or more such records filled with the boot byte are burned without an error on a device that takes every write, and on the way, with the reset record still to be written, byte 0 holds the boot byte |
| `Tap.Monitor.Clock` | drivers/linux/Xilinx_Platform_Cable/usb-driver/jtagmon.c:24-214 | one call of the monitor follows the controller and notes each move and TDI bit |
| `Tap.FiveOnesReset` | drivers/linux/Xilinx_Platform_Cable/usb-driver/jtagmon.c:24-214 | five clocks with TMS high reset the controller from every state, and four do not |
| `Tap.ColumnsMoveAlike` | drivers/linux/Xilinx_Platform_Cable/usb-driver/jtagmon.c:24-214 | the data and instruction columns of the state diagram correspond, the select states aside |
| `Tap.ScanReturns` | drivers/linux/Xilinx_Platform_Cable/usb-driver/jtagmon.c:24-214 | the usual TMS sequence for shifting n data bits stays in Shift-DR until the last one and ends in Run-Test/Idle, for every n |
| `JtagKey.PinsCarryLevels` | drivers/linux/Xilinx_Platform_Cable/usb-driver/jtagkey.c:221-254 | the pin byte carries the port's TCK, TMS and TDI exactly when CTRL is clear or the levels are all low |
| `JtagKey.PinsTell` | drivers/linux/Xilinx_Platform_Cable/usb-driver/jtagkey.c:221-254 | the pin byte, bit by bit |
| `JtagKey.LastDataIsPins` | drivers/linux/Xilinx_Platform_Cable/usb-driver/jtagkey.c:216-275 | last_data is always the pin byte of last_write |
| `JtagKey.CalledProper` | drivers/linux/Xilinx_Platform_Cable/usb-driver/jtagkey.c:152-345 | both static buffers are respected call after call, and a call that reads leaves nothing pending |
| `JtagKey.Driver.ExchangeBuffer` | drivers/linux/Xilinx_Platform_Cable/usb-driver/jtagkey.c:171-196 | the pending bytes go out and as many come back |
| `JtagKey.Driver.ClearOut` | drivers/linux/Xilinx_Platform_Cable/usb-driver/jtagkey.c:166-196 | reads are counted, and old writes go out first when the batch reads or might not fit |
| `JtagKey.Driver.SendOne` | drivers/linux/Xilinx_Platform_Cable/usb-driver/jtagkey.c:207-275 | one transfer's byte, and when it counts |
| `JtagKey.Driver.SendLoop` | drivers/linux/Xilinx_Platform_Cable/usb-driver/jtagkey.c:200-275 | the first loop over a batch emits exactly the bytes the specification lists |
| `JtagKey.Driver.FlushWithPad` | drivers/linux/Xilinx_Platform_Cable/usb-driver/jtagkey.c:278-302 | a reading batch is padded by one byte and exchanged |
| `JtagKey.Driver.ReplyLoop` | drivers/linux/Xilinx_Platform_Cable/usb-driver/jtagkey.c:306-372 | the second loop answers each read from the byte its own stepping rule reaches |
| `JtagKey.Driver.ReplyOne` | drivers/linux/Xilinx_Platform_Cable/usb-driver/jtagkey.c:320-360 | return code and last port value for one transfer the loop does not skip, and its answer: of a status read, TDO in bit 4 if the sample has it and PROG was written, PROG inverted in bit 3, bit 6 of the last write looped back to bit 5 or 7, and no other bit |
| `JtagKey.Driver.TransferBatch` | drivers/linux/Xilinx_Platform_Cable/usb-driver/jtagkey.c:152-374 | one call of the driver: new state, answers and return code; each status read tells, bit by bit, the received sample its stepping reaches and the last write |
| `JtagKeyFacts.CombiningPreservesTap` | drivers/linux/Xilinx_Platform_Cable/usb-driver/jtagkey.c:171-283 | over any run of calls, what was sent plus what is pending drives the TAP controller through the same states with the same TDI samples as the writes taken one by one |
| `JtagKeyFacts.EmitsAndSteps` | drivers/linux/Xilinx_Platform_Cable/usb-driver/jtagkey.c:274-322 | the second loop steps over every byte the first emitted; the converse holds exactly for transfers both loops treat alike |
| `JtagKeyFacts.AlignedIffFaithful` | drivers/linux/Xilinx_Platform_Cable/usb-driver/jtagkey.c:216-329 | a status read gets the byte one past the one emitted for it if and only if every earlier transfer of the batch is treated alike by both loops |
| `JtagKeyFacts.ReadsTheirSample` | drivers/linux/Xilinx_Platform_Cable/usb-driver/jtagkey.c:278-345 | an aligned read tells, bit by bit, TDO in the sample taken right after the byte that carries the levels in force, and the last write |
| `JtagKeyFacts.SteadyBatchFaithful` | drivers/linux/Xilinx_Platform_Cable/usb-driver/jtagkey.c:216-329 | batches of data writes and status reads that leave CTRL clear and PROG and the unmapped bits alone are aligned throughout |
| `JtagKeyFacts.ProgWriteMisaligns` | drivers/linux/Xilinx_Platform_Cable/usb-driver/jtagkey.c:318-322 | a write that only raises PROG makes the next read take the wrong byte |
| `ResFile.ScanOfPrintInt` | tools/platforms/leap-fpga-ctrl/leap-fpga-ctrl.c:418-421 | a printed number is scanned back |
| `ResFile.ScanOfSigned` | tools/platforms/leap-fpga-ctrl/leap-fpga-ctrl.c:418-421 | a number may have blanks and either sign in front of it |
| `ResFile.ScanWordIff` | tools/platforms/leap-fpga-ctrl/leap-fpga-ctrl.c:418 | a signature survives the file's text exactly when it is one word that fits the scanner's limit |
| `ResFile.ScanOfPrint` | tools/platforms/leap-fpga-ctrl/leap-fpga-ctrl.c:418-519 | owner, state and signature of a printed reservation file are scanned back |
| `Reservation.GrantedState` | tools/platforms/leap-fpga-ctrl/leap-fpga-ctrl.c:417-531 | after a granted change the file names the caller and the new state |
| `Reservation.OddIsFree` | tools/platforms/leap-fpga-ctrl/leap-fpga-ctrl.c:418-510 | a device whose file holds fewer than two numbers, or a number that is no state, can be reserved by any user without force, and its file then scans as that user and RESERVED; requests to program, activate or deactivate it die and change nothing |
| `Reservation.FewNumbersAreOdd` | tools/platforms/leap-fpga-ctrl/leap-fpga-ctrl.c:418-423 | files without digits, such as empty ones, and files with one number are of that kind, and printed ones exactly when their state is not from 0 to 5 |
| `Reservation.KnownIsOwned` | tools/platforms/leap-fpga-ctrl/leap-fpga-ctrl.c:418-510 | any other file means what its two numbers say: only its owner may activate the device, unless it is FREE, and only a FREE one can be reserved |
| `Reservation.SignatureKept` | tools/platforms/leap-fpga-ctrl/leap-fpga-ctrl.c:426-455 | which changes keep the signature, and when a signature given while programming is stored unchanged |
| `Reservation.SafeRun` | tools/platforms/leap-fpga-ctrl/leap-fpga-ctrl.c:709-757 | the lock invariant holds in every unforced interleaving of any number of processes on any devices, killed wherever they may be, as long as no step removes the lock while another process on the same device relies on it (no race) |
| `Reservation.ProgrammingExclusive` | tools/platforms/leap-fpga-ctrl/leap-fpga-ctrl.c:492-526 | in every unforced run without a race, a device in PROGRAM implies the lock file exists and names it, so at most one device is in PROGRAM or has a process about to enter it |
| `LockRaces.CoveredIffRaceFree` | tools/platforms/leap-fpga-ctrl/leap-fpga-ctrl.c:492-526 | the condition is exact: in an unforced run from a quiet world, the lock file names every device in PROGRAM and every device that a process is about to put there, at every point, if and only if no step removes the lock while another process on the same device relies on it; such a step is taken by a user who is refused as well as by an owner who leaves PROGRAM |
| `LockRaces.RaceBreaks` | tools/platforms/leap-fpga-ctrl/leap-fpga-ctrl.c:492-526 | the next step of the process that lost the lock enters PROGRAM without one if and only if the process belongs to the owner of the device |
| `LockRaces.EveryRaceCanBreak` | tools/platforms/leap-fpga-ctrl/leap-fpga-ctrl.c:492-526 | whoever lost the lock, five further steps without force lead to a device in PROGRAM without a lock file |
| `LockRaces.RacesCanBreak` | tools/platforms/leap-fpga-ctrl/leap-fpga-ctrl.c:492-526 | every unforced run with a race from a quiet world has a prefix that goes on, without force, to a device in PROGRAM without a lock file |
| `LockRaces.OneAtATimeIsRaceFree` | tools/platforms/leap-fpga-ctrl/leap-fpga-ctrl.c:709-757 | runs with at most one process at a time per device have no race |
| `LockRaces.LostLockBreaks` | tools/platforms/leap-fpga-ctrl/leap-fpga-ctrl.c:492-499 | an unforced run of two users on one device, from any quiet world in which it is reserved, that ends in PROGRAM without a lock file |
| `LockRaces.StolenLockBreaks` | tools/platforms/leap-fpga-ctrl/leap-fpga-ctrl.c:492-499 | an unforced run of three users on two devices, where the process that lost the lock does not own its device: its refusal removes the lock under which the other device is in PROGRAM |
| `Reservation.LockLeakedIff` | tools/platforms/leap-fpga-ctrl/leap-fpga-ctrl.c:505-508 | for every run without killed processes that ends idle with no device in PROGRAM: a lock file is left if and only if some step asked for PROGRAM on a FREE device and nobody has removed the lock since |
| `Reservation.LeakHappens` | tools/platforms/leap-fpga-ctrl/leap-fpga-ctrl.c:715-757 | from any quiet world, a request to program a FREE device ends idle, with no file changed and the lock file left behind |
| `Reservation.OwnerReservedLast` | tools/platforms/leap-fpga-ctrl/leap-fpga-ctrl.c:417-531 | in every run from a free device, the owner of a device that is not FREE is the user whose reserve last succeeded on it |
| `Reservation.OnlyTheOwnerChanges` | tools/platforms/leap-fpga-ctrl/leap-fpga-ctrl.c:457-500 | in every run without force, the file of a reserved device stays as it is until a change is granted to a process of its owner |
| `Reservation.SignatureSurvives` | tools/platforms/leap-fpga-ctrl/leap-fpga-ctrl.c:417-531 | in every run without a granted PROGRAM or RESET on a device, its signature stays what it was |
| `Reservation.Host.ChangeCurrentReservation` | tools/platforms/leap-fpga-ctrl/leap-fpga-ctrl.c:367-531 | one change of a device's file: the verdict, the new text, the lock file, and that no other device changes |
| `Reservation.Host.Rewritten` | tools/platforms/leap-fpga-ctrl/leap-fpga-ctrl.c:417-526 | reading, deciding and rewriting the file's text |
| `Reservation.Host.Sign` | tools/platforms/leap-fpga-ctrl/leap-fpga-ctrl.c:426-455 | when a signature may be added, and what it becomes |
| `Reservation.Host.Settle` | tools/platforms/leap-fpga-ctrl/leap-fpga-ctrl.c:457-526 | the decision table, branch by branch |
| `Reservation.Host.TryProgramLock` | tools/platforms/leap-fpga-ctrl/leap-fpga-ctrl.c:715-750 | creating the programming lock, or finding it held by this or another device |
| `Reservation.Host.Reserve` | tools/platforms/leap-fpga-ctrl/leap-fpga-ctrl.c:652-698 | the first device of the class that can be had is reserved, every earlier one was refused, and no other file changes; if some device of the class has no file yet, or an odd one, a device is found |
| `Dictionary.ComputeHash` | tools/platforms/leap-fpga-ctrl/dictionary.c:94-111 | the hash loop computes the specified 32-bit hash |
| `Dictionary.SampleHash` | tools/platforms/leap-fpga-ctrl/dictionary.c:94-111 | the 32-bit hash of one byte above 127, with its sign extension |
| `Dictionary.CharWordIs` | tools/platforms/leap-fpga-ctrl/dictionary.c:103-105 | a character enters the hash as a signed byte |
| `Dictionary.MapOfSlots` | tools/platforms/leap-fpga-ctrl/dictionary.c:181-199 | what the slot array stands for: exactly the keys in its slots, with their values |
| `Dictionary.MapOfUpdate` | tools/platforms/leap-fpga-ctrl/dictionary.c:227-282 | writing a slot adds or replaces one entry of the map |
| `Dictionary.MapOfClear` | tools/platforms/leap-fpga-ctrl/dictionary.c:295-330 | clearing a slot removes one |
| `Dictionary.MapOfGrown` | tools/platforms/leap-fpga-ctrl/dictionary.c:254-264 | doubling the array leaves the map alone |
| `Dictionary.Table.constructor` | tools/platforms/leap-fpga-ctrl/dictionary.c:123-138 | a new dictionary is the empty map, with at least 128 slots |
| `Dictionary.Table.Locate` | tools/platforms/leap-fpga-ctrl/dictionary.c:187-197 | the search by cached hash and key finds the key's slot under any hash collisions |
| `Dictionary.Table.Get` | tools/platforms/leap-fpga-ctrl/dictionary.c:181-199 | get agrees with the map, or returns the default |
| `Dictionary.Table.MemDouble` | tools/platforms/leap-fpga-ctrl/dictionary.c:44-53 | a doubled array keeps its elements and is cleared behind them |
| `Dictionary.Table.Double` | tools/platforms/leap-fpga-ctrl/dictionary.c:254-264 | growth keeps the map and the count and leaves room |
| `Dictionary.Table.Insert` | tools/platforms/leap-fpga-ctrl/dictionary.c:270-282 | a new key goes to the first free slot |
| `Dictionary.Table.Set` | tools/platforms/leap-fpga-ctrl/dictionary.c:227-282 | set agrees with the map over any history, growing when full, and keeps keys distinct and hashes right |
| `Dictionary.Table.Unset` | tools/platforms/leap-fpga-ctrl/dictionary.c:295-330 | unset agrees with the map |
| `IniProgram.StrLwcOf` | tools/platforms/leap-fpga-ctrl/iniparser.c:50-65 | the lower-casing loop, with its truncation to the line buffer |
| `CText.SpacesAre` | tools/platforms/leap-fpga-ctrl/iniparser.c:80-98 | isspace, in the C locale |
| `IniProgram.StrStrip` | tools/platforms/leap-fpga-ctrl/iniparser.c:80-98 | the stripping loops remove blanks at both ends and nothing else |
| `IniProgram.GetNSec` | tools/platforms/leap-fpga-ctrl/iniparser.c:118-131 | the number of keys without a colon |
| `IniProgram.GetSecName` | tools/platforms/leap-fpga-ctrl/iniparser.c:149-169 | the n-th of them, or NULL |
| `IniProgram.DumpIni` | tools/platforms/leap-fpga-ctrl/iniparser.c:212-250 | the text written for a dictionary |
| `IniProgram.DumpKeys` | tools/platforms/leap-fpga-ctrl/iniparser.c:228-246 | the lines of one section |
| `IniProgram.IniLine` | tools/platforms/leap-fpga-ctrl/iniparser.c:454-515 | the classification of one line |
| `IniProgram.TakeLine` | tools/platforms/leap-fpga-ctrl/iniparser.c:585-616 | the effect of a line on the section, the error count and the dictionary |
| `IniProgram.LoadIni` | tools/platforms/leap-fpga-ctrl/iniparser.c:528-629 | the load loop with continuation lines and its buffer limit agrees with the specification for every text |
| `IniErrors.LoadRefusesIff` | tools/platforms/leap-fpga-ctrl/iniparser.c:562-626 | for every text: the load returns NULL if and only if some line is unterminated or too long, or a bad line comes after the last line that sets an entry; otherwise every entry of the text is there |
| `IniErrors.BadLineForgiven` | tools/platforms/leap-fpga-ctrl/iniparser.c:594-611 | a bad line that fits the line buffer and is not continued, followed by any text in which some line sets an entry, is as good as absent |
| `IniErrors.BadLineRemembered` | tools/platforms/leap-fpga-ctrl/iniparser.c:606-626 | followed by any text in which no line sets an entry, it makes the load fail |
| `IniErrors.JunkLoads` | tools/platforms/leap-fpga-ctrl/iniparser.c:541-626 | a concrete text with a bad line that loads |
| `IniProgram.DumpAndLoad` | tools/platforms/leap-fpga-ctrl/iniparser.c:212-250 | writing a dictionary and loading the text gives a dictionary with the same map, NULL values becoming empty |
| `IniRoundTrip.LoadOfDump` | tools/platforms/leap-fpga-ctrl/iniparser.c:212-250 | for every slot table whose names, values and lines are plain, loading the dump gives the map back, NULL values of keys becoming the empty string |
| `IniRoundTrip.ValueKeptIff` | tools/platforms/leap-fpga-ctrl/iniparser.c:480-500 | a value behind the equals sign is parsed as itself if and only if it has no blanks at its ends and no comment character, is not a bare pair of quotes, and does not start with a quote followed by another character |
| `IniRoundTrip.CommentCutsValue` | tools/platforms/leap-fpga-ctrl/iniparser.c:480-500 | every value holding a comment character comes back shorter, and unless it is quoted no longer than what stands before that character |
| `IniValues.LoadQuoted` | tools/platforms/leap-fpga-ctrl/iniparser.c:480-496 | for every plain name and blanks around the equals sign: a value in double or single quotes is stored as what stands between the quotes, comment characters included, without blanks at its ends, whatever follows the closing quote on the line |
| `IniValues.LoadCommented` | tools/platforms/leap-fpga-ctrl/iniparser.c:482-496 | a value that opens no quotation is stored up to the first comment character, without blanks at its ends, and an empty pair of quotes as the empty value |
| `IniValues.LoadNothing` | tools/platforms/leap-fpga-ctrl/iniparser.c:497-509 | a name with nothing but a comment behind the equals sign gets the empty value |
| `IniValues.UnclosedValue` | tools/platforms/leap-fpga-ctrl/iniparser.c:480-481 | a quotation that is not closed goes to the end of the line |
| `IniValues.NoKeyIsBad` | tools/platforms/leap-fpga-ctrl/iniparser.c:480-513 | a line without a key before the equals sign is bad |
| `PageTiling.TilingExact` | drivers/linux/platforms/bluenoc-pcie/driver/bluenoc.c:844-856 | for every buffer address, size and page size, the entries name exactly the buffer's addresses, in order, without gap or overlap |
| `PageTiling.TilesWithinPages` | drivers/linux/platforms/bluenoc-pcie/driver/bluenoc.c:908-951 | no entry is empty or crosses a page |
| `PageTiling.TilesCount` | drivers/linux/platforms/bluenoc-pcie/driver/bluenoc.c:844-856 | how many entries there are |
| `PageTiling.PageCountIsDriverCount` | drivers/linux/Xilinx_Platform_Cable/windriver/linux_drivers/windriver64/windrvr/linux_wrappers.c:123 | the PAGE_COUNT macro and the driver's own page count agree with the tiling |
| `PageTiling.TilesAt` | drivers/linux/platforms/bluenoc-pcie/driver/bluenoc.c:908-951 | which page, offset and length entry n has |
| `PageTiling.PageArithmetic` | drivers/linux/platforms/bluenoc-pcie/driver/bluenoc.c:844-856 | first page, number of pages, and first length as the driver computes them |
| `PageTiling.LengthOfLast` | drivers/linux/platforms/bluenoc-pcie/driver/bluenoc.c:844-856 | the last length as the driver computes it |
| `PageTiling.BuildTable` | drivers/linux/platforms/bluenoc-pcie/driver/bluenoc.c:844-951 | the table of bluenoc_read is the tiling, or a fault exactly for misaligned or oversized buffers |
| `PageTiling.BuildDmaList` | drivers/linux/Xilinx_Platform_Cable/windriver/linux_drivers/windriver64/windrvr/linux_wrappers.c:1396-1410 | build_dma_list_26 builds the same list, entry for entry |
| `PageTiling.MarkDirty` | drivers/linux/platforms/bluenoc-pcie/driver/bluenoc.c:1090-1106 | after a read exactly the unreserved pages that received bytes are marked dirty |
| `DmaQueue.CommandRoundTrip` | drivers/linux/platforms/bluenoc-pcie/driver/bluenoc.c:1023-1025 | a DMA command decodes to its piece if and only if the address has 48 bits and the length is 1 to 16384, a zero field meaning 16384 |
| `DmaQueue.Flags` | drivers/linux/platforms/bluenoc-pcie/driver/bluenoc.c:1023-1050 | the end-of-list and interrupt bits are never disturbed by address or length |
| `DmaQueue.CommandFields` | drivers/linux/platforms/bluenoc-pcie/driver/bluenoc.c:1023-1050 | where a command holds its flags, length and address, bit by bit |
| `DmaQueue.Channel.UpdateStatus` | drivers/linux/platforms/bluenoc-pcie/driver/bluenoc.c:490-511 | the cached status becomes the true one |
| `DmaQueue.Channel.WaitNotFull` | drivers/linux/platforms/bluenoc-pcie/driver/bluenoc.c:1032-1037 | the driver sleeps only when it has sent no command yet or the last one asks for an interrupt |
| `DmaQueue.Channel.AwaitSlot` | drivers/linux/platforms/bluenoc-pcie/driver/bluenoc.c:1026-1049 | waiting ends with free slots that are really there, or with the flush command when the status shows a flush, or with an interruption if and only if a signal came in the last wait; or the queue stays full |
| `DmaQueue.Channel.SendPiece` | drivers/linux/platforms/bluenoc-pcie/driver/bluenoc.c:1023-1055 | one command: its contents, and an interrupt request exactly on the last free slot |
| `DmaQueue.Channel.SendPieces` | drivers/linux/platforms/bluenoc-pcie/driver/bluenoc.c:1008-1056 | against a board that drains as it likes, the queue is overrun only from a stale cached level, and from one a stopped board is always overrun; a run in which no signal comes and no wait lasts forever ends with all pieces sent, or with a flush, and one end-of-list command, last; it is interrupted if and only if a signal came in its last wait |
| `DmaQueue.Channel.WaitCompleted` | drivers/linux/platforms/bluenoc-pcie/driver/bluenoc.c:1064-1070 | a signal ends the wait for completion and leaves the cached level as it is |
| `DmaQueue.OverrunFromScratch` | drivers/linux/platforms/bluenoc-pcie/driver/bluenoc.c:1000-1070 | from a new channel: a list sent to a stopped board, a signal, and a second list overrun the queue |
| `Activation.ReplayClimb` | drivers/linux/platforms/bluenoc-pcie/driver/bluenoc.c:262-406 | climbing from one level to another acquires exactly the resources between them |
| `Activation.ReplayFall` | drivers/linux/platforms/bluenoc-pcie/driver/bluenoc.c:218-260 | falling releases everything above the board number, most recent first |
| `Activation.ReleasedOnce` | drivers/linux/platforms/bluenoc-pcie/driver/bluenoc.c:218-406 | in a trace that keeps the stack discipline nothing is held twice, and everything not held any more was released exactly as often as acquired |
| `Activation.IdleOwesNothing` | drivers/linux/platforms/bluenoc-pcie/driver/bluenoc.c:218-260 | a board back at BOARD_NUM_ASSIGNED has released everything but its number |
| `Activation.Reached` | drivers/linux/platforms/bluenoc-pcie/driver/bluenoc.c:262-406 | the level an activation reaches is the first whose step fails, or the top |
| `Activation.GrantedOrRefused` | drivers/linux/platforms/bluenoc-pcie/driver/bluenoc.c:288-405 | a numbered board becomes active if and only if every kernel call succeeds, the magic number is right and one kind of message interrupt is to be had; otherwise the first refusal gives the error code |
| `Activation.FreeNumber` | drivers/linux/platforms/bluenoc-pcie/driver/bluenoc.c:268-287 | the smallest number from 1 to 16 that no board in the list has, or none exactly when all are used |
| `Activation.Board.Undo` | drivers/linux/platforms/bluenoc-pcie/driver/bluenoc.c:223-257 | each case of deactivate releases what its level acquired |
| `Activation.Board.Deactivate` | drivers/linux/platforms/bluenoc-pcie/driver/bluenoc.c:218-260 | deactivation from any level leaves at most the board number |
| `Activation.Board.AssignNumber` | drivers/linux/platforms/bluenoc-pcie/driver/bluenoc.c:268-287 | case PROBED of activate |
| `Activation.Board.EnableMessages` | drivers/linux/platforms/bluenoc-pcie/driver/bluenoc.c:355-376 | MSI is preferred to MSI-X, and which one is remembered |
| `Activation.Board.Do` | drivers/linux/platforms/bluenoc-pcie/driver/bluenoc.c:288-405 | each further case: its error code, or its resource and the next level |
| `Activation.Board.Ascend` | drivers/linux/platforms/bluenoc-pcie/driver/bluenoc.c:288-405 | the fall through the cases stops exactly at the first failing one |
| `Activation.Board.Activate` | drivers/linux/platforms/bluenoc-pcie/driver/bluenoc.c:262-406 | for every pattern of failing kernel calls: success exactly when no step fails, and otherwise everything acquired is released in reverse order and only the board number can remain |
| `Activation.BringUp` | drivers/linux/platforms/bluenoc-pcie/driver/bluenoc.c:613-633 | activation during probe, and the device node that may still fail |
| `Activation.Driver.Probe` | drivers/linux/platforms/bluenoc-pcie/driver/bluenoc.c:565-643 | a probe succeeds exactly when a number is free and every call succeeds; the new board has the smallest free number, and a failed probe leaves the list as it was |
| `Activation.Driver.Remove` | drivers/linux/platforms/bluenoc-pcie/driver/bluenoc.c:648-693 | a removed board holds nothing but its number, and the others keep theirs |
| `Activation.Driver.Deactivate` | drivers/linux/platforms/bluenoc-pcie/driver/bluenoc.c:1558-1566 | deactivation by ioctl keeps the number |
| `Activation.Driver.Reactivate` | drivers/linux/platforms/bluenoc-pcie/driver/bluenoc.c:1567-1573 | reactivation by ioctl keeps the number and ends active or with the number alone |
| `UmfHeader.HeaderRoundTrip` | modules/bluespec/common/fpgaenv/virtual-platform/umf/little-endian/umf-little-endian.cpp:54-115 | a receiver decodes exactly the sender's fields, the length rounded up to whole chunks, if and only if every field fits its width and the rounded length fits its 32-bit field |
| `UmfHeader.DecodedFits` | modules/bluespec/common/fpgaenv/virtual-platform/umf/little-endian/umf-little-endian.cpp:54-80 | whatever chunk arrives, the decoded fields fit their widths |
| `UmfHeader.MaskRoundsUp` | modules/bluespec/common/fpgaenv/virtual-platform/umf/little-endian/umf-little-endian.h:318-322 | rounding a length by the mask equals rounding up by division |
| `UmfBytes.LoadOfStore` | modules/bluespec/common/fpgaenv/virtual-platform/umf/little-endian/umf-little-endian.h:397-446 | a value stored in n little-endian bytes is loaded back exactly when it fits them |
| `UmfBytes.MarshalRoundTrip` | modules/bluespec/common/fpgaenv/virtual-platform/umf/little-endian/umf-little-endian.h:258-312 | for any sequence of typed appends, extracting with the same types gives the values back, whatever bytes follow, exactly when every word fits |
| `UmfBytes.UnchunkedChunks` | modules/bluespec/common/fpgaenv/virtual-platform/umf/little-endian/umf-little-endian.h:340-353 | cutting memory into chunks and storing the chunks gives the same memory |
| `Umf.Message.AppendBytes` | modules/bluespec/common/fpgaenv/virtual-platform/umf/little-endian/umf-little-endian.h:386-396 | bytes are appended, or nothing when they would pass the length |
| `Umf.Message.AppendWord` | modules/bluespec/common/fpgaenv/virtual-platform/umf/little-endian/umf-little-endian.h:397-446 | typed appends and chunks |
| `Umf.Message.AppendUINT` | modules/bluespec/common/fpgaenv/virtual-platform/umf/little-endian/umf-little-endian.cpp:204-216 | at most 8 low bytes of a value |
| `Umf.Message.AppendChunks` | modules/bluespec/common/fpgaenv/virtual-platform/umf/little-endian/umf-little-endian.h:447-453 | the memory of an array of chunks |
| `Umf.Message.ExtractBytes` | modules/bluespec/common/fpgaenv/virtual-platform/umf/little-endian/umf-little-endian.h:257-265 | the next bytes |
| `Umf.Message.ExtractWord` | modules/bluespec/common/fpgaenv/virtual-platform/umf/little-endian/umf-little-endian.h:267-310 | typed extracts and chunks |
| `Umf.Message.ExtractChunks` | modules/bluespec/common/fpgaenv/virtual-platform/umf/little-endian/umf-little-endian.h:317-333 | it insists on exactly what is left up to the rounded length, and copies it |
| `Umf.Message.ExtractAllChunks` | modules/bluespec/common/fpgaenv/virtual-platform/umf/little-endian/umf-little-endian.h:340-353 | all chunks that hold a written byte, and their number |
| `Umf.Message.EncodeHeader` | modules/bluespec/common/fpgaenv/virtual-platform/umf/little-endian/umf-little-endian.cpp:89-115 | shifting the chunk and or-ing a field in, four times, gives the header the round trip is about |
| `Umf.Message.DecodeHeader` | modules/bluespec/common/fpgaenv/virtual-platform/umf/little-endian/umf-little-endian.cpp:54-80 | the fields of a header, and a fatal error exactly when the length passes the buffer |
| `Umf.Transfer` | modules/bluespec/common/fpgaenv/virtual-platform/umf/little-endian/umf-little-endian.h:257-453 | end to end: typed values, header and chunks sent to another message arrive as the same values and identifiers, with the chunk counts agreeing |
| `IsoPackets.PacketsCover` | drivers/linux/Xilinx_Platform_Cable/windriver/linux_drivers/windriver64/windrvr/wdusb_linux.c:824-840 | the packets of a request cover it: all but the last are full |
| `IsoPackets.LayPackets` | drivers/linux/Xilinx_Platform_Cable/windriver/linux_drivers/windriver64/windrvr/wdusb_linux.c:823-841 | the frame descriptors lie end to end from the start of the buffer, each a packet long but the last, which takes the rest |
| `IsoPackets.TotalBound` | drivers/linux/Xilinx_Platform_Cable/windriver/linux_drivers/windriver64/windrvr/wdusb_linux.c:680-703 | packets laid end to end deliver no more than lies before the next one, so compaction never overwrites data still to be moved |
| `IsoPackets.CopyDown` | drivers/linux/Xilinx_Platform_Cable/windriver/linux_drivers/windriver64/windrvr/wdusb_linux.c:688-694 | a forward copy to a lower address moves the bytes even when the ranges overlap |
| `IsoPackets.Urb.CommonCompletion` | drivers/linux/Xilinx_Platform_Cable/windriver/linux_drivers/windriver64/windrvr/wdusb_linux.c:666-703 | after completion the buffer starts with the data of the good packets, in order, the rest is untouched, and the length is their sum; output pipes and failed requests change nothing |
| `IsoPackets.TryAllocate` | drivers/linux/Xilinx_Platform_Cable/windriver/linux_drivers/windriver64/windrvr/wdusb_linux.c:861-912 | the first of the sizes tried that the kernel grants, down to a page; never empty, and for isochronous pipes whole packets or at most one |
| `IsoPackets.FirstSizeIs` | drivers/linux/Xilinx_Platform_Cable/windriver/linux_drivers/windriver64/windrvr/wdusb_linux.c:866-888 | the first size asked for: the request up to 64K, at most a packet for interrupts, and for isochronous pipes rounded up to whole packets and capped at 900 of them |
| `IsoPackets.SmallerIs` | drivers/linux/Xilinx_Platform_Cable/windriver/linux_drivers/windriver64/windrvr/wdusb_linux.c:896-902 | the next size: half, or as many whole packets as fit in half |
| `IsoPackets.AsksForMost` | drivers/linux/Xilinx_Platform_Cable/windriver/linux_drivers/windriver64/windrvr/wdusb_linux.c:1012-1034 | a round asks for all that is left and fits the buffer, or of an isochronous pipe for the most whole packets of it |
| `IsoPackets.UrbHoldsRound` | drivers/linux/Xilinx_Platform_Cable/windriver/linux_drivers/windriver64/windrvr/wdusb_linux.c:914-925 | the URB allocated for the first round has frame descriptors enough for every later one |
| `UsbTransfer.IsoSingle` | drivers/linux/Xilinx_Platform_Cable/windriver/linux_drivers/windriver64/windrvr/wdusb_linux.c:823-845 | one isochronous round, from laying out the packets over what the bus does with them to compaction: the buffer starts with the data of the packets that arrived without an error, in order |
| `UsbTransfer.TransferSingle` | drivers/linux/Xilinx_Platform_Cable/windriver/linux_drivers/windriver64/windrvr/wdusb_linux.c:784-850 | one round on any pipe: how many bytes moved, and that those of a read are at the front of the kernel's buffer |
| `UsbTransfer.Transfer` | drivers/linux/Xilinx_Platform_Cable/windriver/linux_drivers/windriver64/windrvr/wdusb_linux.c:1010-1066 | for every sequence of bus reports: status, rounds and byte count are those of the specified loop, and the caller's buffer holds exactly what came in, in order, never overrun; or the device is given the buffer's bytes in order, each round going on behind those it took |
| `UsbTransfer.RoundFollows` | drivers/linux/Xilinx_Platform_Cable/windriver/linux_drivers/windriver64/windrvr/wdusb_linux.c:1012-1063 | round k asks for as much of the rest as fits, whole packets on an isochronous pipe, and moves what report k brings in, clipped to that; another round follows only if something is left, the report lets it go on and, on other pipes, the round was not short |
| `UsbTransfer.TransferEnds` | drivers/linux/Xilinx_Platform_Cable/windriver/linux_drivers/windriver64/windrvr/wdusb_linux.c:1016-1066 | why the last round is the last: nothing is left, or its report does not let it go on, or it was short on a pipe that is not isochronous; otherwise the reports end, or the rest is less than a packet and unwanted, or the next report is an error other than -EOVERFLOW, which is the status |
| `UsbTransfer.RoundsOrderly` | drivers/linux/Xilinx_Platform_Cable/windriver/linux_drivers/windriver64/windrvr/wdusb_linux.c:1016-1063 | isochronous rounds ask for whole packets or at most one, and on other pipes only the last round can be short |
| `UsbTransfer.IsochronousReadDelivers` | drivers/linux/Xilinx_Platform_Cable/windriver/linux_drivers/windriver64/windrvr/wdusb_linux.c:1012-1066 | an isochronous read delivers, round after round, the data of the packets that arrived without an error |
| `UnixPipe.Channel.Fill` | modules/bluespec/common/fpgaenv/physical-platform/physical-devices/unix-pipe/unix-pipe-device-bdpi.c:344-382 | what was read goes behind what was buffered |
| `UnixPipe.Channel.TakeChunk` | modules/bluespec/common/fpgaenv/physical-platform/physical-devices/unix-pipe/unix-pipe-device-bdpi.c:385-400 | the oldest chunk is returned and the buffer starts over when empty |
| `UnixPipe.Channel.PipeRead` | modules/bluespec/common/fpgaenv/physical-platform/physical-devices/unix-pipe/unix-pipe-device-bdpi.c:262-405 | one call: what it returns, when it exits, and that everything read is returned or still buffered, in order; the buffer is left less than full and read from the front |
| `UnixPipe.Channel.ReturnedIsCut` | modules/bluespec/common/fpgaenv/physical-platform/physical-devices/unix-pipe/unix-pipe-device-bdpi.c:295-404 | at any time the chunks returned are the bytes read, cut into chunks |
| `UnixPipe.Channel.NeverStuck` | modules/bluespec/common/fpgaenv/physical-platform/physical-devices/unix-pipe/unix-pipe-device-bdpi.c:297-385 | a full buffer always holds a chunk to return when blocks are whole chunks |
| `UnixPipe.ReadRun` | modules/bluespec/common/fpgaenv/physical-platform/physical-devices/unix-pipe/unix-pipe-device-bdpi.c:295-404 | over any run of calls and any fragmentation by read: how much of the stream has been read, and that the chunks the calls returned are that part of the stream cut into chunk-size pieces |
| `UnixPipe.AllIsRead` | modules/bluespec/common/fpgaenv/physical-platform/physical-devices/unix-pipe/unix-pipe-device-bdpi.c:295-382 | as many calls that find something ready as the stream has bytes read all of it |
| `UnixPipe.ReadyReadsBlocks` | modules/bluespec/common/fpgaenv/physical-platform/physical-devices/unix-pipe/unix-pipe-device-bdpi.c:340-382 | calls that find a block or more ready read a block each |
| `UnixPipe.Table.constructor` | modules/bluespec/common/fpgaenv/physical-platform/physical-devices/unix-pipe/unix-pipe-device-bdpi.c:122-134 | the ring of free channels, and the handle of the last one that is never set |
| `UnixPipe.Table.PipeOpen` | modules/bluespec/common/fpgaenv/physical-platform/physical-devices/unix-pipe/unix-pipe-device-bdpi.c:216-259 | each open takes the head of the ring and keeps the ring whole |
| `UnixPipe.Table.OpenMany` | modules/bluespec/common/fpgaenv/physical-platform/physical-devices/unix-pipe/unix-pipe-device-bdpi.c:216-259 | the handles of the channels opened are distinct if and only if fewer than 32 are open; the last shares handle 0 |

## Left out

- Hex fields are two or four hexadecimal digits: the signs, blanks and `0x` prefixes that strtoul would also accept, lines shorter than nine characters that would read bytes of an earlier line, and NUL characters, are not modelled. Checksums are not, as in the code.
- Counters of written bytes are unbounded, and the division of the two for the progress message is left out, as is all verbose output.
- RamLoad.LoadedMemory: segments that run past 0xffff are left out, and so is an image that gives two values to one address.
- RamLoad.OnePhaseSucceedsIff: stated for a device that takes every write; for any other device RamLoad.LoadDelivers says what a successful load did.
- Short USB and FTDI reads: an exchange returns as many bytes as were sent, and a batch is shorter than the buffer.
- Reservation.ProgrammingExclusive: without --force, and with one bus identifier per device.
- Reservation: a process waits for the file lock of a device as long as it takes, without the timeout; helper scripts, device access rights, status printing, and numbers too large for %d are left out.
- Dictionary: allocation failure, and a caller that passes a string owned by the table.
- Dictionary.Table.Set: allocation succeeds.
- iniparser: a line of blanks only, whose last character the code looks for before its start, and section and key names whose joined length overflows the code's buffer.
- IniRoundTrip.LoadOfDump: at least one section, or an empty dictionary, and names, values and lines that are plain, which `Writable` spells out; other dictionaries need not survive the trip (`IniRoundTrip.CommentCutsValue`).
- PageTiling: address wrap of buffer plus count, pinning, and coalescing of neighbouring pages by an IOMMU: one mapped piece per page.
- DmaQueue: a queue that holds more than 16 commands reports 16; profiling and poll are left out, and the wait for completion is only modelled in how it leaves the cached level.
- DmaQueue.Channel.SendPieces: one run of the loop; the bus identifier, mutex and copy of the data around it are left out.
- Activation.Board.Ascend: the fall through of the C switch is written as a loop over its cases.
- Activation.Board.Unwind: likewise for the switch of deactivate.
- Activation: the wait queue and the revision registers read on the way up; NULL boards; concurrent probes.
- UmfHeader.HeaderRoundTrip: field widths below 31 bits, so that the masks fit an int; the form of the header in an array of characters is left out.
- Umf.Message.ExtractWord: the warning about an incomplete message is left out; the caller keeps the read inside the buffer.
- Umf: allocation of messages from free lists, and AppendGetRawPtr, ExtractGetRawPtr and their updates.
- IsoPackets.Urb.CommonCompletion: the host controller reports no more than a packet's length; memcpy copies forward.
- IsoPackets.TryAllocate: the page is at least as large as a packet; the exact limit of 900 packets, which rounding up can pass by one, is not stated.
- UsbTransfer.Transfer: requests of at least one byte, and buffers that could be allocated; time, disconnection and halting are one flag of a report, and a run is as long as its list of reports; the setup packet of control transfers is left out.
- UsbTransfer.IsoSingle: the frame descriptors are allocated for each round; the code allocates them once, and `IsoPackets.UrbHoldsRound` says that they are enough.
- EepromWrap: a write request that runs past 0xffff goes on at address 0, like the addresses the loader computes.
- UnixPipe.Channel.PipeRead: one open channel; reopening the pipes after the end of a persistent session, and writing, are left out.
- usb-driver.c, config.c, parport.c, xpc4, pchnl, xupv5, the windriver32 copies, the debugger console, option parsing and the physical platform classes: plumbing whose properties read off one body.
