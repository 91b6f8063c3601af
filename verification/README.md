# Verified models of LUFA components

Dafny models of the stateful parts of LUFA, the AVR USB framework: the storage, bootloader, network and serial
components whose correctness depends on what happens over a whole run. The firmware's globals and structures are
classes whose fields its functions change; the world around it is made of values: dataflash chips, AVR flash pages,
USB endpoints, a line level, a card, a file, packets.

| files | component |
|---|---|
| `Bytes`, `Arith`, `Endpoint` | bytes and packet streams, page arithmetic, USB endpoints as packet queues |
| `Dataflash*` | packets taken sixteen bytes at a time, and the block manager over one or more double-buffered dataflash chips |
| `AvrFlash`, `DfuFlash`, `DfuProtocol`, `DfuDownloads`, `DfuInterrupted`, `DfuStages`, `DfuCommands`, `BootloaderDfu`, `BootloaderDfuRuns` | self-programmed AVR flash, the DFU requests as a function on values, what that function does to the memories, downloads cut off, data stages, the short commands, the bootloader that refines it, and runs of it |
| `CdcProtocol`, `CdcTheorems`, `CdcCommands`, `BootloaderCdc` | the AVR910 commands of the CDC bootloader as a function on byte streams, the laws of its blocks and of its single commands, and the bootloader that refines it |
| `HttpServer` | the file sender over uIP events |
| `CircularBitBuffer`, `Magstripe` | the packed bit FIFO and the card reader built on it |
| `SoftUart` | the software UART's interrupt routines and the line between two of them |
| `DhcpOptions`, `DhcpPads`, `DhcpClient` | the DHCP option list, option lists with pads, and the lease state machine |
| `RingBuff`, `UsbToSerial` | the drop-oldest ring buffer and the bridge that fills it from an interrupt |
| `Scheduler` | the tick delay test |

The same pattern recurs. A class models the C code field by field and loop by loop, and each method's `ensures` ties the
new state to a function of the old one. Lemmas about that function then state what the component is for: a flat
update, a FIFO, an exact transfer, a safe run.

## Where the code falls short

The models follow the code where it departs from its comments or from a neighbouring standard, and the exact
condition is proved.

- **Page preload.** The preload test of WriteBlocks counts whole blocks, so it can miss the last page when pages are
  neither multiples nor divisors of a block. `Safe` is the condition a caller can compute; `SafeIffCovered` shows it
  exact, and every unsafe request has a run that changes a byte outside its range (`UnsafeWriteLosesByte`). Pages of
  1056 bytes happen to be safe (`NativePagesSafe`). Its 16-bit count also preloads pages for nothing, when a multiple of
  2048 blocks and less than a page are left (`LaterPreloadIff`).
- **WriteBlocks_RAM** always streams into buffer 1. Requests that end no later than the first page on the last chip are
  written as WriteBlocks writes them, so the safe ones are right; every other one loses data (`WriteBlocksRam`,
  `RamWriteLosesData`).
- **A write that follows another.** WriteBlocks waits only for the chip of its last page. A finished write has asked
  nothing of a busy chip if and only if `ReadyToWrite` held when it started; after another write that is `MayFollow`, an
  arithmetic test on the two ranges (`FollowsIff`), so two writes in a row are clean exactly when the test holds
  (`WriteTwice`). It always holds with one chip or after a write of one page (`FollowsAlways`); it fails, for one, when
  pages are larger than a block and a write over all chips is continued on the next page at once (`ContinuedTooSoon`).
- **DFU alignment filler.** A packet change costs one count and no byte, so the firmware is found exactly when
  StartAddr is a multiple of 32 (`AlignmentFraming`).
- **DFU ranges.** The loop counts words of a 16-bit length, and counts pages from the start address while the fill buffer
  has the pages of the flash. Firmware survives, whatever its bytes, exactly when its length is even and below 64KB and
  its range starts on a page or stays inside its first one (`FirmwareSurvivesIff`): an odd length loses the last byte
  (`PrefixArrives`), 64KB lose everything (`FullRangeSkipped`), other starts turn the bytes around within each page
  (`TurnedAround`).
- **DFU file suffix.** Discarding 16 bytes takes the rest of the data stage unless they end on a packet's edge with a byte
  still to come, which an odd length can bring about (`SuffixTakenIff`).
- **DFU uploads** end with no empty packet: a host that asked for more than the answer waits for the rest exactly when the
  answer is whole packets (`UploadEndsIff`).
- **DFU signature.** In the error state the parameter 0x01 of a signature command reads as that of a blank check, so the
  upload behind it answers an address: the signature is read exactly in the other states (`SignatureReadIff`).
- **Erasing with a used fill buffer.** Neither chip erase clears the fill buffer first, so the first page gets what an
  interrupted download, or a 'C' or 'c' without 'm', left in it. The DFU erase blanks the application exactly when it is
  clear (`BlankIff`).
- **CDC 'A'.** The high address byte is shifted in a 16-bit int: the address is reached exactly when that byte is below
  0x40 (`AddressReached`).
- **CDC chip erase.** The loop adds both its own step and the page size, so it skips every page whose number leaves the
  remainder SPM_PAGESIZE modulo SPM_PAGESIZE + 1 (`VisitedIff`, `ChipErase`). The 'e' command blanks the application,
  whatever it holds, exactly when the fill buffer is clear and there are at most SPM_PAGESIZE pages (`EraseBlanksIff`).
- **CDC 'C' and 'c'** both fill a whole word. Whether the part keeps the later fill or the earlier one, the word sent is in
  the buffer only if its high byte is zero, and in the second case only if it is zero altogether (`HighByteLost`).
- **CDC blocks** that are odd or cross a page do not survive (`FlashBlockSurvivesIff`).
- **Software UART.** There is one received byte and no queue: none is lost exactly when the program has read each before the
  next one is complete (`ReadsAllIff`).
- **HTTP** never closes the connection when the segment size divides the file length (`ClosesIffShortTail`).
- **BitBuffer_Init** does not clear the packed bits, although storing only sets bits: it leaves a working FIFO exactly when
  the storage is all zero (`Init`), which it is not while a one is stored (`InitKeepsStoredBits`).
- **DHCP options.** SetOption returns 8 bits, so the packet size is short by 256 for each payload of 254 or 255 bytes
  (`BuildPacket`). A pad option (RFC 2132, section 3.1) is read as if it had a length, so pads are taken in twos: the
  options of a packet are found where they are exactly when every run of pads in front of one is even
  (`OptionsFoundIff`), and a missing option ends at the terminator exactly when the run before that is even too
  (`AbsentAgreesIff`).
- **DHCP router lists.** Two routers in an offer, which RFC 2132, section 3.5, allows, fill the server address too: the
  request then names the second router unless the offer gives the server's own address (`TwoRouters`).
- **HasDelayElapsed** is one tick late whenever the counter wraps (`FiringBounds`). There is a tick at which a delay is
  due exactly when it is at most 0xFFFE or the counter is zero (`DelayHonouredIff`); so 0xFFFF, which the 16-bit
  parameter allows, never fires from any other counter (`MaxDelayNeverFires`).

## Model

| member | source | states |
|---|---|---|
| DataflashManager.MassStorage.WriteBlocks | trunk/Projects/TemperatureDataLogger/Lib/DataflashManager.c:50-174 | For any packets and chips in any state: nothing is asked of a busy chip exactly when ReadyToWrite held, and then a completed safe write is a splice of the stream taken into the flat medium; on any exit the pages up to a frontier are wholly written and the rest untouched; what each chip is left doing is LeftBusy |
| DataflashManager.MassStorage.ReadBlocks | trunk/Projects/TemperatureDataLogger/Lib/DataflashManager.c:184-281 | Nothing is asked of a busy chip exactly when those of the pages read had finished, and then the host gets the flat medium from the start block on, in full packets, up to the point reached on an abort; a completed read leaves less than a packet in the bank; no packet goes past one the host does not take; the medium is unchanged |
| DataflashUses.WriteThenRead | trunk/Projects/TemperatureDataLogger/Lib/DataflashManager.c:50-281 | Reading back the range just written returns the written stream, however either side is cut into packets; at once with one chip or one page, else when the chips have settled; from an empty bank whose size divides a block, every byte of it has been sent |
| DataflashUses.AllSent | trunk/Projects/TemperatureDataLogger/Lib/DataflashManager.c:252-277 | Whole blocks put into an endpoint whose size divides a block leave its bank empty: all of them are in the packets sent |
| DataflashUses.FollowsIff | trunk/Projects/TemperatureDataLogger/Lib/DataflashManager.c:94-173 | After a write to idle chips, a second one is ready to run exactly when MayFollow, a test on the two ranges, says so |
| DataflashUses.WriteTwice | trunk/Projects/TemperatureDataLogger/Lib/DataflashManager.c:50-174 | Two writes in a row from idle chips, both completed: something was asked of a busy chip exactly when MayFollow fails |
| DataflashPackets.OfferedWhole | trunk/Projects/TemperatureDataLogger/Lib/DataflashManager.c:82-151 | Of packets of whole 16-byte chunks, what is taken sixteen reads at a time is the stream sent |
| DataflashUses.ContinuedTooSoon | trunk/Projects/TemperatureDataLogger/Lib/DataflashManager.c:57-66 | With several chips and pages larger than a block, a long write continued on the next page preloads from a chip that still programs |
| DataflashSteps.TurnStep | trunk/Projects/TemperatureDataLogger/Lib/DataflashManager.c:94-127 | At a page boundary the filled page is committed and the next one opened with the double-buffer discipline, the round-robin chip choice and every written page intact |
| DataflashSteps.CommitStep | trunk/Projects/TemperatureDataLogger/Lib/DataflashManager.c:94-103 | A commit names the buffer that was streamed into and finalises exactly that page |
| DataflashSteps.SendStep | trunk/Projects/TemperatureDataLogger/Lib/DataflashManager.c:129-151 | Streaming a piece extends what is written of the current page by exactly that piece |
| DataflashTheorems.ExactWrite | trunk/Projects/TemperatureDataLogger/Lib/DataflashManager.c:50-174 | Page by page results of a safe request add up to one flat splice: the head and tail of partial pages keep their old bytes |
| DataflashTheorems.PageAtomic | trunk/Projects/TemperatureDataLogger/Lib/DataflashManager.c:75-160 | After an early return, for want of packets or by a reset, every byte of a page below the frontier is as the whole write would leave it, whatever the host would have sent on, and every other one is old |
| DataflashTheorems.SafeIffCovered | trunk/Projects/TemperatureDataLogger/Lib/DataflashManager.c:112-122 | The caller's arithmetic test holds exactly when every byte of every touched page is streamed or preloaded |
| DataflashTheorems.LastPagePreload | trunk/Projects/TemperatureDataLogger/Lib/DataflashManager.c:112-122 | With large pages the last page is preloaded exactly when its rest, rounded up to blocks, is less than a page |
| DataflashTheorems.LaterPreloadIff | trunk/Projects/TemperatureDataLogger/Lib/DataflashManager.c:112-122 | A later page is preloaded exactly when the blocks left, modulo 2048, are less than a page; with 2048 or more left, the page is one the write fills anyway |
| DataflashTheorems.UncoveredByte | trunk/Projects/TemperatureDataLogger/Lib/DataflashManager.c:112-122 | Every unsafe request leaves a named byte that is neither streamed nor preloaded |
| DataflashTheorems.WholeBlockPagesSafe | trunk/Projects/TemperatureDataLogger/Lib/DataflashManager.h:48-54 | Pages that divide a block or are multiples of one are always safe |
| DataflashTheorems.NativePagesSafe | trunk/Projects/TemperatureDataLogger/Lib/DataflashManager.h:48-54 | So are pages of 1056 bytes, although they are neither |
| DataflashUses.UnsafeWriteLosesByte | trunk/Projects/TemperatureDataLogger/Lib/DataflashManager.c:112-122 | For every unsafe request there is a medium on which writing zeros turns a byte outside the range from 255 to 0 |
| DataflashRam.WriteBlocksRam | trunk/Projects/TemperatureDataLogger/Lib/DataflashManager.c:292-382 | Up to the buffer switch it writes what WriteBlocks writes, under the same condition on busy chips; past it, the pages up to the switch have their data and the page after it gets none |
| DataflashRam.RamWriteLosesData | trunk/Projects/TemperatureDataLogger/Lib/DataflashManager.c:321-355 | Every request that goes past the switch has a run on a blank medium that stores the first byte and loses a later one |
| DataflashRam.RamTurn | trunk/Projects/TemperatureDataLogger/Lib/DataflashManager.c:321-355 | The page boundary keeps the state before, at and past the switch |
| Dataflash.FlatSplice | trunk/Projects/TemperatureDataLogger/Lib/DataflashManager.c:50-174 | Pages that agree byte by byte with an overwrite are, laid end to end, the overwritten flat array |
| DfuProtocol.AlignmentFraming | trunk/Bootloaders/DFU/BootloaderDFU.c:205-209 | After the fixed and the alignment filler the firmware is next exactly when the start address is a multiple of the packet size |
| DfuProtocol.DiscardExactIff | trunk/Bootloaders/DFU/BootloaderDFU.c:462-482 | Discarding n bytes takes exactly n bytes off the stream if and only if they end within the current packet |
| DfuDownloads.AlignedStart | trunk/Bootloaders/DFU/BootloaderDFU.c:208-209 | A page-aligned start needs no alignment filler when pages are whole packets |
| DfuProtocol.SecureStepOk | trunk/Bootloaders/DFU/BootloaderDFU.c:488-507 | A request leaves a secure bootloader idle or in error, or is the erase command |
| DfuDownloads.WordStep | trunk/Bootloaders/DFU/BootloaderDFU.c:228-268 | One word of the download loop keeps its invariant, turns the page when it is full, and finishes the download with the last word |
| DfuFlash.PageTurned | trunk/Bootloaders/DFU/BootloaderDFU.c:249-268 | A full page written and the next erased: everything so far is the firmware, nothing else has changed |
| DfuFlash.LastPageWritten | trunk/Bootloaders/DFU/BootloaderDFU.c:249-268 | The last write leaves the firmware, blank to the end of its last page, every touched page erased once before its one write |
| BootloaderDfu.Bootloader.DiscardFillerBytes | trunk/Bootloaders/DFU/BootloaderDFU.c:462-482 | The loop takes what Discarded says, also when the host stops sending |
| DfuDownloads.FirmwareDownloaded | trunk/Bootloaders/DFU/BootloaderDFU.c:156-308 | A firmware request of any length, from any packet-aligned start and over any fill buffer: every touched page holds its image, is erased once and, if bytes arrive, written once; the rest of flash and EEPROM are as they were |
| DfuDownloads.FirmwareSurvivesIff | trunk/Bootloaders/DFU/BootloaderDFU.c:205-274 | Firmware of a length reads back, whatever its bytes, exactly when the length is even and below 64KB and the range starts on a page or stays in its first one |
| DfuDownloads.PrefixArrives | trunk/Bootloaders/DFU/BootloaderDFU.c:212-274 | For either parity the first 2 * (size / 2) bytes are at their addresses, from a page start or inside one page |
| DfuDownloads.TurnedAround | trunk/Bootloaders/DFU/BootloaderDFU.c:219-272 | From another start, what is left right behind the first page is not the byte meant for it |
| DfuDownloads.EepromWritten | trunk/Bootloaders/DFU/BootloaderDFU.c:275-297 | The EEPROM loop puts the next n bytes of the stream at the start address and takes exactly them, for any packets |
| DfuDownloads.EepromDownloaded | trunk/Bootloaders/DFU/BootloaderDFU.c:156-308 | An EEPROM request leaves its bytes in the EEPROM and everything else as it was |
| DfuDownloads.ChipErased | trunk/Bootloaders/DFU/BootloaderDFU.c:657-678 | Every application page erased and written once, the first with what the fill buffer held, the others blank, nothing else touched |
| DfuDownloads.BlankIff | trunk/Bootloaders/DFU/BootloaderDFU.c:657-678 | So the application is blank exactly when the fill buffer was clear |
| DfuProtocol.FirstNotBlank | trunk/Bootloaders/DFU/BootloaderDFU.c:592-621 | The blank check finds the first application byte that is not blank, or none |
| DfuDownloads.SecureRequest | trunk/Bootloaders/DFU/BootloaderDFU.c:149-454 | One request to a secure bootloader is SecureStep, which has no memory in it; flash and EEPROM stay, or the application is erased |
| DfuDownloads.FullRangeSkipped | trunk/Bootloaders/DFU/BootloaderDFU.c:212-238 | A request for all of a 64KB page, downloading or uploading, moves no byte |
| DfuInterrupted.FirmwareCutOff | trunk/Bootloaders/DFU/BootloaderDFU.c:228-274 | When the host goes away during a firmware download, the pages received whole are programmed, the one under way is blank, the others and the registers are untouched |
| DfuInterrupted.EepromCutOff | trunk/Bootloaders/DFU/BootloaderDFU.c:275-297 | When it goes away during an EEPROM download, the bytes that came are at their addresses and the range left is the rest |
| DfuInterrupted.FlashRangeDone | trunk/Bootloaders/DFU/BootloaderDFU.c:270-271 | Data behind a complete flash range changes neither memory |
| DfuInterrupted.EepromRangeDone | trunk/Bootloaders/DFU/BootloaderDFU.c:293-297 | Nor does data behind a complete EEPROM range |
| DfuStages.SuffixTakenIff | trunk/Bootloaders/DFU/BootloaderDFU.c:298-304 | With the suffix next, or one byte more, the stage is taken whole exactly when it does not end on a packet's edge with a packet to come |
| DfuStages.FirmwareStageTaken | trunk/Bootloaders/DFU/BootloaderDFU.c:156-307 | A firmware request of an even size, in full packets, leaves nothing of its data stage in the endpoint |
| DfuStages.UploadEndsIff | trunk/Bootloaders/DFU/BootloaderDFU.c:318-404 | A host that asks for at least the answer gets it whole, and its transfer ends exactly when it asked for no more or the answer is not whole packets |
| DfuCommands.BlankChecked | trunk/Bootloaders/DFU/BootloaderDFU.c:595-621 | On an unsecured bootloader the blank check is an error exactly when the application is not blank, and then status and upload tell the host so and the first address that is not blank |
| DfuCommands.ApplicationStarts | trunk/Bootloaders/DFU/BootloaderDFU.c:627-656 | The start command waits for the empty request behind it; a nonzero kind stops the bootloader for the application at the address sent, kind zero does not |
| DfuCommands.StopsIff | trunk/Bootloaders/DFU/BootloaderDFU.c:158-196 | A running bootloader stops exactly for a start command with a nonzero kind and no data left, pending or in the request |
| DfuCommands.OnlyDownloadsStop | trunk/Bootloaders/DFU/BootloaderDFU.c:309-454 | Requests other than DNLOAD neither stop it nor change a memory |
| DfuCommands.InformationRead | trunk/Bootloaders/DFU/BootloaderDFU.c:685-697 | Secure or not, an information command and an upload answer the byte of the table with that index |
| DfuCommands.SignatureReadIff | trunk/Bootloaders/DFU/BootloaderDFU.c:318-331 | The signature is answered in the same way exactly outside the error state |
| DfuCommands.BaseMoves | trunk/Bootloaders/DFU/BootloaderDFU.c:526-530 | A base address command moves the reads behind it to its 64KB page |
| DfuCommands.EraseCommanded | trunk/Bootloaders/DFU/BootloaderDFU.c:657-678 | The erase command, secure or not, leaves the application as ChipErased says, the EEPROM alone and secure mode off |
| DfuCommands.SecureRefuses | trunk/Bootloaders/DFU/BootloaderDFU.c:490-507 | Every command but a read and the erase leaves a secure bootloader's memories alone, and the host is told of the error |
| DfuCommands.Recovers | trunk/Bootloaders/DFU/BootloaderDFU.c:428-453 | Clearing the status and aborting lead from any state to idle without an error, the memories as they were |
| DfuCommands.ErrorStays | trunk/Bootloaders/DFU/BootloaderDFU.c:428-435 | Clearing the status alone leaves the error state |
| DfuCommands.StatusTold | trunk/Bootloaders/DFU/BootloaderDFU.c:408-453 | Status and state requests tell the codes of USB DFU 1.1, section 6.1.2, and change nothing; clearing and aborting change the status and the state only |
| DfuCommands.Uploaded | trunk/Bootloaders/DFU/BootloaderDFU.c:331-402 | An upload returns the bootloader to idle with at most a byte of the range left, and the next upload answers one byte |
| DfuCommands.NothingUploaded | trunk/Bootloaders/DFU/BootloaderDFU.c:331-402 | An upload set up for neither memory answers nothing and returns to idle |
| DfuCommands.ParametersKept | trunk/Bootloaders/DFU/BootloaderDFU.c:176-193 | A short command finds the parameters of the one before in the places it does not fill |
| DfuCommands.Ignored | trunk/Bootloaders/DFU/BootloaderDFU.c:509-531 | Any command that is none of the known ones has no effect but to be loaded |
| BootloaderDfu.Bootloader.WriteFlash | trunk/Bootloaders/DFU/BootloaderDFU.c:212-274 | The flash loop does what WordsWritten says from any state, also when the host goes away or packets are odd |
| BootloaderDfu.Bootloader.WriteEeprom | trunk/Bootloaders/DFU/BootloaderDFU.c:275-297 | The EEPROM loop does what BytesWritten says from any state, also past the end of the device or of the stream |
| BootloaderDfu.Bootloader.EraseApplication | trunk/Bootloaders/DFU/BootloaderDFU.c:657-678 | The erase loop is ErasedFrom, of which ChipErased says what it leaves |
| BootloaderDfu.Bootloader.ProcessBootloaderCommand | trunk/Bootloaders/DFU/BootloaderDFU.c:488-531 | Every command, secure or not, does what Commanded says to registers and flash: program and read set-up, blank check, application start, erase, reads of information, base address |
| BootloaderDfu.Bootloader.ProcessMemReadCommand | trunk/Bootloaders/DFU/BootloaderDFU.c:584-622 | An upload is set up, or the first byte that is not blank is reported with its 64KB page, or nothing; BlankChecked says what the host learns |
| BootloaderDfu.Bootloader.HandleDnload | trunk/Bootloaders/DFU/BootloaderDFU.c:156-308 | A DNLOAD request of any kind does what Dnloaded says to registers, flash and EEPROM, and leaves of its packets what DnloadLeft says |
| BootloaderDfu.Bootloader.HandleUpload | trunk/Bootloaders/DFU/BootloaderDFU.c:309-407 | The answer is the flash or EEPROM range asked for, the first non-blank address, or the last response, in full packets but for the last |
| BootloaderDfu.Bootloader.HandleRequest | trunk/Bootloaders/DFU/BootloaderDFU.c:149-454 | Every request, in any state, takes the device and answers exactly as Step says, the answer in full packets but for the last |
| BootloaderDfuRuns.RunStaysSafe | trunk/Bootloaders/DFU/BootloaderDFU.c:488-531 | In every state of a secure run the bootloader is idle or in error, and only an erase command ends it |
| BootloaderDfuRuns.ServeSecure | trunk/Bootloaders/DFU/BootloaderDFU.c:149-454 | A whole session with a secure bootloader: registers and answers are those of SecureRun, memories untouched until the erase |
| BootloaderDfuRuns.AnswersDoNotShowMemory | trunk/Bootloaders/DFU/BootloaderDFU.c:318-331 | Two secure bootloaders that differ only in flash and EEPROM give the same answers to any requests |
| BootloaderDfuRuns.ProgramAndReadBack | trunk/Bootloaders/DFU/BootloaderDFU.c:156-407 | A firmware request whose range arrives whole, followed by a read over the same addresses, returns the firmware |
| BootloaderDfuRuns.ProgramEepromAndReadBack | trunk/Bootloaders/DFU/BootloaderDFU.c:156-407 | An EEPROM request, in any packets, followed by a read over the same addresses returns its bytes, and changes nothing else |
| CdcProtocol.AddressReached | trunk/Bootloaders/CDC/BootloaderCDC.c:398-406 | The 'A' command reaches the word address sent exactly when its high byte is below 0x40 |
| CdcProtocol.TransferEnds | trunk/Bootloaders/CDC/BootloaderCDC.c:552-578 | A host that reads up to the first short packet gets each answer whole, whatever follows (USB 2.0, section 5.8.3) |
| CdcProtocol.FramedCount | trunk/Bootloaders/CDC/BootloaderCDC.c:552-578 | A framed answer of n bytes is n / size full packets and one of n % size bytes |
| CdcTheorems.EvenInEveryRun | trunk/Bootloaders/CDC/BootloaderCDC.c:50-54 | CurrAddress is even after any list of commands |
| CdcTheorems.MemoryRoundTrip | trunk/Bootloaders/CDC/BootloaderCDC.c:199-308 | A 'B' block, an 'A' back and a 'g' of the same length answer the bytes written, and both transfers leave the same address |
| CdcTheorems.FlashBlockRoundTrip | trunk/Bootloaders/CDC/BootloaderCDC.c:253-301 | Whole words inside one page read back as written, and no other page changes |
| CdcTheorems.FlashBlockSurvivesIff | trunk/Bootloaders/CDC/BootloaderCDC.c:253-301 | Blocks of a length survive, whatever their bytes, exactly when they are whole words inside one page |
| CdcTheorems.EepromBlockRoundTrip | trunk/Bootloaders/CDC/BootloaderCDC.c:226-292 | Any EEPROM block inside the device reads back as written |
| CdcTheorems.EraseCoverage | trunk/Bootloaders/CDC/BootloaderCDC.c:437-449 | The erase loop visits every application page exactly when there are at most SPM_PAGESIZE of them |
| CdcTheorems.VisitedIff | trunk/Bootloaders/CDC/BootloaderCDC.c:437-449 | An application page is skipped exactly when its number leaves SPM_PAGESIZE modulo SPM_PAGESIZE + 1 |
| CdcTheorems.ChipErase | trunk/Bootloaders/CDC/BootloaderCDC.c:437-449 | What every byte of flash is after the 'e' command: the fill buffer in page 0, blank in the other pages visited, as before elsewhere |
| CdcTheorems.EraseBlanksIff | trunk/Bootloaders/CDC/BootloaderCDC.c:437-449 | 'e' blanks the application, whatever it holds, exactly when the fill buffer is clear and there are at most SPM_PAGESIZE pages |
| CdcTheorems.HighByteLost | trunk/Bootloaders/CDC/BootloaderCDC.c:477-495 | 'C' and then 'c' each fill a whole word: the word sent is in the buffer exactly when its high byte is zero, or both are if the part keeps the first fill |
| CdcCommands.PageCommitted | trunk/Bootloaders/CDC/BootloaderCDC.c:496-506 | 'm' and-s the fill buffer into every byte of the page of the address, changes no other byte, and clears the buffer |
| CdcCommands.WordsRoundTrip | trunk/Bootloaders/CDC/BootloaderCDC.c:477-522 | Words sent by 'C' and 'c' into a blank page, 'A' back and 'm': 'g' answers their low bytes with zeros above them, 'R' the first of them high byte first |
| CdcCommands.KeptIff | trunk/Bootloaders/CDC/BootloaderCDC.c:477-495 | That is what the host meant exactly when every high byte is zero |
| CdcCommands.ReadWordAgrees | trunk/Bootloaders/CDC/BootloaderCDC.c:512-522 | 'R' answers the two bytes of a block read at the address, high byte first, and changes nothing |
| CdcCommands.BytesRoundTrip | trunk/Bootloaders/CDC/BootloaderCDC.c:523-541 | Bytes sent by 'D' come back one by one by 'd' after 'A' back, and flash stays |
| CdcCommands.EepromWraps | trunk/Bootloaders/CDC/BootloaderCDC.c:523-541 | EEPROM addresses have 16 bits: 128KB on it is the same byte |
| CdcCommands.EraseCommanded | trunk/Bootloaders/CDC/BootloaderCDC.c:437-452 | 'e' answers a carriage return and does to each byte of flash what ChipErase says, and nothing else |
| CdcCommands.Refused | trunk/Bootloaders/CDC/BootloaderCDC.c:546-550 | A letter that is no command, or a block of another memory, is answered with '?' and changes nothing |
| CdcCommands.OnlyExitEnds | trunk/Bootloaders/CDC/BootloaderCDC.c:376-385 | 'E' is the only command that ends the loop |
| CdcCommands.Unchanged | trunk/Bootloaders/CDC/BootloaderCDC.c:365-550 | Which commands can change the memories and which the address, by their letters |
| CdcCommands.Confirmed | trunk/Bootloaders/CDC/BootloaderCDC.c:376-550 | Which commands are answered by one carriage return, and that escape is answered by nothing |
| CdcCommands.Parameters | trunk/Bootloaders/CDC/BootloaderCDC.c:376-541 | How many bytes behind its letter make each command complete |
| CdcProtocol.UsedByInput | trunk/Bootloaders/CDC/BootloaderCDC.c:365-550 | Every command takes the bytes its letter and header announce, whatever the device is like |
| CdcCommands.OwnBytesOnly | trunk/Bootloaders/CDC/BootloaderCDC.c:315-334 | Bytes behind a complete command do not matter, and a command cut short is that command with zeros for the rest |
| CdcCommands.LocksSet | trunk/Bootloaders/CDC/BootloaderCDC.c:453-476 | The lock bits change by 'l' alone, and the reads of lock and fuse bits behind a command see what it left |
| CdcCommands.DeviceToldTruly | trunk/Bootloaders/CDC/BootloaderCDC.c:423-436 | 's' tells the signature, last byte first, and 'b' a page size that reads back from its two bytes |
| CdcCommands.Introduced | trunk/Bootloaders/CDC/BootloaderCDC.c:386-422 | What the bootloader says of itself: part code, auto-increment, programmer type, identifier, version |
| BootloaderCdc.Bootloader.FetchNextCommandByte | trunk/Bootloaders/CDC/BootloaderCDC.c:315-334 | Takes the next byte of the stream over any empty or exhausted packets, 0 once the host is gone |
| BootloaderCdc.Bootloader.WriteNextResponseByte | trunk/Bootloaders/CDC/BootloaderCDC.c:341-360 | Adds one byte to the answer, sending only full packets |
| BootloaderCdc.Bootloader.ReadWriteMemoryBlock | trunk/Bootloaders/CDC/BootloaderCDC.c:199-308 | The block loops do what Block says on the stream |
| BootloaderCdc.Bootloader.Task | trunk/Bootloaders/CDC/BootloaderCDC.c:365-584 | One command, for any packets: the device ends where Execute takes it, the answer is framed, and the bank is given back |
| BootloaderCdc.Session | trunk/Bootloaders/CDC/BootloaderCDC.c:67-84 | Complete commands, each cut into packets in any way: up to the exit command, which ends the loop, the host reads every answer exactly and the device follows the byte streams |
| HttpServer.Connection.Callback | trunk/Projects/Webserver/Lib/HTTPServerApp.c:97-159 | The callback is one step of the connection's state machine |
| HttpServer.DeliveryExact | trunk/Projects/Webserver/Lib/HTTPServerApp.c:97-159 | Over any run of events the acknowledged payload is a prefix of header then file, and the file position matches it |
| HttpServer.RetransmissionExact | trunk/Projects/Webserver/Lib/HTTPServerApp.c:272-289 | A retransmission sends the outstanding segment byte for byte |
| HttpServer.LastAckCloses | trunk/Projects/Webserver/Lib/HTTPServerApp.c:118-158 | When the segment size does not divide the file, the last acknowledgement closes the connection |
| HttpServer.ClosesIffShortTail | trunk/Projects/Webserver/Lib/HTTPServerApp.c:272-289 | Some run closes the connection exactly when the segment size does not divide the file length |
| HttpServer.ExchangeAt | trunk/Projects/Webserver/Lib/HTTPServerApp.c:97-159 | The plain exchange reaches every chunk of the file in turn |
| HttpServer.ClosesExactly | trunk/Projects/Webserver/Lib/HTTPServerApp.c:118-158 | Over every run the server closes exactly at the acknowledgement that completes the response, if its last segment is short or there is no file |
| HttpServer.AbortedIff | trunk/Projects/Webserver/Lib/HTTPServerApp.c:164-182 | Over every run a request is aborted exactly when it is not a GET, and then no byte has been or will be sent |
| HttpServer.GoneCloses | trunk/Projects/Webserver/Lib/HTTPServerApp.c:101-106 | A connection that goes away in any state is closed once and sends nothing more |
| HttpServer.NotFoundAnswered | trunk/Projects/Webserver/Lib/HTTPServerApp.c:220-232 | A file that cannot be opened gets the 404 header, and its acknowledgement closes the connection |
| CircularBitBuffer.BitBuffer.StoreNextBit | trunk/Projects/Magstripe/Lib/CircularBitBuffer.c:53-79 | Appends one bit to the FIFO, by the invariant that bits outside the live window are zero |
| CircularBitBuffer.BitBuffer.GetNextBit | trunk/Projects/Magstripe/Lib/CircularBitBuffer.c:82-113 | Takes the oldest bit off the FIFO and clears it |
| CircularBitBuffer.WindowPush | trunk/Projects/Magstripe/Lib/CircularBitBuffer.c:53-79 | Or-ing a bit in at the end of the window appends it, given that the place is zero |
| CircularBitBuffer.WindowPop | trunk/Projects/Magstripe/Lib/CircularBitBuffer.c:82-113 | The bit at the front of the window is the oldest, and clearing it restores the invariant |
| CircularBitBuffer.PointerStep | trunk/Projects/Magstripe/Lib/CircularBitBuffer.c:65-77 | The byte pointer and mask walk the bit positions around the buffer |
| CircularBitBuffer.BitBuffer.Init | trunk/Projects/Magstripe/Lib/CircularBitBuffer.c:40-50 | Initialising establishes the FIFO invariant exactly when every bit of the storage is zero |
| CircularBitBuffer.InitKeepsStoredBits | trunk/Projects/Magstripe/Lib/CircularBitBuffer.c:40-50 | Initialising a buffer that holds a bit leaves it set, and the FIFO invariant broken |
| Magstripe.Reader.ReadMagstripeData | trunk/Projects/Magstripe/Magstripe.c:108-140 | Whatever the tracks hold, a swipe appends to each the data pin at each rising edge of its clock while the card is present |
| Magstripe.Reader.CreateReport | trunk/Projects/Magstripe/Magstripe.c:172-201 | Every other report is a release; the others are the next pending key |
| Magstripe.Reader.Swipe | trunk/Projects/Magstripe/Magstripe.c:73-88 | For every trace that fits behind what the tracks hold, the non-empty reports are the three tracks' bits, old and new, each followed by ENTER, and never two key codes in a row |
| Magstripe.ReportsDeliver | trunk/Projects/Magstripe/Magstripe.c:172-201 | Enough report calls deliver all pending keys in order |
| Magstripe.KeysSeparated | trunk/Projects/Magstripe/Magstripe.c:178-183 | Of two neighbouring reports one is a release |
| Magstripe.CardRead | trunk/Projects/Magstripe/Magstripe.c:108-140 | A card drawn at any varying speed gives each track exactly the bits it carries |
| Magstripe.TypedBack | trunk/Projects/Magstripe/Magstripe.c:185-197 | A host that ends a track at each ENTER gets the tracks back from the keys |
| SoftUart.Transmitter.SendAll | trunk/Projects/XPLAINBridge/Lib/SoftUART.c:43-51 | The transmit interrupt shifts out every byte as start, eight bits low first, stop |
| SoftUart.Receiver.Listen | trunk/Projects/XPLAINBridge/Lib/SoftUART.c:53-120 | The receive interrupts, and a program that asks SoftUART_IsReceived and SoftUART_RxByte after ticks of its choice, follow the tick by tick function Heard on any wave |
| SoftUart.FrameReceived | trunk/Projects/XPLAINBridge/Lib/SoftUART.c:84-120 | One frame of a sender in step is received as its byte, which srx_data then holds and srx_done tells of, and leaves the receiver armed |
| SoftUart.RebuiltIff | trunk/Projects/XPLAINBridge/Lib/SoftUART.c:84-120 | Given time to re-arm, every byte is rebuilt from any armed state exactly when the sender is in step |
| SoftUart.StreamReceived | trunk/Projects/XPLAINBridge/Lib/SoftUART.c:84-120 | Any frames with any gaps from a sender in step are received as exactly their bytes |
| SoftUart.LevelsMakeWave | trunk/Projects/XPLAINBridge/Lib/SoftUART.c:123-143 | The transmitter's levels, each held for a bit, are the wave the receiver is proved on |
| SoftUart.EndToEnd | trunk/Projects/XPLAINBridge/Lib/SoftUART.c:43-143 | What one side's transmit interrupt sends, the program on the other side reads, byte for byte, if it looks often enough |
| SoftUart.ReadsAllIff | trunk/Projects/XPLAINBridge/Lib/SoftUART.c:53-65 | What the program has read, and what waits for it, is every byte received exactly when none was completed over one it had not read |
| SoftUart.KeepsUp | trunk/Projects/XPLAINBridge/Lib/SoftUART.c:53-65 | On any line, with a look in every stretch of the time a byte takes, no byte is lost |
| SoftUart.GlitchIgnored | trunk/Projects/XPLAINBridge/Lib/SoftUART.c:84-99 | A line that is high again when the start interrupt looks leaves the receiver armed and the next start unharmed |
| SoftUart.OwnPeriodInStep | trunk/Projects/XPLAINBridge/Lib/SoftUART.h:43-43 | A sender with the receiver's own bit time is in step and re-arms in time |
| SoftUart.Tolerance | trunk/Projects/XPLAINBridge/Lib/SoftUART.h:43-43 | At 104 ticks a bit a sender is in step exactly from 99 to 110 ticks |
| DhcpOptions.SetOption | trunk/Projects/Webserver/Lib/DHCPClientApp.c:218-233 | Appends the option to the list in the buffer and touches nothing after the new end; the count wraps at 256 |
| DhcpOptions.GetOption | trunk/Projects/Webserver/Lib/DHCPClientApp.c:242-263 | On any bytes, the search ends where Walk ends and copies the payload there |
| DhcpOptions.SearchFinds | trunk/Projects/Webserver/Lib/DHCPClientApp.c:242-263 | In any well-formed list it finds the first payload with the tag, or none |
| DhcpOptions.BuildPacket | trunk/Projects/Webserver/Lib/DHCPClientApp.c:120-139 | Header and options form one list with one end, and the summed counts are its length short of 256 for each payload over 253 bytes |
| DhcpOptions.NoLongPayloads | trunk/Projects/Webserver/Lib/DHCPClientApp.c:218-233 | With no such payload the sum is exact |
| DhcpOptions.FindAppend | trunk/Projects/Webserver/Lib/DHCPClientApp.c:218-263 | Adding an option disturbs no earlier one: a lookup finds it only when the tag was absent |
| DhcpPads.OptionsFoundIff | trunk/Projects/Webserver/Lib/DHCPClientApp.c:242-263 | With pads in front of its options, whatever the payloads, all options of a packet are found as RFC 2132, section 3.1, has them exactly when every run of pads is even |
| DhcpPads.PadMisread | trunk/Projects/Webserver/Lib/DHCPClientApp.c:242-263 | The option right behind the first odd run is never found where it stands |
| DhcpPads.AbsentOption | trunk/Projects/Webserver/Lib/DHCPClientApp.c:242-263 | A search for a missing option ends at the terminator after an even run, and reads on 256 bytes behind it after an odd one |
| DhcpPads.AbsentAgreesIff | trunk/Projects/Webserver/Lib/DHCPClientApp.c:242-263 | So in a buffer that ends before that, it agrees with a reader that knows pads exactly when the run is even |
| DhcpPads.RfcAgrees | trunk/Projects/Webserver/Lib/DHCPClientApp.c:242-263 | On lists without pads the two readers agree on every tag |
| DhcpClient.DhcpClientApp.Callback | trunk/Projects/Webserver/Lib/DHCPClientApp.c:65-171 | The callback is one step of the lease machine, on any bytes that arrive and copying options of any length that stay in the record; each message it sends is a well-formed list of its own length |
| DhcpClient.LeaseSafety | trunk/Projects/Webserver/Lib/DHCPClientApp.c:65-171 | In every run the history ends with the exchange the state stands for, the host is zero from the first discover to the ACK, and a lease installs the accepted offer |
| DhcpClient.LeaseIsFinal | trunk/Projects/Webserver/Lib/DHCPClientApp.c:140-171 | Nothing changes after the lease |
| DhcpClient.RequestNamesOffer | trunk/Projects/Webserver/Lib/DHCPClientApp.c:120-134 | In every run the request lets a server find the address and the server of the offer taken last, under options 50 and 54 |
| DhcpClient.DiscoverAsks | trunk/Projects/Webserver/Lib/DHCPClientApp.c:73-88 | A discover has no address in it and asks for mask, routers and name servers |
| DhcpClient.WaitsOrStartsOver | trunk/Projects/Webserver/Lib/DHCPClientApp.c:94-171 | A waiting client is silent and changed by nothing but its reply or its timeout, after which it sends the discover of a client without an offer |
| DhcpClient.ServerAnswers | trunk/Projects/Webserver/Lib/DHCPClientApp.c:65-171 | With a server that answers, four events lead to its offered address |
| DhcpClient.PlainOffer | trunk/Projects/Webserver/Lib/DHCPClientApp.c:108-113 | With options of one address each, in a well-formed list, the offer taken is what the list says |
| DhcpClient.TwoRouters | trunk/Projects/Webserver/Lib/DHCPClientApp.c:108-113 | Two routers fill gateway and server address; the server then asked is the second router unless the offer names the server |
| RingBuff.RingBuffer.StoreElement | trunk/Projects/USBtoSerial/Lib/RingBuff.c:43-73 | The buffer holds the last 128 unread elements in order |
| RingBuff.RingBuffer.GetElement | trunk/Projects/USBtoSerial/Lib/RingBuff.c:75-99 | Takes the oldest element |
| RingBuff.Accounting | trunk/Projects/USBtoSerial/Lib/RingBuff.c:43-99 | Over any interleaving of arrivals and reads, every byte is delivered in order, lost or still unread |
| RingBuff.LostNeedsFullBuffer | trunk/Projects/USBtoSerial/Lib/RingBuff.c:43-73 | A byte is lost only after 128 later ones arrived |
| RingBuff.NoOverflowNoLoss | trunk/Projects/USBtoSerial/Lib/RingBuff.c:43-99 | If none is lost, delivered and unread are exactly what arrived |
| UsbToSerial.Bridge.Interrupt | trunk/Projects/USBtoSerial/USBtoSerial.c:151-157 | Between any two steps of the loop: an arriving byte becomes the newest of the receive buffer if the device is configured, and the loop's own buffer and every byte's account stay |
| UsbToSerial.Bridge.MainLoop | trunk/Projects/USBtoSerial/USBtoSerial.c:72-103 | For any interrupts before, between and after the steps and tests of the loop, also while nothing moves, no read finds the buffer empty and the USB to USART direction sends every byte in order; the other direction delivers what the log says, what is unread after a pass has arrived since its second loop found the buffer empty, and nothing is once the interrupts are over |
| UsbToSerial.Bridge.SendToHost | trunk/Projects/USBtoSerial/USBtoSerial.c:92-94 | The second loop ends only with the receive buffer empty |
| UsbToSerial.LeftSince | trunk/Projects/USBtoSerial/USBtoSerial.c:92-94 | What is left after a buffer was found empty is the newest 128 of what has arrived since, and nothing more was delivered |
| UsbToSerial.NothingLeft | trunk/Projects/USBtoSerial/USBtoSerial.c:72-103 | A run that ends with nothing unread has delivered every byte stored that was not overwritten, in order, and all of them if none was |
| Scheduler.Clock.HasDelayElapsed | trunk/LUFA/Scheduler/Scheduler.c:36-66 | True exactly when the ticks since the counter reach the delay, or the delay and one if the tick has wrapped past it |
| Scheduler.Clock.PollEveryTick | trunk/LUFA/Scheduler/Scheduler.c:36-66 | Polled every tick, it fires at exactly the times of Firing |
| Scheduler.FiresWhenDue | trunk/LUFA/Scheduler/Scheduler.c:36-66 | Between two firings the test is true at one tick only |
| Scheduler.DueIff | trunk/LUFA/Scheduler/Scheduler.c:36-66 | However seldom it is made, the test is true from the firing time on, and not before, until the tick comes round |
| Scheduler.FiringBounds | trunk/LUFA/Scheduler/Scheduler.h:132-132 | The n-th firing lies between n delays and n delays and a tick, with one tick late for each wrap |
| Scheduler.DelayHonouredIff | trunk/LUFA/Scheduler/Scheduler.h:132-132 | A delay comes due at some tick exactly when it is at most 0xFFFE or the counter is zero |
| Scheduler.MaxDelayNeverFires | trunk/LUFA/Scheduler/Scheduler.h:132-132 | So a delay of 0xFFFF is never due from a counter that is not zero |

## Left out

- MassStorage.WriteBlocks: a read past the end of a packet gives a zero byte, where the endpoint would give anything; a medium on which something was asked of a busy chip is only marked, as the chip's answer is not specified
- MassStorage.ReadBlocks: the host takes a stated number of packets instead of being timed; an endpoint holds whole 16-byte chunks
- WriteBlocksRam: assumes a source of at least the blocks asked for
- A storage reset arrives after a stated number of chunks; a time-out is a host that sends or takes no more
- Consecutive pages go round-robin over the chips, as trunk/LUFA/Drivers/Board/USBKEY/Dataflash.h:108-134 does it; the SPI bytes of a command are one step
- DataflashManager_ReadBlocks_RAM, ResetDataflashProtections and CheckDataflashOperation: the same page walk, and two fixed exchanges
- HandleRequest: a detached host is not modelled except as a stream that ends; SETUP and status stages and stalls are register steps
- FirmwareRequest: starts on a multiple of 32, as others lose the framing (AlignmentFraming), packets of whole words before the last, which full packets are, and pages inside the flash; Step says what other requests do
- BootloaderDfu: pages of fewer than 256 words, as on every part with this bootloader; the 8-bit word counter of the download loop would wrap on larger ones
- ReadCommand: an index outside the information tables reads a parameter, the byte that happens to follow them
- ProcessWriteCommand: the watchdog that restarts the device is outside the model
- DFU conformance to Appendix A of the DFU 1.1 specification: DFU_CLRSTATUS resets only the status here
- AvrFlash: a fill buffer word can be filled again, and the read-while-write lock-out is not modelled; an address outside the flash reads as blank and is not written
- Execute: lock and fuse bits read are a parameter that may depend on the lock bits written; EEPROM addresses outside the device are ignored
- Session: a command left incomplete is one whose host detached in the middle, as Task describes it; a host that goes on instead has its next bytes taken for the rest
- Task: bytes after a command in its last packet are thrown away, as the code does; its contract says only that the bank is given back and that what is left is a later part of the stream
- CDC line coding requests, USB enumeration and descriptors: register plumbing
- HttpServer: uIP is its contract: acknowledgements and retransmissions only for outstanding data, polls only with nothing outstanding (trunk/Projects/Webserver/Lib/uip/uip.c:689-801), a fixed segment size, no new data after the request, one flag at a time; MIME types and FatFs are left out, the file is its bytes
- SoftUart: interrupts take no time, and a byte given to the transmitter may wait for its compare match without changing the line
- Reader.ReadMagstripeData: the pins arrive as one status per sample instead of an inverted port with masks
- DhcpClientApp.Callback: a search that runs past the packet, a message type longer than a byte and an option that runs past the record of the offer are left out: what the C code then reads or overwrites is not specified
- Bridge.MainLoop: the host sends packets no longer than the buffer; line coding changes and the LEDs are left out
- Clock.PollEveryTick: the tick interrupt does not come between the reads of the tick counter
- TeensyHID, SCSI, V2Protocol, TELNET, uIPManagement, RNDIS, the temperature table, BCD and MIDI encodings: dispatch, tables and small domains without a property over runs
