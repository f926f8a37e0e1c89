# Verified models of an RF tool's firmware and of its USB library

The repository holds the firmware of a small battery-powered radio tool (`sw/rfp`, `sw/bootloader`) together with the
USB library it is built on and that library's projects (`sw/lufa-lib`). This project models the parts of it where the
state is hardest to keep in one's head, and proves what they keep to.

| component | files |
|---|---|
| the block store on serial flash chips, down to the bytes on the bus, and the SCSI commands on top of it | `Dataflash`, `BlockStore`, `BusyChips`, `DataflashManager`, `DataflashReader`, `Scsi`, `BusyRuns` |
| the block store's variants for a RAM buffer | `BusyChipsRam`, `DataflashRam`, `RamWriteResult`, `DataflashRamReader` |
| the ring buffer that an interrupt handler and the main loop share | `RingBuffer`, `ReceiveRing` |
| the DFU bootloader | `AvrFlash`, `DfuDevice`, `DfuRuns`, `DfuBootloader`, `DfuSession`, `DfuCommands`, `DfuReports`, `DfuEeprom` |
| the CDC bootloader | `AvrFlash`, `Packets`, `CdcDevice`, `CdcBootloader`, `CdcRuns`, `CdcImage`, `CdcEeprom`, `CdcErase`, `CdcWords` |
| the packed bit buffer and the card reader | `BitRing`, `BitOverrun`, `BitBuffer`, `Magstripe` |
| the DHCP client | `DhcpOptions`, `DhcpClient`, `DhcpRuns`, `DhcpMessages`, `DhcpProgress` |
| the menu and the event handlers | `EventHandler`, `MenuStates`, `MenuKeys`, `Menu`, `UserInterface` |
| the scheduler's delay test | `Scheduler` |

`Endpoints` models USB endpoints as a bank and a queue of packets; `ByteMemory` and `Arithmetic` hold what several
components need about bytes, quotients and sequences. Board constants (page size, pages, chips, buffer and endpoint
sizes, pin masks) are parameters. Objects that the firmware updates in place are classes whose methods are specified by
functions on values; the run properties are lemmas about those functions. Time, polling and the host are inputs: how
often a chip answers busy, when a packet arrives and how it is split, when a key is pressed. A `hide` statement at the
head of a proof names the definitions it does not look into; it only keeps the proof quick.

`dafny verify dfyconfig.toml` checks the whole project.

## What the code does not do

Some expectations turned out false of the code. The model keeps the code, and the exact condition is proved.

- `DataflashManager_WriteBlocks_RAM` refills the first buffer of a chip at every page but programs the second one after
  the buffers are switched. From idle chips it stores every buffer, without sending a command to a chip at work, if and
  only if the range ends before the first switch (`RamWriteResult.RightForEveryBuffer`). Behind it the first page keeps
  its old contents or gets those of the second buffer (`LostAfterTheSwitch`), and a chip's next page is filled into the
  buffer that is still being programmed (`BusyChipsRam.RamMeetsExactly`; `RamWriteResult.TwoPagesRefillBusyBuffer` is
  the smallest such write). A range that ends before the switch can still meet a chip that an earlier write left busy
  (`RamAfterWriteMeetsBusyBuffer`). What the results say of memory is what the chips hold if each takes a buffer over at
  the end of the program command; a chip that is met at work promises no contents.
- `DataflashManager_WriteBlocks` waits only for the chip of its last page. On a two-chip board a later read or write can
  meet the other chip busy, and a write can even fill the buffer that is being programmed; `BusyRuns.RunMeetsExactly`
  says exactly for which runs, `ReadAfterWriteMeetsBusyChip` and `WriteAfterWriteMeetsBusyBuffer` are the smallest.
- `RingBuffer_InitBuffer` does not reset the count (`RingBuffer.RingBuff.InitBuffer`), and the receive interrupt inserts
  without testing for room: each waiting byte keeps a slot of its own, and its order, exactly as long as no byte comes
  in without room (`ReceiveRing.InOrderExactly`, `RingBuffer.UnguardedInsertOnFullBuffer`); what the main loop delivers
  after such a byte is in order only if that byte equals the one it replaced, or nothing more is taken
  (`ReceiveRing.AfterInsertWithoutRoom`).
- The DFU bootloader programs whole words. The last byte of an odd range arrives only if it equals what is there without
  it, and a range of one byte only erases its page (`DfuBootloader.RangeArrives`, `OneByteIsLost`).
- A blank check only ever sets an error, an erase takes none back, and CLRSTATUS resets the status but not the state. A
  device that has reported an error still does so when its memory has been erased and found blank
  (`DfuReports.EraseThenCheck`, `FailureOutlivesErase`, `RefusalOutlivesErase`); `ErrorLasts` and `StatusLasts` say how
  long.
- A DFU device in the error state takes a question for its signature for a blank check and answers with an address
  (`DfuCommands.AskSignature`).
- The DFU bootloader counts the fetch of a packet as a discarded byte. A range whose start address is not a multiple of
  the packet size arrives shifted by one filler byte (`DfuEeprom.EepromRangeArrives`).
- The DHCP client copies options out of an offer without looking at their length: three routers are too many
  (`DhcpClient.CopiesStayInside`, `ThreeRoutersOverflow`).
- The CDC address command sign-extends from bit 6 of its high byte (`CdcDevice.AddressIsExact`), and a block that does
  not reach the end of its page is lost when the next one comes (`CdcImage.ShortBlockSurvives`).
- The CDC erase command steps by a page and one byte. It misses a page of each n + 1, where a page has n bytes, and so
  clears every memory if and only if there are no more pages than bytes in a page (`CdcErase.BlankExactly`,
  `NothingSkipped`); on the device of the makefile one page survives (`OnePageSurvives`).
- The CDC commands for half a word pass a byte where a word is asked for, so the high byte of the word is always zero
  (`CdcWords.FillCommands`). If a second fill of a word only clears bits of the page buffer, as the model has it, the
  only word that arrives in erased memory is zero (`OnlyZeroArrives`).
- `BitBuffer_Init` does not clear the data (`BitRing.ResetRefines`, `StaleBits`), and a full bit buffer is not protected:
  a longer track is read back as it was if and only if every bit beyond the buffer's size is clear
  (`BitOverrun.OverrunReadsBack`).
- A menu entry whose handler finds no free node is entered anyway, and leaving it pops a handler that is still wanted
  (`MenuStates.StepInStep`, `RefusedThenLeft`, `PoolRunsFull`).
- The delay test loses one tick for each wrap of the counter, and the largest 16-bit delay is not usable although the
  parameter admits it (`Scheduler.ManyDelays`, `LongestDelay`).

## Model

| member | source | states |
|---|---|---|
| Dataflash.AddressRoundTrip | sw/lufa-lib/LUFA/CodeTemplates/DriverStubs/Dataflash.h:174-183 | the page and byte that the driver packs into three address bytes are the ones the chip unpacks |
| Dataflash.MiddleAddressByteIsASum | sw/lufa-lib/LUFA/CodeTemplates/DriverStubs/Dataflash.h:181 | the two halves of the middle address byte share no bits, so joining them with or is adding them |
| Dataflash.PagePlacesAreDistinct | sw/lufa-lib/LUFA/CodeTemplates/DriverStubs/Dataflash.h:129-144 | the chip and the local page determine the page, on boards with one chip and with two |
| Dataflash.Board.SelectChipFromPage | sw/lufa-lib/LUFA/CodeTemplates/DriverStubs/Dataflash.h:129-144 | ends the command of the old chip and selects the chip of the page, or none beyond the last page |
| Dataflash.Board.ToggleSelectedChipCS | sw/lufa-lib/LUFA/CodeTemplates/DriverStubs/Dataflash.h:149-155 | ends the selected chip's command, so that a pending transfer or program starts, and keeps the chip selected |
| Dataflash.Board.WaitWhileBusy | sw/lufa-lib/LUFA/CodeTemplates/DriverStubs/Dataflash.h:160-166 | ends the selected chip's command and returns only when that chip is ready, however many polls it takes; no other chip is touched |
| Dataflash.Board.SendAddressBytes | sw/lufa-lib/LUFA/CodeTemplates/DriverStubs/Dataflash.h:174-183 | the selected chip receives the packed local address, and no other chip anything |
| BlockStore.WrittenOverIsOverwrite | sw/lufa-lib/Projects/TempDataLogger/Lib/DataflashManager.c:50-176 | pages that each hold their share of a write are, as one flat array, the old array with the data written over it |
| DataflashManager.PageCommitted | sw/lufa-lib/Projects/TempDataLogger/Lib/DataflashManager.c:98-101 | programming a completely filled buffer into its page adds that page to the committed ones and disturbs no other |
| DataflashManager.StartOfTransfer | sw/lufa-lib/Projects/TempDataLogger/Lib/DataflashManager.c:54-56 | the 16-bit page and byte counters and the 8-bit chunk counter start at the block's address without overflowing, for every block of the medium |
| DataflashManager.PreloadTest | sw/lufa-lib/Projects/TempDataLogger/Lib/DataflashManager.c:114-116 | the pre-load test never misses a partly written page, although its 16-bit product wraps for large counts |
| DataflashManager.PartialPagesArePreloaded | sw/lufa-lib/Projects/TempDataLogger/Lib/DataflashManager.c:97-128 | at every page boundary inside a write, the next page is copied to the buffer unless the write covers all of it |
| BusyChips.SecondAtParity | sw/lufa-lib/Projects/TempDataLogger/Lib/DataflashManager.c:105-109 | the second buffer is used for every other page of a chip, counted from the first page of the write |
| BusyChips.BuffersStayFree | sw/lufa-lib/Projects/TempDataLogger/Lib/DataflashManager.c:105-109 | the buffer for a page is never the one that its chip is still programming into its page before, for either starting parity and one or two chips |
| BusyChips.TrackedThroughTurn | sw/lufa-lib/Projects/TempDataLogger/Lib/DataflashManager.c:96-128 | of all page turns of a write only the very first one can send a command to a chip at work: to the other chip of two, when it uses the buffer that is written next and no page copy makes the driver wait |
| DataflashManager.TurnPage | sw/lufa-lib/Projects/TempDataLogger/Lib/DataflashManager.c:96-128 | at the end of a page the page is committed and the next one ready to receive, its chip is left programming, and the next page's chip is met at work exactly when it uses the buffer that is written next and no page copy comes first |
| DataflashManager.WriteComplete | sw/lufa-lib/Projects/TempDataLogger/Lib/DataflashManager.c:163-167 | when the last byte sits in the buffer, programming it makes every page what the write wants |
| DataflashManager.WriteBlocks | sw/lufa-lib/Projects/TempDataLogger/Lib/DataflashManager.c:50-176 | the store is afterwards the old store with exactly the named blocks replaced by the host's bytes, partial first and last pages included; whatever the chips were doing before, each is met at work exactly as its part in the range implies, and the chip of the last page is left idle, the other chip of two programming the last page but one |
| DataflashReader.ReadBlocks | sw/lufa-lib/Projects/TempDataLogger/Lib/DataflashManager.c:186-285 | the endpoint gets exactly the named blocks in full packets, no chip's memory changes, and a chip is met busy exactly when it was busy and the range touches it |
| DataflashReader.WriteThenRead | sw/lufa-lib/Projects/TempDataLogger/Lib/DataflashManager.c:163-176 | after a write from idle chips the next read meets a busy chip exactly when it goes to the chip that the write did not wait for |
| DataflashRam.WriteBlocksRam | sw/lufa-lib/Projects/TempDataLogger/Lib/DataflashManager.c:296-384 | for every count every page is afterwards what the code makes of it, the data before the buffers are switched and the contents of the second buffer where that one is programmed; each chip is met at work exactly as the range and what it was doing before imply, and before the switch exactly as by a write from the endpoint |
| BusyChipsRam.RamMeetsExactly | sw/lufa-lib/Projects/TempDataLogger/Lib/DataflashManager.c:305-361 | the write meets a chip at work exactly when its first command there conflicts with what the chip was doing before, or when it refills the first buffer for a later page of that chip while that buffer is being programmed |
| BusyChipsRam.MetBehind | sw/lufa-lib/Projects/TempDataLogger/Lib/DataflashManager.c:357-360 | for a chip that has had a page before, that is exactly at the pages for which the second buffer is in use and no page copy makes the driver wait |
| BusyChipsRam.SameBeforeSwitch | sw/lufa-lib/Projects/TempDataLogger/Lib/DataflashManager.c:305-361 | a range that ends before the switch meets the same chips as a write from the endpoint |
| BusyChipsRam.FromIdle | sw/lufa-lib/Projects/TempDataLogger/Lib/DataflashManager.c:296-384 | from idle chips a chip is met at work exactly when some page refills a buffer being programmed; with pages of at most a block, exactly when the range has two pages on one chip |
| BusyChipsRam.RamTrackedThroughTurn | sw/lufa-lib/Projects/TempDataLogger/Lib/DataflashManager.c:329-361 | a turn of the page adds exactly the meeting of the next page's chip, and the other chip is left programming the buffer of the page before |
| BusyChipsRam.FirstSwitch | sw/lufa-lib/Projects/TempDataLogger/Lib/DataflashManager.c:338-340 | the buffers are switched after the first page on the last chip, and not before |
| DataflashRam.PreloadsPartialPages | sw/lufa-lib/Projects/TempDataLogger/Lib/DataflashManager.c:345-355 | for counts below 2048, where its product does not wrap, the pre-load test finds exactly the partly covered pages |
| RamWriteResult.SecondBufferBelow2048 | sw/lufa-lib/Projects/TempDataLogger/Lib/DataflashManager.c:333-361 | for those counts the second buffer holds what it held before the write, but for a last, partly covered page, which has been copied to it |
| RamWriteResult.RightForEveryBuffer | sw/lufa-lib/Projects/TempDataLogger/Lib/DataflashManager.c:296-384 | the write stores every buffer and meets no chip at work if and only if its last page comes no later than the first page on the last chip, where the buffers are switched, and a write from the endpoint would meet none; from idle chips, if and only if the range ends before the switch |
| RamWriteResult.SomeBufferIsLost | sw/lufa-lib/Projects/TempDataLogger/Lib/DataflashManager.c:357-360 | for every longer range a buffer that is not stored |
| RamWriteResult.RamWriteExact | sw/lufa-lib/Projects/TempDataLogger/Lib/DataflashManager.c:296-384 | from idle chips a write of one buffer is right and meets no chip at work if and only if each page behind the switch already was what it should become and, where its chip had a page before, is copied first |
| RamWriteResult.RamWriteContents | sw/lufa-lib/Projects/TempDataLogger/Lib/DataflashManager.c:296-384 | from any chips, the memory alone is right if and only if the second buffer held, for each page behind the switch, what that page should become |
| RamWriteResult.RightBeforeTheSwitch | sw/lufa-lib/Projects/TempDataLogger/Lib/DataflashManager.c:296-384 | a write whose last page comes no later than the first page on the last chip stores exactly its blocks, and meets at work the chips that a write from the endpoint would meet |
| RamWriteResult.LostAfterTheSwitch | sw/lufa-lib/Projects/TempDataLogger/Lib/DataflashManager.c:357-360 | the first page after the switch keeps its old contents if the driver copies it first, and gets the old contents of the second buffer otherwise |
| RamWriteResult.RamAfterWriteMeetsBusyBuffer | sw/lufa-lib/Projects/TempDataLogger/Lib/DataflashManager.c:305-322 | two blocks written from the endpoint on a two-chip board with 512-byte pages and the first written again from a buffer: the range ends before the switch, and its bytes go into the buffer being programmed |
| RamWriteResult.TwoPagesRefillBusyBuffer | sw/lufa-lib/Projects/TempDataLogger/Lib/DataflashManager.c:357-360 | two blocks written from a buffer on a one-chip board with 512-byte pages: the second goes into the buffer that the first is being programmed from |
| DataflashRamReader.ReadBlocksRam | sw/lufa-lib/Projects/TempDataLogger/Lib/DataflashManager.c:397-459 | the buffer gets exactly the named blocks, no chip's memory changes, and a chip is met busy exactly when it was busy and the range touches it |
| DataflashRamReader.WriteThenReadRam | sw/lufa-lib/Projects/TempDataLogger/Lib/DataflashManager.c:296-459 | what is written to a RAM range that ends before the switch is read back unchanged; over both, a chip is met at work exactly when the write met it or the range has two pages and the write did not wait for it |
| Scsi.CdbRoundTrip | sw/lufa-lib/Projects/TempDataLogger/Lib/SCSI.c:281-291 | the block address and count that a host puts into a command block are the ones the big-endian decode recovers |
| Scsi.Disk.ReadWrite10 | sw/lufa-lib/Projects/TempDataLogger/Lib/SCSI.c:278-311 | a start beyond the medium is refused with its sense code and changes nothing; any other command moves exactly the named blocks and decrements the transfer length |
| Scsi.Disk.ReadCapacity10 | sw/lufa-lib/Projects/TempDataLogger/Lib/SCSI.c:216-229 | answers the last block address and the block size, most significant byte first |
| Scsi.BigEndianReadsBack | sw/lufa-lib/Projects/TempDataLogger/Lib/SCSI.c:218-222 | a host that puts the four bytes together, most significant first, has the value back |
| Scsi.Disk.DecodeSCSICommand | sw/lufa-lib/Projects/TempDataLogger/Lib/SCSI.c:91-143 | which commands succeed, the sense data of each outcome, and what each does to the store and the reply |
| Scsi.Serve | sw/lufa-lib/Projects/TempDataLogger/Lib/SCSI.c:278-311 | over every run of WRITE (10) and READ (10) commands the board answers as a flat array does, and each chip is met at work exactly as the ranges of the requests imply |
| BusyRuns.NoCommandMeetsBusyChip | sw/lufa-lib/Projects/TempDataLogger/Lib/DataflashManager.c:50-176 | a run that begins with idle chips never sends a command to a busy one on a one-chip board, and on a two-chip board if and only if no two of its requests clash on a chip |
| BusyRuns.RunMeetsExactly | sw/lufa-lib/Projects/TempDataLogger/Lib/DataflashManager.c:50-176 | a run meets a chip busy exactly when a write of several pages left it so, no write has used it since, and a later request sends it a command that conflicts with that buffer |
| BusyRuns.BusyAfterRun | sw/lufa-lib/Projects/TempDataLogger/Lib/DataflashManager.c:163-176 | a chip is busy after a run exactly when the last write that used it ended on the other chip, and then with the last page but one of that write |
| BusyRuns.OneChipIsNeverMetBusy | sw/lufa-lib/Projects/TempDataLogger/Lib/DataflashManager.c:96-128 | one-chip boards wait before every command that could conflict |
| BusyRuns.ReadAfterWriteMeetsBusyChip | sw/lufa-lib/Projects/TempDataLogger/Lib/DataflashManager.c:163-176 | two blocks written on a two-chip board with 512-byte pages and the first read back: the first chip is met busy |
| BusyRuns.WriteAfterWriteMeetsBusyBuffer | sw/lufa-lib/Projects/TempDataLogger/Lib/DataflashManager.c:163-176 | the same two blocks written and the first written again: the bytes go into the buffer that is being programmed |
| Scsi.AnswersAt | sw/lufa-lib/Projects/TempDataLogger/Lib/SCSI.c:278-311 | reply i of a run is the answer of the array as the first i requests left it |
| Scsi.LastWriteWins | sw/lufa-lib/Projects/TempDataLogger/Lib/SCSI.c:278-311 | after any run a byte holds what the last write to it sent |
| Scsi.UnwrittenBytesStay | sw/lufa-lib/Projects/TempDataLogger/Lib/SCSI.c:278-311 | a byte that no write of the run covers holds what it held at the start |
| RingBuffer.EveryInterleaving | sw/lufa-lib/Projects/USBtoSerial/Lib/LightweightRingBuff.h:109-197 | every interleaving of the steps of one inserting and one removing context keeps the invariant |
| RingBuffer.FirstInFirstOut | sw/lufa-lib/Projects/USBtoSerial/Lib/LightweightRingBuff.h:160-197 | in every interleaving the removed bytes are a prefix of the inserted ones, every unread byte is still in its slot, and the count matches |
| RingBuffer.CountNeverWraps | sw/lufa-lib/Projects/USBtoSerial/Lib/LightweightRingBuff.h:170-196 | in no interleaving does the one-byte count wrap on an increment or borrow on a decrement |
| RingBuffer.DrainDeliversEverything | sw/lufa-lib/Projects/USBtoSerial/USBtoSerial.c:86-95 | caching the count and removing that many bytes delivers everything whose insertion was complete, from any point of any interleaving |
| RingBuffer.UnguardedInsertOnFullBuffer | sw/lufa-lib/Projects/USBtoSerial/USBtoSerial.c:158-164 | an insert without a test for room replaces the oldest unread byte of a full buffer, harmlessly only if it is equal, and with 255 slots the count becomes zero |
| ReceiveRing.InOrderExactly | sw/lufa-lib/Projects/USBtoSerial/USBtoSerial.c:83-96 | in every run of the main loop with receive interrupts between its steps, the order is kept throughout, each waiting byte in a slot of its own, if and only if no byte comes in when there is no room |
| ReceiveRing.ReceiveStep | sw/lufa-lib/Projects/USBtoSerial/USBtoSerial.c:158-164 | one interrupt keeps the order exactly when the count says that there is room, where a byte that the main loop has read but not yet uncounted makes room |
| ReceiveRing.AfterInsertWithoutRoom | sw/lufa-lib/Projects/USBtoSerial/USBtoSerial.c:83-96 | after an insert without room the main loop, until the next byte comes in, delivers bytes in order whatever it does, if and only if the byte equals the one it replaced, or there are 255 places and the main loop takes no more |
| RingBuffer.RingBuff.InitBuffer | sw/lufa-lib/Projects/USBtoSerial/Lib/LightweightRingBuff.h:87-99 | resets the pointers but not the count, so the buffer is valid afterwards exactly when it was empty or full, and empty exactly when it was empty |
| RingBuffer.RingBuff.Insert | sw/lufa-lib/Projects/USBtoSerial/Lib/LightweightRingBuff.h:160-176 | does the steps of the interleaved model in every case, appends one byte to the contents when there is room, and leaves the buffer valid exactly then |
| RingBuffer.RingBuff.Remove | sw/lufa-lib/Projects/USBtoSerial/Lib/LightweightRingBuff.h:184-197 | takes the oldest byte off the contents, by the same steps as the interleaved model |
| RingBuffer.RingBuff.IsFull | sw/lufa-lib/Projects/USBtoSerial/Lib/LightweightRingBuff.h:129-132 | true exactly when the contents fill the buffer |
| RingBuffer.RingBuff.IsEmpty | sw/lufa-lib/Projects/USBtoSerial/Lib/LightweightRingBuff.h:146-149 | true exactly when there are no contents |
| AvrFlash.WriteToErased | sw/lufa-lib/Bootloaders/DFU/BootloaderDFU.c:252-269 | a page that was erased and is then written from a filled buffer holds exactly the buffer |
| AvrFlash.ImageComplete | sw/lufa-lib/Bootloaders/DFU/BootloaderDFU.c:223-276 | when the last page of a run is written, memory holds the image, blanks to the end of that page, and nothing else has changed |
| DfuDevice.EraseClearsApplication | sw/lufa-lib/Bootloaders/DFU/BootloaderDFU.c:666-682 | the erase loop blanks every application byte and nothing above the application section |
| DfuDevice.EraseTouchesEachPageOnce | sw/lufa-lib/Bootloaders/DFU/BootloaderDFU.c:671-679 | what the erase loop does is one erase and one write for each page event in its list, in order |
| DfuDevice.EraseEventsAreThePages | sw/lufa-lib/Bootloaders/DFU/BootloaderDFU.c:671-679 | the k-th page it erases and writes is the k-th page of the section, and there are no others |
| DfuDevice.ErasedIsBlank | sw/lufa-lib/Bootloaders/DFU/BootloaderDFU.c:598-624 | after an erase the scan of a blank check finds no byte that is not 0xFF |
| DfuDevice.BlankCheckFindsFirst | sw/lufa-lib/Bootloaders/DFU/BootloaderDFU.c:598-624 | after a blank check the device is in error if and only if it was before or some application byte is not 0xFF, and likewise for the status; the page and address then denote the first such byte, and when there is none nothing but the read log changes |
| DfuReports.EraseThenCheck | sw/lufa-lib/Bootloaders/DFU/BootloaderDFU.c:598-682 | an erase and a blank check leave the application blank, and the state, the status and the reported address as they were before both |
| DfuReports.FailureOutlivesErase | sw/lufa-lib/Bootloaders/DFU/BootloaderDFU.c:598-682 | a blank check that fails, an erase and another blank check: memory is blank, and the device still reports the error and the old address |
| DfuReports.RefusalOutlivesErase | sw/lufa-lib/Bootloaders/DFU/BootloaderDFU.c:491-511 | a secure device that refuses a command, is erased and finds its memory blank still reports the refusal |
| DfuReports.CheckEraseCheck | sw/lufa-lib/Bootloaders/DFU/BootloaderDFU.c:159-332 | the first of these runs as three downloads and an upload on the bootloader itself |
| DfuReports.ErrorLasts | sw/lufa-lib/Bootloaders/DFU/BootloaderDFU.c:152-459 | in every run an error state lasts until an ABORT or a download that begins a transfer |
| DfuReports.StatusLasts | sw/lufa-lib/Bootloaders/DFU/BootloaderDFU.c:431-438 | in every run a status other than OK lasts until a CLRSTATUS |
| DfuRuns.SecureUntilErased | sw/lufa-lib/Bootloaders/DFU/BootloaderDFU.c:491-534 | in every run that starts secure, the device is idle or in error and its memory untouched while it stays secure; the first events ever are the erasure of every application page, and leaving secure mode leaves exactly that section blank |
| DfuRuns.SecureNeverReturns | sw/lufa-lib/Bootloaders/DFU/BootloaderDFU.c:491-534 | secure mode, once left, never comes back in any run |
| DfuRuns.HandshakeStep | sw/lufa-lib/Bootloaders/DFU/BootloaderDFU.c:632-664 | only a DNLOAD touches the exit flags, clearing the run flag while not waiting starts a wait, and the run flag is never set again |
| DfuRuns.ExitNeedsTwoDnloads | sw/lufa-lib/Bootloaders/DFU/BootloaderDFU.c:109-197 | in every run the main loop can end only after one DNLOAD made the device wait for exit and a later DNLOAD ended the wait; `DfuCommands.StartApplication` has the two that do end it |
| DfuBootloader.DiscardFillerBytes | sw/lufa-lib/Bootloaders/DFU/BootloaderDFU.c:465-485 | what is left of the bank and the packets behind it: the bytes are counted off, but an iteration that finds the bank empty fetches a packet and discards none |
| DfuBootloader.DroppedAcross | sw/lufa-lib/Bootloaders/DFU/BootloaderDFU.c:467-478 | from an empty bank one byte less than asked for is discarded |
| DfuBootloader.Bootloader.EraseApplication | sw/lufa-lib/Bootloaders/DFU/BootloaderDFU.c:666-682 | the loop leaves the flash as the erase specification says |
| DfuBootloader.Bootloader.BlankCheck | sw/lufa-lib/Bootloaders/DFU/BootloaderDFU.c:598-624 | the scan and its report are those of the blank-check specification |
| DfuBootloader.Bootloader.ProcessBootloaderCommand | sw/lufa-lib/Bootloaders/DFU/BootloaderDFU.c:491-534 | each command does what its specification says, a secure device refuses all but erase and read commands, a page message sets the page to its fourth byte and a start message without data clears the run flag or leaves it to the watchdog |
| DfuBootloader.Bootloader.ProgramFlash | sw/lufa-lib/Bootloaders/DFU/BootloaderDFU.c:223-276 | from an erased first page and a fully delivered image, memory ends up holding the image, the rest of its last page blank, and every other page unchanged, however many pages it spans |
| DfuBootloader.Bootloader.ProgramEeprom | sw/lufa-lib/Bootloaders/DFU/BootloaderDFU.c:277-299 | the bytes that the endpoint delivers are stored from the start address on, around the end of the address space |
| DfuBootloader.Bootloader.HandleDnload | sw/lufa-lib/Bootloaders/DFU/BootloaderDFU.c:159-307 | a program request with a page-aligned start, six header and twenty-six filler bytes and the streamed words leaves exactly the whole words of the range in flash, no word being split between packets; one for EEPROM stores exactly what the code takes for the range; any other DNLOAD is a step of the relation from which the results of `DfuRuns` and `DfuCommands` follow |
| DfuBootloader.Bootloader.HandleUpload | sw/lufa-lib/Bootloaders/DFU/BootloaderDFU.c:313-410 | an upload sends the memory between the loaded addresses, the address of a failed blank check, or the last response |
| DfuBootloader.Bootloader.HandleRequest | sw/lufa-lib/Bootloaders/DFU/BootloaderDFU.c:152-459 | every class request is a step of the relation that the run properties are about, and the status and state requests answer the six bytes or the one byte of the status and state |
| DfuBootloader.RangeArrives | sw/lufa-lib/Bootloaders/DFU/BootloaderDFU.c:206-249 | a streamed range is in flash afterwards if and only if its length is even or its last byte equals the one that is there without it: blank inside the last page programmed, the old byte where the next page begins |
| DfuBootloader.OneByteIsLost | sw/lufa-lib/Bootloaders/DFU/BootloaderDFU.c:206-216 | after a range of one byte its place is blank, whatever byte was sent |
| DfuBootloader.ReadsBack | sw/lufa-lib/Bootloaders/DFU/BootloaderDFU.c:339-376 | what lies at a programmed image's place in flash is the image |
| DfuSession.ProgramAndReadBack | sw/lufa-lib/Bootloaders/DFU/BootloaderDFU.c:152-410 | a program request, a display request for the same range and an upload answer with exactly the whole words that were streamed |
| DfuCommands.StartApplication | sw/lufa-lib/Bootloaders/DFU/BootloaderDFU.c:109-169 | a DNLOAD of a start message and one of no bytes end the main loop if and only if the message's second parameter is not zero, and otherwise start the watchdog with the run flag set, with or without data behind its six bytes |
| DfuCommands.StartWithoutData | sw/lufa-lib/Bootloaders/DFU/BootloaderDFU.c:630-664 | a start message of six bytes acts in the first request: the run flag is cleared or the watchdog started, and only the wait for exit keeps the main loop going |
| DfuCommands.SelectPage | sw/lufa-lib/Bootloaders/DFU/BootloaderDFU.c:528-532 | a page message changes nothing but the page, which is its fourth byte, and the command held |
| DfuCommands.ProgramInPage | sw/lufa-lib/Bootloaders/DFU/BootloaderDFU.c:152-410 | selecting a page, programming a range of it and uploading the range leaves the whole words streamed in flash at the page and address that the packets' bytes name, and reads them back from there |
| DfuCommands.AskInfo | sw/lufa-lib/Bootloaders/DFU/BootloaderDFU.c:692-703 | secure or not, the device answers its version and its two identification bytes, each by its index |
| DfuCommands.AskSignature | sw/lufa-lib/Bootloaders/DFU/BootloaderDFU.c:692-703 | it answers a signature byte if and only if it is not in the error state; there the upload answers an address |
| DfuCommands.ClearReport | sw/lufa-lib/Bootloaders/DFU/BootloaderDFU.c:411-457 | an ABORT and a CLRSTATUS bring the device from every state to answer dfuIDLE and OK, which it answers in no other state |
| DfuCommands.Codes | sw/lufa-lib/Bootloaders/DFU/BootloaderDFU.c:411-447 | by the bytes that it answers a host tells the states and the statuses apart |
| DfuEeprom.StoredCell | sw/lufa-lib/Bootloaders/DFU/BootloaderDFU.c:292-298 | each address of a stored range holds its byte, and every other address what it held |
| DfuEeprom.StoredReadsBack | sw/lufa-lib/Bootloaders/DFU/BootloaderDFU.c:379-398 | a stored range of EEPROM is read back as it was stored, also around the end of the address space |
| DfuEeprom.RangeStored | sw/lufa-lib/Bootloaders/DFU/BootloaderDFU.c:200-299 | for a start address that is not a multiple of the packet size the code takes the last filler byte for the first one of the range, and leaves the flash alone |
| DfuEeprom.EepromRangeArrives | sw/lufa-lib/Bootloaders/DFU/BootloaderDFU.c:200-299 | a streamed range of EEPROM is there afterwards if and only if its start address is a multiple of the packet size or it repeats the last filler byte throughout, and no other address changes |
| DfuEeprom.ProgramAndReadEeprom | sw/lufa-lib/Bootloaders/DFU/BootloaderDFU.c:152-410 | a program request, a display request and an upload for EEPROM answer with what was streamed exactly under that condition |
| CdcBootloader.FetchNextCommandByte | sw/bootloader/BootloaderCDC.c:382-401 | returns the next byte of the command whatever the packet boundaries and however many packets are empty |
| CdcBootloader.AnySplit | sw/bootloader/BootloaderCDC.c:382-401 | the endpoint holds a command's bytes exactly when they are split into packets of which the last is not empty |
| CdcBootloader.Bootloader.WriteFlashBlock | sw/bootloader/BootloaderCDC.c:320-366 | a flash block erases the page of the address, pairs its bytes into words, and writes the page |
| CdcBootloader.Bootloader.ReadFlashBlock | sw/bootloader/BootloaderCDC.c:293-309 | sends both bytes of each word from the address on and leaves the address behind them |
| CdcBootloader.Bootloader.ReadWriteMemoryBlock | sw/bootloader/BootloaderCDC.c:266-375 | carries out and answers a block command of either memory, whose effect byte by byte `CdcImage` and `CdcEeprom` state, or rejects an unknown memory type |
| CdcBootloader.Bootloader.CdcTask | sw/bootloader/BootloaderCDC.c:432-652 | one whole command is carried out and answered as its bytes say, however they are split into packets, and nothing happens without a packet |
| CdcDevice.AddressIsExact | sw/bootloader/BootloaderCDC.c:468-476 | the address command arrives intact if and only if its high byte is below 64, because the shift sign-extends |
| CdcDevice.EveryCommandIsAnswered | sw/bootloader/BootloaderCDC.c:447-620 | every command is answered, also one that is not known, but for a sync byte and the reading of an empty block |
| Packets.WriteNextResponseByte | sw/bootloader/BootloaderCDC.c:408-427 | keeps the response so far in full packets and the bank |
| Packets.FinishResponse | sw/bootloader/BootloaderCDC.c:619-641 | the whole response has left as one bulk transfer |
| Packets.SplitIsATransfer | sw/bootloader/BootloaderCDC.c:619-641 | the packets of a response are full but for the last, which is shorter and may be empty, and their concatenation is the response |
| Packets.TransferIsUnique | sw/bootloader/BootloaderCDC.c:619-641 | there is no other way to send the response as one transfer of section 5.8.3 of the USB 2.0 specification |
| CdcRuns.Pulse | sw/bootloader/BootloaderCDC.c:137-166 | the LED variables are a triangle wave, and a pulse is complete after exactly 510 * 256 iterations |
| CdcRuns.DueWindow | sw/bootloader/BootloaderCDC.c:163-175 | the timeout falls due more than nine and at most ten periods after the last command |
| CdcRuns.MainLoop | sw/bootloader/BootloaderCDC.c:132-179 | for any arrivals the device and its answers depend only on the commands and not on their packets, and the loop ends exactly on an exit command or, when one of the first two bytes of flash is not blank, on the timeout |
| CdcImage.BlockAt | sw/bootloader/BootloaderCDC.c:320-366 | a block written part of the way into a page leaves the rest of the page blank on both sides of it |
| CdcImage.ImageWritten | sw/bootloader/BootloaderCDC.c:320-366 | page-sized blocks in a row leave exactly the image in flash, the rest of its last page blank, and other pages unchanged |
| CdcImage.WriteThenRead | sw/bootloader/BootloaderCDC.c:266-375 | setting an address below 32 KB, writing a page-aligned image in page-sized blocks and reading it back answers a carriage return for each write and then exactly the image |
| CdcImage.ShortBlockSurvives | sw/bootloader/BootloaderCDC.c:322-328 | a block that does not fill its page survives the next block if and only if all its bytes are blank |
| CdcEeprom.BlockWrites | sw/bootloader/BootloaderCDC.c:331-356 | after an EEPROM block at address a, byte (a / 2 + i) % 64 K holds byte i of the block, every other byte is unchanged, and the address has advanced by two for each byte |
| CdcEeprom.BlockReads | sw/bootloader/BootloaderCDC.c:288-318 | an EEPROM block read answers the bytes of those numbers and advances the address likewise |
| CdcEeprom.OneByte | sw/bootloader/BootloaderCDC.c:593-611 | the commands for one byte do what a block of one does, and the read answers the byte with half the number of the address |
| CdcEeprom.WriteThenReadEeprom | sw/bootloader/BootloaderCDC.c:266-375 | setting an address, writing a block, setting it back and reading answers carriage returns and then exactly the data, which lie from the word number of the address on |
| CdcEeprom.WriteThenReadOneByte | sw/bootloader/BootloaderCDC.c:593-611 | the same for one byte by its own commands |
| CdcErase.EraseCommand | sw/bootloader/BootloaderCDC.c:507-522 | the erase command blanks the application section but for the pages that its loop steps over, of n + 1 pages of n bytes the last one, and the first page gets what the page buffer held |
| CdcErase.BlankExactly | sw/bootloader/BootloaderCDC.c:507-522 | from a blank page buffer the section is blank afterwards if and only if the pages stepped over were blank before |
| CdcErase.NothingSkipped | sw/bootloader/BootloaderCDC.c:510-517 | no page is stepped over if and only if the section has no more pages than a page has bytes |
| CdcErase.OnePageSurvives | sw/bootloader/BootloaderCDC.c:510-517 | with pages of 128 bytes below 0x7000 exactly the bytes from 0x4000 to 0x407F survive |
| CdcWords.FillCommands | sw/bootloader/BootloaderCDC.c:547-565 | both commands for half a word fill the whole word, with their byte as the low one and zero as the high one, and only the second goes on to the next word |
| CdcWords.WriteCommand | sw/bootloader/BootloaderCDC.c:566-576 | the page of the address keeps the bits that are set in the page buffer too, and no other byte changes |
| CdcWords.ReadCommands | sw/bootloader/BootloaderCDC.c:582-592 | a word is answered high byte first, which a block read answers low byte first, and the page size is the two bytes behind the Y |
| CdcWords.WordByBytes | sw/bootloader/BootloaderCDC.c:547-576 | a word sent byte by byte has zero as its second byte in flash, whatever was sent |
| CdcWords.OnlyZeroArrives | sw/bootloader/BootloaderCDC.c:547-576 | in erased memory such a word arrives if and only if both its bytes are zero |
| BitRing.StoreRefines | sw/lufa-lib/Projects/Magstripe/Lib/CircularBitBuffer.c:53-80 | storing into a ring that is not full appends to its queue |
| BitRing.StoreOnFull | sw/lufa-lib/Projects/Magstripe/Lib/CircularBitBuffer.c:53-80 | storing into a full ring merges the bit into the oldest one, and the ring stands for no queue any more |
| BitRing.GetRefines | sw/lufa-lib/Projects/Magstripe/Lib/CircularBitBuffer.c:83-114 | retrieving returns the oldest bit and removes it |
| BitRing.ResetRefines | sw/lufa-lib/Projects/Magstripe/Lib/CircularBitBuffer.c:40-50 | initialising gives an empty queue if and only if all data bits are clear |
| BitRing.RunRefines | sw/lufa-lib/Projects/Magstripe/Lib/CircularBitBuffer.c:40-114 | every list of operations within capacity returns what a first-in first-out queue returns |
| BitRing.StaleBits | sw/lufa-lib/Projects/Magstripe/Lib/CircularBitBuffer.c:40-50 | bits stored after initialising a buffer that is not blank read back as the or of each with its stale bit, hence intact if and only if no stale one lies under a stored zero |
| BitOverrun.TrackOfAnyLength | sw/lufa-lib/Projects/Magstripe/Lib/CircularBitBuffer.c:53-114 | however many bits are stored behind a queue, each bit then read is the or of all that fell into its place, what is read beyond the size of the ring is clear, and the counter is right modulo its width |
| BitOverrun.OverrunReadsBack | sw/lufa-lib/Projects/Magstripe/Lib/CircularBitBuffer.c:53-114 | bits that overrun the ring are read back as they were stored if and only if those beyond its size are all clear |
| BitOverrun.StoreCarries | sw/lufa-lib/Projects/Magstripe/Lib/CircularBitBuffer.c:53-80 | a ring that gives back a queue gives back, after one more store, that queue with the bit appended or collected, full or not |
| BitOverrun.GetCarries | sw/lufa-lib/Projects/Magstripe/Lib/CircularBitBuffer.c:83-114 | retrieving from such a ring returns the first bit of the queue and leaves the rest |
| BitOverrun.OwedBits | sw/lufa-lib/Projects/Magstripe/Lib/CircularBitBuffer.c:53-114 | of any bits stored, the i-th one owed is the or of all that fell into place i, and clear beyond the size of the ring |
| BitBuffers.Advance | sw/lufa-lib/Projects/Magstripe/Lib/CircularBitBuffer.c:66-79 | the byte pointer and mask step as one bit pointer through the buffer and around its end |
| BitBuffers.BitBuffer.Init | sw/lufa-lib/Projects/Magstripe/Lib/CircularBitBuffer.c:40-50 | sets pointers and counter, leaves the data, and is valid afterwards exactly when the data was blank |
| BitBuffers.BitBuffer.StoreNextBit | sw/lufa-lib/Projects/Magstripe/Lib/CircularBitBuffer.c:53-80 | the packed bytes change as the ring of bits does, and the queue grows by the bit when there is room; otherwise the bit is collected by its place and a clear one follows |
| BitBuffers.BitBuffer.GetNextBit | sw/lufa-lib/Projects/Magstripe/Lib/CircularBitBuffer.c:83-114 | the packed bytes change as the ring of bits does, and the oldest bit of the queue is returned |
| Magstripe.SampledAtEdges | sw/lufa-lib/Projects/Magstripe/Magstripe.c:124-136 | a track's bits are exactly the levels of its data pin, in order, at the samples whose clock pin is high and was low one sample earlier |
| Magstripe.Reader.constructor | sw/lufa-lib/Projects/Magstripe/Magstripe.c:46-85 | three blank buffers, nothing to send, and the next report is a release |
| Magstripe.Reader.ReadMagstripeData | sw/lufa-lib/Projects/Magstripe/Magstripe.c:110-142 | for tracks of any length every track's queue is afterwards what its buffer owes of the bits before and those sampled while the card is present, and sending starts with the first track |
| Magstripe.Reader.CreateHIDReport | sw/lufa-lib/Projects/Magstripe/Magstripe.c:174-206 | a report is a release or, every other time, the next key of what is left to send, which it shortens |
| Magstripe.ReportsAlternate | sw/lufa-lib/Projects/Magstripe/Magstripe.c:182-203 | every second report is a release and the others are the keys in order, then releases too |
| Magstripe.Reader.Swipe | sw/lufa-lib/Projects/Magstripe/Magstripe.c:110-206 | from any pin trace the host reads what each track's buffer owes, each ended by Enter and behind what was still to be sent of it, interleaved with releases, and then nothing |
| Magstripe.CardThatFits | sw/lufa-lib/Projects/Magstripe/Magstripe.c:110-206 | of tracks that fit into their buffers, those keys are the sampled bits themselves |
| DhcpOptions.Appended | sw/lufa-lib/Projects/Webserver/Lib/DHCPClientApp.c:225-236 | writing an entry over the End marker keeps the list well-formed and appends exactly that entry |
| DhcpOptions.LookupAppended | sw/lufa-lib/Projects/Webserver/Lib/DHCPClientApp.c:247-270 | an appended option is found unless an earlier one has its code, and every other lookup stays the same |
| DhcpOptions.SetOption | sw/lufa-lib/Projects/Webserver/Lib/DHCPClientApp.c:220-237 | the list in the packet gains exactly the new entry behind the old ones, what precedes the list is untouched, and the growth is returned |
| DhcpOptions.GetOption | sw/lufa-lib/Projects/Webserver/Lib/DHCPClientApp.c:247-270 | tells whether the option is there and copies the data of its first entry, and only then anything |
| DhcpClient.FillDHCPHeader | sw/lufa-lib/Projects/Webserver/Lib/DHCPClientApp.c:179-208 | the packet starts with the complete header and a list of the message type alone, and nothing behind them changes |
| DhcpClient.HeaderFields | sw/lufa-lib/Projects/Webserver/Lib/DHCPClientApp.c:184-202 | where each field of the header lies and what it holds |
| DhcpClient.TakenAddress | sw/lufa-lib/Projects/Webserver/Lib/DHCPClientApp.c:109-113 | the options copied from an offer do not overwrite its address |
| DhcpClient.OfferDataOf | sw/lufa-lib/Projects/Webserver/Lib/DHCPClientApp.c:109-112 | the offer data holds the offered address whatever the lengths of the options, and with options of four bytes the address, netmask, router and server of the offer |
| DhcpClient.OfferDataTaken | sw/lufa-lib/Projects/Webserver/Lib/DHCPClientApp.c:109-112 | what an offer makes of the offer data does not depend on the memory behind it, even when its options reach there |
| DhcpClient.CopiesStayInside | sw/lufa-lib/Projects/Webserver/Lib/DHCPClientApp.c:109-112 | the options copied from an offer stay inside the offer data, whatever lies behind it, if and only if the netmask has at most twelve bytes, the routers eight and the server four |
| DhcpClient.ThreeRoutersOverflow | sw/lufa-lib/Projects/Webserver/Lib/DHCPClientApp.c:109-112 | an offer with three routers is accepted and writes the third address behind the offer data |
| DhcpClient.DhcpApp.Callback | sw/lufa-lib/Projects/Webserver/Lib/DHCPClientApp.c:65-168 | the state machine steps as specified; a waiting client that gets no packet starts again exactly when the timer has expired; a DISCOVER or REQUEST is a complete message with exactly its options, and the size sent is that of the header and all options with the End marker |
| DhcpClient.ServerReadsRequest | sw/lufa-lib/Projects/Webserver/Lib/DHCPClientApp.c:122-130 | a server that looks the options up finds the message type, the offered address and the server that offered it |
| DhcpRuns.EveryStateIsExplained | sw/lufa-lib/Projects/Webserver/Lib/DHCPClientApp.c:65-168 | in every run each state has its history of sent and accepted messages |
| DhcpRuns.LeaseNeedsHandshake | sw/lufa-lib/Projects/Webserver/Lib/DHCPClientApp.c:71-167 | a configuration is held only after DISCOVER, an accepted OFFER, REQUEST and an accepted ACK in that order with no restart between them, and it is that offer's |
| DhcpMessages.EntriesAreBytes | sw/lufa-lib/Projects/Webserver/Lib/DHCPClientApp.c:220-271 | the entries that an option list is read as determine its bytes up to the End marker |
| DhcpMessages.DiscoverBytes | sw/lufa-lib/Projects/Webserver/Lib/DHCPClientApp.c:73-92 | a DISCOVER, byte by byte: header, no addresses, and the three options wanted |
| DhcpMessages.RequestBytes | sw/lufa-lib/Projects/Webserver/Lib/DHCPClientApp.c:120-138 | a REQUEST, byte by byte: header, and the offered address and its server both in the header and as options |
| DhcpProgress.WaitingCall | sw/lufa-lib/Projects/Webserver/Lib/DHCPClientApp.c:94-167 | a call without a packet leads a waiting client back to the start exactly when the timer has expired, an answer of its transaction and the type awaited leads it on, and any other packet changes nothing |
| DhcpProgress.Restart | sw/lufa-lib/Projects/Webserver/Lib/DHCPClientApp.c:65-168 | after such a timeout the next call sends a complete DISCOVER, whatever that call brings |
| DhcpProgress.ExchangeStates | sw/lufa-lib/Projects/Webserver/Lib/DHCPClientApp.c:65-168 | the client waits through all calls that bring neither its answer nor a timeout, and goes on with the answer |
| DhcpProgress.ExchangeLeases | sw/lufa-lib/Projects/Webserver/Lib/DHCPClientApp.c:65-168 | a DISCOVER, an offer of the client's transaction, a REQUEST and its acknowledgement, with any number of such calls between, end with the offered address in use |
| DhcpProgress.Play | sw/lufa-lib/Projects/Webserver/Lib/DHCPClientApp.c:65-168 | in every run of calls on the client each call sends exactly the message of the state it finds, or nothing |
| DhcpProgress.Lease | sw/lufa-lib/Projects/Webserver/Lib/DHCPClientApp.c:65-168 | in a complete exchange the client sends a DISCOVER in the first call and a REQUEST for the offered address right after the offer, nothing else, and holds that address at the end |
| EventHandler.Pushed | sw/rfp/evt_handler.cpp:69-83 | a free node at the head keeps the list acyclic and its nodes exactly the used ones |
| EventHandler.Popped | sw/rfp/evt_handler.cpp:85-94 | freeing the head does too |
| EventHandler.EventHandlers.AddHandler | sw/rfp/evt_handler.cpp:69-83 | puts a callback in front of the others, unless it is null or the pool is used up |
| EventHandler.EventHandlers.PopHandler | sw/rfp/evt_handler.cpp:85-94 | removes the most recent handler |
| EventHandler.EventHandlers.SyncEvent | sw/rfp/evt_handler.cpp:96-104 | calls the handlers in order up to the first that consumes the event, whose answer may depend on the event, its data and all calls before |
| EventHandler.ConsumedOnce | sw/rfp/evt_handler.cpp:96-104 | with a last handler that consumes everything, every event is consumed exactly once and by the first that wants it, whatever the answers depend on |
| EventHandler.EventHandlers.Event | sw/rfp/evt_handler.cpp:44-54 | queues an event behind the waiting ones, or drops it when four are waiting |
| MenuStates.StepIsStructured | sw/rfp/Menu.cpp:153-247 | whatever key is pressed, the selection stays within its menu, the frames stay linked by their entries, and the handler flags match them |
| MenuStates.StepInStep | sw/rfp/Menu.cpp:187-237 | one key keeps the handler list in step with the open frames if and only if its handler is not refused by the pool |
| MenuStates.RefusedThenLeft | sw/rfp/Menu.cpp:188-196 | leaving a frame whose handler was refused removes the handler of a frame that is still open, or a base handler |
| MenuStates.PoolRunsFull | sw/rfp/Menu.cpp:187-237 | three nested handlers above one base handler: the third is refused, and leaving its frame removes the handler of the frame around it |
| MenuStates.RunInStep | sw/rfp/Menu.cpp:153-247 | for every admissible key sequence the handler list is the handlers of the open frames in nesting order and then the base |
| MenuStates.Restored | sw/rfp/Menu.cpp:186-237 | entering a submenu, doing anything admissible in it and leaving it restores the frame, all frames below it, and the handler list |
| MenuStates.WindowShowsSelection | sw/rfp/Menu.cpp:136-143 | the selection is always among the visible lines, no line shows an entry beyond the menu, and the lower arrow is right |
| MenuKeys.UpAndDown | sw/rfp/Menu.cpp:156-178 | up and down move the selection by one and stop at the ends of the menu, and change nothing else |
| MenuKeys.DropdownOpen | sw/rfp/Menu.cpp:153-247 | while a dropdown is open, left closes it and no other key moves the selection, enters a menu or runs an action |
| MenuKeys.Select | sw/rfp/Menu.cpp:239-242 | select runs the action of an entry that has one exactly once, and does nothing elsewhere |
| MenuKeys.RightInPlace | sw/rfp/Menu.cpp:203-210 | right opens a dropdown, and does nothing on an entry that leads nowhere |
| MenuKeys.RightEnters | sw/rfp/Menu.cpp:213-237 | right enters a submenu at its first entry, the entry's handler comes to the front and is the first to be called, with the start event |
| MenuKeys.LeftReturns | sw/rfp/Menu.cpp:180-198 | left returns to the frame before on the entry it was left on; the front handler of an entry that has one is the first to be called, with the stop event, and is gone |
| MenuKeys.OtherKeys | sw/rfp/Menu.cpp:153-247 | no other key does anything |
| MenuKeys.NotShownYet | sw/rfp/Menu.cpp:175-176 | in a menu that was never drawn a key down only draws it |
| MenuKeys.Downs | sw/rfp/Menu.cpp:168-178 | n keys down go n entries down, or to the last one |
| MenuKeys.Ups | sw/rfp/Menu.cpp:156-166 | n keys up go n entries up, or to the first one |
| MenuKeys.DownAndUpAgain | sw/rfp/Menu.cpp:156-178 | from the top n keys down reach entry n, or the last one, and as many keys up are back at the top with everything as it was |
| Menu.Menu.DrawMenu | sw/rfp/Menu.cpp:124-151 | counts the entries the first time and computes the window, also while the menu is disabled and has no visible line |
| Menu.Menu.KeyHandler | sw/rfp/Menu.cpp:153-247 | the object in place steps as the pushdown machine does, whose keys `MenuKeys` describes one by one; up and down move the selection by one within the menu |
| UserInterface.Dispatch | sw/rfp/evt_handler.cpp:106-122 | every waiting event is delivered, oldest first, to the handlers that its predecessors left, a key that reaches the base handler being one step of the menu |
| UserInterface.DeliverEvent | sw/rfp/evt_handler.cpp:112-119 | one event goes along the list up to the handler that consumes it, also when that handler is the base one and its menu changes the list |
| UserInterface.DispatchInStep | sw/rfp/ui.cpp:138-175 | for every queue of events the menu stays linked, and the handler list is that of the open frames and the base throughout if and only if no event opens an application whose handler is refused |
| UserInterface.DispatchConsumesOnce | sw/rfp/ui.cpp:138-175 | with the base handler at the bottom, every event of such a queue is consumed exactly once, by the first handler that wants it |
| UserInterface.TrappedKeysChangeNothing | sw/rfp/rf_debug.cpp:44-68 | while an application in front consumes every key press but those of one key, no queue without that key changes the menu or the handlers |
| UserInterface.OpenedIsCalledFirst | sw/rfp/Menu.cpp:216-224 | the application that a key press opens is the first to get the next event of the same queue |
| Scheduler.MeasuredTime | sw/lufa-lib/LUFA/Scheduler/Scheduler.c:49-64 | the delay test measures the true time less one tick if the counter wrapped in between |
| Scheduler.TickCounter.HasDelayElapsed | sw/lufa-lib/LUFA/Scheduler/Scheduler.c:36-67 | succeeds exactly when the measured time reaches the delay; within a wrap of the counter that is when the delay has passed, or the delay and one tick if it reaches across the wrap |
| Scheduler.TickCounter.Poll | sw/lufa-lib/LUFA/Scheduler/Scheduler.c:36-67 | polled every tick, the n-th success comes at the n-th firing time |
| Scheduler.ManyDelays | sw/lufa-lib/LUFA/Scheduler/Scheduler.c:36-67 | n firings take n delays and one tick for each wrap of the counter, hence between n delays and n delays and n ticks |
| Scheduler.LongestDelay | sw/lufa-lib/LUFA/Scheduler/Scheduler.c:49-64 | a delay of 0xFFFF elapses if and only if the counter stood at zero, and then never again |

## Left out

- DataflashManager.WriteBlocks: a count of zero is covered only for an endpoint on which nothing arrives, as the host sends no data for it; ranges that run past the medium are excluded, because they read the bus with no chip selected.
- DataflashReader.ReadBlocks: a range that starts in the medium and runs past its end is excluded for the same reason.
- DataflashRam.WriteBlocksRam: a count of zero, which the file system never passes, and ranges that run past the medium.
- Scsi.Disk.ReadWrite10: a start inside the medium with a count past its end is excluded; the source tests only the start.
- Scsi.Disk.DecodeSCSICommand: INQUIRY, REQUEST SENSE and SEND DIAGNOSTIC, which answer constant data or self-tests, are excluded, and so are the ranges that `ReadWrite10` excludes.
- DfuBootloader.Bootloader.HandleDnload: the exact image is stated for flash from a page-aligned start, and for EEPROM from any start and packets that are not empty. A range of 64 KB has a 16-bit length of zero and is covered as a range of no bytes.
- CdcBootloader.Bootloader.CdcTask: the last packet of a command ends with it, because the source drops whatever of a packet is behind a command.
- CdcRuns.MainLoop: an incomplete command, or an empty packet with nothing behind it, keeps the wait for the next command byte going, so that the loop makes no further iteration and neither the LED nor the timeout runs until more arrives; arrivals are whole commands.
- DfuBootloader.Bootloader.ProcessBootloaderCommand: a table index beyond the three answers of a read command reads whatever lies in memory there, which is a parameter of the model.
- CdcErase.EraseCommand: the application section is a whole number of pages. In `CdcDevice`, lock and fuse bits are constants, and setting lock bits changes nothing.
- BitBuffers.BitBuffer.StoreNextBit: nothing is promised once the 16-bit counter wraps.
- Magstripe.Reader.ReadMagstripeData: tracks whose bits, with those still to be sent, do not wrap the 16-bit counter.
- Magstripe.Reader.Swipe: the same tracks.
- DhcpOptions.GetOption: the Pad option of section 3.1 of RFC 2132 is read by the code as an option with a length; lists are well-formed in the code's reading.
- DhcpClient.DhcpApp.Callback: packets of the client's own transaction have a well-formed option list; packets of other transactions are arbitrary. Options longer than their place overwrite the memory behind the offer data, which is modelled, and a message type of several bytes overwrites what lies behind a one-byte local on the stack, which is not; in both cases the client's other variables are taken to lie elsewhere.
- DhcpRuns.EveryStateIsExplained: runs of such packets, and so `DhcpRuns.LeaseNeedsHandshake` and the results of `DhcpProgress`.
- UserInterface.Dispatch: events that interrupts queue while the dispatcher runs; the queue is that of its start. Callbacks other than the base handler leave the handler list alone, as those of the program do; their answers are arbitrary, because `rf_debug_notify` leaves its result unset for two keys (sw/rfp/rf_debug.cpp:46-54), so that `TrappedKeysChangeNothing` holds for it as far as that result happens to be nonzero.
- Menu.Menu.KeyHandler: handlers that change the menu's number of visible lines are covered by its value at the drawing; the values that an open dropdown steps through; menus have 1 to 128 entries, what the 7-bit selection can address; a key that would open an eleventh frame is excluded, because the code has no test for it.
- Detaching the device in the middle of a transfer and the mass-storage reset: the host is assumed to stay, and a wait for a packet that never comes is modelled as the end of the method.
- Registers, interrupts enabling, watchdog, fuses, descriptors, LEDs other than the bootloader's clock, fonts and drawing.
- The class driver around the card reader's reports, the IP stack around the DHCP client, and the FAT library.
- `Scheduler_SetTaskMode` and `Scheduler_SetGroupTaskMode`, which only set flags in a table.
