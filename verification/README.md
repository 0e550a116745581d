# A verified model of the emulated radio

This project models the part of the emulator that moves data between the guest program, the buses and
storage, and the host tools beside it, in Dafny 4.11, and proves what those parts promise.
`dafny verify dfyconfig.toml` checks all of it.

The devices are classes whose methods change their fields in place, as the C callbacks do. Each method is
proved against a function on values, and the properties below are proved about those functions, for every
input, every run of events, or every state that can be reached.

| part | modules |
|---|---|
| flash chip, its image file | `Nor` (the chip, byte by byte), `NorFrames` and `NorRuns` (the abstract NOR it refines), `WriteBack` (the file), `FlashDevice` (class `Py25q16`) |
| SPI controller and DMA | `Dma`, `Transfers`, `SpiDma` (class `Soc`), `SectorRewrite` and `SectorDriver` (the firmware's sector rewrite, end to end) |
| radio chip | `RadioCore` (registers, interrupts), `RadioBus` (the three wires), `RadioDriver` (the firmware's edges), `RadioDevice` (class `Bk4819`), `RadioGuest` (register accesses played on it) |
| serial receive | `Uart` (class `Usart`, the ring), `SerialRx` (class `RxDma`, the circular channel), `SerialShots` (the others) |
| display | `Panel` (class `St7565`), `PanelRuns` (runs of commands), `LcdView` (hexadecimal to pixels) |
| serial protocol | `Crc`, `Frames` (class `Frames`), `FrameScan` (a take on any bytes) |
| flash images | `Bytearray`, `Slots` (class `FlashImage`), `SlotBytes` (byte by byte), `Apps` |
| install over the link | `SlotDevice` (a lossy FIFO link and the device), `SlotLink` (class `Radio`) |
| Minesweeper | `Lcg`, `MineField`, `MineDraw`, `Flood`, `FloodTurns`, `MineRules`, `Minesweeper` (class `Game`), `FirstBoard`, `FloodTable`, `FloodRows` and `FloodWitness` (a game that loses a cell) |
| web page frames | `FramePump`, `FramePumpObject` |
| shared | `Wrappers`, `Bits`, `Modular` |

Bytes are naturals below 256 and words naturals below a power of two; where the C code wraps or truncates,
the model says so with `%`. The code decides wherever it and its comments differ.

## What holds only under a condition

The project states what the code does. Where something one would want fails for some inputs, the exact
condition is proved.

- The flash chip counts the bytes of a frame in 32 bits and never looks for the wrap. Runs answer as the abstract
  NOR exactly while no frame has more than 2^32 bytes (`NorRuns.RunsRefineExactly`), and reads come back in order
  exactly while the frame stays below 2^32 bytes (`NorRuns.ReadInOrderExactly`).
- Write-back through the temporary file does not look at the result of `fclose`. When a flush goes that way, the
  image is saved, whatever a failed close leaves in it, exactly if the close succeeds
  (`WriteBack.UncheckedCloseLosesImage`, and in any run `WriteBack.TornInAnyRun`). From power-on, a byte is lost
  at the end of a run exactly if some event tore it and none since settled it (`WriteBack.LostExactly`). The
  driver's results hold whatever the host answers, and say what is saved.
- An image file shorter than the flash is loaded as if erased flash followed, but a write past its end fills the
  gap with zeros: a range written in place is saved exactly if it does not start past the end
  (`WriteBack.ShortImageExactly`).
- `Frames.take` throws away a lone trailing AB. One frame, in any pieces with takes between them, arrives exactly
  if no take comes when only its first byte has been fed (`Frames.OneFrameExactly`); a stream of frames,
  drained, arrives exactly if no take found the AB of a frame alone in the buffer (`Frames.StreamExactly`), which is
  so if no take comes between the AB and the CD of one (`Frames.RoundTrip`).
- Two channels armed in one direction for the controller run one after the other, on separate kicks
  (`Dma.KickRunsOnce`).
- The flood fill's stack has 81 places but a cell can be pushed more than once. The fill is complete exactly if
  every cell that the full stack refused in some turn was opened some other way (`Minesweeper.Game.Reveal`,
  `FloodTurns.FillExactly`), and no cell is ever refused if the closure holds at most thirteen cells with no mine
  around them (`FloodTurns.FewSpreading`). A cell does get lost in the first game after loading: the keys 7, 8,
  MENU draw the board of `FirstBoard`, and row 3, column 8 stays closed (`FloodWitness.FirstGameLosesCell`).
- The picture on the web page encodes the bytes stored with it exactly if the reading published last was faithful
  (`FramePump.PictureOfBytes`). The pump reads the panel twice, and inversion apart from both: a reading is
  faithful, with inversion off, exactly if the memory did not change between the two, and with inversion on never
  while it does not change (`FramePump.WhenFaithful`). A torn picture stays until the bytes change
  (`FramePump.TornPictureStays`), and so does the old polarity when only the inversion is switched
  (`FramePump.OldPolarityStays`).
- A slot whose size field is larger than the slot reads into the next one. No operation elsewhere changes what a
  slot holds exactly if it is not committed or its size field fits it (`Slots.UntouchedExactly`; for the last
  slot, `Slots.LastSlotExactly`).
- An app built with no code is refused by the strict parse (`Apps.ParseOfBuild`); a shortcut reads back
  exactly if no other shortcut bit was given in the flags, and none exactly if they hold not just one
  (`Apps.ShortcutRecovered`).
- An install over the link can take a late acknowledgement of an earlier piece for the awaited one: a run that
  does is given (`SlotLink.LateAckTaken`). In every run in which the device answers the validation with status zero
  the host accepts exactly if the CRC of what is stored is the image's, and when no such acknowledgement was taken
  the slot holds exactly the image (`SlotLink.Radio.Install`).

Where a comment and the code beside it differ, the model follows the code: the Minesweeper source speaks of
9-byte bit arrays (`apps/minesweeper/minesweeper_app.c:16-18`), which its own macro makes 11 bytes
(`apps/minesweeper/minesweeper_app.c:28`); the flash write-back is described as whole-file
(`qemu/py32f071.c:2504-2506`), but writes the dirty range in place; and a DMA transfer is said to run inside
the write that enables a channel (`qemu/py32f071.c:1879-1881`), but that write only arms it.

## Model

| member | source | states |
|---|---|---|
| SectorDriver.RewriteSector | qemu/py32f071.c:2248-2260 | the whole read-modify-write of a sector, as register writes on the emulated controller, DMA and flash: from any state between frames, and whatever the host's file calls answer, the flash ends exactly as it began but for the patch; if the image file was whole and differed from the flash inside the dirty range only, that is still so if no close of a temporary file failed; and if the host's calls at the last deselect succeed, the file is what a restart needs exactly if no byte is lost |
| SectorDriver.ReadSector | qemu/py32f071.c:2016-2110 | a duplex DMA read of 4 KiB puts the sector into the cache, changes no other byte of memory and no flash byte, and leaves the controller ready |
| SectorDriver.PolledRead | qemu/py32f071.c:1746-1827 | a read without DMA, one exchange a byte, gives what the flash holds from there on, around the end of the array, and changes nothing |
| SectorDriver.EraseSector | qemu/py32f071.c:2467-2477 | a sector-erase frame under write enable blanks that sector and nothing else |
| SectorDriver.ProgramPage | qemu/py32f071.c:2435-2465 | a page-program frame whose data moves by DMA ands the buffer into that page and nothing else |
| SectorDriver.ProgramSector | qemu/py32f071.c:2604-2658 | sixteen page programs, each behind its own write enable, put the cache into an erased sector; agreement of flash and file is kept, and what a successful last deselect saves is stated |
| SectorDriver.SendCommand | qemu/py32f071.c:2604-2658 | a chip-select frame sent byte by byte, whatever the host answers, has the abstract NOR's effect on the flash, leaves memory alone, and writes back at the deselect: agreement is kept unless a temporary file's close failed, and the flash is clean if the host's calls succeeded |
| SectorDriver.SendTransfer | qemu/py32f071.c:1773-1831 | a chip-select frame with its body moved by DMA has the abstract NOR's effect on the flash, the bytes on the bus being the head and then the body; memory is what the transfer collects; at the end both channels' flags and the interrupt line that the firmware waits for are up; the same write-back |
| SectorRewrite.TransferEffect | qemu/py32f071.c:1793-1804 | arming channels and setting RXDMAEN and SPE clocks nothing; each armed byte is clocked, exactly once, when TXDMAEN joins SPE |
| SectorRewrite.TransferRaises | qemu/py32f071.c:2103-2109 | the driver's transfer raises the flags of its two channels and no other, and with them the interrupt line |
| SectorRewrite.ReplyWaits | qemu/py32f071.c:1809-1822 | a byte sent through the data register: the chip's reply waits there, RXNE and TXE up, BSY down, the other status bits as they were |
| SectorRewrite.TransferFrameEffect | qemu/py32f071.c:2016-2110 | a frame whose head is sent byte by byte and whose body is moved by DMA is one frame of the abstract NOR, written back at the end |
| SectorRewrite.CommandFrameEffect | qemu/py32f071.c:2604-2658 | selecting, sending bytes and deselecting is one frame of the abstract NOR, written back at the end |
| SectorRewrite.ProgramPageEffect | qemu/py32f071.c:2435-2465 | under write enable, the page holds its old bytes anded with the buffer, and nothing else changes |
| SectorRewrite.CacheWritten | qemu/py32f071.c:2248-2260 | read, patch, erase and sixteen page programs compose to the old sector with the patch in place |
| SectorRewrite.CachePatched | qemu/py32f071.c:2248-2260 | the cache after the read and the patch, byte by byte |
| SpiDma.Soc.RunForSpi | qemu/py32f071.c:2016-2110 | the imperative engine, for any channel settings: flash and memory as the transfer function says; the global and the transfer-complete flag of exactly the channels that ran come up, and no other flag changes; each group's interrupt line is up exactly if one of its channels wants the interrupt and has run, now or before |
| SpiDma.Soc.Transfer | qemu/py32f071.c:2072-2101 | the duplex loop clocks total bytes, both addresses stepping together and wrapping at 32 bits |
| SpiDma.Soc.SpiWrite | qemu/py32f071.c:1773-1831 | a write to a controller register, the request gate included, changes the board as specified |
| SpiDma.Soc.DmaWrite | qemu/py32f071.c:2220-2267 | a write to a channel register only arms the channel; nothing moves |
| SpiDma.Soc.FindArmed | qemu/py32f071.c:2027-2040 | of several channels armed for the controller in one direction the last one runs |
| SpiDma.Soc.UpdateIrq | qemu/py32f071.c:1971-1990 | the two interrupt lines are the or of complete-and-enabled over channels 1 to 3 and 4 to 7 |
| SpiDma.Soc.SetCs | qemu/py32f071.c:2604-2658 | chip select reaches the flash, and its write-back |
| SpiDma.Soc.ClearFlags | qemu/py32f071.c:2224-2228 | a write to the flag-clear register lowers exactly the flags named, and the lines follow what is left |
| SpiDma.Soc.ReadData | qemu/py32f071.c:1761-1767 | reading the data register gives the byte received last and drops RXNE alone |
| Dma.KickFlags | qemu/py32f071.c:2103-2108 | after a transfer, bit by bit: the two flags of every channel that ran, read off the registers as the last one asking in its direction, are up, and the rest are as they were |
| Dma.KickLines | qemu/py32f071.c:1971-1990 | each line is up exactly if a channel of its group has its interrupt enabled and ran, now or earlier; with nothing to run nothing changes |
| Dma.KickCounts | qemu/py32f071.c:2103-2107 | the channels that ran end with a count of zero, and nothing else in the channels changes |
| Dma.KickMoves | qemu/py32f071.c:2047-2101 | what a transfer moves: the sending channel's count of bytes, or the receiving one's if none sends, from the one's address to the other's, advancing as each says |
| Dma.StatusKeepsReady | qemu/py32f071.c:1805-1808 | a write to the status register changes it alone and keeps TXE up |
| Dma.ControlGate | qemu/py32f071.c:1793-1804 | a control-register write that does not leave SPE and TXDMAEN both set, or finds nothing armed, moves nothing |
| Dma.KickRunsOnce | qemu/py32f071.c:2016-2110 | the channels a kick ran are spent, and kicking again does nothing until a count is rewritten, exactly if no second channel was armed in the same direction |
| Dma.KickSpends | qemu/py32f071.c:2103-2109 | the channels still armed after a kick are those it did not run |
| Dma.NextAddress | qemu/py32f071.c:2094-2099 | an advancing address steps by one and wraps at 32 bits |
| Dma.SpiWriteKeepsValid | qemu/py32f071.c:1773-1831 | no register write makes the state of flash and file unsound, whatever the DMA then does |
| Dma.SpiWriteLosesNothing | qemu/py32f071.c:1773-1831 | nor does one put a byte out of the write-back's reach: a byte where memory and file differ outside the dirty range did so before |
| Transfers.ReadTransfer | qemu/py32f071.c:2016-2110 | during a read, memory receives the flash's consecutive bytes, around the end of the array, whatever is sent meanwhile |
| Transfers.WriteTransfer | qemu/py32f071.c:2016-2110 | what is put on the bus is the source buffer, as long as the address that collects the replies lies outside it |
| Transfers.ClockedSends | qemu/py32f071.c:2072-2101 | a transfer of k bytes clocks exactly k bytes through the flash |
| Transfers.DummyReceive | qemu/py32f071.c:2072-2101 | collecting the replies at one fixed address leaves the rest of memory alone |
| NorRuns.RunRefines | qemu/py32f071.c:2370-2499 | any run of bytes and chip-select edges on the device gives the replies and the contents of the abstract NOR, deselected traffic included, while no frame has more than 2^32 bytes |
| NorRuns.RunsRefineExactly | qemu/py32f071.c:2370-2499 | that bound is exact: all runs with frames of at most n bytes answer as the abstract NOR exactly if n is at most 2^32 |
| NorRuns.ReadInOrderExactly | qemu/py32f071.c:2417-2432 | consecutive reads of any length come back in order exactly while the frame is below 2^32 bytes: the 32-bit byte counter is not guarded |
| NorRuns.FrameEffect | qemu/py32f071.c:2435-2477 | a frame without write enable changes no data; only an erase raises a bit, and then the byte is 0xFF and in the addressed aligned sector; a program reaches only the page it starts in |
| NorRuns.CellBits | qemu/py32f071.c:2441-2464 | a bit survives a burst exactly if it was set and every byte of the burst that lands on its cell has it set |
| NorRuns.StatusAndIdentity | qemu/py32f071.c:2479-2490 | within a frame of any length the status command answers with the write-enable latch, and the identity command with 0x85, 0x60, 0x15 and then 0xFF |
| NorRuns.PageProgrammed | qemu/py32f071.c:2441-2464 | a burst of one page from a page boundary ands byte for byte |
| NorFrames.XferRefines | qemu/py32f071.c:2370-2499 | one byte clocked: device and abstract NOR agree on the reply, the contents and the write-enable latch |
| NorFrames.FrameContents | qemu/py32f071.c:2604-2658 | what a frame has done when it ends is what the abstract NOR says of the whole frame |
| Nor.XferKeepsValid | qemu/py32f071.c:2370-2499 | every index stays in range, for any byte in any state |
| FlashDevice.Py25q16.Xfer | qemu/py32f071.c:2370-2499 | the imperative device answers and changes as the byte-level specification says |
| FlashDevice.Py25q16.MarkDirty | qemu/py32f071.c:2524-2542 | the dirty range grows to take in the written bytes, clipped to the image |
| FlashDevice.Py25q16.Flush | qemu/py32f071.c:2544-2602 | write-back in place, or by temporary file and rename, into an image file of any length, with every failure the host can answer |
| FlashDevice.Py25q16.SetCs | qemu/py32f071.c:2604-2658 | both edges reset the command; the rising one writes back |
| FlashDevice.Py25q16.ExitNotify | qemu/py32f071.c:2690-2699 | on exit the whole array is written if anything is dirty |
| FlashDevice.Py25q16.Realize | qemu/py32f071.c:2660-2688 | the array starts as the file, of any length: cut off at 2 MiB, and erased where the file ends or is absent |
| WriteBack.ShortImageExactly | qemu/py32f071.c:2564-2580 | a flush in place into an image file of any length, when all but the dirty range is as a restart would find it, saves the flash exactly if the range does not start past the end of the file: the gap is filled with zeros |
| WriteBack.StepKeepsAgreement | qemu/py32f071.c:2524-2602 | from a state with no byte lost, a step leaves none lost, short and failed writes included, exactly if it tears none; and with a file of full size and no failed close it tears none |
| WriteBack.StepLoses | qemu/py32f071.c:2524-2602 | byte by byte, from any sound state: after a step a byte is lost, that is wrong in the file and outside the dirty range, exactly if the step tore it, or it was lost and the step neither settled it nor brought it into the range |
| WriteBack.LostExactly | qemu/py32f071.c:2544-2699 | over any run, whatever the host answers: a byte is lost at the end exactly if some event tore it, or it was lost at the start, and no event since brought it into the dirty range or settled what the file holds there |
| WriteBack.FlushSucceeds | qemu/py32f071.c:2544-2602 | a flush clears the dirty flag exactly on the two successful paths, and a restart would then find the flash exactly if the flush tore no byte and left none lost |
| WriteBack.UncheckedCloseLosesImage | qemu/py32f071.c:2572-2601 | whenever the flush goes by the temporary file, with no image yet or one that cannot be opened for update, it reports success, and the image is saved, whatever a failed close leaves in it, exactly if the close succeeded |
| WriteBack.ReleaseKeeps | qemu/py32f071.c:2604-2658 | a deselect, whatever the host answers: memory is kept; a whole file that differs inside the dirty range only stays so if no close failed; and the flash is clean if the host's calls succeeded |
| WriteBack.SavedAfterDeselect | qemu/py32f071.c:2604-2658 | over any run from power-on, with an image file of any length: a deselect that leaves the flash clean has saved it exactly if no byte is lost then; none is if the file was absent or of full size and no close of a temporary failed; and one whose host calls all succeed leaves it clean |
| WriteBack.TornInAnyRun | qemu/py32f071.c:2572-2601 | in any run from power-on a deselect that goes by the temporary file keeps the image, whatever a failed close leaves, exactly if the close succeeds |
| RadioDriver.ReadTransaction | qemu/py32f071.c:1503-1624 | from any idle state the documented read sequence hands the master exactly the word latched at the eighth command bit, and ends idle with the registers as the read leaves them |
| RadioDriver.WriteTransaction | qemu/py32f071.c:1515-1587 | from any idle state the write sequence leaves the bus idle and does what a whole-register write does (RadioCore.WriteExactly says what that is) |
| RadioDriver.WriteLands | qemu/py32f071.c:1515-1587 | after the write sequence the register named holds the value and every other is as before; but bit 15 of REG_00 seeds four measurements, and REG_02 takes the pending flags and drops bit 0 of REG_0C |
| RadioDriver.ReadLands | qemu/py32f071.c:1503-1624 | a read hands over the register named and changes none, unless it is REG_0C, which is evaluated first |
| RadioDriver.WriteThenRead | qemu/py32f071.c:1503-1624 | what is written to a register reads back, over the wires, for every register but REG_0C; REG_02 reads back the flags that were pending |
| RadioDriver.TunedByEdges | qemu/py32f071.c:1284-1288 | REG_38 and REG_39 written over the wires tune to the low and the high word |
| RadioGuest.WriteRegister | qemu/py32f071.c:1515-1587 | the same on the emulated chip: the object's registers after the 75 edges of a write |
| RadioGuest.ReadRegister | qemu/py32f071.c:1503-1624 | the same on the emulated chip: the bits sampled from the data line are the register, and what a read of REG_0C does besides |
| RadioDriver.WriteCutShort | qemu/py32f071.c:1487-1501 | cut off by chip select after any number of edges, the write has happened exactly if its last data bit was clocked in |
| RadioDriver.WithoutSkipWordIsDoubled | qemu/py32f071.c:1533-1541 | were the edge that ends the command byte taken for a data bit, every word would arrive shifted one place up |
| RadioDriver.DeselectRestoresIdle | qemu/py32f071.c:1487-1501 | chip select high ends any transfer at once, with the registers untouched |
| RadioDriver.DeselectedTraffic | qemu/py32f071.c:1503-1513 | edges while deselected change nothing but the levels themselves |
| RadioBus.DriveAgrees | qemu/py32f071.c:1472-1630 | over any edges whatever, the shift-register machine and a decoder that keeps the bits as lists agree on registers and data line |
| RadioDevice.Bk4819.SetScl | qemu/py32f071.c:1503-1624 | the imperative clock edge changes the device as the edge machine says |
| RadioDevice.Bk4819.SetCs | qemu/py32f071.c:1487-1501 | the imperative chip-select edge likewise |
| RadioDevice.Bk4819.SetSda | qemu/py32f071.c:1626-1630 | the imperative data edge likewise |
| RadioDevice.Bk4819.EvalReceiver | qemu/py32f071.c:1353-1450 | the imperative receiver evaluation changes flags, squelch, tick and readings as specified, and opens the squelch exactly if the receiver is awake, the interrupt wanted, the tick a multiple of 64, the threshold not zero, and the loudest station there with the jitter reaches twice the threshold |
| RadioDevice.Bk4819.RssiFor | qemu/py32f071.c:1327-1351 | the level at the tuned frequency is the greatest of the noise floor and what each station contributes there |
| RadioCore.LoopDrains | qemu/py32f071.c:1568-1584 | from any state the guest's untimed interrupt loop runs its body at most three times |
| RadioCore.LoopMayTakeThree | qemu/py32f071.c:1400-1450 | and three is reached, from any state of a listening receiver with flags waiting two ticks before the beat: an announcement on it, a close after it |
| RadioCore.ThreeFromReset | qemu/py32f071.c:1353-1450 | from power-on, with any stations: set up the receiver, poll 126 times without an acknowledgement, and the loop runs its body exactly three times |
| RadioCore.StrongestIsLoudest | qemu/py32f071.c:1327-1351 | the loop over the stations finds the maximum |
| RadioCore.FadedSteps | qemu/py32f071.c:1317-1347 | a station is 0x30 weaker for every 12.5 kHz away from its centre, on both sides, down to nothing |
| RadioCore.WriteExactly | qemu/py32f071.c:1546-1587 | register by register, what a write does |
| RadioCore.PollExactly | qemu/py32f071.c:1353-1450 | a poll at any level heard: when the squelch opens, every pending flag, every register, and the answer |
| RadioCore.OpensExactly | qemu/py32f071.c:1392-1426 | a poll opens the squelch exactly if a signal reaches the threshold under those conditions |
| RadioCore.SilentExactly | qemu/py32f071.c:1353-1450 | over any run of reads and writes from silence: the squelch stays closed and no flag is raised exactly as long as no poll finds such a signal |
| RadioCore.HandsOverExactly | qemu/py32f071.c:1568-1584 | an acknowledgement hands over exactly the flags raised since the one before, drops the request bit, and REG_02 then reads that word |
| RadioCore.PendingIsRaised | qemu/py32f071.c:1353-1450 | the pending flags are exactly those some evaluation since has raised |
| RadioCore.OpenImpliesBeat | qemu/py32f071.c:1353-1450 | whatever the guest reads and writes, the squelch is open only when the tick is a multiple of 64 |
| SerialRx.Lossless | qemu/py32f071.c:2135-2183 | over any interleaving of deliveries, count reads and data reads: received is taken then queued, in order; byte k moved since arming is at base + k mod total; the count is total less that, between 1 and total |
| SerialRx.LatestInBuffer | qemu/py32f071.c:2135-2183 | the last total bytes moved are all in the buffer, each in its place |
| SerialShots.OneShot | qemu/py32f071.c:2156-2178 | a channel that is not circular takes the oldest bytes, as many as its length, in order; stops with its enable bit down and a count of zero; and no later read finds the rest |
| SerialShots.EligibleIs | qemu/py32f071.c:2146-2154 | which channels serve, read off their registers |
| SerialShots.FirstTakesAll | qemu/py32f071.c:2143-2182 | of two circular channels the first takes everything |
| SerialShots.FixedAddress | qemu/py32f071.c:2162-2164 | without the increment bit every byte lands in one place |
| SerialRx.DrainCircular | qemu/py32f071.c:2156-2178 | draining a circular channel moves the whole queue, around the buffer |
| SerialRx.RxDma.Service | qemu/py32f071.c:2135-2183 | the imperative service loop over all channels does what the specification says, circular or not: channels, memory and queue, the global flag of each channel served, and the interrupt lines as the flags then ask |
| SerialRx.ServeAsksNothing | qemu/py32f071.c:1971-1990 | serving asks for no interrupt, even when a buffer fills: what the lines should be is what it was |
| SerialRx.FlaggedBits | qemu/py32f071.c:2180 | the flags after serving are those before and the global flag of every eligible channel |
| SerialRx.RxDma.ReadCount | qemu/py32f071.c:2201-2210 | reading a count first delivers what is waiting |
| Uart.Usart.Receive | qemu/py32f071.c:3077-3089 | bytes are queued in order as far as there is room, the rest dropped, never overwriting |
| Uart.Usart.CanReceive | qemu/py32f071.c:3070-3075 | the room reported, by unsigned subtraction modulo 256, is exactly what Receive would queue |
| Uart.Usart.Pop | qemu/py32f071.c:3060-3068 | the oldest byte, or none |
| Uart.UsedIs | qemu/py32f071.c:3070-3075 | the unsigned index arithmetic gives the length of the queue from any indices |
| Panel.St7565.Transfer | qemu/py32f071.c:951-1023 | the imperative controller takes commands and data as specified |
| Panel.St7565.GetGram | qemu/py32f071.c:1076-1091 | the export is the display RAM as hexadecimal, page after page |
| PanelRuns.Switches | qemu/py32f071.c:981-1020 | over any run of command bytes: inversion, display and scan directions are each as their last command left them, arguments of the contrast command not counting |
| PanelRuns.Addressing | qemu/py32f071.c:987-999 | what the addressing commands set: page, and the two halves of the column |
| PanelRuns.ContrastFollows | qemu/py32f071.c:981-985 | the byte behind the contrast command is the contrast, whatever it is |
| PanelRuns.Deselected | qemu/py32f071.c:962-964 | a panel that is not selected takes nothing, data or command |
| Panel.HexAt | qemu/py32f071.c:1076-1091 | each byte of the display RAM is two lower-case digits in the export, the high one first |
| LcdView.DataLands | qemu/py32f071.c:951-1023 | n data bytes from page p, column c update exactly page p at (c + i) mod 132 - 4 where that is on the glass, the last write winning |
| LcdView.BlitFills | qemu/py32f071.c:951-1023 | an eight-page blit from column 4 fills the display RAM with the pages sent |
| LcdView.BlitIsSeen | tools/uvk5_lcd.py:145-172 | from the driver's bytes to the display RAM: pixel (y, x) of the glass is bit y mod 8 of the byte sent for page y / 8, column x, inverted if the panel is |
| LcdView.BlitAndRead | tools/uvk5_lcd.py:145-172 | the chain on the real panel object: eight pages sent, the display RAM exported as hexadecimal, parsed and unpacked give exactly those pixels |
| LcdView.HexRoundTrip | tools/uvk5_lcd.py:145-154 | reading the hexadecimal gives back the exported bytes |
| LcdView.HexLength | tools/uvk5_lcd.py:145-154 | what is accepted holds two characters for every byte, and white space |
| LcdView.ColumnDigits | tools/uvk5_lcd.py:24-34 | the eight pixels of a column from the top are its byte's binary digits, the least significant first |
| LcdView.Unpack | tools/uvk5_lcd.py:24-34 | the nested loops give row y, column x as bit y mod 8 of the column byte |
| LcdView.PanelPixels | tools/uvk5_lcd.py:156-172 | an export of the wrong length or with a wrong digit is refused, any other gives the pixels; white space around the pairs of digits is skipped, as bytes.fromhex does |
| Frames.RoundTrip | tools/uvk5_serial_flash.py:53-99 | the frames of any messages, fed in any chunks, with takes at any points but between the AB and the CD of a frame, give those messages in order, and all of them once nothing more is found |
| Frames.StreamExactly | tools/uvk5_serial_flash.py:53-99 | a stream of frames, fed in any chunks with takes at any points, and taken from until nothing more is found, arrives exactly if no take found the first byte of a frame alone in the buffer |
| Frames.SplitsNoneNeverAlone | tools/uvk5_serial_flash.py:76-99 | chunks that never end between a frame's AB and CD at a take never leave a lone AB in the buffer |
| Frames.OneFrameExactly | tools/uvk5_serial_flash.py:76-99 | one frame, fed in any pieces with takes at any points and one at the end, arrives exactly if no take came when just its first byte had been fed |
| Frames.TakeSkips | tools/uvk5_serial_flash.py:76-99 | bytes before the first AB CD are skipped |
| Frames.TakeDiscards | tools/uvk5_serial_flash.py:76-82 | with no AB CD anywhere the buffer is discarded, a lone AB at its end included |
| Frames.TakeWhole | tools/uvk5_serial_flash.py:76-99 | a whole frame at the front yields its message and is removed |
| Frames.TakePart | tools/uvk5_serial_flash.py:83-90 | an incomplete frame waits in the buffer |
| Frames.FrameLayout | tools/uvk5_serial_flash.py:53-64 | a frame byte by byte; the two bytes before its footer, de-obfuscated and read low byte first, are the remainder of the message |
| Frames.ObfuscatedBits | tools/uvk5_serial_flash.py:40-41 | bit by bit, the data flipped by the table's byte for that place |
| FrameScan.TakeExactly | tools/uvk5_serial_flash.py:76-99 | a take on any bytes whatever: it passes over frames without a footer, their AB CD only, and frames too short for a message, whole; and ends with nothing, with a frame that is not all there and waits, or with the message of the first that is |
| Frames.ObfuscateTwice | tools/uvk5_serial_flash.py:40-41 | obfuscation undoes itself |
| Frames.Frames.TakeNext | tools/uvk5_serial_flash.py:76-99 | the loop ends on every buffer and returns what the recursive specification takes |
| Crc.Crc16Xmodem | tools/uvk5_serial_flash.py:44-50 | the loops on numbers, from zero, return the remainder of the message times x^16 by the generator |
| Crc.CrcIsRemainder | tools/uvk5_serial_flash.py:44-50 | the CRC is the remainder of the message times x^16 by the generator (section 2 of ITU-T V.41), and nothing else is one |
| Crc.Crc16IsRemainder | tools/uvk5_serial_flash.py:44-50 | the CRC of a message is that remainder, from a register of zeros, and no other value is |
| Crc.FeedAllLinear | tools/uvk5_serial_flash.py:44-50 | over exclusive-or of equal-length messages the register is linear |
| Crc.BurstDetected | tools/uvk5_serial_flash.py:44-50 | two different payloads of one length that differ only inside a window of sixteen bits never share a CRC |
| Slots.WrittenReadsBack | tools/uvk5_slots.py:52-97 | a written slot reads back committed with its own image, a matching CRC, and the names up to fifteen characters or the first NUL |
| SlotBytes.ReadExactly | tools/uvk5_slots.py:86-97 | reading any image, byte by byte: committed is the magic and bit 0 of the flags; the fields; the image as far as there is one; and the CRC is reported good exactly if it is the one in the header |
| SlotBytes.CorruptionShows | tools/uvk5_slots.py:86-97 | a slot whose image does not have the CRC in its header is reported so |
| SlotBytes.WriteExactly | tools/uvk5_slots.py:52-77 | a write, byte by byte: every field of the header, the image a sector behind it, and nothing else |
| SlotBytes.EraseExactly | tools/uvk5_slots.py:80-83 | an erase blanks the slot's 128 KiB and nothing else |
| SlotBytes.EraseMarkersExactly | tools/uvk5_slots.py:100-108 | the state markers: 24 bytes at each of two places |
| Slots.ErasedReadsEmpty | tools/uvk5_slots.py:80-97 | an erased slot reads as not committed |
| Slots.UntouchedExactly | tools/uvk5_slots.py:70-108 | no operation elsewhere changes what a slot of the first four reads as, exactly if the slot is not committed or its size field fits it; otherwise an erase of the next slot or a write to it does |
| Slots.LastSlotExactly | tools/uvk5_slots.py:70-108 | the same for the last slot, behind which lie only the state markers |
| Slots.OtherSlotExactly | tools/uvk5_slots.py:86-97 | an operation on another window keeps the header, and leaves what the slot reads as alone exactly if the slot is not committed or its image bytes are the same |
| Slots.OperationsCommute | tools/uvk5_slots.py:70-108 | accepted operations with disjoint windows commute |
| Slots.OnlyItsWindow | tools/uvk5_slots.py:70-108 | an accepted operation keeps the length and every byte outside its window |
| Slots.WindowsDisjoint | tools/uvk5_slots.py:31-49 | windows are disjoint exactly for different slots, and the state markers lie past all of them |
| Slots.RefusedExactly | tools/uvk5_slots.py:43-56 | writes and erases are refused exactly for a slot outside 0 to 4 or an image over the room |
| Slots.FlashImage.Write | tools/uvk5_slots.py:70-77 | the image object is updated in place as specified, and not at all on a refusal |
| Slots.FlashImage.Erase | tools/uvk5_slots.py:80-83 | likewise for an erase |
| Slots.FlashImage.EraseMarkers | tools/uvk5_slots.py:100-108 | likewise for the state markers |
| Apps.ParseOfBuild | tools/uvk5_apps.py:88-149 | parsing what was built recovers every field; the strict parse refuses exactly the built blob without code |
| Apps.ParseExactly | tools/uvk5_apps.py:88-126 | the strict parse of any blob: accepted exactly if it has 64 bytes, the magic, header version 1, a code size of 1 to 4096 that is all there, the CRC-32 of that code, and the overlay address; otherwise the first of these that is wrong is named; and every field of the record |
| Apps.LenientExactly | tools/uvk5_apps.py:88-112 | the lenient parse looks at the length and the magic only |
| Apps.BuildLayout | tools/uvk5_apps.py:129-149 | a built blob byte by byte, and exactly when there is one |
| Apps.ReadExactly | tools/uvk5_apps.py:152-169 | what a slot reads as, by its first bytes: blank, an app, or something else |
| Apps.InstallExactly | tools/uvk5_apps.py:176-203 | exactly when an install is accepted, and what is named when it is not |
| Apps.InstallLaysExactly | tools/uvk5_apps.py:198-202 | every byte of the image after an install |
| Apps.NameRecovered | tools/uvk5_apps.py:84-85 | an ASCII name survives exactly if it holds no NUL and no white space at its ends |
| Apps.ShortcutRecovered | tools/uvk5_apps.py:107-142 | the shortcut reads back exactly if no other shortcut bit was set in the flags passed in; none reads back exactly if they hold not just one |
| Apps.InstallReparses | tools/uvk5_apps.py:176-203 | the header and code an accepted install left re-parse, strictly, to the record it returned |
| Apps.InstallErasesRest | tools/uvk5_apps.py:198-202 | the rest of the slot is erased and nothing outside the slot changes |
| Apps.InstallIsListed | tools/uvk5_apps.py:152-203 | after an install the slot reads as that app |
| Apps.EraseIsListed | tools/uvk5_apps.py:206-212 | after an erase the slot reads as blank |
| Apps.NeverUnreadable | tools/uvk5_apps.py:163-167 | a slot with the app magic always parses leniently: the unreadable branch is dead |
| Apps.OtherSlotUnchanged | tools/uvk5_apps.py:152-212 | an accepted operation leaves what any other slot holds, and the answer to any operation on it, as they were |
| Apps.OperationsCommute | tools/uvk5_apps.py:176-212 | accepted operations on different slots commute |
| Apps.CommutesWithFirmware | tools/uvk5_apps.py:44-47 | operations on apps and on firmware slots commute: neither region reaches the other |
| Apps.ListIsExact | tools/uvk5_apps.py:172-173 | the list holds exactly what the slots hold, in slot order |
| Apps.ListAfter | tools/uvk5_apps.py:172-212 | after an operation the list changes for its own slot only, and shows the new app |
| Apps.Install | tools/uvk5_apps.py:176-203 | an install is accepted exactly if the blob is an app that the radio runs, CRC-32 included, the slot exists and lies inside the image, and holds nothing but erased flash, zeros or an app, unless forced; then header and code are in place, the rest of the slot is erased and every other byte is as it was; otherwise the image is left alone and the first thing in the way is named |
| Apps.Erase | tools/uvk5_apps.py:206-212 | a slot that exists inside the image is blanked and nothing else; otherwise the image is left alone and the reason named |
| SlotLink.Radio.Install | tools/uvk5_slots_serial.py:258-276 | when the device answers the validation with status zero, exactly the commands of the script were sent, nothing under way can change the slot, and the install succeeds exactly if the CRC of what is stored is the image's; if in the history of the link no acknowledgement of another command was taken for the awaited one, in particular if no command was sent again, it succeeds and the slot holds the header and the image on an erased slot. Every error is explained by that history, in which no command is repeated without a fresh session |
| SlotLink.LateAckTaken | tools/uvk5_slots_serial.py:121-194 | a run, six lost handshakes included, after which a late acknowledgement of one piece counts as the next one's, and the slot is without that piece |
| SlotLink.ScriptCarried | tools/uvk5_slots_serial.py:258-276 | whatever the slot held, the commands of an install, carried out one after the other, leave what the image tool's write_slot lays into an erased slot |
| SlotLink.CarriedChunks | tools/uvk5_slots_serial.py:219-248 | the 200-byte commands of a blob, carried out one after the other, program the whole blob |
| SlotLink.Radio.Command | tools/uvk5_slots_serial.py:166-194 | whatever the link loses or delays, the command is added once to those sent; giving up takes four tries without an answer, with a session asked for before each repeat; and after an answer with status zero, if none in the history was another command's, the slot is what all the commands sent so far make of it, with no earlier one under way |
| SlotLink.Radio.Write | tools/uvk5_slots_serial.py:219-248 | on success exactly the 200-byte commands that tile the blob were sent, and if no answer in the history was another command's, the slot is programmed with the blob; never more than twenty-five commands in a row without a fresh session |
| SlotLink.Radio.Pump | tools/uvk5_slots_serial.py:121-139 | waiting and taking replies disturbs nothing, and a reply of the wanted kind tells what its kind promises: a confirmation of the current command that it was carried out, a validation the CRC of what is stored |
| SlotLink.Radio.Handshake | tools/uvk5_slots_serial.py:141-164 | a session, resent up to six times, disturbs nothing |
| SlotLink.ChunksTile | tools/uvk5_slots_serial.py:219-248 | the pieces adjoin, are 200 bytes but for the last, and together are the blob |
| SlotLink.PlacedByCommands | tools/uvk5_slots_serial.py:258-270 | on an erased slot the commands of an install leave what the image tool's write_slot lays down |
| SlotLink.InstalledIsStored | tools/uvk5_slots_serial.py:258-270 | what they leave is a slot whose header describes exactly the image |
| SlotDevice.StepKeepsTruth | tools/uvk5_slots_serial.py:249-276 | successful validations under way tell the CRC of what is stored, and will stay stored |
| SlotDevice.StepKeepsTrack | tools/uvk5_slots_serial.py:166-194 | with resends, losses and delays the slot holds what it did before the current command or what it does after it |
| SlotDevice.StepKeepsLone | tools/uvk5_slots_serial.py:166-194 | without resends at most one command or acknowledgement is under way, and it is the current one's |
| SlotDevice.Idempotent | tools/uvk5_slots_serial.py:166-175 | a command served again changes nothing more |
| SlotDevice.ProgramJoins | tools/uvk5_slots_serial.py:219-248 | adjoining chunks program what their concatenation does |
| Minesweeper.Game.PlaceMines | apps/minesweeper/minesweeper_app.c:104-130 | rejection sampling ends for every seed and every first cell, with exactly ten mines, none in the clipped square around that cell; board and new seed are those the tries from the old seed give |
| MineDraw.OneBoard | apps/minesweeper/minesweeper_app.c:104-130 | the board, and the seed left behind, are a function of the seed and the first cell |
| MineDraw.LaysFairly | apps/minesweeper/minesweeper_app.c:117-128 | the last try leaves ten mines, none near the first cell |
| Lcg.FullPeriod | apps/minesweeper/minesweeper_app.c:114-116 | the generator has full period: every 32-bit value is reached from every other |
| Lcg.Jump | apps/minesweeper/minesweeper_app.c:116 | 2^k steps move any value by 2^k modulo 2^(k+1) |
| MineField.SomeEligible | apps/minesweeper/minesweeper_app.c:117-127 | while a mine is missing some drawable cell is eligible |
| Minesweeper.Game.Neighbours | apps/minesweeper/minesweeper_app.c:85-102 | the double loop counts the mines around a cell |
| Minesweeper.Game.Reveal | apps/minesweeper/minesweeper_app.c:132-160 | the fill ends, indexes stay inside the stack, the result is that of the turns as a function of the board, only cells of the closure are opened, and all of it exactly if every cell is open that the guard on the full stack refused in some turn, which is a function of the board too |
| Minesweeper.Game.OpenCell | apps/minesweeper/minesweeper_app.c:139-158 | one popped cell is opened and its neighbours are pushed or refused |
| FloodTurns.ScannedIs | apps/minesweeper/minesweeper_app.c:147-158 | the nested loops leave on the stack a function of the board: the offered cells in scan order, as far as there is room |
| FloodTurns.OfferedExactly | apps/minesweeper/minesweeper_app.c:147-158 | the scan offers exactly the closed, unflagged cells of the clipped 3x3 square |
| FloodTurns.ScanPushes | apps/minesweeper/minesweeper_app.c:147-158 | every such cell is pushed or refused, and no other cell is |
| FloodWitness.FillFallsShort | apps/minesweeper/minesweeper_app.c:155-156 | on that board the fill from there ends with a cell of the closure still closed, the full stack having refused it |
| FloodWitness.FirstTurns | apps/minesweeper/minesweeper_app.c:138-158 | the first 44 turns on that board, cell by cell |
| FloodWitness.TurnKeepsBarred | apps/minesweeper/minesweeper_app.c:138-158 | once its only way in is open and it is not on the stack, the cell stays closed whatever is popped |
| FloodWitness.FirstGameLosesCell | apps/minesweeper/minesweeper_app.c:104-160 | the app, just loaded, after 7, 8, MENU: in every run of the game rules the mines are that board and a cell the reveal should open stays closed, beside an open cell with no mine near it |
| FloodWitness.FirstGame | apps/minesweeper/minesweeper_app.c:104-343 | the app object itself, constructed and run over those keys |
| FirstBoard.BoardIsDrawn | apps/minesweeper/minesweeper_app.c:104-130 | from the seed the app starts with, a first reveal at row 7, column 8 draws that board, in ten tries |
| FloodTurns.FillExactly | apps/minesweeper/minesweeper_app.c:138-158 | when the stack is empty the fill lies in the closure, and is all of it exactly if the cells the full stack refused in those turns are all open |
| FloodTurns.FewSpreading | apps/minesweeper/minesweeper_app.c:138-158 | if the closure holds at most thirteen cells with no mine around them, no push is ever refused, and the fill is the closure |
| FloodTurns.FewFillAll | apps/minesweeper/minesweeper_app.c:138-158 | so on such a board the one fill there is opens the whole closure |
| Flood.ClosureSafe | apps/minesweeper/minesweeper_app.c:132-160 | from a safe, unflagged start the closure holds no mine, no flag and no open cell |
| Minesweeper.Game.CheckWin | apps/minesweeper/minesweeper_app.c:259-271 | won exactly if every cell that is not a mine is open |
| Minesweeper.Game.Uncover | apps/minesweeper/minesweeper_app.c:326-341 | the MENU key while playing follows the rules, which give the one board and the one fill it leads to |
| Minesweeper.Game.ToggleFlag | apps/minesweeper/minesweeper_app.c:314-325 | flags and the count of mines left move together, and never below zero |
| Minesweeper.Game.NewGame | apps/minesweeper/minesweeper_app.c:162-175 | a fresh board, the seed carried on |
| Minesweeper.Game.Step | apps/minesweeper/minesweeper_app.c:177-185 | the cursor walks and wraps, on the board |
| Minesweeper.Game.AppMain | apps/minesweeper/minesweeper_app.c:273-343 | the loop plays a game by the rules for every sequence of keys |
| MineRules.NextKeepsGood | apps/minesweeper/minesweeper_app.c:273-343 | mines left and flags are ten together, flags and open cells are disjoint, no mine is open while the game lasts, the game is won exactly when open is what is not mined, the first reveal is safe |
| MineRules.KeyExactly | apps/minesweeper/minesweeper_app.c:273-325 | what each key does, but for a MENU that uncovers |
| MineRules.TwoDigits | apps/minesweeper/minesweeper_app.c:303-313 | two digits go to that row and column |
| MineRules.WholeGame | apps/minesweeper/minesweeper_app.c:273-343 | all that holds after every key of every game |
| MineRules.OneNext | apps/minesweeper/minesweeper_app.c:273-343 | the app is deterministic: from a view, seed included, a key leads to one view |
| MineRules.SameGame | apps/minesweeper/minesweeper_app.c:273-343 | so two games from one seed over the same keys are the same |
| FramePump.StepIsSafe | tools/uvk5_stream.py:73-125 | the generation rises by one exactly on a publication or a rebind, no grabber means no frame, and only the current grabber's frame is shown |
| FramePump.RunIsSafe | tools/uvk5_stream.py:100-125 | over all interleavings |
| FramePump.GenerationGrows | tools/uvk5_stream.py:100-125 | the generation never falls |
| FramePump.RetiredForever | tools/uvk5_stream.py:73-98 | a grabber once replaced is never current again |
| FramePump.GrabberIsCurrent | tools/uvk5_stream.py:73-98 | over every run the current grabber reads the addresses set last through the client bound last, and there is one exactly while a client is bound |
| FramePump.RoundPublishes | tools/uvk5_stream.py:100-125 | an undisturbed round of the reader publishes what it read, unless those bytes are shown already |
| FramePump.StaleFrameDropped | tools/uvk5_stream.py:104-125 | a frame read through a grabber replaced meanwhile is never published |
| FramePump.PictureOfBytes | tools/uvk5_stream.py:133-163 | over every run, with an encoder that loses nothing: the picture encodes the stored bytes exactly if the reading published last since the last blanking was faithful |
| FramePump.WhenFaithful | tools/uvk5_lcd.py:145-191 | which readings are: the fallback always; with inversion off exactly if the memory did not change between the two readings of the panel; with inversion on never while it does not change |
| FramePump.ShowsLast | tools/uvk5_stream.py:100-125 | what is stored and shown are the bytes and the picture of the reading published last |
| FramePump.TornPictureStays | tools/uvk5_stream.py:133-163 | a panel that changes between its two readings leaves a picture that is not the stored bytes', and it stays over any number of steady readings |
| FramePump.OldPolarityStays | tools/uvk5_stream.py:109-115 | switched to inverted, or back, with the memory left alone, the page goes on showing the old picture however often the panel is read |
| FramePumpObject.FramePump.Rebind | tools/uvk5_stream.py:73-83 | the lock section of rebind is the model's step |
| FramePumpObject.FramePump.SetBuffers | tools/uvk5_stream.py:85-98 | the lock section of set_buffers likewise |
| FramePumpObject.FramePump.Publish | tools/uvk5_stream.py:109-115 | the publishing lock section likewise |

## Left out

- Diagnostic probes, counters on stderr, property getters, realize and reset wiring, memory regions: no behaviour to prove.
- RCC, ADC, timers, audio, the internal flash controller and the keypad: ready bits and single-branch registers.
- The SysTick patch: it rests on QEMU's timers, which are not part of this repository.
- The firmware itself is not part of this repository. The driver sequences are those the comments describe (`qemu/py32f071.c:1150-1152`, `qemu/py32f071.c:1569-1574`, `qemu/py32f071.c:1612-1613`, `qemu/py32f071.c:1779-1792`).
- The firmware's side of the slot commands is not part of this repository either. `SlotDevice` takes it from `tools/uvk5_slots_serial.py:3-19`: a command answered with a status other than zero leaves the slot alone, programming only clears bits, a successful validation tells the CRC of the stored bytes. The timestamp check is one of the reasons for a status other than zero.
- SlotLink.Radio.Install: that the slot holds the image byte for byte is promised when no acknowledgement in the history of the link was another command's, and so whenever no command had to be sent again; otherwise only the CRC is. One slot, one client on a link that starts quiet; another client writing at the same time is not modelled. Times and timeouts are arbitrary finite waits.
- SlotLink.Radio.Pump: returns only the wanted reply; the source's dictionary holds other kinds too, which no caller looks at.
- Guest memory outside the 16 KiB of SRAM reads as zero and ignores writes.
- The DMA controller is modelled in two halves that share the channel record: the SPI half in `SpiDma`, the serial half in `SerialRx`. A program that uses both at once is not modelled.
- SectorDriver.RewriteSector: the channel counts of the two directions are equal, the cache lies inside SRAM, and no other channel is armed for the controller.
- Re-enabling a finished channel that is not circular without rewriting its count is not covered by `SerialRx.Lossless`.
- The table of stations and the names of the radio's registers: a parameter, and constants where used.
- CRC-32 (section 8 of RFC 1952): an uninterpreted function of the bytes, with a 32-bit value.
- PNG encoding: an uninterpreted function of the pixels. Drawing, tones and delays in Minesweeper: not modelled.
- Firmware slot names are given as bytes; the decoding of bytes above 127 is not modelled there. App names are decoded, with U+FFFD for such bytes.
- FramePump: an image that cannot be encoded, and the spool directory; a read that fails leaves everything as it was.
- Sockets, Flask routes, page scripts, QMP, process supervision, gdb scripts and downloads: I/O.
