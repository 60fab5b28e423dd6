# Verified models of the USB keyboard system's drivers, services and generators

This project models six parts of an FPGA system, a NIOS II board support package with its
hardware and image tooling, and proves what each is for. `dafny verify dfyconfig.toml` checks it.

**JTAG UART fast driver** (`JtagUart*`). `JtagUartModel` is a step machine. A step of the thread
inside `read` or `write` makes at most one access to state that can change behind its back; a step of
the interrupt routine is one pass of one of its loops; the host alarm and the hardware behind the
FIFOs have steps of their own. The thread steps are the ones the C code has: sample `in`, sample
`out`, copy one byte, publish the index, update the software copy of the enables, write the control
register, and, in a spin, poll the index and then the host. The interrupt routine may start between
any two of them except while interrupts are disabled, and its own iterations are interleaved with the
hardware. The hardware contract is explicit: a data register read with a byte present pops it and
reports how many remain; WSPACE never promises more room than the transmit FIFO has. `JtagUartSafety`
proves an invariant of every step, `JtagUartTheorems` the promises for every reachable state,
`JtagUartProgress` that a blocked call can always be brought to its end, `JtagUartOutcomes` that a call
returns short only for what its run has passed through, that it gives up once the host is gone, and what
one pass of the interrupt routine serves, and `JtagUartDriver` is the driver itself, a device object
updated in place. Each of its methods is proved to perform a legal run
of the machine, a single-step method exactly its one step, with preemption wherever the source allows
it, so the promises hold of it.

**Sprite palette compressor** (`Palette*`, `Sprite*`). The greedy grouping of colours is a smallest
covering palette; recolouring moves pixels little, conserves counts and is a projection; the in-place
index substitution is right exactly when no colour clashes with an earlier rank; the chunk tables hold
every pixel in the cell that the generated conditions and indices address. `SpriteEmitted` models the
parameters as they are written out, with their declared ranges, row breaks and literal order, and says
for all sizes what the module reads from them. `SpritePipeline` follows a channel from raw pixels to
the module's output.

**Alarm service** (`Alarm*`). `AlarmClock` shows that a 32-bit time and one rollover bit stand for an
instant of an unbounded clock, over any number of wraps. `AlarmList` is the intrusive circular list.
`AlarmService` is the tick routine, which walks the list while callbacks start alarms, stop their own
and, if they are not `polite`, others. The ghost field `due` is the instant an alarm stands for. What
the callbacks answer is a parameter, and each records in the ghost field `log` that it ran, when, and
what it answered; the tick is stated over that record.

**File descriptors and locks** (`Fd*`). `FdTable` gives every call as a function from table to table,
`FdPool` the same calls in place over the array, each proved equal to its function, `FdLocks` an
invariant over every history of calls and what follows from it, and `FdCalls` what each call returns
and changes, said of descriptors, return values and errno alone.

**Printing and time of day** (`Numerals`, `LogNumber`, `LogFormat`, `LogDirectives`, `AltPrintf`,
`TimeOfDay`). The format state machine refines a recursive grammar, whose directives are characterised
by what their output reads back as; the digit loops print canonical numerals; the two printf implementations agree on every format both know; gettimeofday after
settimeofday is exact, and the precise condition under which 32-bit overflow spoils it is given.

**Hardware machines** (`I2cConfig`, `I2cBus`, `I2cReceiver`, `VgaScan`, `SampleReader`). Clocked step functions with
claims over every run. For the I2C configurator the register tables, of any length, are parameters,
and an independent bus monitor decodes what is put on the two wires, following sections 3.1.3 and
3.1.4 of the I2C-bus specification UM10204; a receiver behind it assembles the bytes, section 3.1.5.

## Where the code and its promises part

- `alt_fd_lock` is documented to grant the lock to a sole descriptor only. Its scan stops one short of
  the high-water mark, so it also grants it while the descriptor at the mark shares the device
  (`ExclusiveButShared`); `LockGrantsAsDocumentedIff` is the exact condition. The weaker invariant, at
  most one holder, always holds.
- Closing is documented to release the lock. For the standard slots 0 to 2, which are never freed, it
  does not (`LockRoundTrip`).
- An alarm with the largest delay, 2^32 - 1 ticks, fires at the next tick, because its stored time is
  the present one and the rollover flag stays clear, unless the counter stands at 2^32 - 1
  (`StartExactIff`).
- settimeofday takes its product in 32 bits, gettimeofday in 64. `CalibratedIff` says exactly when
  that does not show, `CalibratedAnyTimeIff` for times before the epoch too; `OverflowExample` is a
  case where it does, `ClampExample` one where the clamp to the epoch hides it.
- The alarm walk keeps the next alarm across a callback. It can come back to the head exactly if that
  alarm is still registered (`SavedNextIff`), and starting an alarm that is registered already cuts
  the head off for good (`AlarmService.Service.Start`).
- The index substitution rereads cells it has rewritten, so a colour whose value is an earlier rank is
  confused with it (`ClashExample`); `PaletteReturnsColourIff` is the exact condition.
- A channel that one colour could represent stops the generator, because the entry width becomes zero
  (`OneColourIff`, `GeneratePalette`).
- The emitted tables do not hold what the logic reads (`SpriteEmitted`). The generator takes the first
  of numpy's dimensions, the number of rows, for the width, so a chunk's declared ranges are swapped:
  every read is in range exactly if every chunk is square (`AllInRangeIff`; a 12 by 8 image is not,
  `RaggedExample`). Its ranges are descending, so the first entry of a literal gets the highest index
  (sections 7.6 and 10.9.1 of IEEE Std 1800-2017): each square chunk comes out turned by half a turn
  where it stands (`SquareRead`), and every palette index but the middle one shows another colour
  (`OwnColourIff`). Every pixel meets its own entry only with chunks of a single pixel
  (`OwnEntryIff`), or, with the coordinates counted from the far corner, if the image is one square
  chunk (`MirroredEntryIff`). The header recommends a wiring that is one off from that, with the last
  colour in the first column and row (`RecommendedWiring`): a read out of range, like a coordinate no
  condition covers, yields index 0 (line 475, and section 7.4 of the standard), which the palette
  shows as its last colour (`BeyondImage`). `OutputIs` and `ShownRightIff` say exactly what is shown.
- The generated range conditions use ten-bit literals, so images of side 1024 or more lose pixels
  (`AllServedIff`).
- The sample reader needs pulses of four clocks; with three it loses count. RESET does not force its
  state machine to Idle, because the assignments after the reset branch win: what it leaves depends on
  the audio clock, and the count is right exactly from the states `Ready` describes (`FourClocksIff`,
  `ReleasedIff`). Held for three clocks with the audio clock low RESET always suffices, with the audio
  clock high no length suffices from every state (`LowResetIff`, `HighResetNeverEnough`,
  `MidCycleRelease`).
- The sample reader steps its address once per pulse but reads a left and a right word, so every word
  is delivered twice, first right, then left (`WordsDelivered`).

## Model

| member | source | states |
|---|---|---|
| JtagUartTheorems.ReceiveIsFifo | software/usb_kb_bsp/drivers/src/altera_avalon_jtag_uart_read.c:119-142 | In every state any interleaving can reach: bytes returned by finished reads, then bytes the read in progress has taken, then the ring, then the hardware FIFO are exactly what the host sent, in order; a half-copied chunk agrees byte for byte with the ring it is still part of |
| JtagUartTheorems.TransmitIsFifo | software/usb_kb_bsp/drivers/src/altera_avalon_jtag_uart_write.c:100-127 | In every reachable state: what the host took, then the hardware FIFO, then the ring are exactly the prefixes that returned writes reported plus what the write in progress has published; the hardware FIFO is never overrun |
| JtagUartTheorems.ReturnCodes | software/usb_kb_bsp/drivers/src/altera_avalon_jtag_uart_write.c:199-214 | A finished read returns the positive number of bytes it delivered, a finished write a positive count within its data, and otherwise each the error of its mode: -EWOULDBLOCK exactly for non-blocking calls, else -EIO |
| JtagUartTheorems.EnablesTrackRings | software/usb_kb_bsp/drivers/src/altera_avalon_jtag_uart_init.c:156-194 | The software copy of the enables equals the hardware bits outside the two guarded sections; receive interrupts are off only with bytes to read or a reader that owes the re-enable; unsent bytes keep transmit interrupts on unless a writer owes the kick |
| JtagUartTheorems.SpinnersCanBeWoken | software/usb_kb_bsp/drivers/src/altera_avalon_jtag_uart_read.c:173-178 | No lost wake-up: a spinning reader that has seen nothing new waits on an empty ring with RE on in hardware, a spinning writer on a full ring with WE on; the polled index tells empty (full) exactly |
| JtagUartTheorems.InterruptWakesSpinner | software/usb_kb_bsp/drivers/src/altera_avalon_jtag_uart_init.c:132-184 | Every byte the interrupt routine moves changes the index the spinning thread polls |
| JtagUartTheorems.ThreadNeverStuck | software/usb_kb_bsp/drivers/src/altera_avalon_jtag_uart_read.c:100-203 | A call in progress always has a next step, stays within the rings, and a read never copies past the space its caller gave |
| JtagUartProgress.SpinningReaderCanFinish | software/usb_kb_bsp/drivers/src/altera_avalon_jtag_uart_read.c:115-203 | From every reachable state with a spinning read and a byte for it, in the ring or only in the hardware FIFO, wherever the interrupt routine is: a run of stated length, of thread and interrupt routine alone, ends with the read returning at least one byte |
| JtagUartProgress.SpinningWriterCanFinish | software/usb_kb_bsp/drivers/src/altera_avalon_jtag_uart_write.c:100-214 | From every reachable state with a spinning write, wherever the interrupt routine is: a run of stated length, in which the host at most shows itself and takes bytes, ends with the write returning all of its data |
| JtagUartProgress.ReaderFinishes | software/usb_kb_bsp/drivers/src/altera_avalon_jtag_uart_read.c:119-202 | A reader with something to read finishes by its own steps alone |
| JtagUartProgress.OneRound | software/usb_kb_bsp/drivers/src/altera_avalon_jtag_uart_write.c:100-191 | From every blocked state a run of stated length, the host at most taking bytes, completes the write or leaves it waiting with strictly less left |
| JtagUartOutcomes.ReadReturnsShortOnlyIf | software/usb_kb_bsp/drivers/src/altera_avalon_jtag_uart_read.c:115-202 | Over every run: a read that returns fewer bytes than asked for has passed a state with the ring empty after it began; one that returns -EIO a state with the ring empty and the host quiet for the timeout |
| JtagUartOutcomes.WriteReturnsShortOnlyIf | software/usb_kb_bsp/drivers/src/altera_avalon_jtag_uart_write.c:100-214 | Over every run: a write that returns less than asked for has passed a state with the ring full after it began; a blocking one, after that, a state with room or the host quiet for the timeout, and then one with the host quiet |
| JtagUartOutcomes.QuietReaderGivesUp | software/usb_kb_bsp/drivers/src/altera_avalon_jtag_uart_read.c:173-203 | From every spinning read with the ring empty and the host quiet for the timeout, at most five steps of the thread return -EIO |
| JtagUartOutcomes.QuietWriterGivesUp | software/usb_kb_bsp/drivers/src/altera_avalon_jtag_uart_write.c:183-214 | From every spinning write with the ring full and the host quiet for the timeout, at most four steps of the thread return what has been accepted, or -EIO |
| JtagUartOutcomes.InactivityCounts | software/usb_kb_bsp/drivers/src/altera_avalon_jtag_uart_init.c:203-225 | After every run from initialisation the inactivity count is the number of alarms since the last sign of the host, up to its limit |
| JtagUartOutcomes.PassServes | software/usb_kb_bsp/drivers/src/altera_avalon_jtag_uart_init.c:115-196 | From every reachable state, one pass of the interrupt routine with the hardware still: a receive interrupt empties the FIFO or fills the ring, and turns itself off in the latter case only; a transmit interrupt sends as much as WSPACE and the ring allow, and turns itself off exactly if the ring ran empty first; no byte is lost or reordered |
| JtagUartSafety.StepKeeps | software/usb_kb_bsp/drivers/src/altera_avalon_jtag_uart_init.c:106-254 | Each single step of thread, interrupt routine, host, hardware or alarm keeps data flow, local snapshots, FIFO space and enables consistent |
| JtagUartSafety.RunKeeps | software/usb_kb_bsp/drivers/src/altera_avalon_jtag_uart_init.c:66-100 | Every legal run from a consistent state, so from initialisation, stays consistent |
| JtagUartSafety.ReadStepKeeps | software/usb_kb_bsp/drivers/src/altera_avalon_jtag_uart_read.c:119-195 | Every step of a read, with its possibly stale samples of in and out, keeps the invariant |
| JtagUartSafety.WriteStepKeeps | software/usb_kb_bsp/drivers/src/altera_avalon_jtag_uart_write.c:100-189 | Every step of a write, with its possibly stale sample of out, keeps the invariant; finding no free space means the ring was full |
| JtagUartSafety.IsrRxKeeps | software/usb_kb_bsp/drivers/src/altera_avalon_jtag_uart_init.c:132-166 | Receiving a byte, or leaving the receive loop and turning RE off, keeps the invariant |
| JtagUartSafety.IsrTxKeeps | software/usb_kb_bsp/drivers/src/altera_avalon_jtag_uart_init.c:174-194 | Sending a byte, or leaving the transmit loop and turning WE off, keeps the invariant |
| JtagUartRing.RingAppend | software/usb_kb_bsp/drivers/src/altera_avalon_jtag_uart_write.c:109-126 | Publishing a contiguous chunk of free slots appends exactly its bytes to the queue the ring stands for, wrap or no wrap |
| JtagUartRing.RingDrop | software/usb_kb_bsp/drivers/src/altera_avalon_jtag_uart_read.c:125-140 | Advancing out by n removes exactly the n oldest bytes, wrap or no wrap |
| JtagUartRing.RingPush | software/usb_kb_bsp/drivers/src/altera_avalon_jtag_uart_init.c:137-150 | Storing one byte where the successor test allows it appends that byte |
| JtagUartRing.RingUntouched | software/usb_kb_bsp/drivers/src/altera_avalon_jtag_uart_write.c:122 | Writing to a free slot leaves the queued bytes alone |
| JtagUartRing.FullWhen | software/usb_kb_bsp/drivers/src/altera_avalon_jtag_uart_init.c:137-139 | The successor test fires exactly when all slots but one are in use |
| JtagUartDriver.Driver.constructor | software/usb_kb_bsp/drivers/src/altera_avalon_jtag_uart_init.c:66-100 | A new device is a run of length zero: empty rings, RE on, WE off, no call in progress |
| JtagUartDriver.Driver.Timeout | software/usb_kb_bsp/drivers/src/altera_avalon_jtag_uart_init.c:203-225 | One step: with host activity the enables are rewritten and the inactivity count cleared, otherwise the count goes up to its limit |
| JtagUartDriver.Driver.Irq | software/usb_kb_bsp/drivers/src/altera_avalon_jtag_uart_init.c:106-197 | The interrupt routine, however often RI or WI are raised and whatever the hardware does meanwhile, performs a run of the machine and touches no call in progress |
| JtagUartDriver.Driver.ReadControl | software/usb_kb_bsp/drivers/src/altera_avalon_jtag_uart_init.c:119-125 | A control register read yields RI, WI and a WSPACE that the transmit FIFO can honour |
| JtagUartDriver.Driver.Receive | software/usb_kb_bsp/drivers/src/altera_avalon_jtag_uart_init.c:130-166 | The receive loop performs machine steps until the ring is full or the FIFO empty and decides RE by the last RAVAIL it read |
| JtagUartDriver.Driver.StoreByte | software/usb_kb_bsp/drivers/src/altera_avalon_jtag_uart_init.c:144-150 | A data register read with a byte there pops it into the ring and reports whether more remain |
| JtagUartDriver.Driver.FinishReceive | software/usb_kb_bsp/drivers/src/altera_avalon_jtag_uart_init.c:156-166 | Leaving the loop turns RE off in the copy and in hardware exactly if bytes remain |
| JtagUartDriver.Driver.Transmit | software/usb_kb_bsp/drivers/src/altera_avalon_jtag_uart_init.c:172-194 | The transmit loop performs machine steps within the WSPACE it was given |
| JtagUartDriver.Driver.SendByte | software/usb_kb_bsp/drivers/src/altera_avalon_jtag_uart_init.c:176-183 | One byte goes from the ring to the hardware FIFO |
| JtagUartDriver.Driver.FinishTransmit | software/usb_kb_bsp/drivers/src/altera_avalon_jtag_uart_init.c:186-194 | Leaving the loop with room left turns WE off in the copy and in hardware |
| JtagUartDriver.Driver.SampleRxIn | software/usb_kb_bsp/drivers/src/altera_avalon_jtag_uart_read.c:122 | Reads the shared index at some instant, after any interrupt activity, and remembers it |
| JtagUartDriver.Driver.SampleRxOut | software/usb_kb_bsp/drivers/src/altera_avalon_jtag_uart_read.c:123-134 | From the two samples computes a chunk that is contiguous, no longer than wanted, and zero only to leave the loop |
| JtagUartDriver.Driver.CopyOut | software/usb_kb_bsp/drivers/src/altera_avalon_jtag_uart_read.c:136-138 | The chunk copied, with interrupts between bytes, is the next n bytes of the caller's buffer and nothing past it changes |
| JtagUartDriver.Driver.ReleaseRx | software/usb_kb_bsp/drivers/src/altera_avalon_jtag_uart_read.c:140 | Publishing out hands exactly the copied slots back, as one machine step |
| JtagUartDriver.Driver.TakeOnce | software/usb_kb_bsp/drivers/src/altera_avalon_jtag_uart_read.c:121-142 | One pass of the copy loop takes the next n bytes, or finds nothing and says which index it saw |
| JtagUartDriver.Driver.CopyAvailable | software/usb_kb_bsp/drivers/src/altera_avalon_jtag_uart_read.c:119-142 | Takes bytes until none are there or the space is used up; what is in the buffer is what the read has taken |
| JtagUartDriver.Driver.PollRead | software/usb_kb_bsp/drivers/src/altera_avalon_jtag_uart_read.c:173-174 | One poll: the index first, then, only if it has not moved, the host; it ends the spin exactly if the index has moved or the host has been quiet for the timeout |
| JtagUartDriver.Driver.SpinRead | software/usb_kb_bsp/drivers/src/altera_avalon_jtag_uart_read.c:173-178 | Polls until the index has moved or the host has been quiet for the timeout, and not longer; still spinning, the host was heard of within it |
| JtagUartDriver.Driver.KickRx | software/usb_kb_bsp/drivers/src/altera_avalon_jtag_uart_read.c:188-195 | Turns RE on in copy and hardware with interrupts disabled in between |
| JtagUartDriver.Driver.ReadPass | software/usb_kb_bsp/drivers/src/altera_avalon_jtag_uart_read.c:115-179 | One pass of the outer loop ends with data, with the decision to give up, or back at the loop with nothing taken |
| JtagUartDriver.Driver.Read | software/usb_kb_bsp/drivers/src/altera_avalon_jtag_uart_read.c:100-203 | A completed read is logged with exactly the bytes in the caller's buffer and the code returned: the count, which is at most the space asked for, or the error its mode calls for; the rest of the buffer is unchanged. If it is short it has seen the ring empty since it began, and if it is -EIO it has seen it empty with the host quiet for the timeout |
| JtagUartDriver.Driver.SampleTxOut | software/usb_kb_bsp/drivers/src/altera_avalon_jtag_uart_write.c:107-120 | From the sampled indices computes by the three-way formula how much fits; zero only if the ring was full |
| JtagUartDriver.Driver.CopyIn | software/usb_kb_bsp/drivers/src/altera_avalon_jtag_uart_write.c:122-124 | The chunk is copied into free slots only, with interrupts between bytes |
| JtagUartDriver.Driver.StoreTxIn | software/usb_kb_bsp/drivers/src/altera_avalon_jtag_uart_write.c:126 | Publishing in hands exactly the copied bytes to the interrupt routine, as one machine step |
| JtagUartDriver.Driver.FillRing | software/usb_kb_bsp/drivers/src/altera_avalon_jtag_uart_write.c:102-127 | Accepts bytes until all are in or the ring was seen full; accepted and remaining always add up |
| JtagUartDriver.Driver.KickTx | software/usb_kb_bsp/drivers/src/altera_avalon_jtag_uart_write.c:136-139 | Turns WE on in copy and hardware with interrupts disabled in between |
| JtagUartDriver.Driver.PollWrite | software/usb_kb_bsp/drivers/src/altera_avalon_jtag_uart_write.c:183-184 | One poll: the index first, then, only if it has not moved, the host; it ends the spin exactly if the index has moved or the host has been quiet for the timeout |
| JtagUartDriver.Driver.SpinWrite | software/usb_kb_bsp/drivers/src/altera_avalon_jtag_uart_write.c:183-184 | Polls until the index has moved or the host has been quiet for the timeout, and not longer |
| JtagUartDriver.Driver.WritePass | software/usb_kb_bsp/drivers/src/altera_avalon_jtag_uart_write.c:100-191 | One pass fills, kicks, and then is done, waits, or goes round again |
| JtagUartDriver.Driver.Write | software/usb_kb_bsp/drivers/src/altera_avalon_jtag_uart_write.c:83-215 | A completed write is logged with its data and its code, a positive count of at most what was asked or the error its mode calls for. If it is short it has seen the ring full since it began, and, if it may block, after that the host quiet |
| JtagUartDriver.Driver.Close | software/usb_kb_bsp/drivers/src/altera_avalon_jtag_uart_init.c:241-254 | Succeeds exactly when it saw the ring empty or the host is gone; with the host there every byte ever accepted has left for the hardware; only non-blocking calls fail |
| PaletteOptimal.PaletteIsOptimal | ECE385-HelperTools-master/PNG To Hex/On-Chip Memory/scripts/conv_to_sv.py:242-263 | The keys are colours of the image, cover every colour within dist, and no covering set of colours of the image is smaller |
| PaletteOptimal.DistinctCovers | ECE385-HelperTools-master/PNG To Hex/On-Chip Memory/scripts/conv_to_sv.py:245-248 | Any covering palette contains a different colour for every group |
| PaletteOptimal.KeysCover | ECE385-HelperTools-master/PNG To Hex/On-Chip Memory/scripts/conv_to_sv.py:253-256 | Every colour is within dist of a key and every key is a colour of the image |
| Palette.GroupChannels | ECE385-HelperTools-master/PNG To Hex/On-Chip Memory/scripts/conv_to_sv.py:242-259 | The pass cuts the ascending colours into runs, each started only where the key before cannot reach, its key the largest member within dist of the first |
| Palette.CombineChannelsCore | ECE385-HelperTools-master/PNG To Hex/On-Chip Memory/scripts/conv_to_sv.py:242-267 | The two tables hold, for every group and nothing else, the summed count and the members other than the key |
| Palette.KeysIncrease | ECE385-HelperTools-master/PNG To Hex/On-Chip Memory/scripts/conv_to_sv.py:244-248 | Later groups begin, and so have their keys, more than dist above every earlier key |
| PaletteImage.CountColours | ECE385-HelperTools-master/PNG To Hex/On-Chip Memory/scripts/conv_to_sv.py:273-274 | Counts equal the occurrences in the list, in order of first appearance |
| PaletteImage.SortedItems | ECE385-HelperTools-master/PNG To Hex/On-Chip Memory/scripts/conv_to_sv.py:242 | Every counted colour once, ascending, with its count |
| PaletteImage.CombineChannels | ECE385-HelperTools-master/PNG To Hex/On-Chip Memory/scripts/conv_to_sv.py:269-281 | In place, each pixel becomes the key of its group although the loop rereads what it has written |
| PaletteImage.PixelsMoveLittle | ECE385-HelperTools-master/PNG To Hex/On-Chip Memory/scripts/conv_to_sv.py:276-280 | Every pixel ends on a palette colour at most dist away |
| PaletteImage.CountsConserved | ECE385-HelperTools-master/PNG To Hex/On-Chip Memory/scripts/conv_to_sv.py:261-263 | The merged count of a key is the number of pixels that have that colour afterwards |
| PaletteImage.MergingTwiceIsMergingOnce | ECE385-HelperTools-master/PNG To Hex/On-Chip Memory/scripts/conv_to_sv.py:269-281 | A second application, with the same dist, changes no pixel |
| SpriteIndex.IndexColours | ECE385-HelperTools-master/PNG To Hex/On-Chip Memory/scripts/conv_to_sv.py:415-439 | Fails before indexing exactly below two colours; otherwise each cell ends where the rounds of rewriting take it; the entry width is that of the number of colours |
| SpriteIndex.BitsSuffice | ECE385-HelperTools-master/PNG To Hex/On-Chip Memory/scripts/conv_to_sv.py:423-424 | The width is the least that tells all indices apart |
| SpriteIndex.IndexIsRankIff | ECE385-HelperTools-master/PNG To Hex/On-Chip Memory/scripts/conv_to_sv.py:429-439 | A pixel of the colour ranked r ends with index r exactly if no later-ranked colour has the value r; whatever it ends with is an index |
| SpriteIndex.PaletteReturnsColourIff | ECE385-HelperTools-master/PNG To Hex/On-Chip Memory/scripts/conv_to_sv.py:429-439 | For every image and pixel: looking the final index up gives the original colour exactly under that condition |
| SpriteIndex.ClashExample | ECE385-HelperTools-master/PNG To Hex/On-Chip Memory/scripts/conv_to_sv.py:431-434 | In the image 5, 0 the first pixel reads back as 0 |
| SpriteChunks.AllocateTables | ECE385-HelperTools-master/PNG To Hex/On-Chip Memory/scripts/conv_to_sv.py:445-458 | Tables exist exactly for the chunks of the grid, each of its own, possibly ragged, size |
| SpriteChunks.SplitTables | ECE385-HelperTools-master/PNG To Hex/On-Chip Memory/scripts/conv_to_sv.py:445-462 | For all sizes and chunk sizes every fill index is in bounds and every cell holds its own pixel |
| SpriteChunks.PutKeeps | ECE385-HelperTools-master/PNG To Hex/On-Chip Memory/scripts/conv_to_sv.py:462 | Filling one pixel changes its own cell and no other pixel's |
| SpriteChunks.PixelOfRows | ECE385-HelperTools-master/PNG To Hex/On-Chip Memory/scripts/conv_to_sv.py:445-462 | In an image given row by row, pixel (x, y) is the x-th of the y-th row |
| SpriteChunks.OneGuard | ECE385-HelperTools-master/PNG To Hex/On-Chip Memory/scripts/conv_to_sv.py:384-397 | Along a side below 1024 a chunk's generated condition holds exactly for the coordinates of that chunk |
| SpriteChunks.AllServedIff | ECE385-HelperTools-master/PNG To Hex/On-Chip Memory/scripts/conv_to_sv.py:397 | Every addressable coordinate of a side satisfies some condition exactly if the side is below 1024: the bounds are ten-bit literals |
| SpriteChunks.SelectsChunk | ECE385-HelperTools-master/PNG To Hex/On-Chip Memory/scripts/conv_to_sv.py:384-402 | The chain of conditions selects the one chunk that contains the pixel, in whatever order the tables come |
| SpriteChunks.AddressesOwnCell | ECE385-HelperTools-master/PNG To Hex/On-Chip Memory/scripts/conv_to_sv.py:566-570 | In the tables the generator holds, the conditions and (y mod NR, x mod NC) address, in bounds, the cell of pixel (x, y), ragged edges included |
| SpriteEmitted.ConstructTable | ECE385-HelperTools-master/PNG To Hex/On-Chip Memory/scripts/conv_to_sv.py:283-298 | The loop breaks the entries into rows of the given width, each holding its own stretch in order |
| SpriteEmitted.EmitTable | ECE385-HelperTools-master/PNG To Hex/On-Chip Memory/scripts/conv_to_sv.py:491-500 | The emitted parameter declares as many columns as the table has rows and the other way round, with its literal broken to match |
| SpriteEmitted.ElementOf | ECE385-HelperTools-master/PNG To Hex/On-Chip Memory/scripts/conv_to_sv.py:494-500 | What a read [a][b] of the emitted parameter gives: the entry as far from the end of the table as that position of the swapped shape is from its start, and nothing outside the swapped shape |
| SpriteEmitted.SwapAloneIff | ECE385-HelperTools-master/PNG To Hex/On-Chip Memory/scripts/conv_to_sv.py:494-497 | The swapped dimensions alone: with the literal taken in ascending order every read would meet the entry asked for exactly in square chunks |
| SpriteEmitted.HalfTurn | ECE385-HelperTools-master/PNG To Hex/On-Chip Memory/scripts/conv_to_sv.py:497 | The descending ranges alone: in a square chunk every read meets the entry opposite |
| SpriteEmitted.AllInRangeIff | ECE385-HelperTools-master/PNG To Hex/On-Chip Memory/scripts/conv_to_sv.py:494-500 | For all sizes: every pixel of the image is read within the declared ranges if and only if every chunk is square: equal smaller sides and no ragged edge |
| SpriteEmitted.SquareRead | ECE385-HelperTools-master/PNG To Hex/On-Chip Memory/scripts/conv_to_sv.py:497 | With square chunks each chunk is shown turned by half a turn where it stands |
| SpriteEmitted.OwnEntryIff | ECE385-HelperTools-master/PNG To Hex/On-Chip Memory/scripts/conv_to_sv.py:400 | For all sizes: asked by its own coordinates every pixel meets its own entry if and only if every chunk is a single pixel |
| SpriteEmitted.MirroredEntryIff | ECE385-HelperTools-master/PNG To Hex/On-Chip Memory/scripts/conv_to_sv.py:65-70 | For all sizes: asked by coordinates from the far corner every pixel meets its own entry if and only if the image is one square chunk |
| SpriteEmitted.BeyondImage | ECE385-HelperTools-master/PNG To Hex/On-Chip Memory/scripts/conv_to_sv.py:475 | Outside the image no condition holds and the module shows the last colour |
| SpriteEmitted.RecommendedWiring | ECE385-HelperTools-master/PNG To Hex/On-Chip Memory/scripts/conv_to_sv.py:88-90 | The wiring the header recommends meets every pixel of one square chunk a place further on, and shows the last colour in the first column and row |
| SpriteEmitted.RaggedExample | ECE385-HelperTools-master/PNG To Hex/On-Chip Memory/scripts/conv_to_sv.py:679-680 | A 12 by 8 image in chunks of 8 by 8 is read out of range |
| SpriteEmitted.OwnColourIff | ECE385-HelperTools-master/PNG To Hex/On-Chip Memory/scripts/conv_to_sv.py:483-488 | An index shows its own colour exactly if it is the middle one: the palette is declared upside down |
| SpriteEmitted.EmitTables | ECE385-HelperTools-master/PNG To Hex/On-Chip Memory/scripts/conv_to_sv.py:491-501 | One parameter for every table |
| SpriteEmitted.OutputIs | ECE385-HelperTools-master/PNG To Hex/On-Chip Memory/scripts/conv_to_sv.py:384-413 | For every image and chunk size with sides below 1024: the module puts out the colour the upside-down palette has for the cell of the pixel met, and the last colour where the read is out of range |
| SpriteEmitted.ShownRightIff | ECE385-HelperTools-master/PNG To Hex/On-Chip Memory/scripts/conv_to_sv.py:475-501 | A pixel is shown in its own colour exactly if the cell of the pixel met, or the 0 that an out-of-range read yields, is the mirror image of its rank |
| SpritePipeline.GeneratePalette | ECE385-HelperTools-master/PNG To Hex/On-Chip Memory/scripts/conv_to_sv.py:513-525 | For every channel: the palette covers all pixels and no covering set of the image's colours is smaller; tables are built exactly if no single colour lies within dist of all pixels; then every cell is an index that fits its entry, if no rank clashes its colour is within dist of the original pixel, and, for sides below 1024, the conditions address it while the module shows what OutputIs says |
| SpritePipeline.ColoursAreFewest | ECE385-HelperTools-master/PNG To Hex/On-Chip Memory/scripts/conv_to_sv.py:242-281 | The colours left after merging cover the image and no covering set of its colours is smaller |
| SpritePipeline.OneColourIff | ECE385-HelperTools-master/PNG To Hex/On-Chip Memory/scripts/conv_to_sv.py:415-424 | The merged image has fewer than two colours, which stops the generator, exactly if one of its colours is within dist of every pixel, or it has no pixels |
| AlarmClock.StartOnTime | software/usb_kb_bsp/HAL/src/alt_alarm_start.c:80-96 | A delay below 2^32 - 1 is represented exactly by the 32-bit time and the rollover flag |
| AlarmClock.TickOnTime | software/usb_kb_bsp/HAL/src/alt_tick.c:96-115 | A tick finds an alarm expired exactly at its due instant of the unbounded clock and otherwise keeps the representation exact |
| AlarmClock.RearmOnTime | software/usb_kb_bsp/HAL/src/alt_tick.c:127-137 | Rearming with any non-zero period is exact, across a wrap too |
| AlarmClock.FiresAsAsked | software/usb_kb_bsp/HAL/src/alt_tick.c:96-138 | Over any number of ticks and rollovers the firing instants are exactly those asked for: no drift, none missed, none early |
| AlarmClock.StartedFiresAsAsked | software/usb_kb_bsp/HAL/src/alt_alarm_start.c:64-112 | The same from the start of the alarm, first at start + delay + 1 |
| AlarmClock.StartExactIff | software/usb_kb_bsp/HAL/src/alt_alarm_start.c:80-96 | The first firing is on time exactly if the delay is below 2^32 - 1 or the counter reads 2^32 - 1 |
| AlarmList.Insert | software/usb_kb_bsp/HAL/inc/sys/alt_llist.h:90-98 | The circle of entries with the new one first, links both ways consistent; an entry that was in the list ends in a circle without the head |
| AlarmList.Remove | software/usb_kb_bsp/HAL/inc/sys/alt_llist.h:105-117 | The circle without the entry, which then points at itself; harmless if it already did |
| AlarmService.Service.Start | software/usb_kb_bsp/HAL/src/alt_alarm_start.c:64-112 | Refused without a clock or an alarm; otherwise the alarm is first in the list and, with a delay below 2^32 - 1, due exactly delay + 1 ticks from now; starting a registered alarm again leaves links from the head that never lead back to it |
| AlarmService.Service.Stop | software/usb_kb_bsp/HAL/src/alt_tick.c:66-73 | The list without that alarm, which points at itself; harmless for a stopped alarm |
| AlarmService.Service.SavedNextIff | software/usb_kb_bsp/HAL/src/alt_tick.c:100-141 | The walk, going on from the alarm it saved as next, can reach the head if and only if that alarm is still registered when the callback returns |
| AlarmService.Service.Unroll | software/usb_kb_bsp/HAL/src/alt_tick.c:109-112 | The flag is cleared exactly when the counter has wrapped to zero |
| AlarmService.Service.Rearm | software/usb_kb_bsp/HAL/src/alt_tick.c:127-137 | The alarm is due again exactly one period from now |
| AlarmService.Service.Callback | software/usb_kb_bsp/HAL/src/alt_tick.c:117 | A callback may start and stop alarms, and records that it ran, for which alarm, at which instant, and the answer it gave |
| AlarmService.Service.Fire | software/usb_kb_bsp/HAL/src/alt_tick.c:117-138 | A due alarm's callback runs, once, and gives the answer it had to give, by the record callbacks make of themselves; the alarm leaves the list if that is zero and is otherwise due that much later |
| AlarmService.Service.Serve | software/usb_kb_bsp/HAL/src/alt_tick.c:104-139 | The callback runs exactly if the alarm's due instant is now |
| AlarmService.Service.ServeAll | software/usb_kb_bsp/HAL/src/alt_tick.c:100-141 | The walk terminates, although callbacks insert and remove entries, having visited each alarm present at entry that was not stopped before its turn once, in order, and none started meanwhile; the callbacks that ran are those of the visited alarms due now, once each and in order |
| AlarmService.Service.Tick | software/usb_kb_bsp/HAL/src/alt_tick.c:87-148 | The whole tick: whom it visits; that the callbacks that ran, by their own record, are those of the visited alarms due now, once each and in order, each alarm then due again by the answer recorded, or out of the list if that is zero; and the list it leaves: newly started alarms, then those present at entry that nobody stopped and whose callback did not answer zero; every registered alarm stays on time |
| FdLocks.HistoryKeeps | software/usb_kb_bsp/HAL/src/alt_fd_lock.c:61-69 | After every history of open, close, ioctl, fcntl and redirection, any other descriptor on a locked device has a larger index than the holder |
| FdLocks.StepKeeps | software/usb_kb_bsp/HAL/src/alt_ioctl.c:106-168 | Each call keeps that, whatever the drivers answer |
| FdLocks.AtMostOneHolder | software/usb_kb_bsp/HAL/src/alt_open.c:79-87 | After any history a device has at most one holder, and a held device at most one other descriptor; while it is held, opening it fails and no descriptor changes hands |
| FdLocks.LockGrantsAsDocumentedIff | software/usb_kb_bsp/HAL/src/alt_fd_lock.c:37-69 | The lock is granted to sole descriptors only, as documented, exactly unless the descriptor at the high-water mark is the only other one on the device; with an inclusive bound always |
| FdLocks.InclusiveHolderIsAlone | software/usb_kb_bsp/HAL/src/alt_fd_lock.c:61 | With the bound made inclusive a holder is alone on its device after any history |
| FdLocks.ExclusiveButShared | software/usb_kb_bsp/HAL/src/alt_fd_lock.c:61-69 | Open, open, TIOCEXCL on the lower descriptor: granted while the device is shared |
| FdLocks.LockRoundTrip | software/usb_kb_bsp/HAL/src/alt_fd_unlock.c:52-56 | Unlocking undoes locking; closing the holder frees the device exactly for slots above 2 |
| FdLocks.OpenOutcome | software/usb_kb_bsp/HAL/src/alt_open.c:105-171 | Success yields a fresh unlocked descriptor of a device nobody holds; failure leaves every slot's device as it was |
| FdLocks.LockKeeps | software/usb_kb_bsp/HAL/src/alt_fd_lock.c:54-75 | Granting or refusing a lock keeps the invariant |
| FdLocks.FcntlKeeps | software/usb_kb_bsp/HAL/src/alt_fcntl.c:66-101 | Setting flags through fcntl keeps the invariant: it cannot touch the lock and device bits |
| FdLocks.RedirectKeeps | software/usb_kb_bsp/HAL/src/alt_io_redirect.c:58-72 | Copying a descriptor into a standard slot keeps the invariant |
| FdCalls.ExclusiveRequested | software/usb_kb_bsp/HAL/src/alt_ioctl.c:127-133 | TIOCEXCL on a device returns -EACCES and changes nothing exactly if a descriptor below the mark shares the device, and otherwise returns 0 and makes that descriptor the holder, nothing else changing |
| FdCalls.ExclusiveReleased | software/usb_kb_bsp/HAL/src/alt_ioctl.c:134-138 | After any history TIOCNXCL on a device returns 0; that descriptor does not hold the device any more, and every other slot is as before; released by the holder, nobody holds the device |
| FdCalls.ExclusiveThenReleased | software/usb_kb_bsp/HAL/src/alt_ioctl.c:127-138 | After any history: TIOCEXCL, if granted, makes every open of the device fail, and TIOCNXCL then gives back the very table, in which the device can be opened exactly if a slot is free and the driver agrees |
| FdCalls.OtherRequests | software/usb_kb_bsp/HAL/src/alt_ioctl.c:147-167 | Any other request, and any on a file system, returns the driver's answer and changes nothing; a negative descriptor gets -EBADFD; errno is the negated failure |
| FdCalls.OpenReplies | software/usb_kb_bsp/HAL/src/alt_open.c:105-171 | Every reply of open in the order of its checks: ENODEV, EMFILE, EACCES exactly if somebody holds the device, the driver's error, or the lowest free slot, which alone changes and holds the caller's flags without the internal bits; on failure no slot in use changes and none is taken |
| FdCalls.OpenAfterHistory | software/usb_kb_bsp/HAL/src/alt_open.c:105-171 | After any history open succeeds exactly if the name is known, a slot is free, nobody holds the device and the driver agrees |
| FdCalls.CloseReplies | software/usb_kb_bsp/HAL/src/alt_close.c:64-101 | close frees exactly the slots above 2, whatever the driver answers, and reports the driver's error; a negative descriptor gets EBADFD |
| FdCalls.WordBits | software/usb_kb_bsp/HAL/src/alt_fcntl.c:44-85 | Each of the four named flags is its own bit of the flag word |
| FdCalls.SetThenGet | software/usb_kb_bsp/HAL/src/alt_fcntl.c:84-92 | After F_SETFL F_GETFL shows O_APPEND and O_NONBLOCK as asked for and every other bit as before, never the two internal ones; the lock, the device bit and every other descriptor are untouched |
| FdCalls.FcntlRefuses | software/usb_kb_bsp/HAL/src/alt_fcntl.c:93-100 | Any other command gets EINVAL, a negative descriptor EBADFD, and nothing changes |
| FdCalls.Redirected | software/usb_kb_bsp/HAL/src/alt_io_redirect.c:58-72 | After any history: if the name can be opened the standard slot is the descriptor open would have made and the temporary slot is free again; otherwise no slot in use changes |
| FdPool.Files.constructor | software/usb_kb_bsp/HAL/src/alt_dev.c:118-149 | The initial table: three null-device slots, the rest free |
| FdPool.Files.GetFd | software/usb_kb_bsp/HAL/src/alt_get_fd.c:54-101 | Claims the lowest free slot and raises the mark, or reports that there is none |
| FdPool.Files.ReleaseFd | software/usb_kb_bsp/HAL/src/alt_release_fd.c:44-51 | Frees the slot unless it is one of the first three |
| FdPool.Files.FileLocked | software/usb_kb_bsp/HAL/src/alt_open.c:64-92 | Marks the slot as a device's and refuses exactly if another descriptor up to the mark holds the device |
| FdPool.Files.Open | software/usb_kb_bsp/HAL/src/alt_open.c:105-171 | In place exactly what the open function of the table says, return value and errno included |
| FdPool.Files.Lock | software/usb_kb_bsp/HAL/src/alt_fd_lock.c:54-75 | In place: refused exactly if a descriptor below the mark shares the device |
| FdPool.Files.Unlock | software/usb_kb_bsp/HAL/src/alt_fd_unlock.c:52-56 | In place: clears the lock bit and nothing else |
| FdPool.Files.Ioctl | software/usb_kb_bsp/HAL/src/alt_ioctl.c:106-168 | In place: routes the two lock requests of devices, passes on everything else, sets errno on failure only |
| FdPool.Files.Close | software/usb_kb_bsp/HAL/src/alt_close.c:64-101 | In place: releases the slot whatever the driver answers, reporting its error |
| FdPool.Files.Fcntl | software/usb_kb_bsp/HAL/src/alt_fcntl.c:66-101 | In place: reads flags without the internal bits, sets only the two settable ones |
| FdPool.Files.OpenFd | software/usb_kb_bsp/HAL/src/alt_io_redirect.c:58-72 | In place: moves a newly opened descriptor into a standard slot, or changes no slot in use |
| FdPool.Files.IoRedirect | software/usb_kb_bsp/HAL/src/alt_io_redirect.c:85-94 | Output, input, error in that order |
| LogNumber.ParsesBack | software/usb_kb_bsp/HAL/src/alt_log_printf.c:206-297 | For every 32-bit value, signed or not, base 8, 10 or 16, width, padding and case the text reads back as the number; the most negative one included |
| LogNumber.TextLength | software/usb_kb_bsp/HAL/src/alt_log_printf.c:257-279 | The length is the larger of the width and what sign and digits need, for both paddings |
| LogNumber.PrintInteger | software/usb_kb_bsp/HAL/src/alt_log_printf.c:238-297 | The loops print sign, padding and the canonical numeral of the magnitude |
| LogNumber.StripSign | software/usb_kb_bsp/HAL/src/alt_log_printf.c:238-245 | Negating in 32 bits gives the magnitude, the most negative value included |
| LogNumber.CountDigits | software/usb_kb_bsp/HAL/src/alt_log_printf.c:247-255 | The place value is the largest power of the base not above the value, or 1, and never overflows 32 bits |
| LogNumber.PrintLead | software/usb_kb_bsp/HAL/src/alt_log_printf.c:257-279 | Zeros after the sign, spaces before it |
| LogNumber.PrintDigits | software/usb_kb_bsp/HAL/src/alt_log_printf.c:281-296 | The digits printed are the canonical numeral: no superfluous leading zero |
| LogNumber.RepeatChar | software/usb_kb_bsp/HAL/src/alt_log_printf.c:106-110 | That many characters, none for a count below one |
| Numerals.DigitsDenote | software/usb_kb_bsp/HAL/src/alt_log_printf.c:281-296 | The canonical numeral denotes its number |
| Numerals.CanonicalIsDigits | software/usb_kb_bsp/HAL/src/alt_printf.c:84-113 | A number has only one canonical numeral, so different digit loops agree |
| LogFormat.LogPrintf | software/usb_kb_bsp/HAL/src/alt_log_printf.c:130-340 | For every format and matching arguments the state machine prints what the grammar of literals and directives says, whose meaning LogDirectives pins from the output alone |
| LogFormat.OneChar | software/usb_kb_bsp/HAL/src/alt_log_printf.c:133-336 | Each character takes the machine from one pending rest of the format to the next, printing the difference |
| LogFormat.TakeModifier | software/usb_kb_bsp/HAL/src/alt_log_printf.c:172-199 | The running width is the decimal number the digits before the point denote |
| LogFormat.TakeLetter | software/usb_kb_bsp/HAL/src/alt_log_printf.c:202-335 | Each conversion letter prints and takes what the grammar says, which SignedDirective, UnsignedDirective and the lemmas beside them spell out |
| LogDirectives.SignedDirective | software/usb_kb_bsp/HAL/src/alt_log_printf.c:206-297 | For every word, width, flag, other modifiers, following format and arguments: %d and %i print the two's complement value in base 10, at least as wide as the width and padded up to it only, with zeros if the flag is given |
| LogDirectives.UnsignedDirective | software/usb_kb_bsp/HAL/src/alt_log_printf.c:302-317 | The same for %u, %o, %x and %X: the unsigned value in base 10, 8, 16 and 16, with capitals exactly for %X |
| LogDirectives.CharacterDirective | software/usb_kb_bsp/HAL/src/alt_log_printf.c:319-322 | %c prints the low byte of its word at the end of the field, spaces in front |
| LogDirectives.TextDirective | software/usb_kb_bsp/HAL/src/alt_log_printf.c:324-334 | %s prints its string at the end of the field, spaces in front |
| LogDirectives.OtherLetters | software/usb_kb_bsp/HAL/src/alt_log_printf.c:202-337 | Any other character ends its directive, takes no argument and prints nothing, a percent sign too unless it follows the first at once |
| LogDirectives.Literally | software/usb_kb_bsp/HAL/src/alt_log_printf.c:137-171 | Everything before a percent sign is printed as it stands, and a doubled percent sign as one |
| LogDirectives.WidthMeans | software/usb_kb_bsp/HAL/src/alt_log_printf.c:172-199 | The width is the decimal number written before the point, l letters aside; without digits there is none |
| AltPrintf.AltPrintf | software/usb_kb_bsp/HAL/src/alt_printf.c:51-132 | For every format and matching arguments prints literals and two-character directives; a lone percent sign ends the output |
| AltPrintf.PrintHex | software/usb_kb_bsp/HAL/src/alt_printf.c:84-113 | Shift and mask print the canonical hexadecimal numeral of every 32-bit value |
| AltPrintf.OthersDropped | software/usb_kb_bsp/HAL/src/alt_printf.c:69-127 | A percent sign followed by anything but another, c, x or s is dropped with it, takes no argument and prints nothing; so is one at the end |
| AltPrintf.SameOutput | software/usb_kb_bsp/HAL/src/alt_printf.c:60-128 | For every format without modifiers and without d, i, u, o and X, and all arguments, both implementations print the same or reject the same |
| AltPrintf.SameHex | software/usb_kb_bsp/HAL/src/alt_printf.c:84-113 | Both implementations print %x alike for every 32-bit value |
| TimeOfDay.CalibratedExactly | software/usb_kb_bsp/HAL/src/alt_gettod.c:89-112 | With a rate dividing a million and no overflow, k ticks after settimeofday(t) gettimeofday gives exactly t plus k ticks, normalised |
| TimeOfDay.CalibratedIff | software/usb_kb_bsp/HAL/src/alt_settod.c:80-84 | For every calibration from the epoch on, it is exact if and only if the overflow of the 32-bit product is a multiple of 15625 words, or the clock is read at the very tick it was set to the epoch and the clamp hides a negative error |
| TimeOfDay.CalibratedAnyTimeIff | software/usb_kb_bsp/HAL/src/alt_gettod.c:89-112 | For every time a long can hold, before the epoch too: exact if and only if the overflow is harmless, or, where the clamp is taken, the epoch is the right answer |
| TimeOfDay.SlipIff | software/usb_kb_bsp/HAL/src/alt_settod.c:80-84 | The overflow leaves the microseconds right exactly under that condition |
| TimeOfDay.OverflowExample | software/usb_kb_bsp/HAL/src/alt_settod.c:80-84 | At 1000 ticks a second, after 5 000 000 ticks, the clock does not show the time it was just set to |
| TimeOfDay.ClampExample | software/usb_kb_bsp/HAL/src/alt_gettod.c:95-101 | After 8 590 000 ticks a clock set to the epoch shows it, by the clamp |
| TimeOfDay.RawReading | software/usb_kb_bsp/HAL/src/alt_gettod.c:89-93 | The sum before normalisation is the right instant plus the calibration error, within a second of normal |
| TimeOfDay.NormaliseKeeps | software/usb_kb_bsp/HAL/src/alt_gettod.c:95-112 | The two loops end in a normal value of the same instant; with a second to borrow nothing is clamped |
| TimeOfDay.Clock.SetTimeOfDay | software/usb_kb_bsp/HAL/src/alt_settod.c:72-96 | Refused without a clock; otherwise stores the offsets and the time zone |
| TimeOfDay.Clock.GetTimeOfDay | software/usb_kb_bsp/HAL/src/alt_gettod.c:71-124 | Refused without a clock; otherwise the loops compute the normalised sum |
| I2cBus.WholeConversation | audio_interface.vhd:178-478 | From a known clock on a bus listener has decoded every frame for any tables, in order, each after a start, then one stop; both lines stay high for ever; what the frames say is TablesReceived |
| I2cReceiver.TablesReceived | audio_interface.vhd:407-465 | From a known clock on a device that assembles bytes, most significant bit first, from the bits before each released acknowledge has been sent, for every table entry in order, the numbers of the device address, the register and the data, and nothing else, and the bus is free |
| I2cReceiver.NeverAtFault | audio_interface.vhd:401-479 | At no clock has it seen anything against the protocol: a bit outside a message, a start or stop within a byte, a driven acknowledge, a glitch |
| I2cReceiver.CodecAddress | audio_interface.vhd:96 | The source's address string 00110100 arrives as 0x34 |
| I2cBus.OnlyTheConversation | audio_interface.vhd:202-478 | At every clock what has been decoded is a beginning of that: no glitch, stray bit, extra start or stop |
| I2cBus.DataStableWhileClockHigh | audio_interface.vhd:401-504 | The data line changes while the clock is high only for a start or the stop; tables are indexed within bounds |
| I2cBus.AlwaysOnSchedule | audio_interface.vhd:119-202 | At every clock the state, counters, sampled clocks and listener are at one computable place of the schedule |
| VgaScan.ClosedForm | VGA_controller.sv:53-100 | The position after n clocks is n in mixed radix 800, 525, and the registered outputs belong to the position shown with them |
| VgaScan.ShownExactlyOnce | VGA_controller.sv:53-100 | In any 420000 consecutive clocks every position is held at exactly one of them, and displayed then exactly if it is visible, but for the origin at the reset clock |
| SampleReader.OneStepPerPulse | music_modules.sv:65-118 | For every waveform with pulses of at least four clocks, from every state that can begin a count, the address is the number of pulses modulo 2^20, one behind only while a pulse is being answered; from the state RESET is meant to leave the whole control state follows from the age of the pulse |
| SampleReader.WordsDelivered | music_modules.sv:75-92 | From any state and for any waveform each step delivers the word at the old address on the left and the one at the new address on the right; with pulses of four clocks pulse k delivers words k - 1 and k |
| SampleReader.ShortPulseLost | music_modules.sv:92-118 | Of four pulses three clocks long, a clock apart, the last is never answered |
| SampleReader.Miscount | music_modules.sv:65-118 | From a state that cannot begin a count, one pulse or none is miscounted, however long pulses last |
| SampleReader.FourClocksIff | music_modules.sv:65-118 | From any state an edge can leave, the reader keeps count on every settled waveform whose pulses last at least m clocks if and only if that state can begin a count and m is at least four |
| SampleReader.ReleasedIff | music_modules.sv:65-92 | An edge with RESET leaves a state that can begin a count exactly if it lands in Idle or RR_1 or steps past the last address, and the intended state exactly if it lands in Idle |
| SampleReader.LowResetIff | music_modules.sv:65-92 | With the audio clock low, RESET always leaves a state that can begin a count if and only if held for three clocks, and the intended one if and only if held for four |
| SampleReader.HighResetNeverEnough | music_modules.sv:65-92 | With the audio clock high no length of RESET is enough from every state |
| SampleReader.MidCycleRelease | music_modules.sv:65-92 | After three clocks of RESET with the audio clock high one pulse of seven clocks leaves address 2 |
| SampleReader.OnePulsePerCycle | music_modules.sv:172-186 | A limit of c gives one pulse, one clock long, every c + 1 clocks |

## Left out

- JtagUartDriver.Driver.Read: models a spin for at most `patience` polls and then reports `waiting`, because the source's loop has no bound of its own; the theorems about reachable states cover spins of any length.
- JtagUartDriver.Driver.Write: bounded polls in the same way.
- JtagUartDriver.Driver.Close: bounded polls in the same way; the outcome is `waiting` when they are used up.
- JtagUartDriver.Driver.SpinRead: bounded polls in the same way; `waiting` leaves the reader spinning.
- JtagUartDriver.Driver.ReadPass: bounded polls in the same way.
- JtagUartDriver.Driver.WritePass: bounded polls in the same way.
- JtagUartDriver.Driver.SpinWrite: bounded polls in the same way.
- JtagUartDriver.Driver.Irq: the hardware keeps RI or WI raised for finitely many, otherwise arbitrary, passes of one activation.
- JtagUartDriver.Driver.Timeout: `host_inactive` and `timeout` are unbounded naturals; the guard below INT_MAX is kept.
- JtagUartDriver.Driver.ReadControl: the control register is its RI, WI and WSPACE fields and the two enable bits; the AC bit is a parameter of Timeout.
- JtagUartDriver.Driver.StoreByte: the data register is a byte, its validity and whether more remain.
- JtagUartOutcomes.PassServes: the hardware stands still during the pass; what else may happen then is covered by the invariant.
- The uC/OS-II, semaphore, event flag and FIFO-full-discard branches of the UART driver, and its small variant: other build configurations.
- AlarmService.Service.Tick: callbacks start only alarms they have just made, with a delay below 2^32 - 1, do not restart a known one, and do not stop the alarm the walk has already chosen as next; SavedNextIff and Start say what these would do. Their answers, in the order in which they run, are fixed but arbitrary from the start.
- AlarmService.Service.Fire: the same callbacks.
- AlarmService.Service.Serve: the same callbacks.
- AlarmService.Service.ServeAll: the same callbacks.
- AlarmService.Service.Start: the callback and context pointers are not stored; what callbacks do is modelled where they run.
- FdPool.Files.Open: name lookup, the driver's own open, and the bits of the flag word other than the four named ones are parameters or one number; drivers do not change descriptors. EACCES, ENODEV and the other codes and O_NONBLOCK, O_APPEND have newlib's values; newlib's headers are not part of this model.
- FdPool.Files.Ioctl: `req` is one of the two lock requests or anything else; a driver without an ioctl function answers ENOTTY through the same parameter.
- FdCalls.SetThenGet: the number for the other bits of the flag word does not contain the named bits, as in every flag word there is; so for FdCalls.WordBits.
- FdPool.Files.GetFd: semaphores are no-ops in this configuration, so calls are atomic.
- LogFormat.LogPrintf: requires arguments that match the format; takes widths as unbounded integers and strings without a terminating NUL.
- AltPrintf.AltPrintf: requires arguments that match the format; strings have no terminating NUL.
- TimeOfDay.Clock.GetTimeOfDay: overflow of the seconds while normalising is not modelled, and the optional time zone pointer is always given.
- TimeOfDay.CalibratedAnyTimeIff: requires microseconds within a second and a rate that divides a million, the premises of the clock's promise.
- PaletteImage.CombineChannels: the distance is not negative, as the program's own input check guarantees; dictionaries are their contents with the order of first insertion, and `sorted` is an insertion sort.
- SpriteIndex.BitsSuffice: the logarithm is exact; floating-point rounding, which does not arise for the at most 256 values of a channel, is not modelled, nor is the unused number of decimal digits.
- SpriteChunks.AddressesOwnCell: chunk sizes and sides are below 1024, where the generated ten-bit literals mean what they say; AllServedIff shows that the bound on the sides is necessary.
- SpriteEmitted.OutputIs: the same bounds.
- The characters of the SystemVerilog text: keywords, indentation, zero padding of the decimal literals.
- I2cBus.WholeConversation: the word counter is unbounded, where the source declares 0 to 12; the acknowledge bits are not looked at, as in the source; SCLK and the state registers are sampled once per clock, and the unused INIT input is omitted.
- The DAC and ADC shift registers of audio_interface.vhd, and the VGA_SYNC_N constant: settled by reading one line.
- SampleReader.OneStepPerPulse: the memory answers within a clock, and the state register holds one of the five named states, not one of the other values its four bits could power up with.
- SampleReader.FourClocksIff: starts from a state some clock edge has left, in which RL_1 implies the flag; every edge leaves one (ReleasedIff).
- USB driver, keyboard polling and chip register access: fixed constants, busy waiting and a controller whose behaviour the repository does not show.
- HAL stubs, cache, boot, exception entry, heap growth, profiling and interrupt registration: constant returns, hardware effects, or easy claims.
- Image file readers, KD-tree recolouring scripts, colour mapper, hex display and pin assignments: library calls and lookup tables.
