# Verified model of the SMI driver

A Dafny model of the transfer engine in `src/smi.c`, of what it rests on (`src/timeout.h`, the raw FIFO buffer,
`gpio_mode`), of the alternative await loops in `src/smilite.h`, and of the interrupt counter in
`smi-irq/smi_irq.c`. `dafny verify dfyconfig.toml` checks all of it.

## How the pieces fit

The SMI peripheral runs while the driver runs. `Device.Smi` is its state; `Device.Runs` is everything its engine may
do between two register accesses, and every register access in a driver loop is preceded by `Advance`, which picks
one such move freely. A bitfield assignment is two accesses, a read and a write of the whole register, with the
engine running in between; so a DONE, SETERR or AFERR bit that was read as 1 is written back as 1 and thereby
cleared. `Device.EngineStepRuns` and `Device.RunsOn` show that `Runs` contains each single engine action and is
closed under going on, so the contracts of the loops hold for every interleaving.

- Programmed reads and writes: `ReadAwait`, `WriteAwait`, `ProgrammedWrite`, and the `smilite` variants in `Smilite`.
  Their contracts are conservation laws between the words on the bus, the words in the FIFO and the caller's array.
- The packed-read pipeline: `Packing` (bits of one word), `Streams` (whole transfers, both round trips), `Views`
  (different unpackers as views of one bit stream), `RawBuffer`, `Pipeline` (`smi_programmed_read_arr` end to end) and
  `Delivery` (exactly when the caller gets what the bus carried).
- Direct mode: `Direct` (the START/DONE handshake) and `DirectMemory` (what the device's memory holds afterwards).
- Interrupt counter: `Irq`. The handler and the readers are concurrent threads, so this is a machine of atomic steps.
- `Timeout`, `Dma`, `Gpio`: the deadlines, the DMA wait and the pin registers.

What a loop did while it ran is in the histories of the objects it used: `Smi.polls` records the state that each poll
of CS saw, `Clock.readings` and `Clock.slept` what was read and slept, and `Port` and `Channel` count
the polls of a direct transfer and of a DMA channel, and those that saw DONE or END.

Time is a monotone clock: any amount may pass between two readings, and a sleep takes at least its nominal time. The
`smilite` loops never sleep, so they need a clock that moves between two readings (`grain > 0`). The allocator's
answer, the samples the peripheral drives, and the undefined bits of FIFO words are parameters, arbitrary unless a
contract says otherwise.

The ten unpack and four truncate functions are one loop, `Pipeline.UnpackLoop`: they differ in words and samples per
step and in the expression stored, which is `Packing.Sample`. How the hardware packs (`Packing.Place`) is what
lines 787-790, 807-810 and 828-834 of `src/smi.c` and line 29 of `docs/smi-docs/smi-docs.md` describe, corrected as
listed below where the code says otherwise. An element of the caller's buffer is a word, masked to the width of the
element that the code stores through.

## Where the code is not what it seems

The model follows the code.

- `smi_read_await` negates a constant that is negative already (line 267): a timeout returns +21, which
  `smi_programmed_read_arr` cannot tell from a complete read of 21 words. It goes on to unpack all the words
  it was to read, stale ones included, or to truncate 21 words.
- A packed read stores whole groups: up to a group minus one sample behind the caller's `len` slots, which must be
  there (`Pipeline.SlotsNeeded`).
- `smi_write_await` may push `len + 1` words (line 479), so `data` must have `len + 1` readable elements; the extra
  word stays in the FIFO and is never sent.
- 16-bit XRGB drops the last sample when `len % 3 == 1`: only whole word pairs are unpacked (line 914).
  `Delivery.ReadDeliversIff` shows this and the next point to be the only reasons for a wrong sample, as long as the
  peripheral drives what the format can carry.
- `smi_programmed_read_arr` writes WFORMAT and WSWAP to the settings of the write device but selects the read device
  (lines 415-424). A packed read is right for all peripherals exactly when the two devices are one, or the read
  device has the pixel format and swap already.
- 9- and 18-bit RGB565 replaces two bits of every sample by copies of others, so a sample that does not have them is
  changed, and its neighbours are not (`Streams.SampleSurvivesIff`). A read returns what the bus carried if and only if
  none of the samples asked for is of that kind (`Pipeline.StoredWordsDeliver`); `Delivery.DeliversAnythingIff` puts
  the three reasons for a wrong sample together.
- The comments above the two 9-bit XRGB unpackers are exchanged (`Views.XrgbCommentsAreExchanged`), and the one above
  the 9-bit RGB565 unpacker names other replicated bits: 15 and 4 of a half word, where the code takes 13 and 7.
  `Views.CommentHoldsIff` says which raw words show the difference.
- Of `increment` only the sign counts.
- In `smi_write_await_direct` the spin counter stands still while the loop waits (lines 524-537), so it equals the
  index of the word. During the first 192 words the deadline is never looked at: if one of their transfers stalls,
  the call never returns (`Direct.AwaitWrite`, `Direct.WriteEndsIff`). During words 192 to 511 the loop looks at the
  deadline without sleeping, so a timeout needs a clock that moves between two readings; from word 512 on it sleeps.
- The `smilite` read loop looks at the clock after taking a word. It reports a timeout exactly when its last look was
  late, also if that was in the iteration that took the last word (`Smilite.LateIff` in the contract of the loop).
- An unpacked read that times out truncates 21 words, however many the caller asked for: with fewer slots, or a raw
  buffer cut below 21 words, it writes or reads past the end (`overrun` in `Pipeline.SmiProgrammedReadArr`).
- `reverse18` reverses 16 bits, not 18, and loses the two highest of them (`Packing.Reverse18OfHalf`).
- The handler and the driver both clear DONE: if the driver is first, the event is never counted (`Irq.EventCanBeLost`).
- With several readers `irq_count` can go negative, down to 1 - N: all of them can pass the wait on one event.

## Model

| member | source | states |
|---|---|---|
| Device.EngineStepRuns | docs/smi-docs/smi-docs.md:19-23 | every single action of the engine (capture a word, send a word, set DONE after the last) is a move of `Runs` |
| Device.RunsOn | docs/smi-docs/smi-docs.md:19-23 | moves of the engine compose, so `Runs` covers any interleaving with register accesses |
| Device.RunsStaysOk | docs/smi-docs/smi-docs.md:19 | the engine never puts more than 64 words into a FIFO, captures out of order, or sends more than the length |
| Device.DoneMeansComplete | docs/smi-docs/smi-docs.md:61 | the engine sets DONE only when everything is captured, or the full length sent, and never clears it |
| Device.TransferBeginsIff | docs/smi-docs/smi-docs.md:60-63 | a write to CS begins a transfer if and only if none is active and START and ENABLE are both written |
| Device.Smi.Advance | docs/smi-docs/smi-docs.md:19-23 | between two accesses the engine makes some move of `Runs` |
| Device.Smi.ReadD | docs/smi-docs/smi-docs.md:105-109 | reading D takes the oldest word; reading an empty FIFO raises AFERR and takes nothing |
| Device.Smi.WriteD | docs/smi-docs/smi-docs.md:105-109 | writing D appends; writing a full FIFO raises AFERR and loses the word |
| Device.Smi.SetCs | docs/smi-docs/smi-docs.md:60-80 | a CS bitfield assignment is a read and a write with the engine running before and between; flags read as 1 are cleared |
| Device.Smi.PollCs | docs/smi-docs/smi-docs.md:60-80 | a poll of CS returns the flags of a state the engine may be in, RXD and TXD with their documented meaning, and is recorded in the history of polls |
| Device.Smi.StartIdle | src/smi.c:234-238 | START on an idle engine begins a transfer under the selected settings and clears DONE, SETERR and AFERR by writing them back |
| Device.StartMeetsOldTransfer | docs/smi-docs/smi-docs.md:63 | a START assigned during a transfer, with the engine running around its two accesses: the old transfer goes on with its own feed, unless it has finished before the write; only then a new one begins |
| Device.SelectsTheOne | src/smi.c:1017-1058 | a layout is selected if and only if it has the bus width, pixel format and swap asked for; none for an unknown width |
| Timeout.StartTimeout | src/timeout.h:15-22 | the deadline lies the full timeout after a moment not before the call |
| Timeout.TimeoutComplete | src/timeout.h:24-31 | complete exactly when the clock reads at or past the deadline |
| Timeout.SpinTier | src/timeout.h:39-45 | the tiers: yielding from 128 polls, reading the clock from 192, sleeping from 512 |
| Timeout.TimeoutApply | src/timeout.h:47-71 | expiry is reported only at or past the deadline and always once a clock-reading tier starts there; no expiry from the last tier means a full sleep with the deadline still ahead; the first two tiers do not look at the clock |
| Timeout.PatienceIsBounded | src/timeout.h:47-71 | polls that never reset their spin counter number at most 512 plus the full sleeps that fit the timeout |
| ReadAwait.EngineConserves | src/smi.c:252-259 | whatever the engine does, words taken followed by the FIFO stay the stream of the transfer in order |
| ReadAwait.PollWord | src/smi.c:254-259 | RXD seen means the pop takes the next word of the stream, never from an empty FIFO |
| ReadAwait.ClearFifos | src/smi.c:266 | after CLEAR what was taken is still a prefix of the stream |
| ReadAwait.SmiReadAwait | src/smi.c:240-283 | for every engine behaviour: exactly the first `len` words in order and the rest still in the FIFO, or a timeout (+21) at or after the deadline with a correct prefix stored; by the histories (`PolledRead`) a timeout follows more than 192 empty polls in a row, every word seen was taken, it sleeps only after 512 polls in vain and then at each, and the polls are bounded |
| WriteAwait.EngineSends | src/smi.c:462-501 | whatever the engine does, words sent followed by the FIFO stay the words pushed, and the FIFO only gets shorter |
| WriteAwait.AwaitRoom | src/smi.c:465-477 | ends for every device, with room in the FIFO or a timeout at or after the deadline; every wait came after a poll that found the FIFO full |
| WriteAwait.PushNext | src/smi.c:479-482 | pushes the next word of `data` while no more than `len + 1` are pushed |
| WriteAwait.GiveUp | src/smi.c:484-490 | after a timeout the device has received a prefix of the data, and DONE is acknowledged |
| WriteAwait.ReportFifoError | src/smi.c:492-498 | the error exit acknowledges AFERR and leaves a prefix sent |
| WriteAwait.SmiWriteAwait | src/smi.c:450-504 | for every engine behaviour and every ending: no loss, reordering or overflow; an AFERR set on entry, and no other, leads to the FIFO-error exit, in the first iteration; a timeout only at or after the deadline; by the histories (`PolledWrite`) the loop ends within an iteration of DONE being set, a timeout needs more than 192 polls and 192 pushes or polls without room, it sleeps only after 512 waits and then at each, and the polls are bounded |
| ProgrammedWrite.ConfigureWrite | src/smi.c:597-604 | all stale flags and FIFO words are gone before START |
| ProgrammedWrite.FreshTransferDelivers | src/smi.c:611-616 | conservation plus DONE from a clean start means exactly `length` words were sent, the first ones pushed |
| ProgrammedWrite.SmiProgrammedWriteArr | src/smi.c:589-619 | from any idle state: the address and length asked for are set up; the device has received exactly `data[..len]`, the result is `len` or `len + 1` and the surplus word is what the FIFO holds; or a timeout with a prefix sent, which is all a negative length can give; never a FIFO error; polls and sleeps as in `SmiWriteAwait` |
| Smilite.LiteReadAwait | src/smilite.h:556-600 | the FIFO contract of `SmiReadAwait`; every word seen was taken; -ETIMEDOUT exactly when the last look at the clock was late, whether or not a word is missing, and no look in the first 1025 iterations; at most 1026 polls and one for each `grain` of the timeout; -EINVAL for no buffer |
| Smilite.CheckClock | src/smilite.h:689-699 | past 1024 polls the clock is looked at, and the deadline is ahead and the counter starts at 0 again, or expiry is reported |
| Smilite.LiteAwaitRoom | src/smilite.h:672-687 | ends with room or at the deadline |
| Smilite.LiteWriteAwait | src/smilite.h:652-713 | pushing before waiting never overflows a FIFO that was not full, whatever the ending; delivery, DONE and AFERR as in `SmiWriteAwait`; a timeout only at or after the deadline and after more than 1024 polls and 1024 pushes or polls without room; one look at the clock for 1025 waits, no sleep, and bounded polls |
| Packing.SampleOfPlace | src/smi.c:746-985 | per word group and sample: what the format packs is what the unpack expression extracts, whatever the undefined bits and the other samples hold |
| Packing.PlaceOfSample | src/smi.c:746-985 | per word group: the samples extracted determine every defined bit of the words |
| Packing.SampleIsLegal | src/smi.c:746-985 | every sample extracted fits the bus and has its replicated bits where the code puts them |
| Packing.StoreKeepsSample | src/smi.c:746-1015 | storing into uint8_t, uint16_t or uint32_t elements loses nothing |
| Packing.SlotIsSmallest | src/smi.c:746-1129 | and those elements are the smallest that hold the bus |
| Packing.Reverse18OfHalf | src/smi.c:987-995 | what `reverse18` does to a half word: its 16 bits in reverse order, the two highest lost |
| Streams.UnpackedLength | src/smi.c:911-931 | samples produced from n raw words, with a last incomplete group dropped |
| Streams.UnpackedAppend | src/smi.c:746-985 | unpacking may stop and go on at any group boundary |
| Streams.UnpackedPrefix | src/smi.c:746-985 | fewer raw words give a prefix of the samples |
| Streams.UnpackedIsLegal | src/smi.c:746-985 | whole transfers produce only samples that the format can carry |
| Streams.UnpackedOfPacked | src/smi.c:746-985 | round trip: unpacking the FIFO words of samples `s` gives `s` |
| Streams.SurvivesIffLegal | src/smi.c:835-909 | the round trip holds exactly for samples that fit the bus and repeat the replicated bits |
| Streams.SampleSurvivesIff | src/smi.c:746-985 | the same for a single sample of a transfer, whatever the others are |
| Streams.PrefixSurvivesIff | src/smi.c:746-985 | the first n samples survive exactly if the format can carry each of them |
| Streams.PackedOfUnpacked | src/smi.c:746-985 | the converse: repacking the samples gives back every raw word (for RGB565 all 32 bits, whatever fills the gaps) |
| Views.Rgb565Pairs8To16 | src/smi.c:746-765 | 8-bit RGB565 samples paired big-endian are the 16-bit samples, for every raw array |
| Views.XrgbPairs8To16 | src/smi.c:767-785 | 8-bit XRGB samples paired big-endian are the 16-bit samples, for every even count |
| Views.XrgbPairs9To18 | src/smi.c:791-805 | 9-bit XRGB samples joined are the 18-bit samples |
| Views.Xrgb18IsTopSix | src/smi.c:951-965 | an 18-bit XRGB sample is the upper six bits of each of the three 8-bit samples of its word |
| Views.Rgb565Pairs9To18 | src/smi.c:835-873 | 9-bit RGB565 samples joined are the 18-bit samples outside the replicated bits 0x1001 |
| Views.Rgb565ViewsAgreeIff | src/smi.c:835-873 | the two views agree in full exactly when, in every half word, bit 13 equals bit 15 and bit 7 is 0 |
| Views.CommentHoldsIff | src/smi.c:828-846 | the 9-bit RGB565 samples are those that the comment describes exactly when, in every half word, bit 13 equals bit 15 and bit 7 equals bit 4 |
| Views.XrgbCommentsAreExchanged | src/smi.c:787-831 | each of the two 9-bit XRGB unpackers does what the comment above the other says |
| Views.SwapExchangesNeighbours | src/smi.c:890-909 | the 9-bit swap variants exchange neighbouring samples and nothing else |
| Views.SwapLosesNothing | src/smi.c:890-909 | undoing the swap and repacking recovers every raw word |
| RawBuffer.RawBuf.Realloc | src/smi.c:403-410 | recorded size is allocated size; the common prefix is kept; a refusal changes nothing |
| RawBuffer.RawBuf.Resize | src/smi.c:66-85 | the three results, and the buffer is replaced exactly on success |
| RawBuffer.RawBuf.Reserve | src/smi.c:399-411 | the read goes on exactly when its words fit; the buffer never shrinks |
| RawBuffer.SizeIsRunningMaximum | src/smi.c:399-411 | over any history without an effective resize, the size is the maximum of the start and the granted reads |
| RawBuffer.SizeSinceResize | src/smi.c:66-85 | after any history the size is fixed by the last effective resize and the reads since |
| RawBuffer.RawBuf.Replay | src/smi.c:66-85 | on any history of reads and resizes, with any answers of the allocator, the recorded size is `SizeAfter`, and each call goes through exactly if the size left by the calls before it and the answer let it |
| Pipeline.RatioMatchesUnpacker | src/smi.c:1060-1093 | the ratio is the words and samples per step of the unpacker that `smi_unpack` selects |
| Pipeline.SamplesCoverRequest | src/smi.c:393-397 | the words read yield at least `len` and less than one group more, except `len - 1` for 16-bit XRGB with `len % 3 == 1` |
| Pipeline.WireIsDelivered | src/smi.c:389-448 | the FIFO words of a transfer, cut at the last word needed, unpack to enough samples, and those asked for are the ones on the wire if and only if the format can carry each of them |
| Pipeline.UnpackLoop | src/smi.c:746-1015 | the loop stores exactly the unpacking of the first `count` raw words and nothing behind it |
| Pipeline.SmiUnpack | src/smi.c:1017-1058 | the unpacker selected by width, format and swap; an unknown width stores nothing and is reported |
| Pipeline.SmiTruncate | src/smi.c:1131-1158 | the mask selected by width; an unknown width stores nothing |
| Pipeline.SettingsReachIff | src/smi.c:415-423 | hardware and driver use one documented layout (`SettingsReach`, `Understood`) if and only if the read is not packed, or the two devices are one, or the read device has the pixel format and swap already |
| Pipeline.ConfigureRead | src/smi.c:425-431 | all stale flags and FIFO words are gone before START |
| Pipeline.ReadWords | src/smi.c:415-443 | the set-up registers hold the address, device, length and settings asked for; the words stored are the first words of the transfer; a complete read leaves no word behind; a timeout only at or after the deadline; polls and sleeps as in `SmiReadAwait` |
| Pipeline.SmiProgrammedReadArr | src/smi.c:389-448 | end to end, in every interleaving: refused allocation; otherwise a transfer at the address asked for, with the polls and sleeps of `SmiReadAwait`: a timeout at or after the deadline, or all words the hardware packed are in the raw buffer, and the caller's slots hold the samples on the bus if and only if the format can carry each of those asked for; and exactly when the 21 words truncated after a timeout overrun the buffers |
| Pipeline.StoredWordsDeliver | src/smi.c:444-447 | the hardware's words, unpacked, are the samples on the wire if and only if the format can carry each of those asked for |
| Pipeline.WireIsLegal | src/smi.c:746-965 | formats without replicated bits carry everything the bus can show |
| Delivery.MismatchIsSeen | src/smi.c:415-423 | any two different packed layouts of one bus width are told apart by some peripheral |
| Delivery.DeliversIff | src/smi.c:389-448 | for two layouts: samples are right for all peripherals that drive what the format can carry, if and only if both sides use one layout and the transfer is not 16-bit XRGB with `len % 3 == 1` |
| Delivery.ReadDeliversIff | src/smi.c:389-448 | for the register banks and the context: a read is right for all such peripherals, and whatever the hardware feeds under undocumented settings, if and only if it is not packed, or reads and writes use one device, or the read device has the pixel format and swap already; and it is not 16-bit XRGB with `len % 3 == 1` |
| Delivery.DeliversAnythingIff | src/smi.c:389-448 | for peripherals that may drive anything, if and only if moreover the format replicates no bits |
| Delivery.NineBitSettings | src/smi.c:1031-1038 | at 9 bits WSWAP exchanges neighbours, and without it samples joined two by two are the 18-bit view of the same pixel format, the earlier one high |
| Delivery.FedIsFeed | src/smi.c:415-424 | the FIFO words that `ReadDeliversIff` speaks of are those the device feeds into a transfer under the settings of the selected bank |
| Delivery.GetsIsWhatTheCallerHas | src/smi.c:444-447 | ties that statement to the caller's buffer after a complete read |
| Direct.AddressesModulo64 | src/smi.c:324-325 | the address of the i-th word is `addr + i` for a positive increment, `addr - i` for a negative one and `addr` for none, modulo 64: the `uint8_t` wrap-around never shows |
| Direct.StartIsNotLost | src/smi.c:521-522 | START on an idle port starts the transfer and, being a read-modify-write, acknowledges the previous DONE |
| Direct.StartIsLostInFlight | docs/smi-docs/smi-docs.md:166 | START during a transfer leaves it as it is, and is counted as lost |
| Direct.Low8Bits | src/smi.c:317 | the byte returned is the word without its upper 24 bits |
| Direct.Low18Bits | docs/smi-docs/smi-docs.md:186-187 | the data register keeps the lower 18 bits |
| Direct.WaitingGoesOn | docs/smi-docs/smi-docs.md:165-166 | until DONE reads as set the transfer in flight is the one just started; DONE means that very one has completed |
| Direct.Port.Advance | docs/smi-docs/smi-docs.md:165-166 | between two accesses a transfer in flight may complete; each transfer completes within its own number of looks, or never |
| Direct.Port.PollDone | docs/smi-docs/smi-docs.md:165 | a poll of DONE sees the port as it may be by then, and is counted, one that saw DONE also by itself |
| Direct.ReadWord | src/smi.c:299-322 | one START, one transfer, its own DONE, the low byte; on a timeout at most that transfer was made |
| Direct.SmiReadAwaitDirect | src/smi.c:285-329 | one transfer per word at the expected addresses, none lost, the words read are the memory's low bytes; each wait ends at the first sight of DONE; ends for every device, after at most one poll for each word, 512, and the sleeps that fit; a timeout only after more than 192 polls |
| Direct.AwaitWrite | src/smi.c:524-537 | whatever the device: DONE ends the wait only for the transfer just started; a transfer that stalls among the first 192 is still waited for after any number of polls, all of them made, with the clock never looked at; otherwise the polls made are no more than one beyond any number that is `Enough` |
| Direct.WriteWord | src/smi.c:519-537 | one START, one transfer with the word written; no stale DONE ends the wait |
| Direct.WriteEndsIff | src/smi.c:517-543 | on a clock that moves, a number of polls per word exists that is enough for the whole write if and only if the device completes the first 192 transfers |
| Direct.SmiWriteAwaitDirect | src/smi.c:506-546 | whatever the device: one transfer per word at the expected addresses, none lost, the memory is the data written in order; each wait ends at the first sight of DONE; a timeout only after 192 words; the run ends only if the first 192 transfers complete, and a run that has not ended has polled a word to the limit; the polls made fit any number per word that is enough |
| DirectMemory.LastWriteWins | src/smi.c:519-541 | for any length and increment the memory is last-write-wins over addresses modulo 64 |
| DirectMemory.DistinctAddressesReturn | src/smi.c:285-329 | up to 64 words in one direction read back as their low bytes |
| DirectMemory.RoundTripIff | src/smi.c:285-329 | write then read-back returns all data for every memory if and only if no address is used twice |
| DirectMemory.WorkersRoundTrip | src/smi.c:506-546 | the two workers in sequence return the low bytes, with exactly one transfer per word each way |
| Irq.NextInv | smi-irq/smi_irq.c:34-66 | every atomic step of handler or reader keeps the counter invariant |
| Irq.EveryRun | smi-irq/smi_irq.c:34-66 | on every run of N readers the counter is handled less completed, and it and its remainder after readers past the wait are at least 1 - N |
| Irq.BoundIsReached | smi-irq/smi_irq.c:59-66 | some run of N readers ends at 1 - N |
| Irq.PollIsExact | smi-irq/smi_irq.c:48-61 | on every run of N readers a poll reports readable exactly when more interrupts are handled than reads completed, which is also exactly when a waiting reader can pass |
| Irq.PollIsAPromise | smi-irq/smi_irq.c:48-57 | with one reader, once poll says readable the next read does not block, whatever the others do |
| Irq.ReadGivenUp | smi-irq/smi_irq.c:61 | a read interrupted in its wait leaves no trace |
| Irq.EventCanBeLost | smi-irq/smi_irq.c:36-43 | an event whose DONE the driver clears before the handler looks is never counted |
| Irq.NeverNegativeIff | smi-irq/smi_irq.c:59-66 | the counter stays non-negative on all runs if and only if there is one reader |
| Dma.DelayDoubles | src/smi.c:642 | the k-th sleep is 1000 ns doubled min(k, 7) times |
| Dma.SleptGrows | src/smi.c:639-642 | the time slept in the first k sleeps, once the delay has settled |
| Dma.SleepsAreFew | src/smi.c:630-643 | sleeps taken with the deadline ahead number at most 8 + T/128 us |
| Dma.SmiDmaAwait | src/smi.c:621-646 | for every completion time: success at the first sight of END, or abort at or after the deadline; what the clock slept is exactly the delay schedule, one sleep and one look at the clock between two polls of END, and at most 8 + T/128 us of them |
| Gpio.FieldOfPut | src/gpio.c:109 | the masked update sets one field and leaves the nine others and the reserved bits alone |
| Gpio.UpdateIsMapUpdate | src/gpio.c:106-110 | the register update is the update of the pin map at one pin |
| Gpio.GpioMode | src/gpio.c:106-110 | the in-place update of the registers |
| Gpio.Smi8bInit | src/smi.c:225-231 | from any state, pins 0 to 25 become ALT1 and every other pin is preserved |

## Left out

- SmiWriteAwaitDirect: a run followed to its end asks for a device for which the run has one, as Dafny has no methods without end; runs on every other device are followed through any number of polls.
- SmiProgrammedReadArr: `len` is non-negative and `len * ratio` does not exceed 32 bits, as the code guards neither; what happens after an overrun is not defined. A call while an earlier transfer is still active, as after a timeout, is not modelled, because the effect of writing set-up registers then is not documented; `StartMeetsOldTransfer` says that its START begins nothing while the old transfer goes on, and `SmiReadAwait`, which holds for an active engine too, that its loop would then take the old transfer's words.
- SmiProgrammedWriteArr: a call while an earlier transfer is still active, for the same reason. For a length of 2^31 - 1 the source's `len + 1` overflows, which the model's integers do not.
- LiteReadAwait: the source's `spin` is an `int` that is never reset and overflows after 2^31 - 1 iterations; `SpinFitsInt` shows that a clock whose looks are 24 ns apart or more excludes this, on a faster one the model's counter just goes on.
- SmiReadAwaitDirect: the CLEAR of the programmed-mode FIFOs on a direct timeout is not modelled; direct mode does not use them.
- PAD, PRDY, TEEN, the interrupt enables and pixel value mode; a transfer is modelled with PAD 0.
- The null checks on the context; the buffers' null checks are modelled.
- 18-bit RGB565 swap: its expression is modelled, but not its inverse, as the source says that it is not correctly implemented.
- Reversed bit order (WSWAP) for packed 8-, 16- and 18-bit reads: the driver ignores it, and the hardware's words are then arbitrary.
- `smi_direct_read`, `smi_direct_read_arr`, `smi_direct_write_arr`: their extra START makes results depend on device timing.
- The direct workers and the unpackers of `src/smilite.h`, which repeat those of `src/smi.c` apart from the spin limits.
- The effect of yielding and of `sched_yield` on other threads; they only pass time.
- Mapping, files, clock set-up, DMA descriptors, cache coherency, strobe timing, kernel registration and wait-queue wake-up.
- `smi_configure_write_device`, `gpio_set`, the benchmarks, `main.c` and the example programs: straight-line or drivers of tests.
- Log and error messages, including the warning about data left over in the RX FIFO.
