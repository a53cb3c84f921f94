# A verified model of the logger's flash store and sample pipelines

This project models, in Dafny, the parts of the three-phase logger's firmware that keep state:

* **The EEPROM emulation** on two flash pages: a log of (data, virtual address) entries, copied to the other page
  when it is full, and repaired by `EE_Init` after a power loss. It is modelled twice: as functions that give the
  run of flash operations each call issues (`store.dfy`), and as a class that programs and erases cells in place
  and is proved to perform exactly those runs, or, on a flash error, a prefix of them (`eeprom.dfy`). A power loss is
  any prefix of a run. The number N of slots a page stays symbolic.
* **Buffers and the calibration block** above it: range writes and reads, the CRC, and the RAM copy.
* **The sampling task of the external ADC**: record assembly and calibration, the windows with their sums, the
  period counter, the chunk recorder.
* **The task of the internal ADC**: the conversion sequence and the smoothing filter.

The modules, bottom up:

| file | content |
|---|---|
| `arithmetic.dfy` | C's integer widths and division, powers of two |
| `flash.dfy` | memory, the two atomic operations, NOR programming, flash discipline |
| `slot_log.dfy` | a page as a log: forward scan, backward scan, replay |
| `store.dfy` | the run of flash operations of every call; phases, meaning and soundness of a memory |
| `store_steps.dfy` | the copying loop, completed and cut at any point |
| `write_safety.dfy` | a write, completed and cut at any point |
| `recovery.dfy` | `EE_Init`, from any memory and from a sound one |
| `source_page.dfy` | what a transfer, finished or not, leaves of the page it copies from and the page it copies into |
| `power_loss.dfy` | one write or recovery cut anywhere, and the next `EE_Init`; loss at the double point, and lack of room |
| `store_runs.dfy` | whole lives of the store |
| `store_wear.dfy` | refinement of a plain map, and wear |
| `eeprom.dfy` | the emulation on cells updated in place |
| `eeprom_storage.dfy` | buffers |
| `crc.dfy` | the checksum against bit-serial division; burst errors |
| `calibration_block.dfy`, `storage_calibration.dfy` | the calibration block, as bytes and as a RAM copy of the flash |
| `samples.dfy`, `sample_window.dfy`, `period_counter.dfy`, `chunk_recorder.dfy`, `external_adc.dfy` | the external ADC |
| `smoothing.dfy`, `task_adc.dfy` | the internal ADC |
| `shipped_layout.dfy` | byte addresses, and where the shipped constants deviate from the layout |

Assumptions: programming one half-word and erasing one page are each atomic, and fail without effect if the HAL
reports an error. A half-word is programmed by clearing bits. A conversion interrupt arrives only for a conversion
that has been started. The clock test that closes a window is arbitrary, and so is which calls of the HAL
report an error.

In the lemmas, `After(m, r.ops, k)` is the memory a power loss leaves k operations into the run r, `Apply(m, r.ops)`
the one after the whole run, and `StableAt(m, p, n, vs)` says that the store is initialised, in page p with n slots a
page, and holds the variables vs. The double point of a recovery is the one between marking the receiving page valid and
erasing the other.

## Model

| member | source | states |
|---|---|---|
| Flash.Nor | mcu/src/eeprom_emulation.c:667-673 | a half-word is programmed by clearing bits: an erased one takes the value, and zero can always be programmed |
| Flash.NorIsBitwise | mcu/src/eeprom_emulation.c:667-673 | each bit of the cell stays set exactly if the value has it too |
| Flash.DisciplinedIsAssignment | mcu/src/eeprom_emulation.c:665-675 | in a run that programs only erased half-words, or moves a header from RECEIVE_DATA to VALID_PAGE, programming is plain assignment at every point of the run |
| SlotLog.FirstFree | mcu/src/eeprom_emulation.c:662-680 | the forward scan gives the first free slot: none before it is free, and it is free unless the page is full |
| SlotLog.NewestIsReplay | mcu/src/eeprom_emulation.c:475-503 | the backward scan finds what a replay of the log from the front, later entries overwriting earlier ones, gives to the variable |
| Eeprom.Emulation.FindValid | mcu/src/eeprom_emulation.c:588-630 | the page to read from or to write to, for every pair of headers |
| Eeprom.Emulation.IsFullyErased | mcu/src/eeprom_emulation.c:418-441 | true exactly if the header and every virtual-address half-word are 0xFFFF |
| Eeprom.Emulation.Read | mcu/src/eeprom_emulation.c:453-507 | the value of the newest entry in the page to read from; not found, or no page |
| Eeprom.Emulation.Append | mcu/src/eeprom_emulation.c:642-684 | performs, on the cells, the run of an append: data and then virtual address in the first free slot, or PAGE_FULL; it stops at the first HAL call that fails, and only there |
| Eeprom.Emulation.CopyVariables | mcu/src/eeprom_emulation.c:743-759 | performs the run of the copying loop, which passes over one variable and stops at the first failure |
| Eeprom.Emulation.Transfer | mcu/src/eeprom_emulation.c:697-782 | performs the run of a page transfer: mark, new value, copies, erasure, mark |
| Eeprom.Emulation.Write | mcu/src/eeprom_emulation.c:519-534 | performs the run of a write, an append or a transfer if the page is full, up to the first HAL call that fails, if one does |
| Eeprom.Emulation.Format | mcu/src/eeprom_emulation.c:542-577 | performs the run of formatting |
| Eeprom.Emulation.Resume | mcu/src/eeprom_emulation.c:267-301 | performs the run of a resumed transfer, which passes over the variable in slot 0 of the receiving page |
| Eeprom.Emulation.Init | mcu/src/eeprom_emulation.c:204-406 | performs the run of EE_Init, on every pair of headers and every content |
| Eeprom.RanExactly | mcu/src/eeprom_emulation.c:204-782 | for every method above: it stops with a flash error exactly if one of the HAL calls for the operations of its run fails; otherwise it performs the whole run and returns its status |
| StoreSteps.CopyLoop | mcu/src/eeprom_emulation.c:743-759 | the loop succeeds exactly when the receiving page has room for every variable still missing, takes one slot for each, and delivers all |
| StoreSteps.CopyLoopCrash | mcu/src/eeprom_emulation.c:743-759 | cut after any number of operations, also between the halves of an entry, the receiving page stands for the same variables, holds nothing else, and uses no more slots than the whole loop needs |
| WriteSafety.TransferCompletes | mcu/src/eeprom_emulation.c:697-782 | a transfer succeeds exactly when the variables fit one page; it then leaves one slot for each |
| WriteSafety.WriteCompletes | mcu/src/eeprom_emulation.c:519-534 | a write succeeds exactly when there is a free slot or all variables fit one page; the store then holds the old variables with this one updated |
| WriteSafety.WriteCrash | mcu/src/eeprom_emulation.c:519-534 | a write cut after k operations, any k, leaves a sound memory that means the old variables, or those with this one updated, from the programming of its virtual address on |
| WriteSafety.WriteDisciplined | mcu/src/eeprom_emulation.c:665-675 | every operation of a write programs an erased half-word or moves a header from RECEIVE_DATA to VALID_PAGE |
| Recovery.InitNormalises | mcu/src/eeprom_emulation.c:204-406 | from any headers and contents: if EE_Init succeeds, exactly one page is valid and the other erased; and it keeps the flash discipline exactly unless page 0 is valid and page 1's header is none of the three known values |
| Recovery.NormalPagesCoincide | mcu/src/eeprom_emulation.c:588-630 | then the page to read from and the page to write to are the same |
| Recovery.InitKeepsPage | mcu/src/eeprom_emulation.c:226-251 | next to a page with an erased header, whatever its slots hold, a valid or receiving page keeps all its entries and is valid afterwards; a valid one reads as before |
| Recovery.ResumeCompletes | mcu/src/eeprom_emulation.c:264-301 | a resumed transfer succeeds exactly when there is room for what is left to copy, and keeps the variables |
| PowerLoss.InitCompletes | mcu/src/eeprom_emulation.c:204-406 | from every sound memory but one with two valid pages, EE_Init succeeds exactly when the receiving page has room, and keeps the variables |
| PowerLoss.RecoveryCutExactly | mcu/src/eeprom_emulation.c:286-301 | cutting a recovery loses variables if and only if the receiving page has room, only the last operation, the erasure, is missing, and there are variables to lose |
| PowerLoss.DoublePointLosesAll | mcu/src/eeprom_emulation.c:333-340 | at that point the next EE_Init formats, and no variable is found any more |
| PowerLoss.DoublePointIsReached | mcu/src/eeprom_emulation.c:286-301 | the loss is real: from every initialised store whose page is full and whose variables fit one page, a write cut after its third operation leaves a sound memory that holds the new value, and an EE_Init that can be cut at that point, which loses it and all others |
| PowerLoss.CommittedWriteUndone | mcu/src/eeprom_emulation.c:204-406 | if page 1 is the source, the same recovery and then a format cut after its first operation bring back the store from before the write, although the write had counted |
| PowerLoss.NoRoomIsReached | mcu/src/eeprom_emulation.c:267-284 | a transfer cut just before its erasure leaves a store of L variables whose recovery needs exactly 2 L - 1 slots; with 256 variables EE_Init then fails for N below 511 |
| Recovery.DoubledInit | mcu/src/eeprom_emulation.c:333-340 | with both pages valid EE_Init formats: completed, all is lost; cut after its first operation, page 1 is valid again with all it holds; cut after its second, both are valid as before |
| SourcePage.DoublePointSides | mcu/src/eeprom_emulation.c:286-301 | at the double point page 1 holds the new variables if it is the page copied into, and otherwise those from before the write |
| SourcePage.NoRoomPersists | mcu/src/eeprom_emulation.c:267-284 | a recovery without room reports PAGE_FULL, and wherever it is cut the next one needs at least as much room |
| PowerLoss.WriteIsAtomic | mcu/src/eeprom_emulation.c:519-534 | power loss after any k operations of a write, for every N > 0: the next EE_Init completes if and only if the receiving page has room, and then reading gives the old variables or exactly this one updated; with N >= 512 it always completes |
| StoreRuns.WriteStep | mcu/src/eeprom_emulation.c:642-782 | capacity: with N >= 256 every write to an initialised store succeeds, across a transfer or not |
| StoreRuns.RunIsSafe | mcu/src/eeprom_emulation.c:204-534 | every run of writes and recoveries, each completed or cut anywhere, for every N >= 256: the store holds exactly what a reference on plain maps says, also through the double point and formats cut short; every operation is disciplined, every completed write succeeds, and every completed recovery succeeds if and only if it has room, which is sure for 256 * (j + 2) <= N after j recoveries in a row not completed |
| StoreRuns.NothingLost | mcu/src/eeprom_emulation.c:204-534 | in a run in which no recovery is cut at the double point, the reference is a possible outcome over a plain map: completed writes update it, cut ones may have, recoveries leave it alone |
| StoreRuns.NothingInvented | mcu/src/eeprom_emulation.c:204-534 | in every run, whatever a variable holds in the end was there in the beginning or has been written to it |
| StoreRuns.NoRoomForever | mcu/src/eeprom_emulation.c:264-284 | once the receiving page has no room, every later recovery fails, completed or cut, and the variables it stands for stay the same |
| StoreRuns.LifeOfAStore | mcu/src/eeprom_emulation.c:204-534 | from a blank chip, after any run: one more EE_Init succeeds if and only if it has room, and EE_ReadVariable then finds exactly what the reference holds |
| StoreWear.WritesRefineMap | mcu/src/eeprom_emulation.c:519-534 | any number of writes refines a plain map; erasures are paid for by N - 255 writes each, with the slots in use as potential |
| StoreWear.WearBound | mcu/src/eeprom_emulation.c:743-767 | W writes to an empty store cause T page erasures with T * (N - 255) <= W |
| StoreWear.ReadsLastWrite | mcu/src/eeprom_emulation.c:453-507 | across any number of transfers, reading returns the last value written, or not found if there was none |
| EepromStorage.WriteBuffer | mcu/src/eeprom_storage.c:76-90 | performs the run of a buffer write: each word that is absent or different is written, up to the first failure |
| EepromStorage.ReadBuffer | mcu/src/eeprom_storage.c:92-103 | every word read, or stopped at the first variable not found, with 0xFFFF there and the rest of the array untouched |
| EepromStorage.BufferCompletes | mcu/src/eeprom_storage.c:76-90 | a buffer write succeeds and stores the buffer; if the words that differ fit the page, it takes exactly that many slots and every operation programs a slot, so that no page is erased |
| EepromStorage.BufferRoundTrip | mcu/src/eeprom_storage.c:76-103 | every word reads back, and every variable outside the range reads as before |
| EepromStorage.RewriteIsFree | mcu/src/eeprom_storage.c:82 | writing the same buffer again performs no flash operation |
| EepromStorage.BufferCrash | mcu/src/eeprom_storage.c:76-90 | a buffer write cut anywhere has stored the words up to some word, and no others |
| Crc.CalcCrc | mcu/src/storage_calibration.c:23-33 | the loop computes the bit-serial CRC of the bits of the message, from a register with the bits 0, 5 and 12 set; 0x1021 for the empty message |
| Crc.ByteIsEightBits | mcu/src/storage_calibration.c:28-30 | the shift-and-xor step is eight steps of division by x^16 + x^12 + x^5 + 1 |
| Crc.CrcIsBitSerial | mcu/src/storage_calibration.c:23-33 | for every length the byte-wise checksum is the bit-serial CRC from that register |
| Crc.BurstDetected | mcu/src/storage_calibration.c:23-33 | two messages of the same length that differ only within 16 consecutive bits, at any bit position, never have the same checksum |
| Crc.TwoBytesDetected | mcu/src/storage_calibration.c:23-33 | in particular if they differ only in two adjacent bytes |
| CalibrationBlock.DefaultIsIdentity | mcu/src/storage_calibration.c:100-107 | under the default coefficients every 32-bit input is unchanged |
| CalibrationBlock.CalibrationExact | mcu/src/storage_calibration.c:100-107 | for all coefficients and inputs the result is c0 + c1 x + c2 x x over 65536, rounded towards zero, whenever that fits 32 bits, and otherwise up to a multiple of 2^32 |
| CalibrationBlock.PolynomialFits | mcu/src/storage_calibration.c:100-107 | the 64-bit evaluation overflows in no step for any coefficients if and only if the input is at most 65535 in magnitude; beyond that, coefficients that overflow are given |
| CalibrationBlock.BytesOfWords | mcu/src/storage_calibration.c:90-92 | copying the block into half-words and back gives the block |
| CalibrationBlock.DecodeOfEncode | mcu/src/storage_calibration.c:87-98 | the coefficients read out of the block are those copied into it |
| CalibrationBlock.EncodedLayout | mcu/modules/rpc/include/rpc_transmission/server/app/qt2mcu.h:91-105 | the bytes of the block: triple after triple, each of them c0, c1, c2 |
| CalibrationBlock.DefaultBytes | mcu/src/storage_calibration.c:62-71 | of the default every triple has one byte that is not zero, the third of c1 |
| CalibrationBlock.LittleEndian | mcu/src/storage_calibration.c:90-92 | 32-bit words lie in memory least significant byte first |
| CalibrationBlock.BufferTail | mcu/src/storage_calibration.c:90-92 | what is stored behind the block is zero |
| CalibrationBlock.IntactBlocksApart | mcu/src/storage_calibration.c:43-51 | of an intact block and any block that differs from it only in two adjacent bytes, anywhere, the other passes the CRC check exactly if it is the same or the twin, which differs in the high byte of the field by 0xA1 and in the first byte of padding by 0x89 |
| CalibrationBlock.TwinIsIntact | mcu/src/storage_calibration.c:43-51 | every intact block has that twin: a different block that passes the check, although only two adjacent bytes differ |
| Crc.StepIsLinear | mcu/src/storage_calibration.c:28-30 | the difference of two registers and two bytes goes through the step like a register and a byte |
| Crc.DifferenceCarried | mcu/src/storage_calibration.c:23-33 | the checksums of two messages that differ in one byte differ by what the step, and then zero bytes, make of that difference |
| StorageCalibration.Calibration.SetCrc | mcu/src/storage_calibration.c:35-41 | the checksum over the block with its own field zero is put into the field |
| StorageCalibration.Calibration.CheckCrc | mcu/src/storage_calibration.c:43-51 | true exactly for an intact block, which is unchanged |
| StorageCalibration.Calibration.Load | mcu/src/storage_calibration.c:53-60 | true exactly if all 160 variables are there; the RAM copy is then what the flash holds |
| StorageCalibration.Calibration.LoadDefault | mcu/src/storage_calibration.c:62-74 | all coefficients become the identity, and are stored |
| StorageCalibration.Calibration.Init | mcu/src/storage_calibration.c:76-85 | takes over an intact block without touching the flash; otherwise stores the default |
| StorageCalibration.Calibration.Store | mcu/src/storage_calibration.c:87-93 | the RAM copy is intact and decodes to the data, and is written to the flash |
| StorageCalibration.StoreAgrees | mcu/src/storage_calibration.c:87-93 | after calib_store the flash holds exactly the RAM copy |
| StorageCalibration.InitAgrees | mcu/src/storage_calibration.c:76-85 | after calib_init, from any initialised store, the RAM copy is intact and the flash holds exactly it |
| StorageCalibration.MissingBlockIsIdentity | mcu/src/storage_calibration.c:62-85 | if the flash holds no intact block, every channel is the identity on every 32-bit input after calib_init |
| StorageCalibration.SurvivesPowerUp | mcu/src/main.c:259-260 | a stored calibration survives EE_Init and calib_init, which writes nothing |
| StorageCalibration.TornStore | mcu/src/storage_calibration.c:87-93 | power loss anywhere in calib_store, for every N >= 256: the next EE_Init completes if and only if the receiving page has room, and then the flash holds the new block up to some word and the old one from there on; with N >= 512 it always completes |
| StorageCalibration.OneWordMissingIsNoticed | mcu/src/storage_calibration.c:43-51 | such a block, if it differs from the new or the old one in just one half-word but is neither, fails the CRC check |
| Samples.CurrentMeaning | mcu/src/task_external_adc.c:539-566 | a current is the stronger of its two sensors, signed by direction: the difference of the two if only one responds, and reversed if they are exchanged |
| Samples.AssembledRepresents | mcu/src/task_external_adc.c:539-586 | each value of a record is what its raw channels mean: a voltage and the reference add up to the raw voltage, a current is that of its own two sensors, the others are taken over |
| Samples.CalibrateIsCalibrated | mcu/src/task_external_adc.c:437-445 | a positive value goes through its channel's positive triple, any other through the negative one, rounded towards zero and kept to 16 bits |
| Samples.AssembledBelow4096 | mcu/src/task_external_adc.c:539-586 | before calibration every value stays below 4096 in magnitude, as the overflow guard supposes |
| Samples.DefaultKeepsRecord | mcu/src/task_external_adc.c:437-445 | under the default calibration a record is what the converter sent |
| SampleWindow.PeakIsMaximum | mcu/src/task_external_adc.c:632-656 | the peak is the largest magnitude: none exceeds it and one attains it |
| SampleWindow.MeansAreOrdered | mcu/src/task_external_adc.c:684-708 | for every window: (truncated mean)^2 <= floored mean square <= peak^2 |
| SampleWindow.PublishExact | mcu/src/task_external_adc.c:684-723 | what is published of a current or voltage is exactly the mean, and of a current or line voltage exactly the root of the mean square, with abs(average) <= effective <= peak |
| SampleWindow.MeanFrom | mcu/src/task_external_adc.c:684-708 | which channels publish what: averages rounded towards zero of all currents and voltages, effective values of the currents and line voltages only, temperatures as unsigned averages |
| SampleWindow.SumsFit | mcu/src/task_external_adc.c:624-675 | with fewer than 2^32 records no 64-bit sum overflows, whatever the samples |
| SampleWindow.GuardSuffices | mcu/src/task_external_adc.c:677-679 | for magnitudes up to 4096 the asserted guard bounds the sums of squares below 2^63 |
| SampleWindow.PowerIsThreePhase | mcu/src/task_external_adc.c:606-622 | for every window the power is that of all three phases less that of the current that does not return; exactly that of three phases if the currents add up to zero |
| SampleWindow.PowerBounds | mcu/src/task_external_adc.c:608-622 | with magnitudes up to m the power sum is at most 2 * m^2 a record |
| SampleWindow.PowerFits | mcu/src/task_external_adc.c:727 | with fewer than 2^32 records the power sum fits 64 bits, and its mean the 32 bits published |
| SampleWindow.HeldExactly | mcu/src/task_external_adc.c:710-723 | the peak handed out is the largest since the last time, for currents if and only if no window's peak, or the last one's, is 32768 |
| SampleWindow.PeakOfCurrentReached | mcu/src/task_external_adc.c:588-590 | the peak 32768 is within reach: coefficients with which a raw current of 4095 is calibrated to -32768 |
| SampleWindow.Window.Gather | mcu/src/task_external_adc.c:622-681 | the accumulators are the sums, squares and peaks of the records of the window; false exactly when the guard reaches 2^63 |
| SampleWindow.Window.Close | mcu/src/task_external_adc.c:682-733 | publishes, channel by channel, the means, roots and held peaks of exactly the window's records, over their 32-bit count, and begins anew; false exactly when that count is zero |
| SampleWindow.Window.TakePeak | mcu/src/task_external_adc.c:235-242 | hands out the largest magnitude in all windows closed since the last time, which one of their samples has; for currents (:276-283) exactly if no sample, or one in the last window, has the magnitude 32768; other channels are untouched |
| PeriodCounting.PeriodsConserve | mcu/src/task_external_adc.c:592-604 | the lengths of all counted periods add up to the number of records up to the last one that ended a period |
| PeriodCounting.CrossedBetween | mcu/src/task_external_adc.c:593-604 | between two ends of periods the signal has been above the positive threshold then in force |
| PeriodCounting.PeriodsAreLong | mcu/src/task_external_adc.c:593-604 | so no period but the first is shorter than two records |
| PeriodCounting.NoPeriodExactly | mcu/src/task_external_adc.c:592-604 | a window has no counted period, so that the source divides by zero, if and only if the trigger is armed and no sample is below, or it is not armed and none is below after one above |
| PeriodCounting.PeriodCounter.Count | mcu/src/task_external_adc.c:592-604 | the trigger and the counters follow the definition of periods: a sample below the negative threshold ends one if every earlier one is separated from it by a sample above the positive threshold |
| PeriodCounting.PeriodCounter.CloseWindow | mcu/src/task_external_adc.c:716-726 | the period length is the time between the last ends of periods before and in the window, over their number |
| ChunkRecorder.Recorder.Push | mcu/src/task_external_adc.c:736-753 | the capture is whole blocks of the stream, in order, from its first block on; once complete it is frozen |
| ChunkRecorder.Recorder.Start | mcu/src/task_external_adc.c:349-351 | the capture begins with the block being filled |
| ChunkRecorder.Recorder.Get | mcu/src/task_external_adc.c:337-347 | the 32 samples of one channel at the read index, which advances and wraps at 128 |
| ChunkRecorder.Capture | mcu/src/task_external_adc.c:736-753 | after enough records the capture is complete: 4096 records, beginning with those of the block that was being filled at the start |
| ChunkRecorder.Replay | mcu/src/task_external_adc.c:333-347 | 128 reads of a channel, with any records arriving in between, return the capture in order and bring the read index back to 0 |
| ExternalAdc.SampleTask.Word | mcu/src/task_external_adc.c:502-590 | each word replaces its channel's value; the last channel's completes a record, made of what the latest raw values mean, each calibrated by its triple; false exactly if an assertion of the source fails |
| ExternalAdc.SampleTask.Process | mcu/src/task_external_adc.c:588-753 | window, period counter and recorder work on the same stream, window by window; the next threshold is the peak of exactly the window that closes; false exactly if the guard reaches 2^63 or a closing window counts no record |
| Smoothing.OutputBounded | mcu/src/task_adc.c:260-269 | inputs up to M and a start of at most 15 M: no output exceeds M |
| Smoothing.FollowsDistance | mcu/src/task_adc.c:260-269 | for a constant input the distance from the band [15 x, 15 x + 15] becomes 15/16 of itself, rounded down, at each step, and the error of each output is exactly what the step takes off |
| Smoothing.OutputsApproach | mcu/src/task_adc.c:260-269 | the outputs approach the input monotonically, from one side |
| Smoothing.ReachedExactly | mcu/src/task_adc.c:260-269 | the output equals the input exactly when the distance is used up, and then nothing changes any more |
| Smoothing.Converges | mcu/src/task_adc.c:260-269 | from every state that does not wrap the output is exactly the constant input after 220 steps, and stays so |
| TaskAdc.AdcTask.ConversionComplete | mcu/src/task_adc.c:285-305 | the queue was empty, so no result is lost; afterwards it holds exactly this one |
| TaskAdc.AdcTask.Turn | mcu/src/task_adc.c:231-280 | results are taken in the cyclic order of the channels, one conversion or one queued result at any time; every fifth one smooths the five values of its round |
| TaskAdc.AdcTask.Smooth | mcu/src/task_adc.c:260-272 | accumulators and outputs of all channels are those of the filter over the inputs of all rounds |
| TaskAdc.AdcTask.ValuesValid | mcu/src/task_adc.c:212-214 | the values are valid exactly after more than 16 rounds |
| ShippedLayout.PlacesAreApart | mcu/src/eeprom_emulation.c:657-673 | in the layout of reads and writes every half-word lies inside its page and no two overlap; N is 32767 |
| ShippedLayout.HeaderConstantInsidePage0 | mcu/include/eeprom_emulation.h:77 | the header constant of page 1 is the virtual address of slot 0xFFF of page 0 |
| ShippedLayout.ShippedViewExactly | mcu/include/eeprom_emulation.h:77 | reading page 1's header there makes no difference to an initialised store in page 0 if and only if that slot carries no virtual address |
| ShippedLayout.HeaderConstantCollides | mcu/include/eeprom_emulation.h:77 | so the append that fills that slot overwrites what the source takes for page 1's header: variable 0 makes both pages look valid and EE_Init format, any other gives the stray header, which EE_Init takes for an interrupted transfer |
| ShippedLayout.WriteScanVisits | mcu/src/eeprom_emulation.c:660-663 | the write loop visits one slot more than fits; its virtual address is, for page 0, the header of page 1 |
| ShippedLayout.ErasedCheckVisits | mcu/src/eeprom_emulation.c:418-437 | called with either page's constant, the check steps through addresses of page 0 only: all of them, or for page 1 the 0x7000 virtual addresses from slot 0xFFF on |
| ShippedLayout.ErasedCheckAnswers | mcu/src/eeprom_emulation.c:418-441 | so it is right for page 0; for page 1 it is true exactly if the slots of page 0 from 0xFFF on carry no virtual address |
| ShippedLayout.ReadScanVisits | mcu/src/eeprom_emulation.c:475-478 | the read loop visits the slots from two behind the page down to slot 1; behind page 0 these are the header and slot 0 of page 1 |
| ShippedLayout.ShippedReadExactly | mcu/src/eeprom_emulation.c:475-503 | so it finds what a scan of the page finds if and only if a slot behind the page has the variable with the same value, or none has it and slot 0 is not the only slot of the page with it |

## Where the code and its documentation differ

The model follows the code. `EE_Init` (mcu/src/eeprom_emulation.c:354-391) treats any unknown header of page 1 next to a
valid page 0 as an interrupted transfer, while the mirrored case formats. `EE_VerifyPageFullyErased` (:418-441) does not
look at data half-words, so a slot with only its data programmed passes. `extadc_start_acquire_sample_data`
(mcu/src/task_external_adc.c:349-351) does not wait for a block boundary. The voltage called l32 is computed from the raw
channel called l23 (:572). The held peaks of currents are signed (:60, :711).

## Left out

- Physical geometry: the proofs about the store use pages and slots; `shipped_layout.dfy` gives the layout and the
  four deviations of the shipped constants from it. With the deviations the theorems do not hold as they stand. Sector
  numbers are abstracted to "erase this page".
- Eeprom.Emulation.HalErase: an operation that reports an error is taken to have changed nothing; the codes of the HAL are
  one status, which ends the call.
- The three copying loops of the source (mcu/src/eeprom_emulation.c:267-284, :357-374, :743-759) differ only in the
  variable they pass over, and are one method here.
- eeprom_init ignores the result of EE_Init; the theorems about the calibration start from an initialised store.
- check_for_overlaps (mcu/src/eeprom_storage.c:23-65): its test is false for every range that does not wrap around, so it
  does nothing to the store; ranges inside the 256 variables are required instead.
- StorageCalibration.Calibration.Store: a failed write ends in an assertion in the source; here it is the status returned.
- CalibrationBlock.PolynomialFits: beyond 65535 in magnitude some coefficients overflow the signed 64-bit sum, which C leaves
  undefined; the polynomial is modelled without wrap-around.
- SampleWindow.Window.Close: round(sqrt(x)) is modelled as the nearest integer root, which double precision gives
  for the mean squares that occur. The 64-bit sums are unbounded here; by SumsFit and PowerFits that makes no difference
  below 2^32 records.
- PeriodCounting.PeriodCounter.CloseWindow: the period length of a window without a counted period is arbitrary, because the
  source divides by zero; the counters are unbounded, and wrap in the source after 2^32 records without a period.
- TaskAdc.AdcTask.Smooth: the conversion to millivolts and degrees (mcu/src/task_adc.c:238-258), its division by the
  reference reading and negative temperatures are a parameter.
- The half-buffer switching of the DMA (mcu/src/task_external_adc.c:499-504, :761-765), time stamps and frequency
  reporting: they carry no invariant of their own.
- Critical sections are taken to be atomic; each method of the recorder is one.
- HAL, FreeRTOS, clocks, display, keys, LEDs, the supervisor and the RPC layer: foreign calls and thin wrappers.
