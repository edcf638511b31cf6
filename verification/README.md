# Model of the DFU engine and the audio paths

This project models the parts of an embedded voice platform in which several tasks, wrapping clocks and fixed-width
arithmetic meet, and proves what they are for.

- **The I2C DFU engine.** A servicer task fills a shared record, bumps a counter and sets a notification bit; a
  state-machine task wakes, takes the counter and runs the transitions, fragment assembly and flash writes. The two run
  as a state machine over their single steps (`DfuProtocol`), so every theorem holds for all interleavings: which
  wake-ups can be trusted (`DfuHandover`), what the shared record keeps and whether the servicer's forecasts come true
  (`DfuSafety`), where the flash can change (`DfuPartitions`), what a host that waits its turn can rely on (`DfuHost`,
  `DfuSchedule`), what whole downloads, uploads and their successions amount to (`DfuDownload`, `DfuRetry`,
  `DfuReplies`, `DfuUpload`), what the host is told on the way (`DfuAnswers`), and what every single command does and how
  the engine comes back from an error (`DfuRecovery`). The in-place code is two classes (`DfuFlash.FlashStore`,
  `DfuMachine.DfuEngine`) whose methods are proved equal to the functions the protocol runs on.
- **Rate arithmetic.** Software floating-point division and its fixed-point form against exact real ratios
  (`RateDivision`), the sum of a rate ratio and a correction (`RateCorrection`), and decibels to multipliers through a
  14-term Horner loop (`VolumeGain`), which keeps their order (`VolumeOrder`) and is accurate to a stated error
  (`VolumeAccuracy`), also above 0 dB (`VolumeLoud`) and in other fixed-point formats (`VolumeFormats`).
- **Windows, averages and hand-off.** Bucket rings over a wrapping clock against the plain list of the recent past
  (`RateWindow`, `UsbRateMeter`, `I2sRateMeter`), a windowed average with a clamped controller (`BufferLevel`), and the
  exact-level notification between USB and sample-rate converter (`AudioHandoff`).
- **Buffers and formats.** A WAV header parser against its writer and against arbitrary files (`WavHeader`), a sample
  ring against a list (`AudioRing`), and a checksummed framing against its decoder (`ChecksumFraming`).

`Words` holds the fixed-width words, `DfuTypes` the data of the DFU engine. USB DFU 1.1 is followed where the code
follows it: sections 6.1.1 (DFU_DNLOAD), 6.1.2 (DFU_GETSTATUS), 6.2.1 (DFU_UPLOAD) and Appendix A.

A run is any list of actions; an action that is not enabled changes nothing, so every list is an interleaving and every
interleaving is a list.

Where code and comments disagree the model follows the code:

- ABORT in dfuIDLE goes to dfuERROR (dfu_state_machine.c:838-846); its comment and Appendix A say stay.
- UPLOAD has no break and runs on into GETSTATUS (dfu_state_machine.c:579-581).
- The time-out announced with dfuMANIFEST is 0 (dfu_state_machine.c:273), so a poll during it is never early.
- A transfer has 128 bytes; comments speak of 64 (dfu_state_machine.c:118, 383).
- `db_to_mult` is documented as 10^(db/10) (dbcalc.c:22-23) but shifts the value so that the exponent is db/20.
- The framing header promises a negative value for errors; the code returns 0 (Convert2TransferBuffer.c:43).

What turned out not to hold, each with its exact condition:

- An upload with 65536 fragments or more never ends (`UploadTerminates`), and a download of more than 65536 sectors
  goes over itself (`ImageInOnePiece`, `ImageOverItself`).
- A download after an interrupted one can be refused although it fits the partition, and can go over the other
  partition's image: latch and used room survive the abort (`NextDownload`, `RetryRefused`, `DataOverUpgrade`).
- After a refused download every further one of a sector or more is refused too, into either partition, until a shorter
  one opens the latch: clearing the error does not (`AfterRefusal`, `RefusedAndAgain`).
- `float_div` returns 0 when one mantissa is the other shifted (`FloatDivLost`, `LossyRates`).
- A stream buffer above two frames loses wake-ups (`NoLostWakeUp`), and a buffer reset with a notification outstanding
  makes the converter take a short frame (`FramesAfterReset`).
- A full sample ring reports itself empty and refuses, one frame more and it gives out the last frame first
  (`QueueExactly`, `FullRingRefuses`, `OverrunJumps`).
- The framing's capacity test can pass without the room it stands for (`CompleteExactly`, `OverflowingTestTruncates`).
- Far outside any real fill level the buffer correction changes its sign (`PushesBackExactly`, `SafeLevels`), and
  from 2^30 samples on the average overflows (`AverageExactly`).
- `db_to_mult` overflows from a gain of 8.0 on (`LouderExactly`, `PowerWraps`); the volume control stays at or below 1.0.
- A WAV file cut short, down to nothing, can be accepted on what memory held before (`ParseSeen`, `EmptyFileAccepted`,
  `CutHeader`).

## Model

| member | source | states |
|---|---|---|
| DfuFlash.FlashStore.Write | examples/ffva/src/dfu_int/dfu_common.c:23-91 | The whole new state of statics and flash for any alternate, block and length: refusal of the factory alternate, latching of the partition, the space test in 32-bit arithmetic, one sector at base + block * length; a length that gets as far as the flash has to be a sector, as the source asserts |
| DfuFlash.FlashStore.EraseAndWrite | examples/ffva/src/dfu_int/dfu_common.c:60-78 | A sector write replaces exactly its own bytes |
| DfuFlash.FlashStore.MakeManifest | examples/ffva/src/dfu_int/dfu_common.c:93-112 | Manifest only opens the latch and never fails |
| DfuFlash.FlashStore.Read | examples/ffva/src/dfu_int/dfu_common.c:114-153 | What an upload gets: 128 bytes at the block, or nothing once the address is past the image |
| DfuFlash.BlockOffsetFits | examples/ffva/src/dfu_int/dfu_common.c:121 | Block number times length never wraps a word |
| DfuMachine.DfuEngine.Download | examples/ffva/src/dfu_int/dfu_state_machine.c:88-103 | The servicer copies a fragment behind the earlier ones |
| DfuMachine.DfuEngine.GetStatus | examples/ffva/src/dfu_int/dfu_state_machine.c:172-299 | The answer, the flag an early poll raises, the recorded time-out, and that no notification is sent in a busy state |
| DfuMachine.DfuEngine.ResetBuffer | examples/ffva/src/dfu_int/dfu_state_machine.c:349-355 | Clears length, fragment, block and buffer and nothing else |
| DfuMachine.DfuEngine.Reset | examples/ffva/src/dfu_int/dfu_state_machine.c:357-365 | The reset state; the transfer block, the alternate and the time-out record stay |
| DfuMachine.DfuEngine.Fail | examples/ffva/src/dfu_int/dfu_state_machine.c:367-372 | The reset state, but in dfuERROR with the given status |
| DfuMachine.DfuEngine.TaskDnload | examples/ffva/src/dfu_int/dfu_state_machine.c:476-509 | The DNLOAD case: which states accept it, and that a zero-length one discards a partly filled sector |
| DfuMachine.DfuEngine.TaskUpload | examples/ffva/src/dfu_int/dfu_state_machine.c:543-571 | The UPLOAD case on record, buffer and flash |
| DfuMachine.DfuEngine.TaskGetStatus | examples/ffva/src/dfu_int/dfu_state_machine.c:625-771 | GETSTATUS with its busy phases, as the two transition functions the protocol uses |
| DfuMachine.DfuEngine.DownloadBusy | examples/ffva/src/dfu_int/dfu_state_machine.c:657-696 | The busy phase of a download: sector written or fragment counted, then error, deferred error or dfuDNLOAD-SYNC |
| DfuMachine.DfuEngine.ManifestBusy | examples/ffva/src/dfu_int/dfu_state_machine.c:722-744 | The busy phase of a manifest |
| DfuMachine.DfuEngine.Serve | examples/ffva/src/dfu_int/dfu_state_machine.c:423-865 | One turn of the task loop: an unexpected counter fails, otherwise the selected case runs |
| DfuMachine.UploadFallThrough | examples/ffva/src/dfu_int/dfu_state_machine.c:512-581 | The missing break after UPLOAD is harmless: GETSTATUS then has nothing to do, in every state |
| DfuMachine.HandleInBounds | examples/ffva/src/dfu_int/dfu_state_machine.c:434-865 | No request makes the buffer or the fragment number leave its range, and UPLOAD never enters a busy state |
| DfuMachine.EarlyPollWindow | examples/ffva/src/dfu_int/dfu_state_machine.c:193-196 | The unsigned wrap-around comparison holds exactly when the poll comes 1 to time-out ticks after the last answer, across clock wrap |
| DfuSafety.TimeoutRun | examples/ffva/src/dfu_int/dfu_state_machine.c:226-293 | In every run the recorded time-out is 0, 1, 3 or 10 ms |
| DfuSafety.EarlyPollInRuns | examples/ffva/src/dfu_int/dfu_state_machine.c:193-196 | So in every run, without a condition on the time-out, the early-poll test is that window |
| DfuHandover.HandoverRun | examples/ffva/src/dfu_int/dfu_state_machine.c:105-106 | The counting invariant of give, notify, wake and take holds in every interleaving |
| DfuHandover.WakeReads | examples/ffva/src/dfu_int/dfu_state_machine.c:394-432 | In every interleaving a woken task finds a positive counter; it finds 1 exactly when gives equal wake-ups, and then no request was ever merged and the bits name exactly one |
| DfuHandover.LostForEver | examples/ffva/src/dfu_int/dfu_state_machine.c:411-432 | After one merged wake-up every later one, in every continuation, reads 2 or more and leaves dfuERROR, and no busy state is entered again |
| DfuHandover.LostNeverWrites | examples/ffva/src/dfu_int/dfu_state_machine.c:428-432 | After such a loss no continuation changes the flash |
| DfuHandover.UploadAnswered | examples/ffva/src/dfu_int/dfu_state_machine.c:113-122 | The task gives the upload semaphore exactly when its wake-up read 1 |
| DfuHandover.UploadHangs | examples/ffva/src/dfu_int/dfu_state_machine.c:116 | After a loss a servicer waiting in UPLOAD waits in every continuation |
| DfuHandover.LossHappens | examples/ffva/src/dfu_int/dfu_state_machine.c:105-106 | Two commands before the task runs are enough for a loss |
| DfuHandover.UploadHangHappens | examples/ffva/src/dfu_int/dfu_state_machine.c:109-116 | An ABORT just before an UPLOAD leaves the servicer waiting for ever |
| DfuSafety.RecordRun | examples/ffva/src/dfu_int/dfu_state_machine.c:476-773 | The invariant of the shared record holds in every interleaving |
| DfuSafety.QuiescentStates | examples/ffva/src/dfu_int/dfu_state_machine.c:349-372 | Every reachable quiescent state: a fragment fits the buffer, idle and error states have nothing in progress, block and fragment 0, and the buffer is blank behind the assembled fragments |
| DfuSafety.ForecastComesTrue | examples/ffva/src/dfu_int/dfu_state_machine.c:172-299 | From every reachable quiescent state the announced next state is the first one the task enters on that request, the announced status is the one the record then has, not OK exactly with dfuERROR, and only an entry to dfuDNBUSY comes with a time-out |
| DfuSafety.LastAnswer | examples/ffva/src/dfu_int/dfu_state_machine.c:291-293 | At every step the recorded time-out is the one last announced, and its clock the one read after that |
| DfuSafety.PollWhileBusy | examples/ffva/src/dfu_int/dfu_state_machine.c:183-226 | In every run a poll seen in a busy state announces dfuERROR and raises the flag with errSTALLEDPKT if and only if it comes 1 to time-out ticks of 10 ns after the last answer, modulo 2^32; otherwise the flag stays and state, status and time-out are repeated |
| DfuSafety.EarlyPollFails | examples/ffva/src/dfu_int/dfu_state_machine.c:676-696 | After such an answer to a busy task, in every continuation, the busy phase either still lasts, under the flag, or has ended in dfuERROR with errSTALLEDPKT |
| DfuAnswers.ToldBetween | examples/ffva/src/dfu_int/dfu_state_machine.c:174-182 | In every schedule of a host that waits its turn: between two fragments of a download a poll is answered with dfuDNLOAD-IDLE (before the first with dfuIDLE), OK and no time-out |
| DfuAnswers.ToldBusy | examples/ffva/src/dfu_int/dfu_state_machine.c:228-253 | After a fragment with dfuDNBUSY and 1 ms, or 3 ms if it completes a sector, or 10 ms if that is the first of sixteen sectors |
| DfuAnswers.ToldAfterBusy | examples/ffva/src/dfu_int/dfu_state_machine.c:254-258 | After its first poll with dfuDNLOAD-IDLE and OK or, for a sector without room, with dfuERROR and errADDRESS |
| DfuAnswers.ToldManifest | examples/ffva/src/dfu_int/dfu_state_machine.c:263-269 | After the empty DNLOAD with dfuMANIFEST and no time-out |
| DfuAnswers.ToldIdle | examples/ffva/src/dfu_int/dfu_state_machine.c:270-275 | and after one more poll with dfuIDLE |
| DfuRecovery.ClearStatus | examples/ffva/src/dfu_int/dfu_state_machine.c:774-805 | CLRSTATUS, in every such schedule: from dfuERROR, whatever the status, to dfuIDLE with everything cleared; from any other state to dfuERROR with errSTALLEDPKT; flash, alternate and transfer block stay |
| DfuRecovery.Abort | examples/ffva/src/dfu_int/dfu_state_machine.c:806-848 | ABORT: from dfuUPLOAD-IDLE and dfuDNLOAD-IDLE to a cleared dfuIDLE, from any other state to dfuERROR with errSTALLEDPKT |
| DfuRecovery.SetAlternate | examples/ffva/src/dfu_int/dfu_state_machine.c:849-864 | SETALTERNATE: from any state to a cleared dfuIDLE with the new alternate |
| DfuRecovery.Dnload | examples/ffva/src/dfu_int/dfu_state_machine.c:436-511 | DNLOAD: where it is accepted, where it ends the download, where it is an error, and the buffer afterwards |
| DfuRecovery.UploadRefused | examples/ffva/src/dfu_int/dfu_state_machine.c:568-571 | UPLOAD anywhere but in dfuIDLE and dfuUPLOAD-IDLE is an error |
| DfuRecovery.SetTransferBlock | examples/ffva/src/dfu_int/dfu_state_machine.c:335-338 | Sets the number of the next upload block and nothing else |
| DfuSafety.LossShowsRun | examples/ffva/src/dfu_int/dfu_state_machine.c:428-432 | In every run a task that waits after a lost request waits in dfuERROR |
| DfuSafety.FlagStep | examples/ffva/src/dfu_int/dfu_state_machine.c:676-696 | A busy phase that ends under the early-poll flag ends in dfuERROR with errSTALLEDPKT |
| DfuSafety.EarlyPollIsFatal | examples/ffva/src/dfu_int/dfu_state_machine.c:210-211 | In every run the early-poll flag stays up until one action leaves dfuIDLE or dfuERROR, and a busy phase can only end it in dfuERROR |
| DfuPartitions.SectorWrite | examples/ffva/src/dfu_int/dfu_common.c:52-80 | A sector write lands in the latched partition right behind the blocks before it, and the accounts stay true |
| DfuPartitions.AccountsRun | examples/ffva/src/dfu_int/dfu_common.c:31-91 | The space accounts hold in every interleaving |
| DfuPartitions.FactoryImageKept | examples/ffva/src/dfu_int/dfu_common.c:31-91 | No interleaving of downloads, aborts, errors, alternate changes, manifests and lost requests changes a byte below the upgrade image; written blocks fit the counted bytes and these the partition |
| DfuPartitions.OnlyLatchedPartitionWritten | examples/ffva/src/dfu_int/dfu_common.c:38-55 | As long as the latch holds, base and size stay and only bytes of that partition change |
| DfuPartitions.LatchUndone | examples/ffva/src/dfu_int/dfu_common.c:105-106 | Only the flash work of a manifest undoes the latch |
| DfuHost.TransactionsRun | examples/ffva/src/dfu_int/dfu_state_machine.c:394-866 | Commands given in turn, each followed by the steps it causes, take effect as indivisible operations |
| DfuSchedule.CommandsOneByOne | examples/ffva/src/dfu_int/dfu_state_machine.c:88-107 | For every interleaving in which the host sends a command only to a system at rest, or polls a busy one in time: once the system rests, record and flash are what the commands make of them one by one, but for the record of the last time-out |
| DfuSchedule.PoliteRun | examples/ffva/src/dfu_int/dfu_state_machine.c:172-299 | At every point of such an interleaving the outcome already determined is that of the commands so far |
| DfuSchedule.TransactionsPolite | examples/ffva/src/dfu_int/dfu_state_machine.c:394-866 | Commands given in turn are such an interleaving |
| DfuDownload.FragmentCycle | examples/ffva/src/dfu_int/dfu_state_machine.c:635-709 | DNLOAD, GETSTATUS, GETSTATUS: one busy phase and back to dfuDNLOAD-IDLE, for all clock readings |
| DfuDownload.SectorFragment | examples/ffva/src/dfu_int/dfu_state_machine.c:659-696 | The fragment that completes a sector puts it where its number says or, without room, ends in dfuERROR with errADDRESS and the flash as it was |
| DfuDownload.SendFragments | examples/ffva/src/dfu_int/dfu_state_machine.c:476-709 | After any number of fragments there is room for, the flash holds the whole sectors and the buffer the rest |
| DfuDownload.SendTooMany | examples/ffva/src/dfu_int/dfu_common.c:53-84 | With more than there is room for, exactly what fits is written, and nothing sent after the refusal changes the flash |
| DfuDownload.DownloadImage | examples/ffva/src/dfu_int/dfu_state_machine.c:476-771 | For every such interleaving, from an open or a surviving latch: the download ends in dfuIDLE if and only if the whole sectors fit what the latched partition has left; then the flash differs exactly by those sectors of zero-padded fragments at the latched base, the rest is dropped and the latch open; otherwise it ends in dfuERROR with the sectors that fit |
| DfuDownload.DownloadInTurn | examples/ffva/src/dfu_int/dfu_state_machine.c:476-771 | Such an interleaving exists: one transaction after the other |
| DfuDownload.DownloadRefused | examples/ffva/src/dfu_int/dfu_common.c:81-84 | A host that stops at the first error ends in dfuERROR with errADDRESS; the latch survives with less than a sector of room |
| DfuDownload.DownloadElsewhere | examples/ffva/src/dfu_int/dfu_common.c:31-91 | To an alternate without a partition: with a whole sector or more dfuERROR with errWRITE, with less dfuIDLE; the flash is not written |
| DfuRecovery.ToldRefused | examples/ffva/src/dfu_int/dfu_state_machine.c:174-182 | A poll after the refusal is answered with dfuERROR and errADDRESS |
| DfuRecovery.Recovered | examples/ffva/src/dfu_int/dfu_state_machine.c:774-864 | CLRSTATUS, SETALTERNATE or both bring the engine back to dfuIDLE and leave the flash as it is |
| DfuRecovery.AfterRefusal | examples/ffva/src/dfu_int/dfu_common.c:31-91 | The next download, into whatever alternate, then succeeds if and only if it is shorter than a sector; that one writes nothing and opens the latch |
| DfuRecovery.RefusedAndAgain | examples/ffva/src/dfu_int/dfu_state_machine.c:476-864 | The whole story from dfuIDLE: refused download, recovery, next download, each by any such schedule |
| DfuDownload.ImageInOnePiece | examples/ffva/src/dfu_int/dfu_common.c:52 | Up to 65536 sectors lie in one piece at the base |
| DfuDownload.ImageOverItself | examples/ffva/src/dfu_int/dfu_common.c:52 | With more, the 16-bit block number puts the later sectors over the first ones |
| DfuDownload.OwnPartition | examples/ffva/src/dfu_int/dfu_common.c:38-50 | A download goes into the partition of its alternate if and only if the latch is open or holds that partition already |
| DfuRetry.InterruptedDownload | examples/ffva/src/dfu_int/dfu_state_machine.c:838-864 | A download broken off by ABORT, SETALTERNATE or both leaves, in every such interleaving, dfuIDLE and its whole sectors; once one is written the latch survives with that much less room |
| DfuRetry.NextDownload | examples/ffva/src/dfu_int/dfu_common.c:38-84 | The download after that, for all such interleavings of both: it goes into its own partition if and only if the first wrote no sector or had the same one, and succeeds if and only if its whole sectors fit what is left of the partition it goes into |
| DfuRetry.RetryRefused | examples/ffva/src/dfu_int/dfu_common.c:53-84 | In every layout an image that fits the partition is refused after an abort of the same download |
| DfuRetry.DataOverUpgrade | examples/ffva/src/dfu_int/dfu_common.c:38-50 | After one upgrade sector and an abort, a data image is written over the upgrade image |
| DfuUpload.UploadBlock | examples/ffva/src/dfu_int/dfu_state_machine.c:543-567 | One UPLOAD: a full fragment inside the image, otherwise an empty reply that starts the numbering over |
| DfuUpload.ImageIs | examples/ffva/src/dfu_int/dfu_common.c:125-140 | Which image an alternate uploads, by the addresses of the layout: 0 the factory image, 1 the upgrade image, 2 everything from the data partition to the end of the flash, any other one nothing |
| DfuReplies.RepliesOneByOne | examples/ffva/src/dfu_int/dfu_state_machine.c:109-123 | In every such interleaving the host reads, in order, the replies its UPLOADs would get if the commands were performed one by one |
| DfuReplies.AwaitingStep | examples/ffva/src/dfu_int/dfu_state_machine.c:113-116 | The servicer waits for the semaphore exactly between its notification of an UPLOAD and the answer |
| DfuUpload.UploadImage | examples/ffva/src/dfu_int/dfu_state_machine.c:543-567 | In every interleaving with a host that only uploads and waits its turn: full replies of 128 bytes that begin with the image of the alternate at the address the layout gives it and run on behind it, then an empty one, dfuIDLE, transfer block 0 and an untouched flash |
| DfuUpload.UploadsInTurn | examples/ffva/src/dfu_int/dfu_state_machine.c:109-123 | Such an interleaving exists for every number of uploads |
| DfuUpload.UploadRun | examples/ffva/src/dfu_int/dfu_state_machine.c:109-123 | The replies of such a run are what the uploads one by one leave in the buffer |
| DfuUpload.UploadTerminates | examples/ffva/src/dfu_int/dfu_state_machine.c:555-566 | From block 0 some such interleaving comes to a short reply if and only if the image has at most 128 * 65535 bytes; otherwise none does |
| DfuUpload.DownloadThenUpload | examples/ffva/src/dfu_int/dfu_common.c:114-153 | What a download by any such interleaving wrote into the partition of its alternate is what an upload of that alternate by any such interleaving gives back, as far as the image then reported reaches |
| DfuUpload.OwnImageLies | examples/ffva/src/dfu_int/dfu_common.c:125-140 | The start and the size this needs: the partition of the alternate |
| RateDivision.QuotientFits | examples/asrc_demo/src/shared/div.c:28-44 | The quotient has 32 bits, except that equal normalised mantissas give exactly 2^32 |
| RateDivision.FloatDivExact | examples/asrc_demo/src/shared/div.c:4-46 | mant * 2^exp <= true ratio < (mant + 1) * 2^exp and relative error below 2^-31; it fails exactly when the normalised mantissas are equal, and then returns 0 |
| RateDivision.FloatDivLost | examples/asrc_demo/src/shared/div.c:28 | It returns 0 if and only if one mantissa is the other shifted |
| RateDivision.LossyRates | examples/asrc_demo/src/shared/div.c:28 | 48 samples in 98304 ticks are lost that way |
| RateDivision.WideQuotientBounds | examples/asrc_demo/src/shared/div.c:54-84 | The 64-bit quotient lies in [2^31, 2^33) and brackets the true ratio |
| RateDivision.FixedDivRounds | examples/asrc_demo/src/shared/div.c:91-95 | For right shifts of 1 to 63 the result is the true ratio rounded to the nearest, halves up |
| RateDivision.FixedDivTruncates | examples/asrc_demo/src/shared/div.c:96-100 | For left shifts of 0 to 31 nothing wraps and the result is below the true ratio by less than 2^lsh |
| RateDivision.RateRatioBounds | examples/asrc_demo/src/rate_server.c:248-273 | The final ratio of two measured rates, end to end and for a last shift either way, against the exact ratio of the measurements |
| RateDivision.SupportedRatios | examples/asrc_demo/src/rate_server.c:248-273 | For rates within a factor of seven the last shift with 60 fraction bits is to the left and by 25 to 31 bits |
| RateDivision.SupportedRange | examples/asrc_demo/src/rate_server.c:248-273 | and the ratio lies between 2^56 and 2^63 |
| RateCorrection.CorrectedExactly | examples/asrc_demo/src/rate_server.c:248-298 | For such rates adding a correction never wraps 64 bits: the ratio changes by exactly the correction, by less than one part in ten thousand, and stays positive |
| RateCorrection.CorrectedRatios | examples/asrc_demo/src/rate_server.c:248-298 | So for both directions and both corrections, whatever the state of the averages |
| VolumeGain.DbToMult | examples/asrc_demo/src/usb/dbcalc.c:34-103 | The loops compute the multiplier function; what that is worth is said by `MultiplierAccurate`, `LouderAccurate` and `OtherFormats` |
| VolumeGain.HornerExact | examples/asrc_demo/src/usb/dbcalc.c:82-86 | For exponents in (-1, 0] no step of the 32-bit Horner loop overflows: it computes the exact polynomial |
| VolumeGain.PolynomialRange | examples/asrc_demo/src/usb/dbcalc.c:82-91 | All partial sums lie in [0, 2^31) and the polynomial is positive and at most 1.0 |
| VolumeGain.ExponentInRange | examples/asrc_demo/src/usb/dbcalc.c:49-61 | No step of the scaling overflows for volumes from -120 dB to 0 dB |
| VolumeGain.GainInRange | examples/asrc_demo/src/usb/dbcalc.c:63-91 | The gain of a negative exponent lies in [0, 1.0] and the power step does not overflow |
| VolumeGain.MultiplierAtMostOne | examples/asrc_demo/src/usb/dbcalc.c:34-103 | For every volume sum the multiplier is at most 2^29 |
| VolumeOrder.PolynomialGrows | examples/asrc_demo/src/usb/dbcalc.c:82-86 | Although every step of the Horner loop rounds down, the polynomial grows between exponents that are one step of the volume apart |
| VolumeOrder.GainGrows | examples/asrc_demo/src/usb/dbcalc.c:63-91 | So does the gain, also where the integer part of the exponent changes |
| VolumeOrder.MultiplierOrder | examples/asrc_demo/src/usb/dbcalc.c:34-103 | Of any two volume sums the greater has the greater multiplier or the same |
| VolumeOrder.SlopeOfPolynomial | examples/asrc_demo/src/usb/dbcalc.c:82-86 | Between any two exponents up to 1/1024 apart, below +18.06 dB, the rounded polynomial grows as an exponential with the natural logarithm of ten as its rate does, but for 80 units of the last place |
| VolumeAccuracy.MultiplierAccurate | examples/asrc_demo/src/usb/dbcalc.c:34-103 | The multiplier of a volume d / 256 dB below 0 dB is 2^29 times c^d, where c^5120 = 1/10, so that 20 dB are a factor of ten: within 81000 units of 2^-29 in the first 20 dB, a tenth of that in the next and so on, and 6 units; for every d up to 120 dB |
| VolumeAccuracy.TwentyDecibels | examples/asrc_demo/src/usb/dbcalc.c:63-91 | Ten times the multiplier 20 dB further down is the multiplier, but for 40 units |
| VolumeAccuracy.ChannelAccurate | examples/asrc_demo/src/usb/usb_audio.c:197-227 | Master and channel volume both count: unmuted, the multiplier is 2^29 times the product of the two, within that error; muted, it is 0 |
| VolumeLoud.LouderExactly | examples/asrc_demo/src/usb/dbcalc.c:63-91 | Up to 20 dB above 0 dB nothing overflows if and only if the volume is at most 4623 / 256 dB, a gain below 8.0 |
| VolumeLoud.LouderAccurate | examples/asrc_demo/src/usb/dbcalc.c:34-103 | Up to there the multiplier is 2^29 times k^d, where k^5120 = 10, but for 96000 (k^d - 1) + 1600 units |
| VolumeLoud.PowerWraps | examples/asrc_demo/src/usb/dbcalc.c:71-78 | From 20 dB above 0 dB on the integer power overflows |
| VolumeFormats.OtherFormats | examples/asrc_demo/src/usb/dbcalc.c:49-103 | With any other number of fraction bits, of the input up to eight and of the result up to 32, the result is the one with 8 and 29, shifted |
| VolumeGain.UpdateVolMul | examples/asrc_demo/src/usb/usb_audio.c:197-227 | A channel or master change updates exactly the multipliers it concerns, with their mutes |
| VolumeGain.ScaleAttenuates | examples/asrc_demo/src/usb/usb_audio.c:242-245 | Scaling by at most 1.0 never overflows, enlarges a sample or changes its sign |
| VolumeGain.ScaleExact | examples/asrc_demo/src/usb/usb_audio.c:242-245 | and the result is sample * multiplier / 2^29, rounded down |
| VolumeGain.VolumeOnlyAttenuates | examples/asrc_demo/src/usb/usb_audio.c:197-245 | For every pair of volumes from -60 dB to 0 dB and every mute setting, volume control only attenuates |
| RateWindow.RingPut | examples/asrc_demo/src/usb/adaptive_rate_callback.c:96-123 | Writing at the count modulo the ring length keeps the ring equal to the last elements of the plain list, sum included |
| RateWindow.WrappedSlot | examples/asrc_demo/src/usb/adaptive_rate_callback.c:99 | The slot is right even after the 32-bit count has wrapped, for ring lengths dividing 2^32 |
| RateWindow.Telescope | examples/asrc_demo/src/usb/adaptive_rate_callback.c:84-91 | Bucket differences modulo 2^32 add up to the difference of their ends |
| RateWindow.BucketRing.Clear | examples/asrc_demo/src/usb/adaptive_rate_callback.c:62-70 | Empties both arrays and the counters |
| RateWindow.BucketRing.Close | examples/asrc_demo/src/usb/adaptive_rate_callback.c:94-124 | Appends a closed bucket to the list, over the oldest one when full |
| RateWindow.SumArray | examples/asrc_demo/src/rate_server.c:313-321 | The sum in 32-bit arithmetic |
| UsbRateMeter.OpeningsAreQuarterly | examples/asrc_demo/src/usb/adaptive_rate_callback.c:84-116 | Each bucket runs from its opening to the first packet whose clock reads a quarter second or more past it |
| UsbRateMeter.WindowTotals | examples/asrc_demo/src/usb/adaptive_rate_callback.c:88-91 | Ring sums plus open bucket are the samples and the time since the opening of the oldest of the last 64 closed buckets |
| UsbRateMeter.TicksAreTrueTime | examples/asrc_demo/src/usb/adaptive_rate_callback.c:79-84 | While 65 buckets cannot take 2^32 ticks the reported ticks are the true time since the opening 64 buckets back, through any number of clock wraps; with a full ring at least 16 s |
| UsbRateMeter.SamplesAreReceived | examples/asrc_demo/src/usb/adaptive_rate_callback.c:88-91 | The reported samples are those of the packets after that opening, modulo 2^32 |
| UsbRateMeter.Meter.DetermineRate | examples/asrc_demo/src/usb/adaptive_rate_callback.c:31-136 | Every call after the first reports exactly the window of the plain packet list; the first one the nominal rate |
| UsbRateMeter.Meter.ResetState | examples/asrc_demo/src/usb/adaptive_rate_callback.c:25-28 | Only asks for the reset |
| UsbRateMeter.Meter.SofToggle | examples/asrc_demo/src/usb/adaptive_rate_callback.c:138-158 | One start of frame in one direction |
| UsbRateMeter.SilenceResets | examples/asrc_demo/src/usb/adaptive_rate_callback.c:144-156 | After a transfer the meter is reset exactly from the tenth silent start of frame on, count wrap included |
| I2sRateMeter.WindowTotals | examples/asrc_demo/src/rate_server.c:142-146 | Ring sums plus open bucket are the sums over the last readings |
| I2sRateMeter.WindowLength | examples/asrc_demo/src/rate_server.c:142-189 | namely over all of them, from the 273rd on over 257 to 272 of them, beginning at a multiple of sixteen |
| I2sRateMeter.NominalIs | examples/asrc_demo/src/rate_server.c:120-136 | The nominal answer times 10^8 is the sampling rate, but for a relative 2^-31 below; it is 0 if and only if rate and 10^8 are one the other shifted |
| I2sRateMeter.NominalNotLost | examples/asrc_demo/src/rate_server.c:120-136 | None of the six supported rates is lost that way |
| I2sRateMeter.Meter.DetermineRate | examples/asrc_demo/src/rate_server.c:79-189 | The answer and the list of readings in all four cases: no rate, changed rate, empty interval, measured |
| I2sRateMeter.MeasuredBetween | examples/asrc_demo/src/rate_server.c:145-152 | If all readings lie between two rates, the returned rate does too but for a relative 2^-31, or it is 0, exactly when one total is the other shifted |
| I2sRateMeter.TotalsBetween | examples/asrc_demo/src/rate_server.c:145-146 | The window totals lie between the two rates |
| BufferLevel.ChunksMeaning | examples/asrc_demo/src/avg_buffer_level.c:31-61 | The levels since the reset are full windows and a shorter rest, in order |
| BufferLevel.BufferCalcState.Init | examples/asrc_demo/src/avg_buffer_level.c:14-19 | The state of no levels |
| BufferLevel.BufferCalcState.Update | examples/asrc_demo/src/avg_buffer_level.c:21-62 | Every field, in the width it has, is the stated function of the levels since the last reset: error_accum the sum of the last count levels, which never overflows, the average with its 32-bit sum, and the stable level latched at window threshold + 2 |
| BufferLevel.AverageExactly | examples/asrc_demo/src/avg_buffer_level.c:41 | For all levels within a bound the 32-bit average is the plain one, if and only if the bound is below 2^30 |
| BufferLevel.AverageWithin | examples/asrc_demo/src/avg_buffer_level.c:37-41 | After the first window the average lies between the least and the greatest level |
| BufferLevel.AverageStep | examples/asrc_demo/src/avg_buffer_level.c:36-41 | The first window sets the average to its mean, rounded down; every later one moves it half way to its mean, rounded towards zero |
| BufferLevel.LevelWithin | examples/asrc_demo/src/avg_buffer_level.c:31-51 | So does the stable level, and the running sum is bounded |
| BufferLevel.StableLevelIsFixed | examples/asrc_demo/src/avg_buffer_level.c:43-53 | Once declared stable the reference never changes, whatever levels follow |
| BufferLevel.StableFrom | examples/asrc_demo/src/avg_buffer_level.c:39-51 | The average is declared stable with the last level of window threshold + 2, or of the second one, and the reference is the average at that moment |
| BufferLevel.UsbCorrection | examples/asrc_demo/src/usb/usb_audio.c:303-340 | The correction lies within 1500 << 32; its value is the subject of `CorrectionsSaturate` and `GuardActs` |
| BufferLevel.I2sCorrection | examples/asrc_demo/src/rate_server.c:269-291 | The correction lies within 1500 << 32; its value is the subject of `CorrectionsSaturate` |
| BufferLevel.TermExact | examples/asrc_demo/src/usb/usb_audio.c:325-327 | The 64-bit term is exact if and only if gain * error * 256 fits |
| BufferLevel.SwingBelow | examples/asrc_demo/src/usb/usb_audio.c:325 | The error is never twice the greatest level |
| BufferLevel.SwingReaches | examples/asrc_demo/src/usb/usb_audio.c:325 | Every smaller error is reached by some list of levels |
| BufferLevel.CorrectionExact | examples/asrc_demo/src/usb/usb_audio.c:325-336 | As long as the gain times the widest error fits 64 bits, the correction is the exact proportional term, clamped |
| BufferLevel.CorrectionSaturates | examples/asrc_demo/src/usb/usb_audio.c:325-338 | It equals gain * error * 256 if and only if that lies within 1500 * 2^32 either way; beyond, it is that limit |
| BufferLevel.CorrectionsSaturate | examples/asrc_demo/src/rate_server.c:275-292 | So at every supported rate and for every buffer within the safe level do both corrections, the USB one as long as the short-term average does not lie outside the guard band |
| BufferLevel.Gains | examples/asrc_demo/src/usb/usb_audio.c:283-300 | The gains of the supported rates with 24 fraction bits |
| BufferLevel.PushesBackExactly | examples/asrc_demo/src/usb/usb_audio.c:325-336 | For a bound on the levels the correction has the sign of the error for every list of levels, if and only if the gain times the widest error fits 64 bits |
| BufferLevel.WrongWay | examples/asrc_demo/src/usb/usb_audio.c:325-336 | Otherwise a list of levels is answered with the full correction the wrong way |
| BufferLevel.SafeLevels | examples/asrc_demo/src/usb/usb_audio.c:283-300 | At each supported rate every buffer within a bound is pushed back, whatever its history, if and only if the bound is at most the stated level; the least of the six is 57142857 samples |
| BufferLevel.CorrectionsPushBack | examples/asrc_demo/src/rate_server.c:275-292 | At every supported rate both corrections have the sign of the error for levels within 2^25 |
| BufferLevel.GuardActs | examples/asrc_demo/src/usb/usb_audio.c:310-322 | Levels all above 200 give the full correction once the short-term average is stable, all below -200 the full one the other way, all inside leave it to the long-term average |
| AudioHandoff.NoLostWakeUp | examples/asrc_demo/src/usb/usb_audio.c:1075-1098 | For every interleaving of send, check, wake, receive and reset no wake-up is lost, if and only if the buffer cannot hold one chunk more than two frames |
| AudioHandoff.RunScales | examples/asrc_demo/src/usb/usb_audio.c:1075-1077 | The buffer only ever holds whole chunks |
| AudioHandoff.LostWakeUp | examples/asrc_demo/src/usb/usb_audio.c:1088-1093 | With room for one chunk more, a concrete schedule loses a wake-up |
| AudioHandoff.LostForEver | examples/asrc_demo/src/usb/usb_audio.c:557-558 | A lost wake-up is final: without a buffer reset the converter never runs again |
| AudioHandoff.SourceCapacity | examples/asrc_demo/src/usb/usb_audio.c:1370-1375 | The capacity in the source, twice the block, is safe |
| AudioHandoff.FramesAreWhole | examples/asrc_demo/src/usb/usb_audio.c:557-558 | Within the bound and without a buffer reset every frame the converter takes is whole |
| AudioHandoff.FramesAfterReset | examples/asrc_demo/src/usb/usb_audio.c:1255 | After a reset every later frame is whole, in every continuation, if and only if no notification was outstanding |
| AudioHandoff.ShortFrameHappens | examples/asrc_demo/src/usb/usb_audio.c:1255 | A concrete schedule with a reset makes the converter take a short frame |
| WavHeader.WavFile.Read | examples/speech_recognition/src/wav_utils.c:35 | A read copies what the file still holds and leaves the rest of the struct |
| WavHeader.GetHeaderDetails | examples/speech_recognition/src/wav_utils.c:31-100 | The header struct, the local variable and the result after any file, short reads included |
| WavHeader.ParseExact | examples/speech_recognition/src/wav_utils.c:31-100 | Whatever was in memory before, a legible file is accepted if and only if it is a PCM WAV file, with every field and the exact data offset |
| WavHeader.NamesSpelled | examples/speech_recognition/src/wav_utils.c:35-96 | What such a file is, with the names of the chunks spelled out |
| WavHeader.HeaderRoundTrip | examples/speech_recognition/src/wav_utils.c:55-96 | Any lawful header (format chunk of any size, plain or extended, fact chunk of any size or none) is read back exactly |
| WavHeader.FormHeader | examples/speech_recognition/src/wav_utils.c:102-123 | The 44 bytes hold the fields of the stream |
| WavHeader.StoredLies | examples/speech_recognition/src/wav_utils.c:110-120 | Fields stored apart from each other can all be read back |
| WavHeader.WrittenHeaderRoundTrip | examples/speech_recognition/src/wav_utils.c:102-123 | A written PCM header followed by samples is parsed to the same 44 bytes and offset 44 |
| WavHeader.FramesRoundTrip | examples/speech_recognition/src/wav_utils.c:125-137 | The number of frames comes back if and only if a sample takes at least a byte, and the last frame ends where the RIFF chunk does |
| WavHeader.FrameStartExact | examples/speech_recognition/src/wav_utils.c:135-137 | Every frame starts where the frames before it end, behind a header of any size |
| WavHeader.RatesExact | examples/speech_recognition/src/wav_utils.c:112-117 | The stored bytes per frame and bytes per second are channels * bits / 8 and the rate times that |
| WavHeader.ParseSeen | examples/speech_recognition/src/wav_utils.c:31-100 | A file of any length is accepted exactly when its fields, completed from memory where it ends too early, are those of a PCM WAV file |
| WavHeader.EmptyFileAccepted | examples/speech_recognition/src/wav_utils.c:35-96 | An empty file is accepted exactly when memory holds a PCM header with its data tag |
| WavHeader.ClearedMemory | examples/speech_recognition/src/wav_utils.c:35-96 | Read into cleared memory, a WAV file cut short anywhere is accepted if and only if its data tag is complete |
| WavHeader.AnyMemory | examples/speech_recognition/src/wav_utils.c:35-96 | Exactly from there on it is accepted whatever memory held |
| WavHeader.CutBehindFormat | examples/speech_recognition/src/wav_utils.c:78-93 | Behind an intact fixed part, memory decides through the next chunk name and a fact size alone |
| WavHeader.CutHeader | examples/speech_recognition/src/wav_utils.c:35-96 | All three for every lawful header and every cut |
| AudioRing.AppAudio.StoreBrick | modules/asr/sensory/appAudio.c:87-116 | A brick is appended to the list of stored samples; audioFilledCount is min(stored, length) |
| AudioRing.AppAudio.GetFrame | modules/asr/sensory/appAudio.c:57-78 | Refused exactly when the unread samples modulo the length are less than a frame; otherwise every place holds the last sample stored there, overrun rings included, and the frame is passed over |
| AudioRing.AppAudio.NumUnprocessedSamples | modules/asr/sensory/appAudio.c:29-34 | The count is stored minus taken modulo the length, which is the true number if and only if that is not negative and below the length |
| AudioRing.AppAudio.FrameReady | modules/asr/sensory/appAudio.c:22-27 | Whether that count is a frame or more |
| AudioRing.ReportExact | modules/asr/sensory/appAudio.c:22-27 | This is the truth if and only if the ring has not filled up or holds a frame beyond a multiple of its length |
| AudioRing.StoreKeeps | modules/asr/sensory/appAudio.c:107-111 | After a brick the ring holds the last samples of the longer list |
| AudioRing.FrameOrder | modules/asr/sensory/appAudio.c:62-68 | A frame read whole is one stretch of the list, and the next one exactly in a ring that is not overrun |
| AudioRing.GapTrue | modules/asr/sensory/appAudio.c:31-33 | The wrapped difference is the true one exactly below the length |
| AudioRing.QueueExactly | modules/asr/sensory/appAudio.c:22-116 | For every list of stores, gets and passes the ring answers as a queue without bounds, if and only if it is never full when a frame is asked for |
| AudioRing.FirstInFirstOut | modules/asr/sensory/appAudio.c:57-116 | Then the frames heard are the samples stored, from the first unread one on, without gap or repetition |
| AudioRing.StoresFit | modules/asr/sensory/appAudio.c:84-111 | A client that stores whole frames never runs over the end of the buffer |
| AudioRing.FullRingRefuses | modules/asr/sensory/appAudio.c:60-66 | A ring filled from empty with a multiple of its length refuses every frame |
| AudioRing.OverrunJumps | modules/asr/sensory/appAudio.c:60-72 | One frame more, and the last frame stored is given out first |
| ChecksumFraming.Convert | modules/asr/Cyberon/Convert2TransferBuffer.c:10-44 | Result and output in both modes and in the refused case, for any sizes: the framed units, and nothing else written |
| ChecksumFraming.ConvertFours | modules/asr/Cyberon/Convert2TransferBuffer.c:16-27 | The loop of the four-byte mode |
| ChecksumFraming.ConvertTwos | modules/asr/Cyberon/Convert2TransferBuffer.c:31-40 | The loop of the two-byte mode |
| ChecksumFraming.FrameIsSound | modules/asr/Cyberon/Convert2TransferBuffer.c:25 | Every frame XORs to 0xFF |
| ChecksumFraming.RoundTrip | modules/asr/Cyberon/Convert2TransferBuffer.c:16-40 | The decoder recovers exactly the units sent |
| ChecksumFraming.OneByteErrorRefused | modules/asr/Cyberon/Convert2TransferBuffer.c:25-38 | Any single changed byte makes the decoder refuse |
| ChecksumFraming.CompleteExactly | modules/asr/Cyberon/Convert2TransferBuffer.c:14-29 | Once the capacity test passes, the break is never taken if and only if the output has room for every whole unit and its checksum |
| ChecksumFraming.SentExactly | modules/asr/Cyberon/Convert2TransferBuffer.c:14-43 | Exactly then all whole units arrive; otherwise fewer do, and those are decoded |
| ChecksumFraming.PassingTestIsComplete | modules/asr/Cyberon/Convert2TransferBuffer.c:14-29 | A test that passes without overflow implies that room |
| ChecksumFraming.OverflowingTestTruncates | modules/asr/Cyberon/Convert2TransferBuffer.c:14 | With 2^30 bytes the test overflows, passes with too little room, and the output is cut |
| ChecksumFraming.NothingSent | modules/asr/Cyberon/Convert2TransferBuffer.c:14-43 | A failing test, or an unknown mode, sends nothing |
| ChecksumFraming.TestExact | modules/asr/Cyberon/Convert2TransferBuffer.c:14-29 | For sizes that do not overflow the test compares the output with five quarters or three halves of the input, rounded down |

## Left out

- Drivers: flash is a byte map of `flashSize` bytes, erase and write take effect at once and sector alignment is not checked; a read past the end of the flash yields 0xFF in the model.
- The image sizes the DFU image driver reports are constants of the layout, so a download does not change the size a later upload sees.
- DETACH, GETSTATE, `reboot`, task creation, debug output, and the servicer's command table and byte packing.
- Step granularity: filling the buffer, looking at the state, answering, giving, notifying, waking, taking the counter, dispatching, flash work and leaving a busy state are single steps; races inside one of them are not modelled.
- The request counter and the notification counts are unbounded; the 32-bit wrap after 2^32 pending requests is not modelled.
- usb_dfu.c duplicates dfu_common.c behind TinyUSB, whose code is not part of this model.
- DfuPartitions.FactoryImageKept: assumes factory image, upgrade image and data partition in this order inside the flash, with an upgrade address other than 0.
- DfuDownload.DownloadImage: the commands are those of a host that polls twice after each fragment; a host that sends before the system is at rest, or polls too early, is the subject of `LostForEver` and `EarlyPollIsFatal`.
- RateDivision.FloatDivExact: exponents are unbounded, mantissas are read unsigned as the casts do, and a quotient of 2^32 is cut to 32 bits as in the portable branch; what the xcore division instruction does with it is not modelled.
- RateDivision.FixedDivRounds: shifts of 64 bits and more are undefined in C and not covered.
- DfuUpload.UploadImage: assumes room below 2^32 for every 16-bit block number.
- VolumeAccuracy.MultiplierAccurate: c is any positive real with c^5120 = 1/10; that there is one is a fact about the real numbers and not proved. So it is with k in `LouderAccurate`.
- VolumeLoud.PowerWraps: what the multiplier is once something has overflowed is not stated; it is outside the range of the volume control.
- VolumeGain.DbToMult: at most 23 fraction bits of the input and 59 of the result (31 for 0 dB), as the shifts need.
- UsbRateMeter.Meter.SofToggle: one object is one direction; the loop over both directions is not modelled, nor is the debug output.
- I2sRateMeter.Meter.DetermineRate: a total of 0 ticks modulo 2^32 has no quotient; the model answers `None` where the division would trap. `previous_result` is never read and left out. `Measure` is its second half.
- BufferLevel.BufferCalcState.Update: windows of up to 2^30 samples and a threshold below 2^31 - 1; a signed overflow of the average is modelled as wrap-around.
- BufferLevel.AverageWithin: for levels from -2^30 up to 2^30 - 1, beyond which the average overflows (`AverageExactly`); so are `LevelWithin`, `GuardActs` and the statements about corrections.
- AudioHandoff.NoLostWakeUp: only fill levels are modelled, not the samples in the stream buffer; the USB receive buffer in front of it and the loss of samples when it is full are left out.
- AudioHandoff.FramesAfterReset: in whole chunks; `RunScales` gives the bytes.
- WavHeader.ParseExact: covers files whose header is not cut short and whose chunk sizes fit a C int; `ParseSeen` covers all others. A seek before the start of the file leaves the position; the file library is not part of this model.
- AudioRing.AppAudio.StoreBrick: a brick must not run over the end of the buffer, as the source assumes; DC blocking and logging are left out.
- AudioRing.AppAudio.GetFrame: what memory held before anything was stored is not modelled.
- AudioRing.QueueExactly: a ring of some length; one of no length holds a single brick, as `GetFrame` says.
- ChecksumFraming.PassingTestIsComplete: assumes the size products fit 32 bits; signed overflow is modelled as wrap-around. `CompleteExactly` covers the rest.
- The rest of usb_audio.c (control requests, descriptors, tile transport), the ASRC and microphone pipelines, and the closed speech libraries.
- Constant data: model tables, fraction tables, descriptors and configuration headers.
