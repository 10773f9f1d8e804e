# PEAK CAN driver: a verified model

This project models the algorithms of the PEAK Linux CAN driver 8.6.0 that is bundled with the
repository, and proves what they guarantee. One module stands for one part of the driver:

- `SamplePoint`, `BitTiming`, `Sja1000`: the bit-timing search in truncating 32-bit arithmetic, its
  optimality and completeness, and the way of a timing through the register pair BTR0BTR1 and the
  abstract (nanosecond) form.
- `Fifo`: the ring buffer between interrupt side and tasks, as a class over an array of slots and byte
  addresses, proved against a mathematical queue.
- `TxEngine`, `UsbEngine`: the transmit protocols of an SJA1000 and of a USB channel as interleaved
  atomic steps with any number of writers.
- `UsbCodec`, `UsbDecoder`, `UsbClock`: the PCAN-USB wire format, whole requests of telegrams, the decoder
  with its round trip, and the reconstruction of a long tick count from 16-bit and 8-bit values.
- `TimeSync`: synchronisation of device and host time, and drift-corrected time stamps.
- `RxQueue`: the receive queue that is patched in place to limit status messages.
- `TextFormat`, `LineInput`, `Replay`: printing and parsing of frames, the line splitter over a 512-byte
  buffer, and both together.
- `Minor`, `IsaIrq`: the search of a free minor, and shared interrupts of ISA devices.
- `Words`, `Common`: fixed-width words with the division facts, and the types the other modules share.

Methods follow the loops and fields of the C code and are proved against specification functions; the
lemmas then say what these functions guarantee over all inputs and all runs.

Conventions: integers are unbounded and every 32-bit, 16-bit or 8-bit store is written out (`U32`, `U16`,
`U8`). Host time, answers of the USB stack, interrupts and scheduling are parameters. Where the code and
a comment or the intent behind it differ, the model follows the code:

- Below a nominal sample point of 68% the search accepts bitrates with a length it cannot cut
  (`Sja1000.AcceptedMeansUsable`), and at 100% its second attempt may wrap (`SamplePoint.WrappedAttempts`).
- `sja1000_bitrate` ignores the return code of the search, so the zero timing of a refused bitrate is
  packed and the channel runs at 5000 bit/s (`Sja1000.RegistersMeet`). The comment of `pcan_btr0btr1_to_abstract` speaks of 16 MHz; the conversion uses 8 MHz.
- Microseconds of the PCAN-USB are right for 2^25 ticks only, and the high word is never incremented for
  an event (`UsbClock.TimelineExact`, `UsbClock.EventHigh`).
- The drift ratio is cut to 32 bits (`TimeSync.NeverAheadExactly`) and its increment can make it 2^32
  (`TimeSync.DriftFits`); a negative host time offset can leave
  `tv_usec` negative (`TimeSync.AddUsTotal`).
- The first message of a new bus state can be dropped although the comment says it never is
  (`RxQueue.FirstStatusReceived`); messages whose counters do not match the bus state are posted although
  they are refused (`RxQueue.MismatchPosted`).
- After a killed or refused USB request frames wait in the FIFO until the next put (`UsbEngine.UsbWakeupExactly`).
- A write call that returns an error may have taken its bytes (`LineInput.RetryRepeats`).
- A rejection by the parser after a scanned number returns zero (`TextFormat.AcceptedIncomplete`); the read
  buffer holds lines of at most 8 or 12 data bytes (`TextFormat.LineShape`); a printed time stamp is cut to
  2^32 milliseconds (`TextFormat.StampTime`).

`dafny verify dfyconfig.toml` checks the whole project.

## Model

| member | source | states |
|---|---|---|
| SamplePoint.UpdateSamplePoint | ROS/peak-linux-driver-8.6.0/driver/src/pcan_timing.c:520-576 | The sample point returned is the latest one not past the nominal point over every legal cut of the bit; zero, with the incoming segments kept, means that no cut fits. In the one wrapping case the second segment ends below its minimum |
| SamplePoint.AttemptsSuffice | ROS/peak-linux-driver-8.6.0/driver/src/pcan_timing.c:536-546 | Every fitting cut is matched by one of the two attempts, at least as late |
| SamplePoint.AttemptFits | ROS/peak-linux-driver-8.6.0/driver/src/pcan_timing.c:536-569 | An attempt is a legal cut with its exact sample point, or it passes the nominal point and is ignored: the 32-bit wrap-arounds and the clamping never let an illegal cut through |
| SamplePoint.BestOfAttempts | ROS/peak-linux-driver-8.6.0/driver/src/pcan_timing.c:563-575 | The better of two attempts is optimal over all cuts, and zero is never a proper result |
| SamplePoint.BestFitUnique | ROS/peak-linux-driver-8.6.0/driver/src/pcan_timing.c:536-575 | At most one cut is optimal, so the specification fixes the segments |
| SamplePoint.SecondAttemptNeeded | ROS/peak-linux-driver-8.6.0/driver/src/pcan_timing.c:536-569 | For every length, clamped cuts included: the second attempt alone gives the optimum if and only if it is not clamped to the cut of the first and one quantum more than the truncated product still truncates to at most the nominal point |
| SamplePoint.WrappedAttempts | ROS/peak-linux-driver-8.6.0/driver/src/pcan_timing.c:537-550 | A nominal point of 100% makes the second attempt subtract below zero; for controllers with tseg1_max <= tseg < tseg2_max and tseg - tseg1_max < tseg2_min the cut with a too short second segment wins |
| SamplePoint.FitGivesBest | ROS/peak-linux-driver-8.6.0/driver/src/pcan_timing.c:536-575 | Where some cut fits, an optimal one exists |
| BitTiming.BitrateToBittiming | ROS/peak-linux-driver-8.6.0/driver/src/pcan_timing.c:582-753 | The search ends with the lexicographic minimum of bitrate error and sample point error over all admissible candidates, under the early break and the reset of the point error, and accepts it exactly by the 0.5% test; a sample point above 100% is refused |
| BitTiming.BestIsUnique | ROS/peak-linux-driver-8.6.0/driver/src/pcan_timing.c:644-700 | The optimum with its tie rule (shortest bit, or the first exact one) is unique |
| BitTiming.SentinelRejected | ROS/peak-linux-driver-8.6.0/driver/src/pcan_timing.c:702-713 | An empty search is refused for every bitrate, although the quotient of the UINT_MAX sentinel is cut to 32 bits |
| BitTiming.Take | ROS/peak-linux-driver-8.6.0/driver/src/pcan_timing.c:676-699 | Accepting a candidate keeps the running optimum although the point error was reset |
| BitTiming.Skip | ROS/peak-linux-driver-8.6.0/driver/src/pcan_timing.c:666-683 | Skipping a candidate that is out of range or worse keeps the running optimum |
| BitTiming.Settle | ROS/peak-linux-driver-8.6.0/driver/src/pcan_timing.c:644-700 | The running optimum at the end, or right after an exact candidate, is the optimum over all candidates |
| BitTiming.Conclude | ROS/peak-linux-driver-8.6.0/driver/src/pcan_timing.c:698-713 | After the loop either there was no candidate and the sentinel is refused, or the optimum has been found |
| BitTiming.DefaultPoint | ROS/peak-linux-driver-8.6.0/driver/src/pcan_timing.c:606-627 | Without a sample point in the request the one returned is the latest legal cut of its length that does not pass 75% above 800 kbit/s, 80% above 500 kbit/s and 87.5% below |
| BitTiming.LatestPoint | ROS/peak-linux-driver-8.6.0/driver/src/pcan_timing.c:520-576 | For every request the sample point returned is the latest legal cut of its length not past the nominal point |
| BitTiming.PrescalerInRange | ROS/peak-linux-driver-8.6.0/driver/src/pcan_timing.c:649-667 | An accepted prescaler lies in the range of the controller and is a multiple of its increment |
| BitTiming.StepDownExactly | ROS/peak-linux-driver-8.6.0/driver/src/pcan_timing.c:649-655 | The prescaler tried is the largest multiple of the increment up to the quotient |
| BitTiming.WidthAndQuantum | ROS/peak-linux-driver-8.6.0/driver/src/pcan_timing.c:719-742 | The jump width asked for is kept unless the controller or the second segment is too short for it, one if none is asked for; the quantum is the largest whole number of nanoseconds in brp clock ticks; bitrate and tsam are those of the request |
| Sja1000.Completeness | ROS/peak-linux-driver-8.6.0/driver/src/pcan_timing.c:643-717 | With the SJA1000 ranges at 8 MHz a bitrate is accepted if and only if some prescaler in 1..64 and some length of 3..25 quanta meet the tolerance |
| Sja1000.ToleranceExactly | ROS/peak-linux-driver-8.6.0/driver/src/pcan_timing.c:702-713 | In numbers, meeting a bitrate means a deviation from 8 MHz / (brp * quanta), truncated, of less than 0.51% |
| Sja1000.CandidateSuffices | ROS/peak-linux-driver-8.6.0/driver/src/pcan_timing.c:647-653 | If any prescaler and length meet the bitrate, one of the two prescalers tried for some length is at least as near |
| Sja1000.OutOfRangeNeverMeets | ROS/peak-linux-driver-8.6.0/driver/src/pcan_timing.c:666-667 | A length whose rounded-down prescaler is out of range could not meet the bitrate with any legal prescaler |
| Sja1000.Bracket | ROS/peak-linux-driver-8.6.0/driver/src/pcan_timing.c:649-653 | Prescalers floor and floor + 1 bracket the requested bitrate |
| Sja1000.ToleratedMeets | ROS/peak-linux-driver-8.6.0/driver/src/pcan_timing.c:702-713 | For a candidate the 32-bit tolerance test of the code agrees with the test on unbounded numbers |
| Sja1000.AcceptedMeansUsable | ROS/peak-linux-driver-8.6.0/driver/src/pcan_timing.c:582-753 | From a nominal point of 68% on all fields of every accepted timing lie in the SJA1000 ranges with the sample point really reached and 1 <= sjw <= min(4, tseg2); below it some bitrate is accepted with an unusable timing whatever the search returns |
| Sja1000.EarlyNominalFails | ROS/peak-linux-driver-8.6.0/driver/src/pcan_timing.c:672-730 | Below 68% every outcome for 5245 bit/s is an acceptance with sample point 0 on a length that cannot be cut |
| Sja1000.UsableExactly | ROS/peak-linux-driver-8.6.0/driver/src/pcan_timing.c:680-742 | For every request, at any nominal point: an accepted timing is usable if and only if the length chosen can be cut at or before that point with a quantum in each segment, and then it keeps the tolerance |
| Sja1000.CutDecides | ROS/peak-linux-driver-8.6.0/driver/src/pcan_timing.c:719-742 | The same for the timing filled in for one length |
| Sja1000.CuttableMeans | ROS/peak-linux-driver-8.6.0/driver/src/pcan_timing.c:536-546 | A length can be cut exactly when its longest second segment is not too short |
| Sja1000.LateIsCuttable | ROS/peak-linux-driver-8.6.0/driver/src/pcan_timing.c:536-546 | From 68% on every length chosen can be cut |
| Sja1000.DeliveredRate | ROS/peak-linux-driver-8.6.0/driver/src/pcan_timing.c:720-742 | The segments and prescaler returned meet the bitrate within 0.5% |
| Sja1000.PackRoundTrip | ROS/peak-linux-driver-8.6.0/driver/src/pcan_sja1000.c:1274-1278 | The masks lose nothing of a usable timing: decoding the register pair (pcan_timing.c:443-449) gives the four fields and the triple-sampling bit back |
| Sja1000.Bitrate | ROS/peak-linux-driver-8.6.0/driver/src/pcan_sja1000.c:1223-1285 | A bitrate that can be met is programmed within tolerance if the length chosen can be cut, as from 68% on it always can, with the sample point and jump width asked for; a refused one programs prescaler 64 and 25 quanta, unreported; without sample point and sjw 1 Mbit/s, 500, 250 and 125 kbit/s give the register values 0x0014, 0x001C, 0x011C and 0x031C |
| Sja1000.RequestCarried | ROS/peak-linux-driver-8.6.0/driver/src/pcan_timing.c:719-742 | The register pair of a cuttable length carries single sampling, the jump width asked for (or one) as far as 4 and the second segment allow, and a sample point that is the latest cut not past the one asked for |
| Sja1000.UsualRegisters | ROS/peak-linux-driver-8.6.0/driver/src/pcan_main.h:218-221 | Every outcome of the search for one of these four bitrates is packed into the named constant |
| Sja1000.PresetTiming | ROS/peak-linux-driver-8.6.0/driver/src/pcan_timing.c:606-742 | In general: if the clock is an exact multiple of the bitrate, a length has no longer one up to 25 that divides the quotient, and a cut of it meets the default sample point exactly, then prescaler, length and cut returned are these |
| Sja1000.ExactProduct | ROS/peak-linux-driver-8.6.0/driver/src/pcan_timing.c:649-673 | A bitrate that divides the clock is met without error only by prescalers and lengths of one product |
| Sja1000.RegistersMeet | ROS/peak-linux-driver-8.6.0/driver/src/pcan_sja1000.c:1266-1278 | Whatever the search has returned, an accepted length cuttable, the decoded register pair meets the bitrate if and only if some prescaler and length can; otherwise the channel runs at 5000 bit/s |
| Sja1000.RefusedRequest | ROS/peak-linux-driver-8.6.0/driver/src/pcan_sja1000.c:1267-1278 | The zero timing of a refused request decodes to brp 64, tseg1 16, tseg2 8, which is 5000 bit/s |
| Sja1000.AbstractRoundTrip | ROS/peak-linux-driver-8.6.0/driver/src/pcan_timing.c:463-501 | Abstract form and back is the identity on brp, tseg1, tseg2, sjw and tsam, gives the sample point of the segments, a quantum that lasts brp clock ticks and the bitrate of the abstract form, for every timing and every clock from 1 MHz on whose MHz value divides 1000 * brp, as long as the products in nanoseconds stay within 32 bits |
| Sja1000.AbstractNearest | ROS/peak-linux-driver-8.6.0/driver/src/pcan_timing.c:166-195 | Each length of the abstract form is the nearest number of nanoseconds, its bitrate the nearest to clock / (brp * quanta), its deviation the distance to the nearest one for a bit longer by the jump width |
| Sja1000.QuantaSurvive | ROS/peak-linux-driver-8.6.0/driver/src/pcan_timing.c:177-183 | A length in quanta survives both rounded divisions |
| Sja1000.RegisterPipeline | ROS/peak-linux-driver-8.6.0/driver/src/pcan_timing.c:437-455 | Accepted bitrate with a cuttable length, register pair, abstract form and back: same fields, same sample point, still within tolerance, quantum 125 * brp nanoseconds, bitrate at most one above the truncated clock / (brp * quanta) |
| Fifo.RunConserves | ROS/peak-linux-driver-8.6.0/driver/src/pcan_fifo.c:91-148 | Over every run of put, get and peek: delivered items, then stored ones, are the initial ones followed by the accepted ones; capacity is respected; dwTotal counts accepted items mod 2^32 |
| Fifo.ResetStartsOver | ROS/peak-linux-driver-8.6.0/driver/src/pcan_fifo.c:51-67 | Over every run with resets: items delivered and stored behind the last reset, and dwTotal, are those of the operations behind it alone |
| Fifo.RunAppend | ROS/peak-linux-driver-8.6.0/driver/src/pcan_fifo.c:91-148 | A run may be split anywhere |
| Fifo.Replies | ROS/peak-linux-driver-8.6.0/driver/src/pcan_fifo.c:91-203 | Put answers the number of items before it, or -ENOSPC (-28) exactly when full; get the oldest item, or -ENODATA (-61) exactly when empty; peek what get would, without taking it |
| Fifo.WalkBackVisits | ROS/peak-linux-driver-8.6.0/driver/src/pcan_fifo.c:150-181 | A walk back visits exactly the newest k items, stops after the first non-zero code, and visits all items otherwise |
| Fifo.FifoManager.constructor | ROS/peak-linux-driver-8.6.0/driver/src/pcan_fifo.c:69-89 | A fresh ring is an empty queue |
| Fifo.FifoManager.Reset | ROS/peak-linux-driver-8.6.0/driver/src/pcan_fifo.c:51-67 | Reset empties the queue and its counter |
| Fifo.FifoManager.Put | ROS/peak-linux-driver-8.6.0/driver/src/pcan_fifo.c:91-119 | On the ring of addresses put appends to the queue, returns the old number of items, and fails exactly when the queue is full |
| Fifo.FifoManager.Get | ROS/peak-linux-driver-8.6.0/driver/src/pcan_fifo.c:121-148 | Get removes the oldest item across the wrap, or returns -ENODATA exactly when empty |
| Fifo.FifoManager.Peek | ROS/peak-linux-driver-8.6.0/driver/src/pcan_fifo.c:183-203 | Peek returns the oldest item and changes nothing |
| Fifo.FifoManager.ForeachBack | ROS/peak-linux-driver-8.6.0/driver/src/pcan_fifo.c:150-181 | The address walk across the wrap equals the walk over the queue, in effect and return code |
| Fifo.FifoManager.CallBack | ROS/peak-linux-driver-8.6.0/driver/src/pcan_fifo.c:173-175 | A callback changes the one item at its address and no other |
| Fifo.FifoManager.SlotAddress | ROS/peak-linux-driver-8.6.0/driver/src/pcan_fifo.c:109-112 | Addresses of a ring are ordered as their slots, so the address comparisons detect the wrap |
| TxEngine.NoLostWakeup | ROS/peak-linux-driver-8.6.0/driver/src/pcan_sja1000.c:718-764 | For any number of writers and any interleaving: a frame in the FIFO while no writer is between put and engine check finds the engine started and exactly one of frame in chip, interrupt raised, interrupt noticed, handler ahead |
| TxEngine.OrderAndConservation | ROS/peak-linux-driver-8.6.0/driver/src/pcan_sja1000.c:724-739 | In every reachable state the frames sent, in the chip, in hand and in the FIFO are the accepted ones in put order; no frame is loaded over another |
| TxEngine.NeverIoError | ROS/peak-linux-driver-8.6.0/driver/src/pcan_sja1000.c:746-764 | The -EIO return is unreachable when TBS is clear only while a frame is loaded |
| TxEngine.FlagsTell | ROS/peak-linux-driver-8.6.0/driver/src/pcan_sja1000.c:729-764 | Each step: an overwriting load and a writer that finds the transmit buffer in use are recorded, and nothing else is |
| TxEngine.RunKeepsInv | ROS/peak-linux-driver-8.6.0/driver/src/pcan_sja1000.c:805-845 | The invariant holds after every run |
| TxEngine.StepKeepsInv | ROS/peak-linux-driver-8.6.0/driver/src/pcan_netdev.c:329-362 | Each atomic step of writers, handler and chip keeps the invariant |
| TxEngine.StepConserves | ROS/peak-linux-driver-8.6.0/driver/src/pcan_sja1000.c:724-739 | Each step keeps every accepted frame in exactly one place |
| TxEngine.RunsWithoutPutsEnd | ROS/peak-linux-driver-8.6.0/driver/src/pcan_sja1000.c:826-845 | Without further puts every schedule ends within a bound known in advance |
| TxEngine.StepDecreases | ROS/peak-linux-driver-8.6.0/driver/src/pcan_sja1000.c:826-845 | Each step other than a put lowers that bound |
| TxEngine.StuckMeansSent | ROS/peak-linux-driver-8.6.0/driver/src/pcan_sja1000.c:826-845 | Where nothing but a put can happen, every accepted frame has been sent and the engine is stopped |
| TxEngine.EverythingCanBeSent | ROS/peak-linux-driver-8.6.0/driver/src/pcan_sja1000.c:718-845 | For every sequence of frames there is a run from the start that sends exactly these, in order, and stops the engine |
| TxEngine.AnyMoment | ROS/peak-linux-driver-8.6.0/driver/src/pcan_sja1000.c:718-845 | After every run: a writer outside its section can put a frame while there is room, even inside the section of another; the chip can complete and the handler can read a pending interrupt; a free lock can be taken by whoever waits for it, and its holder can go on |
| UsbEngine.UsbWakeupExactly | ROS/peak-linux-driver-8.6.0/driver/src/pcan_usb_core.c:139-233 | In every reachable state of a plugged device with nobody in the section: frames waiting without a writer on its way find a started engine with one request or notification under way if and only if no failure (killed request, refused submission) has come after the last check that started encoding |
| UsbEngine.UsbNoLostWakeup | ROS/peak-linux-driver-8.6.0/driver/src/pcan_usb_core.c:139-173 | The same with the refill of a notification counted; a run without failures is never cut off |
| UsbEngine.CutOffStrands | ROS/peak-linux-driver-8.6.0/driver/src/pcan_usb_core.c:216-229 | Where a failure has cut the engine off, nothing can happen to the waiting frames until another put |
| UsbEngine.UsbOrderAndConservation | ROS/peak-linux-driver-8.6.0/driver/src/pcan_usb_core.c:382-492 | Failures or not, frames that left, in the request, being encoded and in the FIFO are the accepted ones in put order; all that left were sent if nothing failed; -EBUSY cannot occur |
| UsbEngine.FateDecided | ROS/peak-linux-driver-8.6.0/driver/src/pcan_usb_core.c:139-233 | Each event: what has become of a frame never changes; a request that ends decides for its frames by its status, a failed submission loses those encoded for it, and each failure is counted |
| UsbEngine.NeverStuckStarted | ROS/peak-linux-driver-8.6.0/driver/src/pcan_usb_core.c:470-489 | Whatever has failed, a plugged device has its engine started exactly while a request or its notification is under way |
| UsbEngine.UsbDrained | ROS/peak-linux-driver-8.6.0/driver/src/pcan_usb_core.c:160-173 | Where only a put can happen and the engine is not cut off, every accepted frame has left; without failures all were sent |
| UsbEngine.UsbRunsEnd | ROS/peak-linux-driver-8.6.0/driver/src/pcan_usb_core.c:139-233 | Without further puts every schedule ends within a bound known in advance, whatever fails |
| UsbEngine.UsbStepDecreases | ROS/peak-linux-driver-8.6.0/driver/src/pcan_usb_core.c:139-233 | Each event other than a put lowers that bound |
| UsbEngine.FailuresStrand | ROS/peak-linux-driver-8.6.0/driver/src/pcan_usb_core.c:216-229 | Both failures strand frames: a request killed with frames waiting behind it, and a refusal with frames left in the FIFO |
| UsbEngine.KilledRun | ROS/peak-linux-driver-8.6.0/driver/src/pcan_usb_core.c:139-233 | A run from the start that strands a frame behind a killed request |
| UsbEngine.RefusedRun | ROS/peak-linux-driver-8.6.0/driver/src/pcan_usb_core.c:382-492 | A run from the start that strands a frame behind a refused submission |
| UsbEngine.AnyMoment | ROS/peak-linux-driver-8.6.0/driver/src/pcan_usb_core.c:139-492 | After every run: a writer outside its section can put a frame while there is room, even inside the section of another; the outstanding request can end in any way; a free lock can be taken by whoever waits for it, and its holder can go on encoding, stop at any batch, and submit |
| UsbEngine.EventKeepsSound | ROS/peak-linux-driver-8.6.0/driver/src/pcan_usb_core.c:139-233 | Each step, with put and get interleaved in the locked sections, keeps the invariant |
| UsbEngine.RunKeepsSound | ROS/peak-linux-driver-8.6.0/driver/src/pcan_usb_core.c:139-233 | The invariant holds after every run |
| UsbClock.UsbTime.constructor | ROS/peak-linux-driver-8.6.0/driver/src/pcan_usb.c:138-143 | A fresh clock is reset |
| UsbClock.UsbTime.SyncTimes | ROS/peak-linux-driver-8.6.0/driver/src/pcan_usb.c:251-297 | A calibration updates the fields as the specification function says |
| UsbClock.UsbTime.UpdateFromWord | ROS/peak-linux-driver-8.6.0/driver/src/pcan_usb.c:151-225 | Likewise an event with a 16-bit stamp |
| UsbClock.UsbTime.UpdateFromByte | ROS/peak-linux-driver-8.6.0/driver/src/pcan_usb.c:227-249 | Likewise an event with an 8-bit stamp |
| UsbClock.RecordsTrack | ROS/peak-linux-driver-8.6.0/driver/src/pcan_usb.c:151-275 | Over every run of calibrations and events in any order, whichever comes first and whatever the first tick is, high + low is the true tick of the reference (last calibration, or first event before any) from the first block on mod 2^32 |
| UsbClock.SyncTicks | ROS/peak-linux-driver-8.6.0/driver/src/pcan_usb.c:256-275 | One calibration moves the counter to its true tick |
| UsbClock.SyncTime | ROS/peak-linux-driver-8.6.0/driver/src/pcan_usb.c:283-289 | One calibration moves the two microsecond words to the new tick |
| UsbClock.FirstEvent | ROS/peak-linux-driver-8.6.0/driver/src/pcan_usb.c:188-198 | An event that comes before any calibration sets the reference, and its own count is true |
| UsbClock.EventCount | ROS/peak-linux-driver-8.6.0/driver/src/pcan_usb.c:159-198 | An event gets its true tick count if and only if it lies in the stated window around the last calibration |
| UsbClock.EventWindow | ROS/peak-linux-driver-8.6.0/driver/src/pcan_usb.c:161-186 | Offsets for which the count is always right are exactly -18662..23437 ticks (the negative ones within the same block) |
| UsbClock.ByteExtends | ROS/peak-linux-driver-8.6.0/driver/src/pcan_usb.c:231-248 | Eight bits extend to the true 16 when consecutive stamps are less than 256 ticks apart |
| UsbClock.RecordCounts | ROS/peak-linux-driver-8.6.0/driver/src/pcan_usb.c:151-249 | Every event of every such run, with a 16-bit or an 8-bit stamp, gets its true count if and only if it lies in the window of the reference |
| UsbClock.EventFollows | ROS/peak-linux-driver-8.6.0/driver/src/pcan_usb.c:188-198 | One event keeps the clock on track, with ticks_init still zero or not |
| UsbClock.ByteIsWord | ROS/peak-linux-driver-8.6.0/driver/src/pcan_usb.c:227-249 | An 8-bit stamp acts as the 16-bit stamp of its true tick |
| UsbClock.RecordsTime | ROS/peak-linux-driver-8.6.0/driver/src/pcan_usb.c:283-289 | The two microsecond words follow one monotone timeline over every run, events in between or not |
| UsbClock.TimelineExact | ROS/peak-linux-driver-8.6.0/driver/src/pcan_usb.c:283-289 | That timeline is the true time exactly during the first 2^25 ticks, because ticks * 128 is a 32-bit product |
| UsbClock.EventTime | ROS/peak-linux-driver-8.6.0/driver/src/pcan_usb.c:199-214 | An event lies on the timeline exactly when it falls into the same 2^25 ticks as the calibration |
| UsbClock.EventHigh | ROS/peak-linux-driver-8.6.0/driver/src/pcan_usb.c:202-214 | The increment of the high word for events is never executed |
| TimeSync.TimeKeeper.constructor | ROS/peak-linux-driver-8.6.0/driver/src/pcan_main.c:953-956 | No sync yet |
| TimeSync.TimeKeeper.SyncTimes | ROS/peak-linux-driver-8.6.0/driver/src/pcan_main.c:1084-1213 | A calibration updates the sync record as the specification function says, with every early return |
| TimeSync.AddUsTotal | ROS/peak-linux-driver-8.6.0/driver/src/pcan_common.h:130-136 | Adding keeps the total in microseconds; the result is normalised exactly when the sum is not negative or a whole number of seconds |
| TimeSync.RunSince | ROS/peak-linux-driver-8.6.0/driver/src/pcan_main.c:1094-1208 | Over every run after the first sync device time never decreases, and tts_us and ttv_us are the device and host time elapsed since that sync |
| TimeSync.StepSince | ROS/peak-linux-driver-8.6.0/driver/src/pcan_main.c:1118-1208 | One calibration keeps this |
| TimeSync.DriftBounds | ROS/peak-linux-driver-8.6.0/driver/src/pcan_main.c:1170-1184 | The drift exceeds the true ratio by at most one unit |
| TimeSync.CookedNeverAhead | ROS/peak-linux-driver-8.6.0/driver/src/pcan_main.c:992-1012 | A cooked offset c of device offset d satisfies c * tts <= d * ttv, and lags by less than the rounding of the drift |
| TimeSync.NeverAheadExactly | ROS/peak-linux-driver-8.6.0/driver/src/pcan_main.c:1170-1183 | Never being ahead holds for all offsets if and only if the device clock ran less than 32768 times as fast as the host; beyond, the ratio is cut to 32 bits |
| TimeSync.AheadReachable | ROS/peak-linux-driver-8.6.0/driver/src/pcan_main.c:1170-1183 | At that speed exactly, a run after which an event one microsecond past the sync is stamped 131 ms ahead |
| TimeSync.CookMonotone | ROS/peak-linux-driver-8.6.0/driver/src/pcan_main.c:1000-1012 | Longer device offsets give longer host offsets |
| TimeSync.TimestampsMonotone | ROS/peak-linux-driver-8.6.0/driver/src/pcan_main.c:984-1015 | For a fixed sync base time stamps follow device time on both sides of the base |
| TimeSync.UncookedExact | ROS/peak-linux-driver-8.6.0/driver/src/pcan_main.c:984-1015 | Without drift correction, on both sides of the base, the stamp is as far from the base in host time as the event in device time |
| TimeSync.CookedExact | ROS/peak-linux-driver-8.6.0/driver/src/pcan_main.c:992-1015 | With drift the distance t of the stamp from the base has the sign of the distance d in device time and t * drift <= d * 2^17 < (t + 1) * drift |
| TimeSync.StampInMode | ROS/peak-linux-driver-8.6.0/driver/src/pcan_main.c:1056-1078 | Before the first sync or without device times an event gets its arrival time; in raw mode the normalised device time; uncooked the distance from the last sync |
| TimeSync.TakenExactly | ROS/peak-linux-driver-8.6.0/driver/src/pcan_main.c:1094-1163 | A calibration is taken, and reported with 1, if and only if it is the first one, or comes a second after the last sync or later, its device time has not gone back, and its host time with a negative offset is still later; it then becomes the last sync, otherwise nothing changes |
| TimeSync.SpacedAllTaken | ROS/peak-linux-driver-8.6.0/driver/src/pcan_main.c:1094-1208 | All calibrations of a run that are at least a second apart with device times that never go back are taken |
| TimeSync.EventNeverAhead | ROS/peak-linux-driver-8.6.0/driver/src/pcan_main.c:1056-1208 | After any run of calibrations, however long: an event at or behind the last sync is stamped not before it, not ahead of host time by the totals at the last drift update, which are those of a state of the run, and behind host time by less than the rounding of drift and offset |
| TimeSync.LastUpdate | ROS/peak-linux-driver-8.6.0/driver/src/pcan_main.c:1167-1184 | The drift in use was computed from the totals of some earlier state of the run |
| TimeSync.DriftFits | ROS/peak-linux-driver-8.6.0/driver/src/pcan_main.c:1170-1184 | The drift becomes 2^32, zero for the 32-bit divisor, exactly when the ratio before the increment fills the word |
| TimeSync.DriftOverflowReachable | ROS/peak-linux-driver-8.6.0/driver/src/pcan_main.c:1170-1184 | A run that reaches it |
| RxQueue.Channel.ChardevRx | ROS/peak-linux-driver-8.6.0/driver/src/pcan_main.c:1515-1853 | The method over the ring buffer does what the specification function says to device, queue and result |
| RxQueue.FramePosted | ROS/peak-linux-driver-8.6.0/driver/src/pcan_main.c:1515-1853 | A CAN frame is posted with result 1 if and only if can, ext, rtr, acceptance and open paths allow it, it is not filtered, no overrun is pending and there is room; then it is appended, and the device stays as it is |
| RxQueue.FrameKept | ROS/peak-linux-driver-8.6.0/driver/src/pcan_main.c:1722-1736 | The entry has the kind, id, length and data of the frame and its Rtr and Ext flags; the time it brings or else the time of its arrival; counters and load of the device, each in its field |
| RxQueue.EntryMade | ROS/peak-linux-driver-8.6.0/driver/src/pcan_main.c:1722-1736 | Stamping and decorating a message, in two steps with flags set and cleared, gives the entry that is written out field by field |
| RxQueue.StatusStored | ROS/peak-linux-driver-8.6.0/driver/src/pcan_main.c:1361-1505 | A bus-state message is stored without data, with the state its counters call for, unless it repeats state and counters; the counters are then remembered unless they contradict the bus state |
| RxQueue.MismatchExactly | ROS/peak-linux-driver-8.6.0/driver/src/pcan_main.c:1407-1473 | Counters and bus state contradict each other exactly when the counters call for another state |
| RxQueue.OthersPosted | ROS/peak-linux-driver-8.6.0/driver/src/pcan_main.c:1361-1405 | An error frame or a message about the controller replaces a newest entry of the same kind, id, flags and length (result 0), and is appended otherwise, or sets the overrun bit with -28 |
| RxQueue.Unwanted | ROS/peak-linux-driver-8.6.0/driver/src/pcan_main.c:1527-1664 | Messages not asked for, of no kind, or with nobody listening change nothing |
| RxQueue.OverrunMarks | ROS/peak-linux-driver-8.6.0/driver/src/pcan_main.c:1702-1719 | While an overrun is pending every wanted message turns the newest entry into the overflow marker, with its time, and does nothing else |
| RxQueue.StateChanged | ROS/peak-linux-driver-8.6.0/driver/src/pcan_main.c:1873-1931 | A new bus state clears counters and load exactly if it is active or unknown, and the message announcing it passes the filter unless the counters move on |
| RxQueue.EventEffects | ROS/peak-linux-driver-8.6.0/driver/src/pcan_main.c:1855-1931 | What bus state, counters, a cleared overrun, the bus load timer and a read do to device and queue |
| RxQueue.ReceiveChanges | ROS/peak-linux-driver-8.6.0/driver/src/pcan_main.c:1701-1827 | Every call keeps the queue, appends, patches the newest entry, or (only while the overrun bit is set) marks it; the result is positive exactly when the queue grew by one; a lost message sets the overrun bit |
| RxQueue.RunStaysTidy | ROS/peak-linux-driver-8.6.0/driver/src/pcan_main.c:1361-1405 | Over every run of received messages, reads, bus state and counter changes, neighbouring bus-state entries differ in id, flags or length and no entry claims a state its counters contradict |
| RxQueue.EventKeepsTidy | ROS/peak-linux-driver-8.6.0/driver/src/pcan_main.c:1701-1853 | One event keeps this |
| RxQueue.ChangeKeepsTidy | ROS/peak-linux-driver-8.6.0/driver/src/pcan_main.c:1811-1827 | Each of the four changes keeps this |
| RxQueue.ChangeSparesFrames | ROS/peak-linux-driver-8.6.0/driver/src/pcan_main.c:1702-1719 | A queued CAN frame changes only by the overflow marker, and only if it is the newest entry |
| RxQueue.PreparedIsTruthful | ROS/peak-linux-driver-8.6.0/driver/src/pcan_main.c:1476-1505 | After normalisation ACTIVE implies both counters below 96, WARNING both below 128 |
| RxQueue.WalkNewest | ROS/peak-linux-driver-8.6.0/driver/src/pcan_main.c:1386-1404 | Both callbacks look at the newest entry only |
| RxQueue.FirstStatusDropped | ROS/peak-linux-driver-8.6.0/driver/src/pcan_main.c:1873-1931 | The status filter drops the first message of a new bus state if and only if both counters have meanwhile gone up by one, although the code means it always to pass |
| RxQueue.FirstStatusReceived | ROS/peak-linux-driver-8.6.0/driver/src/pcan_main.c:1701-1827 | The same on the whole path: into a queue with room and another newest entry the message is appended with result 1, or dropped with result 0 in exactly that case |
| RxQueue.WarningLost | ROS/peak-linux-driver-8.6.0/driver/src/pcan_main.c:1701-1827 | A device entering the warning state while both counters go from 95 to 96 loses the message |
| RxQueue.MismatchPosted | ROS/peak-linux-driver-8.6.0/driver/src/pcan_main.c:1436-1473 | Counters that do not match the bus state were meant to keep a message from being posted; it is dropped exactly when the filter for repetitions drops it, otherwise patched or appended as if they matched, and unless the queue is full the device stays as it is |
| RxQueue.MismatchedWarning | ROS/peak-linux-driver-8.6.0/driver/src/pcan_main.c:1436-1473 | A warning posted with both counters at 10 |
| RxQueue.MismatchNeverSuppresses | ROS/peak-linux-driver-8.6.0/driver/src/pcan_main.c:1407-1473 | While the mismatch lasts and the counters differ from the previous ones, no repetition in any run is suppressed |
| RxQueue.FramesConserved | ROS/peak-linux-driver-8.6.0/driver/src/pcan_main.c:1515-1853 | Over every run the CAN frames read, followed by those queued, are the frames for which the call returned 1, with the fields they came with, in order, less those an overflow marker has overwritten |
| RxQueue.EventMatches | ROS/peak-linux-driver-8.6.0/driver/src/pcan_main.c:1701-1853 | One event keeps this |
| RxQueue.OverwriteSurvives | ROS/peak-linux-driver-8.6.0/driver/src/pcan_main.c:1702-1719 | The marker takes the newest surviving frame |
| UsbCodec.UsbPort.PutByte | ROS/peak-linux-driver-8.6.0/driver/src/pcan_usb.c:1177-1180 | A byte goes to the cursor, the buffer behind it is untouched |
| UsbCodec.UsbPort.PutRecord | ROS/peak-linux-driver-8.6.0/driver/src/pcan_usb.c:1156-1211 | Byte by byte the loop writes exactly one record at the cursor |
| UsbCodec.UsbPort.FillRecords | ROS/peak-linux-driver-8.6.0/driver/src/pcan_usb.c:1133-1214 | Records of exactly the greedy prefix of the FIFO, in order, never reaching the counter byte |
| UsbCodec.UsbPort.FinishTelegram | ROS/peak-linux-driver-8.6.0/driver/src/pcan_usb.c:1216-1229 | Counter into the last byte, number of messages into the second, records left alone |
| UsbCodec.UsbPort.EncodeMessage | ROS/peak-linux-driver-8.6.0/driver/src/pcan_usb.c:1110-1233 | One whole telegram of the greedy prefix with right count and counter bytes, or nothing; -ENODATA exactly when the FIFO ran dry |
| UsbCodec.UsbPort.Write | ROS/peak-linux-driver-8.6.0/driver/src/pcan_usb_core.c:382-492 | Whole telegrams with consecutive counters mod 256, whose messages followed by what stays in the FIFO are the old FIFO; all of it unless the buffer is full; engine state and result |
| UsbCodec.GreedyFits | ROS/peak-linux-driver-8.6.0/driver/src/pcan_usb.c:1115-1133 | A record started below the high-water mark ends before the counter byte, and a telegram holds at most 20 |
| UsbCodec.WellFilled | ROS/peak-linux-driver-8.6.0/driver/src/pcan_usb.c:1115-1133 | Unless the FIFO runs dry a telegram has at least 50 of its 64 bytes in use, at most 63, and at most 20 records |
| UsbDecoder.DecodeMessage | ROS/peak-linux-driver-8.6.0/driver/src/pcan_usb.c:693-1099 | The decoding loop, with the revision-dependent overrun test and unknown functions, equals its specification |
| UsbDecoder.PacketRoundTrip | ROS/peak-linux-driver-8.6.0/driver/src/pcan_usb.c:728-1058 | At every revision a packet of CAN records and internal records (bus state, analog bytes, bus load, calibration, errors, the empty function) in any order, with or without stamps, decodes to exactly these: function, number, stamp and payload, id, flags, length and zero-padded data; the first stamp brought has 16 bits, later ones 8; every byte is consumed |
| UsbDecoder.RecordsRoundTrip | ROS/peak-linux-driver-8.6.0/driver/src/pcan_usb.c:738-1058 | The same for records behind any position and in front of any bytes, where decoding then goes on |
| UsbDecoder.FrameRoundTrip | ROS/peak-linux-driver-8.6.0/driver/src/pcan_usb.c:738-870 | One CAN record, of a length up to 15, decodes to its message with at most 8 bytes, whatever follows it |
| UsbDecoder.NoteRoundTrip | ROS/peak-linux-driver-8.6.0/driver/src/pcan_usb.c:889-1058 | One internal record decodes to its function, number, stamp if it has one, and payload |
| UsbDecoder.UnknownEnds | ROS/peak-linux-driver-8.6.0/driver/src/pcan_usb.c:1022-1034 | An unknown function ends the packet with -EILSEQ after the records before it |
| UsbDecoder.NoRecords | ROS/peak-linux-driver-8.6.0/driver/src/pcan_usb.c:717-738 | Nothing received and a packet that counts no records give no message and no error |
| UsbDecoder.CutPacket | ROS/peak-linux-driver-8.6.0/driver/src/pcan_usb.c:1062-1085 | A packet of which fewer bytes count than its records take is refused with -EFAULT if and only if bytes are missing (up to revision 3, more than one); the records up to there have been handed on |
| UsbDecoder.EchoRoundTrip | ROS/peak-linux-driver-8.6.0/driver/src/pcan_usb.c:1153-1211 | At every revision a packet of the encoder's records, a stamp inserted behind each identifier, decodes to their messages with zero-padded data; self-reception is kept from revision 41 on and cleared below, without a trailing byte |
| UsbDecoder.EchoIsFrame | ROS/peak-linux-driver-8.6.0/driver/src/pcan_usb.c:1153-1211 | The encoder's record is the CAN record with the same fields |
| UsbDecoder.RecordExamples | ROS/peak-linux-driver-8.6.0/driver/src/pcan_usb.c:1153-1211 | Five records byte by byte |
| UsbDecoder.TelegramExample | ROS/peak-linux-driver-8.6.0/driver/src/pcan_usb.c:1110-1229 | A telegram of one frame, with its type byte 2 |
| UsbDecoder.IdRoundTrip | ROS/peak-linux-driver-8.6.0/driver/src/pcan_usb.c:1166-1199 | Eleven or 29 identifier bits and the self-receive bit survive |
| UsbDecoder.StatusRoundTrip | ROS/peak-linux-driver-8.6.0/driver/src/pcan_usb.c:1159-1171 | Length, RTR and EXT survive, with or without the top bit set, and the record is not taken for an internal one |
| TextFormat.MakeOutput | ROS/peak-linux-driver-8.6.0/driver/src/pcan_parse.c:45-123 | The printing loop produces the specified line |
| TextFormat.ParseInputMessage | ROS/peak-linux-driver-8.6.0/driver/src/pcan_parse.c:211-307 | The cursor parser equals its specification for every text and every previous content of the message |
| TextFormat.ParseFields | ROS/peak-linux-driver-8.6.0/driver/src/pcan_parse.c:261-303 | Likewise for id, length and data bytes |
| TextFormat.ScanUnsignedNumber | ROS/peak-linux-driver-8.6.0/driver/src/pcan_parse.c:170-181 | Value mod 2^32 and the text behind it, with the base rules of simple_strtoul; -ERANGE exactly when nothing was scanned |
| TextFormat.SkipBlanksAt | ROS/peak-linux-driver-8.6.0/driver/src/pcan_parse.c:153-159 | Blanks and tabs are skipped |
| TextFormat.RoundTrip | ROS/peak-linux-driver-8.6.0/driver/src/pcan_parse.c:45-307 | A printed message is recovered (type, id, RTR, EXT, SLF, BRS, length, data), with or without time stamp and whatever the structure held before, if and only if it is a CAN 2.0 frame without BRS or a CAN FD frame with BRS and without RTR, with a legal id and at most 64 bytes |
| TextFormat.FrameRead | ROS/peak-linux-driver-8.6.0/driver/src/pcan_parse.c:219-303 | What is read back from any printed frame |
| TextFormat.DataRoundTrip | ROS/peak-linux-driver-8.6.0/driver/src/pcan_parse.c:288-301 | Printed bytes come back in their places, the other bytes keep their values |
| TextFormat.TailRoundTrip | ROS/peak-linux-driver-8.6.0/driver/src/pcan_parse.c:102-122 | The time stamp behind the data never makes the parser fail |
| TextFormat.PlainNeverFails | ROS/peak-linux-driver-8.6.0/driver/src/pcan_parse.c:288-301 | Digits and blanks never make the data loop fail |
| TextFormat.ScanHex | ROS/peak-linux-driver-8.6.0/driver/src/pcan_parse.c:85-108 | Zero-padded hexadecimal text scans to its value |
| TextFormat.ScanDecimal | ROS/peak-linux-driver-8.6.0/driver/src/pcan_parse.c:85-87 | Decimal text scans to its value |
| TextFormat.LongDecimal | ROS/peak-linux-driver-8.6.0/driver/src/pcan_parse.c:170-181 | A decimal number of any length is read mod 2^32 |
| TextFormat.NumberOfUpper | ROS/peak-linux-driver-8.6.0/driver/src/pcan_parse.c:170-181 | 0X and upper-case digits are read as hexadecimal |
| TextFormat.NumberOfOctal | ROS/peak-linux-driver-8.6.0/driver/src/pcan_parse.c:170-181 | A number with a leading zero is read as octal |
| TextFormat.OthersRejected | ROS/peak-linux-driver-8.6.0/driver/src/pcan_parse.c:51-68 | Lines of other messages are rejected |
| TextFormat.CutLineAccepted | ROS/peak-linux-driver-8.6.0/driver/src/pcan_parse.c:264-277 | A line ending behind the id counts as read: zero is returned, length and data stay as they were |
| TextFormat.ZeroExactly | ROS/peak-linux-driver-8.6.0/driver/src/pcan_parse.c:211-307 | For every text: zero is returned if and only if the letters are right, an id can be read, and the frame is complete, or a number exceeds its limit, or the line ends too early; a complete text is stored as it says |
| TextFormat.AcceptedIncomplete | ROS/peak-linux-driver-8.6.0/driver/src/pcan_parse.c:265-301 | For every text: it is accepted without being complete if and only if one of the rejections behind a scanned number is reached |
| TextFormat.IdReading | ROS/peak-linux-driver-8.6.0/driver/src/pcan_parse.c:264-303 | The return code and the stored fields for the numbers of a line |
| TextFormat.DataReading | ROS/peak-linux-driver-8.6.0/driver/src/pcan_parse.c:288-301 | The same for the data bytes |
| TextFormat.ParsedInLine | ROS/peak-linux-driver-8.6.0/driver/src/pcan_parse.c:161-181 | What is parsed depends on the text up to the first newline only, although the whole buffer is passed |
| TextFormat.StampTime | ROS/peak-linux-driver-8.6.0/driver/src/pcan_parse.c:110-119 | The two numbers of a stamp give the time of the message mod 2^32 milliseconds, and the whole time exactly below that |
| TextFormat.LineShape | ROS/peak-linux-driver-8.6.0/driver/src/pcan_parse.c:85-122 | A printed frame is one line of at most 363 characters, and fits the 80-byte read buffer exactly up to 8 bytes with a stamp and 12 without |
| TextFormat.LeadingBlanks | ROS/peak-linux-driver-8.6.0/driver/src/pcan_parse.c:219-235 | Blanks and tabs in front of a line do not matter |
| TextFormat.FirstLetter | ROS/peak-linux-driver-8.6.0/driver/src/pcan_parse.c:219-250 | A line must start with one of six letters |
| TextFormat.EndsEarly | ROS/peak-linux-driver-8.6.0/driver/src/pcan_parse.c:161-168 | A carriage return or zero byte ends a line as a newline does, at every field |
| TextFormat.OtherLetters | ROS/peak-linux-driver-8.6.0/driver/src/pcan_parse.c:51-83 | The letters of status messages and of other messages |
| TextFormat.LineExample | ROS/peak-linux-driver-8.6.0/driver/src/pcan_parse.c:51-123 | A printed frame character by character |
| LineInput.LineBuffer.constructor | ROS/peak-linux-driver-8.6.0/driver/src/pcan_fops_linux.c:80-83 | An empty buffer |
| LineInput.LineBuffer.WriteLine | ROS/peak-linux-driver-8.6.0/driver/src/pcan_fops_linux.c:1180-1249 | The line at the front is handled and what follows it moves to the front; a refused line stays, a line answered with -ENODATA goes although the call ends |
| LineInput.LineBuffer.FindEnd | ROS/peak-linux-driver-8.6.0/driver/src/pcan_fops_linux.c:1284-1287 | First newline of the buffer |
| LineInput.LineBuffer.Drain | ROS/peak-linux-driver-8.6.0/driver/src/pcan_fops_linux.c:1281-1296 | The loop terminates having handled every finished line in order until one is refused |
| LineInput.LineBuffer.Write | ROS/peak-linux-driver-8.6.0/driver/src/pcan_fops_linux.c:1251-1306 | One call: bytes taken, lines handled, text left, result |
| LineInput.ChunkIndependence | ROS/peak-linux-driver-8.6.0/driver/src/pcan_fops_linux.c:1267-1303 | For any stream of short lines and any cutting into calls with the rest resubmitted, the lines handled are the finished lines of what was consumed, the buffer holds the unfinished one, and each non-empty offer consumes something |
| LineInput.FailsExactly | ROS/peak-linux-driver-8.6.0/driver/src/pcan_fops_linux.c:1298-1303 | No way of cutting makes a call fail if and only if every line fits the buffer and the unfinished tail leaves room |
| LineInput.LongLineFails | ROS/peak-linux-driver-8.6.0/driver/src/pcan_fops_linux.c:1298-1303 | Byte by byte the first line to fill the buffer unfinished fails |
| LineInput.FullBufferEmptied | ROS/peak-linux-driver-8.6.0/driver/src/pcan_fops_linux.c:1298-1303 | A call that fills the buffer without finishing a line returns -EINVAL (-22) and empties it; the next line is handled as from the start |
| LineInput.BytesTaken | ROS/peak-linux-driver-8.6.0/driver/src/pcan_fops_linux.c:1267-1303 | A call that does not fail returns the bytes it took, all or as many as fit, and lines handled and text left make up the text before and these bytes |
| LineInput.OfferStep | ROS/peak-linux-driver-8.6.0/driver/src/pcan_fops_linux.c:1267-1303 | One call stays on track or fails, decided by the unfinished line |
| LineInput.RetryRepeats | ROS/peak-linux-driver-8.6.0/driver/src/pcan_fops_linux.c:1267-1296 | A call ended by an answer has kept the bytes it took: resubmitting them hands on exactly one line more for each newline among them, so a line goes out more than once if and only if there was one |
| LineInput.RetryTwice | ROS/peak-linux-driver-8.6.0/driver/src/pcan_fops_linux.c:1267-1296 | One line refused with -EAGAIN and resubmitted goes out twice |
| LineInput.ConsumeKeeps | ROS/peak-linux-driver-8.6.0/driver/src/pcan_fops_linux.c:1281-1296 | Lines handed on and text left make up what was in the buffer |
| LineInput.ConsumeAll | ROS/peak-linux-driver-8.6.0/driver/src/pcan_fops_linux.c:1281-1296 | If no line is refused, exactly the finished lines are handled |
| LineInput.LinesCover | ROS/peak-linux-driver-8.6.0/driver/src/pcan_fops_linux.c:1284-1296 | Lines and unfinished tail make up the text, and newlines are exactly the line ends |
| LineInput.SplitAppend | ROS/peak-linux-driver-8.6.0/driver/src/pcan_fops_linux.c:1284-1296 | Splitting may go on from the unfinished line |
| Replay.RecordingLines | ROS/peak-linux-driver-8.6.0/driver/src/pcan_parse.c:85-122 | The splitter cuts a text of printed frames where the printer ended its lines |
| Replay.ReplayRecovers | ROS/peak-linux-driver-8.6.0/driver/src/pcan_fops_linux.c:1180-1306 | A recording of well-formed frames written back in any pieces parses to exactly these frames in order, whatever text stands behind a line in the buffer the parser is given |
| Minor.FindFreeMinor | ROS/peak-linux-driver-8.6.0/driver/src/pcan_main.c:2282-2323 | The least minor from max(from, 0) on used by no device but the excluded one, at most as many places up as there are devices; -ENODEV if and only if the range has an end and is full; the unbounded loop terminates |
| Minor.PigeonHole | ROS/peak-linux-driver-8.6.0/driver/src/pcan_main.c:2294-2318 | More minors than devices cannot all be taken |
| Minor.UsedCount | ROS/peak-linux-driver-8.6.0/driver/src/pcan_main.c:2298-2307 | No more minors are in use than there are devices |
| IsaIrq.CreateIsaSharedIrqLists | ROS/peak-linux-driver-8.6.0/driver/src/pcan_isa.c:81-135 | The nested loops leave every device with the anchor, list and count of its level |
| IsaIrq.JoinSameLevel | ROS/peak-linux-driver-8.6.0/driver/src/pcan_isa.c:97-132 | Every device on the level of a leader joins the leader, and nobody else changes |
| IsaIrq.LeadLevel | ROS/peak-linux-driver-8.6.0/driver/src/pcan_isa.c:97-105 | The first device of a level leads its own list |
| IsaIrq.JoinOne | ROS/peak-linux-driver-8.6.0/driver/src/pcan_isa.c:112-130 | One round of the inner loop |
| IsaIrq.Device.Join | ROS/peak-linux-driver-8.6.0/driver/src/pcan_isa.c:122-126 | Anchor, count and list when a device joins |
| IsaIrq.Device.constructor | ROS/peak-linux-driver-8.6.0/driver/src/pcan_isa.c:69-78 | No anchor, empty list |
| IsaIrq.GroupsAreLevels | ROS/peak-linux-driver-8.6.0/driver/src/pcan_isa.c:88-134 | Two ISA devices share an anchor if and only if they share the interrupt level; the anchor's list and count are exactly its level, each device once |
| IsaIrq.IrqHandler | ROS/peak-linux-driver-8.6.0/driver/src/pcan_isa.c:149-196 | Devices are polled in turn round the circle; the handler stops at the first point where as many polls in a row as the group has devices found no work, or after 101 polls; the result says whether any found work |
| IsaIrq.LeftIdle | ROS/peak-linux-driver-8.6.0/driver/src/pcan_isa.c:165-193 | When it leaves before that limit, every device has been polled without work since the last poll that found any |
| IsaIrq.CircleCovers | ROS/peak-linux-driver-8.6.0/driver/src/pcan_isa.c:165-168 | n polls in a row visit each of n devices exactly once |

## Left out

- Locks as such: every FIFO call, register access and test of the engine state is one atomic step, and a section under `isr_lock` is held by one task at a time.
- Transmit engines: opening and closing of a device, the closed engine state, puts rejected by a full FIFO (they change nothing), the encoding of a frame into SJA1000 registers, events signalled to waiting tasks.
- `TxEngine` and `UsbEngine` are models on values, not classes: an interleaving of several tasks has no sequential method form.
- `UsbEngine`: requests are encoded frame by frame with a free choice of when the buffer is full; the bytes are the matter of `UsbCodec`. The status message posted after a refused submission is not part of it.
- UsbCodec.UsbPort.Write: the answer of the USB stack is a parameter, a device that has been unplugged returns before anything happens, and the packet size is the 64 bytes of the PCAN-USB.
- UsbDecoder.DecodeMessage: internal records are decoded to their bytes and stamps, the handlers behind them (bus events, calibration) and errors of the receive path are not; memory behind the received bytes reads as zero.
- The frame format is the little-endian variant; on big-endian hosts the code swaps while copying.
- BitTiming.BitrateToBittiming: ranges and bitrates whose products leave 32 bits (NoOverflow) are excluded, because the search then divides by wrapped values or by zero, or never ends. So is a nominal point of 100% if some length tried is one whose second attempt wraps (`SamplePoint.WrappedAttempts` says what it yields).
- Sja1000.AbstractRoundTrip: clocks below 1 MHz, by whose MHz value the code divides, and timings whose products leave 32 bits are excluded.
- Sja1000.RegistersMeet: of an accepted length that cannot be cut nothing is said, since its segments are left over from another one (`Sja1000.UsableExactly` says that the timing is unusable).
- `pcan_convert_abstract`, the timing variant for older kernels, the table of constant register values in `sja1000_bitrate`.
- Fifo.FifoManager.constructor: the error returns of `pcan_fifo_init` and buffers whose length is no multiple of the step; `pcan_fifo_ratio` and the empty/full tests.
- TimeSync.TimeKeeper.SyncTimes: 64-bit wrap of the microsecond counters (584,000 years), `tv_ns`, and the branch for the macro `CONFIG_64BITS` (kernels define `CONFIG_64BIT`).
- TimeSync.NeverAheadExactly: a drift of 2^32, by which the code divides as if it were zero, is excluded here, as in `TimeSync.CookedNeverAhead`, `TimeSync.TimestampsMonotone` and `TimeSync.EventNeverAhead`; `TimeSync.DriftFits` says when it arises.
- `RxQueue`: relative time modes, statistics counters, bus load totals, and waking of readers. Acceptance code and mask and the filter list enter as predicates; fields the overflow marker leaves uninitialised are a parameter.
- `TextFormat`: initialisation lines (`pcan_parse_input_init`), comment and empty lines, and printing of more than 64 data bytes. Flag bits other than those examined are not represented.
- LineInput.LineBuffer.WriteLine: parsing and sending of the line is a function from the line to its outcome; a failing copy from user space and a device that has gone are not modelled. The scan tests the end of the buffer before it reads, where the code tests it after.
- Minor.FindFreeMinor: minors are unbounded, so the overflow of `int` near its maximum is not modelled.
- `IsaIrq`: the 16-bit device count is unbounded here; requesting and freeing the interrupt line is not modelled. A list is a sequence of devices, without its link fields.
- PHP pages, plotting scripts and ROS set-up scripts: user interface and generated code without algorithms.
- USB enumeration, PCI, PC card, parallel port, I2C, sysfs, procfs, module set-up, Xenomai/RTDM variants, compat ioctls: kernel calls and registers without visible semantics.
- The uCAN and USB Pro protocols: not part of this model.
