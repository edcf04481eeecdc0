# Verified model of the JPEG back end and the camera frame pipeline

The library records and previews frames of USB cameras. Its bundled
libjpeg-turbo compresses them, and a few lock-free objects hand frames and
native objects from thread to thread. This project models the parts of it
whose correctness rests on bit-level arithmetic or on interleavings, and
proves what they promise.

| part | modules | main results |
|---|---|---|
| QM arithmetic coder | ByteStreams, QmTable, QmExact, QmEstimation, QmRegisters, ArithEncoder, ArithDecoder | the register machine refines an exact interval coder of unbounded precision; bytes written by it decode to every decision; the estimation learns any repeated decision |
| arithmetic binarisation | Zigzag, ArithModel, ArithBins, ArithScan, ArithTheorems, ArithSequential, ArithProgressive | sequential scans and all progressive scan scripts round-trip through their bytes; which decision uses which bin |
| scan scripts | ScanScript, SimpleProgression | the check accepts exactly the scripts in order; the recommended script passes it and loses nothing |
| Huffman tables | HuffmanCode, HuffmanTable, HuffmanMerge, HuffmanPseudo, HuffmanOptimal, HuffmanDeep, HuffmanLeast | merging, length limiting and listing always give a legal table; before limiting no prefix code is better, and limiting is that of Figure K.3; the canonical code of a legal table is prefix free without an all-ones code |
| Huffman coding | HuffmanBits, HuffmanBlocks, HuffmanRoundTrip, HuffmanScan, HuffmanFlush, HuffmanGather, HuffmanTwoPass | both bit accumulators refine plain concatenation; a scan gathered, optimised, written and read comes back |
| quantiser | Quantiser, QuantiserLoop | multiplication by a reciprocal equals rounded division for every divisor and both word sizes, with the exact divisors for the one element whose negation wraps |
| handles | HandleManager, HandleProgress | no use after free and no revival of a stale handle, in every run of any number of threads; free slots are found and given back |
| frame ring | PendingQueue, QueueProgress, FrameMailbox, SplitCalls | queue and mailbox safety over all runs; waiting frames are delivered in a bounded number of steps; fence descriptors are closed exactly once |
| ring hand-over | RingHandover, RingProgress | the exact condition under which clearing a ring never frees it under a callback; a drain ends |
| buffer controllers | ScanGeometry, CoefController, McuContents, MainController, PassRuns | one-pass and two-pass controllers deliver exactly the same MCUs under every suspension schedule, and finish; every scanline is preprocessed once |

`Powers` holds arithmetic on powers of two, `Wrappers` the option type. `dafny verify dfyconfig.toml`
checks everything.

## How the model is built

Code that updates state is a class or a method on arrays with the source's
loops and branches; each is proved against functions on values, and the
properties are lemmas about those functions. `Encoder` (registers `c`, `a`,
`sc`, `zc`, `ct`, `buffer`) carries a ghost trace of the decisions coded, and
`Valid` says that the registers together with the bytes written represent the
exact interval of that trace. The byte readers follow `jdarith.c` and
`jdhuff.c`, so that round trips are stated against the decoder the library
ships. Concurrent objects are state machines: one step is one atomic operation
of one thread, and a run is any sequence of permitted steps. Steps are
sequentially consistent.

Sections, figures and tables named in comments (such as section D.1.5, Figure A.6
and Table F.5) are those of ITU-T T.81.

## Where a promise does not hold, and exactly when it does

- **Flushing the 64-bit accumulator.** Up to 63 bits can be pending when
  `flush_bits` adds seven more; the bits in front of the last 57 are then
  cleared. `HuffmanScan.EncodeScan` says exactly which scans lose nothing, by a
  function of blocks and tables. With AC coefficients of at most ten bits, tables
  whose end-of-block codes have at most ten bits never lose any
  (`HuffmanFlush.ShortEobsFit`); for any coefficients it takes a bound on the
  other codes too (`ShortCodesFit`).
  `HuffmanFlush.FlushLosesBlock` is a block with legal tables whose bytes do not
  decode to it. The 32-bit accumulator loses nothing.
- **Extreme coefficients.** An AC coefficient of -32768 is written by the
  Huffman encoder but does not come back; every other 16-bit value does
  (`HuffmanRoundTrip.AcSurvives`). An arithmetic-coded DC difference comes back
  if and only if its magnitude is at most 2^15 (`ArithTheorems.DcDecodable`).
- **Quantising the least element.** With 16-bit elements the negation of -32768
  wraps. The quotient is right for 39758 of the 65535 divisors, which
  `QuantiserLoop.LeastElement` lists; for every other element it is right
  always. With 32-bit elements negating the least one is undefined in C, and
  nothing is said about it.
- **Code lengths.** The source remarks that a code length above 32 cannot
  happen, and still reports an error for it. It happens exactly when some symbol
  is deeper than 32 in the tree (`HuffmanOptimal.GenOptimalTable`), which takes
  9227464 counted symbols, and that many suffice (`HuffmanDeep.OverflowReached`).
- **Handles that were never given out.** A handle with an even generation can
  pass `acquire` while its slot drains (`HandleManager.ForgedHandle`, in a state
  that `ForgedReachable` reaches). The results on handles assume that every
  handle passed in has an odd generation, as those given out have; that one
  thread registers at a time and one invalidates a given handle; and that an
  object is not registered twice.
- **Draining the ring.** The comments in `clearRingBuffer` say that no callback
  can touch the ring once the drain has finished. A callback that enters after
  the drain can still load the old pointer; it is turned away only as long as
  the injected flag stays false. A new injection at that moment makes it use
  the freed ring (`RingHandover.StaleInjection`, `StaleReachable`). With no
  callback in that place at any injection, the promise holds in every run
  (`RingHandover.NoUseAfterFree`); it is enough that the injecting thread first
  sees no callback in flight (`RingHandover.CheckedSafe`).
- **Mailbox calls.** `FrameMailbox` takes calls of writer and reader as atomic.
  With the index accesses of both apart, the writer can be given the buffer the
  reader is about to hold: `SplitCalls.CollidesExactly` says when, and
  `CollisionReached` is a run.

## Model

| member | source | states |
|---|---|---|
| ByteStreams.UnstuffStuff | lib/src/main/jni/libjpeg-turbo-1.5.0/jdarith.c:120-140 | A reader that drops stuffed zeros and fill bytes gets back exactly the data bytes of a segment, whatever marker follows it. |
| ByteStreams.StuffHasNoMarker | lib/src/main/jni/libjpeg-turbo-1.5.0/jcarith.c:150-195 | Every 0xFF among the bytes of a segment is followed by 0x00, so no marker can appear inside entropy-coded data. |
| ByteStreams.CarryThroughFF | lib/src/main/jni/libjpeg-turbo-1.5.0/jcarith.c:269-285 | Adding a carry below a run of stacked 0xFF bytes turns the run into zeros and raises the byte before it by one; the number written is otherwise the same. |
| QmTable.V | lib/src/main/jni/libjpeg-turbo-1.5.0/jaricom.c:33 | The packed table entry gives back all four of its fields by the shifts and masks the coder uses. |
| QmEstimation.AfterLps | lib/src/main/jni/libjpeg-turbo-1.5.0/jcarith.c:241-252 | A less probable symbol changes the sense exactly in states 0, 14, 36, 64, 80, 88, 95, 105, 110 and 112, leaves the fixed state alone, and in every other state raises the estimate of the less probable symbol. |
| QmEstimation.AfterMps | lib/src/main/jni/libjpeg-turbo-1.5.0/jcarith.c:253-262 | A more probable symbol never changes the sense; it lowers the estimate, except in the fixed state and in state 13, which stay. |
| QmEstimation.StepEstimates | lib/src/main/jni/libjpeg-turbo-1.5.0/jcarith.c:229-264 | One decision: a less probable symbol always estimates, a more probable one exactly when its part is renormalised, and no other bin changes. |
| QmEstimation.Learned | lib/src/main/jni/libjpeg-turbo-1.5.0/jcarith.c:221-314 | Whatever has been coded before, there is a number such that as many or more equal decisions in a bin, unless it is fixed, make that decision its more probable symbol. |
| QmEstimation.SmallerToLps | lib/src/main/jni/libjpeg-turbo-1.5.0/jcarith.c:239-262 | The less probable symbol always gets the smaller part of the interval, of two equal ones the upper; either part can be the estimate. |
| QmExact.Partition | lib/src/main/jni/libjpeg-turbo-1.5.0/jcarith.c:229-262 | With conditional exchange, the intervals of the two decisions cover the interval before and are disjoint, for every value and every statistics byte. |
| QmExact.RunBelowOne | lib/src/main/jni/libjpeg-turbo-1.5.0/jcarith.c:221-314 | The exact interval of any run of decisions stays inside [0, 1). |
| QmExact.DecodeStep | lib/src/main/jni/libjpeg-turbo-1.5.0/jdarith.c:108-185 | An exact decoder given any value inside the interval of a decision reads that decision and stays in step with the coder (interval and statistics). |
| QmExact.RoundTrip | lib/src/main/jni/libjpeg-turbo-1.5.0/jcarith.c:221-314 | Given any value in the final interval of any run of decisions, the exact decoder recovers every decision in order and ends with the same statistics. |
| QmRegisters.InitialState | lib/src/main/jni/libjpeg-turbo-1.5.0/jcarith.c:890-895 | The registers set at the start of a segment stand for the whole interval [0, 1). |
| QmRegisters.CarryHasTarget | lib/src/main/jni/libjpeg-turbo-1.5.0/jcarith.c:269-276 | A carry never arrives while no byte is waiting to take it. |
| QmRegisters.NarrowRegisters | lib/src/main/jni/libjpeg-turbo-1.5.0/jcarith.c:229-262 | Adding the offset of the chosen part to c and storing its width in a tracks the exact sub-interval. |
| QmRegisters.ShiftRegisters | lib/src/main/jni/libjpeg-turbo-1.5.0/jcarith.c:264-268 | One renormalisation shift keeps the relation between registers, written bytes and the exact interval. |
| QmRegisters.OutputCarry | lib/src/main/jni/libjpeg-turbo-1.5.0/jcarith.c:270-288 | Carry case: raised waiting byte, stacked 0xFF bytes become pending zeros, the new waiting byte cannot be 0xFF, and the number represented is unchanged. |
| QmRegisters.OutputFF | lib/src/main/jni/libjpeg-turbo-1.5.0/jcarith.c:289-290 | A top byte 0xFF is stacked and the number represented is unchanged. |
| QmRegisters.OutputPlain | lib/src/main/jni/libjpeg-turbo-1.5.0/jcarith.c:291-309 | Any other top byte makes everything stacked final and the number represented is unchanged. |
| QmRegisters.FinalCode | lib/src/main/jni/libjpeg-turbo-1.5.0/jcarith.c:143-148 | The code value chosen at the end lies in [c, c + a) and has its 15 low bits clear. |
| QmRegisters.FinalFraction | lib/src/main/jni/libjpeg-turbo-1.5.0/jcarith.c:135-196 | The bytes determined so far plus the two last bytes of that code value, read as a fraction, lie in the exact interval. |
| ArithEncoder.Encoder.constructor | lib/src/main/jni/libjpeg-turbo-1.5.0/jcarith.c:824-905 | A new coder has zeroed statistics, has written nothing and covers the whole interval. |
| ArithEncoder.Encoder.StartSegment | lib/src/main/jni/libjpeg-turbo-1.5.0/jcarith.c:321-360 | A new segment starts with fresh registers and keeps the bytes written so far and the statistics it finds. |
| ArithEncoder.Encoder.OutputTopByte | lib/src/main/jni/libjpeg-turbo-1.5.0/jcarith.c:268-312 | All three output cases refine the exact interval: only the representation changes, and eight bits become free. |
| ArithEncoder.Encoder.Renormalise | lib/src/main/jni/libjpeg-turbo-1.5.0/jcarith.c:264-313 | The renormalisation loop terminates and ends with registers that stand for the exactly renormalised interval. |
| ArithEncoder.Encoder.Encode | lib/src/main/jni/libjpeg-turbo-1.5.0/jcarith.c:221-314 | One coded decision advances the exact interval of the trace by exactly that decision; Valid ties registers, pending bytes and stuffed output to that interval. |
| ArithEncoder.Encoder.EmitCarry | lib/src/main/jni/libjpeg-turbo-1.5.0/jcarith.c:153-162 | Pending zeros, then the raised waiting byte are written (a raised 0xFF is stuffed), and the stacked bytes become pending zeros. |
| ArithEncoder.Encoder.EmitLastBytes | lib/src/main/jni/libjpeg-turbo-1.5.0/jcarith.c:182-195 | Dropping the trailing zero bytes of the last two does not change the fraction written. |
| ArithEncoder.Encoder.FinishPass | lib/src/main/jni/libjpeg-turbo-1.5.0/jcarith.c:135-196 | After any sequence of decisions, the unstuffed bytes of the segment, read as a base-256 fraction padded with zeros, lie in the exact interval of that sequence. |
| ArithDecoder.CompareExact | lib/src/main/jni/libjpeg-turbo-1.5.0/jdarith.c:160-163 | The comparison a decoder makes on its 16-bit register with finitely many bytes read is the comparison of the unbounded-precision decoder. |
| ArithDecoder.DecideExact | lib/src/main/jni/libjpeg-turbo-1.5.0/jdarith.c:151-184 | Symbol, exchange, new interval and new statistics of the register decoder agree with the exact decoder. |
| ArithDecoder.ByteDecoder.NextByte | lib/src/main/jni/libjpeg-turbo-1.5.0/jdarith.c:118-140 | Reads the next data byte of the segment; zeros for ever once a marker has been met. |
| ArithDecoder.ByteDecoder.Renormalise | lib/src/main/jni/libjpeg-turbo-1.5.0/jdarith.c:116-149 | The delayed renormalisation, including the priming of the register with two bytes, tracks the exact decoder. |
| ArithDecoder.ByteDecoder.ArithDecode | lib/src/main/jni/libjpeg-turbo-1.5.0/jdarith.c:108-185 | The register decoder reading bytes returns the decision of the exact decoder reading the fraction those bytes write. |
| ArithTheorems.SegmentRoundTrip | lib/src/main/jni/libjpeg-turbo-1.5.0/jcarith.c:135-314 | Stuffed bytes left by a finished segment, followed by any marker, make a decoder recover every decision. |
| ArithTheorems.EncodeThenDecode | lib/src/main/jni/libjpeg-turbo-1.5.0/jcarith.c:135-314 | The imperative encoder followed by the imperative decoder returns every decision bit, for every list of (bin, decision) pairs. |
| ArithModel.Log2Bounds | lib/src/main/jni/libjpeg-turbo-1.5.0/jcarith.c:726-743 | The number of category decisions is the position of the leading one bit. |
| ArithModel.DcRoundTrip | lib/src/main/jni/libjpeg-turbo-1.5.0/jdarith.c:243-318 | Reading the decisions of a DC difference of magnitude up to 2^15 gives the difference back and consumes exactly those decisions. |
| ArithModel.DcOverflow | lib/src/main/jni/libjpeg-turbo-1.5.0/jdarith.c:281-292 | A larger difference makes the decoder stop with a magnitude overflow. |
| ArithTheorems.DcDecodable | lib/src/main/jni/libjpeg-turbo-1.5.0/jcarith.c:717-759 | A coded DC difference comes back if and only if its magnitude is at most 0x8000. |
| ArithModel.AcMagnitudeRoundTrip | lib/src/main/jni/libjpeg-turbo-1.5.0/jcarith.c:786-808 | Every AC magnitude up to 2^15 comes back from its category and pattern decisions. |
| ArithModel.AcRoundTrip | lib/src/main/jni/libjpeg-turbo-1.5.0/jdarith.c:322-393 | Reading the decisions of a band of coefficients gives back every coefficient, including zero runs and the end of block. |
| ArithModel.RefRoundTrip | lib/src/main/jni/libjpeg-turbo-1.5.0/jdarith.c:429-495 | A decoder holding the previous stage of a band gets exactly one more bit of every coefficient from the refinement decisions. |
| ArithBins.DcDecisionBins | lib/src/main/jni/libjpeg-turbo-1.5.0/jcarith.c:397-449 | No difference of two 16-bit DC values uses a bin outside the 64 bins of its DC table. |
| ArithBins.AcDecisionBins | lib/src/main/jni/libjpeg-turbo-1.5.0/jcarith.c:482-548 | No band of 16-bit coefficients uses a bin outside the 256 bins of its AC table and the fixed one. |
| ArithBins.RefDecisionBins | lib/src/main/jni/libjpeg-turbo-1.5.0/jcarith.c:608-675 | No refinement of a band uses a bin outside the 256 bins of its AC table and the fixed one. |
| ArithBins.DcFirstThree | lib/src/main/jni/libjpeg-turbo-1.5.0/jcarith.c:398-424 | The first three decisions of a DC difference (zero or not, sign, magnitude over one or not) with their bins, which the context chooses. |
| ArithBins.DcOthers | lib/src/main/jni/libjpeg-turbo-1.5.0/jcarith.c:420-443 | The decisions after them, one by one: the category, with a bin for each count, then the magnitude bits from the top, in the bin of the category. |
| ArithBins.AcFlags | lib/src/main/jni/libjpeg-turbo-1.5.0/jcarith.c:494-544 | The decisions in front of coefficient k and their bins by number: end of block in 3k - 3, zero or not in 3k - 2, the sign in the fixed one. |
| ArithBins.RefFlags | lib/src/main/jni/libjpeg-turbo-1.5.0/jcarith.c:637-672 | The same for a refinement: no end of block before that of the previous stage, the correction bit of a coefficient nonzero before in bin 3k - 1, the sign of a new one in the fixed bin. |
| ArithBins.AcMagnitudeAt | lib/src/main/jni/libjpeg-turbo-1.5.0/jcarith.c:515-539 | The magnitude decisions of AC coefficient k, one by one, with their bins. |
| ArithBins.ContextsApart | lib/src/main/jni/libjpeg-turbo-1.5.0/jcarith.c:398-426 | Different contexts or tables mean different bins for the first DC decisions, none of them a category bin. |
| ArithBins.SlotsApart | lib/src/main/jni/libjpeg-turbo-1.5.0/jcarith.c:495-526 | The three bins of an AC coefficient are its own and none of those for magnitudes. |
| ArithBins.PoolsApart | lib/src/main/jni/libjpeg-turbo-1.5.0/jcarith.c:521-539 | Coefficients up to kx and those above it never share a bin for their magnitudes. |
| ArithScan.ScanEncoder.constructor | lib/src/main/jni/libjpeg-turbo-1.5.0/jcarith.c:824-905 | A scan starts with zero statistics, except the bin of fixed probability, which holds 113, and with zero predictions and contexts. |
| ArithScan.ScanEncoder.EncodeDc | lib/src/main/jni/libjpeg-turbo-1.5.0/jcarith.c:397-449 | The loop form codes exactly the decisions of the difference from the prediction; prediction and conditioning category are replaced for that component only, the category being what ArithModel.ContextOf says of the difference. |
| ArithModel.ContextOf | lib/src/main/jni/libjpeg-turbo-1.5.0/jcarith.c:428-438 | The conditioning category in terms of the difference alone: 0 exactly up to half of 2^L in magnitude, beyond that 4 for positive and 8 for negative differences, and 8 more exactly for a magnitude over 2^U. |
| ArithScan.ScanEncoder.EncodeAc | lib/src/main/jni/libjpeg-turbo-1.5.0/jcarith.c:482-548 | The loop form codes exactly the decisions of the band after the point transform towards zero, ending after the last nonzero coefficient. |
| ArithScan.ScanEncoder.FindEnd | lib/src/main/jni/libjpeg-turbo-1.5.0/jcarith.c:482-491 | The search from the end stops at the last coefficient that is nonzero after the point transform. |
| ArithScan.ScanEncoder.RefineAc | lib/src/main/jni/libjpeg-turbo-1.5.0/jcarith.c:589-679 | The refinement loop codes exactly the decisions that take the band from its previous stage to the present one. |
| ArithScan.ScanEncoder.RefineDc | lib/src/main/jni/libjpeg-turbo-1.5.0/jcarith.c:554-586 | A DC refinement codes bit Al of every DC value of the MCU at fixed probability. |
| ArithScan.ScanEncoder.EncodeMcu | lib/src/main/jni/libjpeg-turbo-1.5.0/jcarith.c:682-820 | A sequential MCU codes exactly the decisions of its blocks in order and leaves the predictions those blocks imply. |
| ArithScan.ScanEncoder.EncodeMcuDcFirst | lib/src/main/jni/libjpeg-turbo-1.5.0/jcarith.c:364-452 | A DC first pass codes the arithmetically shifted DC values of the MCU as differences. |
| ArithScan.ScanEncoder.EmitRestart | lib/src/main/jni/libjpeg-turbo-1.5.0/jcarith.c:321-360 | A restart closes the segment inside its exact interval, appends 0xFF and the RST marker unstuffed, and clears the statistics, predictions and contexts of exactly the tables of the scan. |
| ArithScan.ShiftOnce | lib/src/main/jni/libjpeg-turbo-1.5.0/jcarith.c:616-630 | The AC point transform by one more bit halves the transformed coefficient towards zero, for either sign. |
| ArithScan.HalvesRefine | lib/src/main/jni/libjpeg-turbo-1.5.0/jcarith.c:616-634 | The transformed block at Al + 1 is the previous stage of the one at Al, coefficient by coefficient. |
| Zigzag.ZigzagInverse | lib/src/main/jni/libjpeg-turbo-1.5.0/jutils.c:29-67 | Zigzag order and natural order are inverse permutations of the 64 positions. |
| Zigzag.ZigzagWalk | lib/src/main/jni/libjpeg-turbo-1.5.0/jutils.c:57-67 | The natural order is the walk of Figure A.6: from position 0 up to the right on even antidiagonals, down to the left on odd ones, turning along the edges. |
| Zigzag.Diagonals | lib/src/main/jni/libjpeg-turbo-1.5.0/jutils.c:57-67 | The antidiagonal never decreases and grows by at most one; within an odd one the row increases, within an even one it decreases, by one each. |
| ArithTheorems.McuRoundTrip | lib/src/main/jni/libjpeg-turbo-1.5.0/jdarith.c:498-620 | Every block of an MCU, and the prediction state after it, come back from the decisions of that MCU. |
| ArithTheorems.DcFirstRoundTrip | lib/src/main/jni/libjpeg-turbo-1.5.0/jdarith.c:243-318 | A DC first pass delivers every DC value after its arithmetic shift. |
| ArithTheorems.DcSuccessiveApproximation | lib/src/main/jni/libjpeg-turbo-1.5.0/jcarith.c:554-586 | A decoder holding the DC values shifted by Al + 1 holds them shifted by Al after the refinement pass, negative values included. |
| ArithTheorems.SuccessiveApproximation | lib/src/main/jni/libjpeg-turbo-1.5.0/jcarith.c:455-679 | After the first pass and any number of refinement passes a decoder holds, over the band, exactly the block transformed by the current Al. |
| ArithTheorems.DcPasses | lib/src/main/jni/libjpeg-turbo-1.5.0/jcarith.c:554-586 | After a DC first pass at any Al and any number of refinement passes a decoder holds the DC values shifted by the current Al. |
| ArithSequential.ScanRoundTrip | lib/src/main/jni/libjpeg-turbo-1.5.0/jdarith.c:498-620 | A decoder that has the decisions of a whole sequential scan in front of it reads the blocks of every MCU, predictions and conditioning carried along. |
| ArithSequential.EncodeSequential | lib/src/main/jni/libjpeg-turbo-1.5.0/jcarith.c:682-820 | The bytes written for a whole sequential scan, with any marker after them, make the byte decoder, opened on them, read the blocks of every MCU. |
| ArithProgressive.BandRoundTrip | lib/src/main/jni/libjpeg-turbo-1.5.0/jdarith.c:323-495 | One block of an AC scan, first or refining: the band is held down to the new bit and the rest of the block as before. |
| ArithProgressive.ScanHolds | lib/src/main/jni/libjpeg-turbo-1.5.0/jdarith.c:244-495 | Reading any scan that may follow leaves a decoder with every coefficient down to the last bit sent, in every block of every component. |
| ArithProgressive.ScriptHolds | lib/src/main/jni/libjpeg-turbo-1.5.0/jcmaster.c:228-272 | The same after any script of scans that satisfies the checks on progression parameters. |
| ArithProgressive.CompleteDelivers | lib/src/main/jni/libjpeg-turbo-1.5.0/jcmaster.c:289-298 | A script that sends all bits of all coefficients delivers the blocks themselves. |
| ScanScript.ValidateScript | lib/src/main/jni/libjpeg-turbo-1.5.0/jcmaster.c:177-306 | The check accepts exactly the scripts in order: sequential with every component in exactly one scan, or progressive with indexes and ranges as required, every scan sending the next bits of its coefficients, and the DC coefficient of every component sent. |
| ScanScript.CheckProgression | lib/src/main/jni/libjpeg-turbo-1.5.0/jcmaster.c:242-285 | The loops over components and coefficients of one scan fail exactly when some coefficient is not at the bit the scan asks for or the DC coefficient has not come first, and otherwise record the bits sent. |
| ScanScript.BitsInTurn | lib/src/main/jni/libjpeg-turbo-1.5.0/jcmaster.c:268-285 | In an accepted progressive script the bits of every coefficient are sent one after the other, none twice and none left out in between. |
| ScanScript.AcceptedValid | lib/src/main/jni/libjpeg-turbo-1.5.0/jcmaster.c:228-295 | What the check accepts is a valid script in the sense in which every scan is proved to round-trip. |
| SimpleProgression.SimpleScript | lib/src/main/jni/libjpeg-turbo-1.5.0/jcparam.c:468-540 | The recommended script is written as specified, for every number of components, and the number of scans figured beforehand is exactly the number filled in. |
| SimpleProgression.ScriptAccepted | lib/src/main/jni/libjpeg-turbo-1.5.0/jcparam.c:468-540 | That script is accepted by the check and sends every bit of every coefficient, for every number of components. |
| SimpleProgression.ScriptDelivers | lib/src/main/jni/libjpeg-turbo-1.5.0/jcparam.c:468-540 | An image written with it comes back from its scans coefficient by coefficient. |
| ArithProgressive.EncodeProg | lib/src/main/jni/libjpeg-turbo-1.5.0/jcarith.c:364-679 | The bytes written for one scan, DC or AC, first or refining, with any marker after them, put its decisions in front of a byte decoder opened on them. |
| ArithProgressive.EncodeScript | lib/src/main/jni/libjpeg-turbo-1.5.0/jcarith.c:364-679 | The bytes written for all scans of a valid script make byte decoders, opened on them one after the other, hold every coefficient down to the last bit sent. |
| HuffmanCode.RoomAtEveryLength | lib/src/main/jni/libjpeg-turbo-1.5.0/jchuff.c:264-282 | A code with a free slot at 16 bits has one at every length. |
| HuffmanCode.Canonical | lib/src/main/jni/libjpeg-turbo-1.5.0/jchuff.c:264-282 | Each code is its predecessor plus one, extended with zeros to its own length. |
| HuffmanCode.NotAllOnes | lib/src/main/jni/libjpeg-turbo-1.5.0/jchuff.c:275-279 | No code of an accepted table consists of ones only. |
| HuffmanCode.DecodeSymbol | lib/src/main/jni/libjpeg-turbo-1.5.0/jdhuff.c:448-484 | The bit-by-bit decoder reads any code of an accepted table back, whatever bits follow. |
| HuffmanCode.PrefixFree | lib/src/main/jni/libjpeg-turbo-1.5.0/jchuff.c:251-306 | The codes of an accepted table are prefix free. |
| HuffmanTable.CodeLengths | lib/src/main/jni/libjpeg-turbo-1.5.0/jchuff.c:251-262 | The lengths loop rejects exactly the tables with a negative count or more than 256 codes, and otherwise gives every position its length. |
| HuffmanTable.AssignCodes | lib/src/main/jni/libjpeg-turbo-1.5.0/jchuff.c:264-282 | The code loop fails exactly when the lengths leave no free 16-bit code, and otherwise gives every position its canonical code. |
| HuffmanTable.MakeDerived | lib/src/main/jni/libjpeg-turbo-1.5.0/jchuff.c:221-307 | A table is accepted if and only if it is legal (counts, free code, distinct symbols in range); every listed symbol gets its canonical code and every other symbol length 0. |
| HuffmanMerge.FindSmallest | lib/src/main/jni/libjpeg-turbo-1.5.0/jchuff.c:913-933 | Finds the live symbol of least frequency, the larger symbol on a tie, or reports that there is none. |
| HuffmanMerge.BumpChain | lib/src/main/jni/libjpeg-turbo-1.5.0/jchuff.c:943-948 | The walk along a chain of others[] terminates, adds one to the length of exactly the symbols of that chain, and ends at its last symbol. |
| HuffmanMerge.LinkChains | lib/src/main/jni/libjpeg-turbo-1.5.0/jchuff.c:943-957 | Linking the second chain to the end of the first lengthens exactly the codes of both. |
| HuffmanMerge.JoinLinked | lib/src/main/jni/libjpeg-turbo-1.5.0/jchuff.c:943-957 | After linking, others[] still holds disjoint acyclic chains, the two merged ones now being one. |
| HuffmanMerge.JoinComplete | lib/src/main/jni/libjpeg-turbo-1.5.0/jchuff.c:939-957 | Every chain keeps Kraft sum exactly one. |
| HuffmanMerge.JoinHeavy | lib/src/main/jni/libjpeg-turbo-1.5.0/jchuff.c:912-957 | A code of length n needs a total frequency of at least the n-th Fibonacci number; merging the two lightest trees keeps that bound. |
| HuffmanMerge.MergeTwo | lib/src/main/jni/libjpeg-turbo-1.5.0/jchuff.c:939-957 | One round of merging keeps all of these together: placement, roots, links, Kraft sums and weights. |
| HuffmanMerge.MergeAll | lib/src/main/jni/libjpeg-turbo-1.5.0/jchuff.c:899-958 | Merging terminates with a single chain that holds exactly the symbols with nonzero frequency and has Kraft sum one; the code sizes are the depths that the depth function gives for the frequencies. |
| HuffmanOptimal.CountLengths | lib/src/main/jni/libjpeg-turbo-1.5.0/jchuff.c:960-970 | Counting succeeds exactly when no length exceeds 32; the counts are then those of the lengths, with the number of symbols and the Kraft sum of the tree. |
| HuffmanOptimal.Paired | lib/src/main/jni/libjpeg-turbo-1.5.0/jchuff.c:983-989 | The longest codes of a complete code come in pairs. |
| HuffmanOptimal.ShorterExists | lib/src/main/jni/libjpeg-turbo-1.5.0/jchuff.c:984-987 | The search for a shorter non-empty length always succeeds before it runs out of lengths. |
| HuffmanOptimal.ShortenedFull | lib/src/main/jni/libjpeg-turbo-1.5.0/jchuff.c:989-992 | Moving a pair of codes keeps the code complete and keeps the number of symbols. |
| HuffmanOptimal.LimitLengths | lib/src/main/jni/libjpeg-turbo-1.5.0/jchuff.c:983-994 | The in-place adjustment terminates and gives what Figure K.3 gives for the counts: all lengths at most 16, the same number of codes, Kraft sum still one. |
| HuffmanOptimal.ShortBits | lib/src/main/jni/libjpeg-turbo-1.5.0/jchuff.c:983-999 | With no depth above 16 the counts of the table are those of the depths of the real symbols: nothing is adjusted, and the pseudo-symbol is the one dropped. |
| HuffmanOptimal.DropPseudo | lib/src/main/jni/libjpeg-turbo-1.5.0/jchuff.c:996-999 | Dropping the pseudo-symbol takes one code of the longest length in use and leaves the other codes and a free code there. |
| HuffmanOptimal.ListedHas | lib/src/main/jni/libjpeg-turbo-1.5.0/jchuff.c:1008-1016 | The listing holds each real symbol with a code exactly once, by length and then by symbol. |
| HuffmanOptimal.ListSymbols | lib/src/main/jni/libjpeg-turbo-1.5.0/jchuff.c:1008-1016 | The nested listing loops write that list and never past 256 entries. |
| HuffmanDeep.TooDeepNeedsWeight | lib/src/main/jni/libjpeg-turbo-1.5.0/jchuff.c:963-966 | A symbol deeper than 32 in the tree, and so the code-length overflow error, takes at least 9227464 counted symbols. |
| HuffmanDeep.OverflowReached | lib/src/main/jni/libjpeg-turbo-1.5.0/jchuff.c:963-966 | The bound is sharp: 33 symbols with Fibonacci numbers as counts, 9227464 in all, give a depth of 33 and the error. |
| HuffmanMerge.SmallestIs | lib/src/main/jni/libjpeg-turbo-1.5.0/jchuff.c:913-933 | The search as a function of the frequencies finds the one symbol the two loops find, ties included. |
| HuffmanMerge.DepthsStep | lib/src/main/jni/libjpeg-turbo-1.5.0/jchuff.c:935-957 | One round of merging on the arrays is one step of the depth function, which speaks of frequencies only. |
| HuffmanOptimal.GenOptimalTable | lib/src/main/jni/libjpeg-turbo-1.5.0/jchuff.c:886-1020 | For 1 to 254 used symbols and fewer than 10^9 counts there is an error if and only if some depth exceeds 32; otherwise the table is legal and lists exactly the symbols with nonzero count, in the order of their depths, and its counts are those of the depths after Figure K.3, less one of the longest. |
| HuffmanPseudo.PseudoDeepest | lib/src/main/jni/libjpeg-turbo-1.5.0/jchuff.c:903-908 | The pseudo-symbol is one of the deepest symbols of the tree for all counts, as the remark in the source says; it rests on how ties are broken. |
| HuffmanPseudo.PseudoStep | lib/src/main/jni/libjpeg-turbo-1.5.0/jchuff.c:912-957 | Every round of merging keeps the order between the tree of the pseudo-symbol and the others that makes it so. |
| HuffmanLeast.MergingLeast | lib/src/main/jni/libjpeg-turbo-1.5.0/jchuff.c:910-957 | What the merges add up to is no more than the cost of any code lengths that satisfy Kraft's inequality. |
| HuffmanLeast.KraftInequality | lib/src/main/jni/libjpeg-turbo-1.5.0/jchuff.c:910-957 | Every prefix code for the used symbols, of any lengths, satisfies Kraft's inequality. |
| HuffmanLeast.DepthsLeast | lib/src/main/jni/libjpeg-turbo-1.5.0/jchuff.c:910-957 | The depths are the code lengths of a prefix code, and no prefix code for the counts, the pseudo-symbol counted once, takes fewer bits. |
| HuffmanLeast.MoreFrequentShallower | lib/src/main/jni/libjpeg-turbo-1.5.0/jchuff.c:910-957 | A symbol that occurs more often than another one is never deeper in the tree. |
| HuffmanDeep.FrequentShallow | lib/src/main/jni/libjpeg-turbo-1.5.0/jchuff.c:910-957 | A symbol at depth d + 1 makes up at most one part in the d-th Fibonacci number of all that is counted. |
| HuffmanBits.BitWriter.EmitByte | lib/src/main/jni/libjpeg-turbo-1.5.0/jchuff.c:345-352 | Writing the top pending byte, stuffed, changes nothing of the bit stream as a whole. |
| HuffmanBits.BitWriter.PutBits | lib/src/main/jni/libjpeg-turbo-1.5.0/jchuff.c:354-357 | Shifting a code into the accumulator appends its bits, provided that they fit. |
| HuffmanBits.BitWriter.EmitBits | lib/src/main/jni/libjpeg-turbo-1.5.0/jchuff.c:359-409 | Both accumulator variants append exactly the bits of the code and always leave room for the next one. |
| HuffmanBits.BitWriter.EmitCode | lib/src/main/jni/libjpeg-turbo-1.5.0/jchuff.c:397-417 | A code and the low bits of a value are appended in this order. |
| HuffmanBits.BitWriter.Flush | lib/src/main/jni/libjpeg-turbo-1.5.0/jchuff.c:463-483 | The bytes flushed are exactly the stream, padded with ones, in which a 64-bit buffer with more than 57 bits pending has cleared those in front of the last 57; this is the whole stream if and only if the buffer has 32 bits or the pending value is below 2^57. |
| HuffmanBits.FlushedBits | lib/src/main/jni/libjpeg-turbo-1.5.0/jchuff.c:474-476 | What the flush loop writes, for every pending value, count and width, bits lost to the shift included. |
| Powers.NBits | lib/src/main/jni/libjpeg-turbo-1.5.0/jchuff.c:767-772 | The category of a magnitude is its number of bits. |
| HuffmanBlocks.Magnitude | lib/src/main/jni/libjpeg-turbo-1.5.0/jchuff.c:523-547 | The sign trick and the bit-count table give the category and the value bits of every coefficient and every difference of 16-bit values, -32768 included. |
| HuffmanBlocks.EncodeDifference | lib/src/main/jni/libjpeg-turbo-1.5.0/jchuff.c:521-551 | The DC part appends the code of the category and the value bits of the difference, and leaves the pending bits the pure count says. |
| HuffmanBlocks.EncodeCoefficient | lib/src/main/jni/libjpeg-turbo-1.5.0/jchuff.c:572-583 | A nonzero coefficient appends its zero runs, its symbol and its value bits, in this order. |
| HuffmanBlocks.EncodeAcs | lib/src/main/jni/libjpeg-turbo-1.5.0/jchuff.c:553-604 | The unrolled coefficient loop appends exactly the items of the block: zero runs of 16, run and category symbols, and an end of block if the block ends in zeros. |
| HuffmanBlocks.EncodeOneBlock | lib/src/main/jni/libjpeg-turbo-1.5.0/jchuff.c:505-611 | Any block of 16-bit coefficients whose symbols have codes appends its DC and AC bits to the stream and nothing else; the number of bits pending afterwards is a function of block, tables and the number before. |
| HuffmanRoundTrip.SymbolRoundTrip | lib/src/main/jni/libjpeg-turbo-1.5.0/jdhuff.c:448-484 | A decoder holding the transmitted table reads back any symbol the derived table has a code for. |
| HuffmanRoundTrip.ExtendRoundTrip | lib/src/main/jni/libjpeg-turbo-1.5.0/jdhuff.c:488-512 | Sign extension undoes the value-bit encoding of every nonzero number. |
| HuffmanRoundTrip.AcRoundTrip | lib/src/main/jni/libjpeg-turbo-1.5.0/jdhuff.c:554-650 | From any position, the items of the remaining coefficients restore them and leave the bits that follow. |
| HuffmanRoundTrip.BlockRoundTrip | lib/src/main/jni/libjpeg-turbo-1.5.0/jdhuff.c:554-650 | A written block decodes to the same 64 coefficients, whatever follows. |
| HuffmanRoundTrip.AcSurvives | lib/src/main/jni/libjpeg-turbo-1.5.0/jchuff.c:561-604 | Among 16-bit AC coefficients, a written block comes back if and only if none of them is -32768. |
| HuffmanScan.UnitsRoundTrip | lib/src/main/jni/libjpeg-turbo-1.5.0/jdhuff.c:554-650 | All blocks of a scan without a coefficient of -32768 come back, with the predictions of each component carried along. |
| HuffmanScan.LeastNotRead | lib/src/main/jni/libjpeg-turbo-1.5.0/jdhuff.c:554-650 | No bits at all make the decoder give back a block with an AC coefficient of -32768. |
| HuffmanScan.EncodeUnits | lib/src/main/jni/libjpeg-turbo-1.5.0/jchuff.c:643-707 | The MCU loops append the bits of all blocks, each difference taken from the last block of its component, and leave the pending bits the pure count says. |
| HuffmanScan.ScanRoundTrip | lib/src/main/jni/libjpeg-turbo-1.5.0/jchuff.c:714-735 | The padded and stuffed bytes of a scan, read up to the next marker, decode to its blocks if and only if no AC coefficient is -32768. |
| HuffmanScan.EncodeScan | lib/src/main/jni/libjpeg-turbo-1.5.0/jchuff.c:643-735 | The bytes of a scan are exactly its bits but for those the flush loses; nothing is lost if and only if, by a function of blocks and tables, at most 57 bits are pending at the end or the ones in front of the last 57 are zero; then they decode to the blocks if and only if none has an AC coefficient of -32768. |
| HuffmanFlush.ShortEobsFit | lib/src/main/jni/libjpeg-turbo-1.5.0/jchuff.c:599-604 | With coefficients of at most ten bits and end-of-block codes of at most ten bits, no flush loses a bit. |
| HuffmanFlush.ShortCodesFit | lib/src/main/jni/libjpeg-turbo-1.5.0/jchuff.c:577-604 | The same for all coefficients, from the tables alone: end-of-block codes of at most ten bits, other codes of at most 26 bits with their value bits. |
| HuffmanFlush.LostPending | lib/src/main/jni/libjpeg-turbo-1.5.0/jchuff.c:505-604 | A block and two legal tables that leave 63 bits pending, the first of them a one. |
| HuffmanFlush.FlushLosesBlock | lib/src/main/jni/libjpeg-turbo-1.5.0/jchuff.c:463-483 | The scan of that block: the bytes of the 64-bit encoder do not decode to it, those of the 32-bit encoder do. |
| HuffmanGather.TallyCounts | lib/src/main/jni/libjpeg-turbo-1.5.0/jchuff.c:753-818 | Counting items raises the count of a symbol by the number of items with that symbol. |
| HuffmanGather.Gatherer.CountBits | lib/src/main/jni/libjpeg-turbo-1.5.0/jchuff.c:767-772 | The shift loop counts the bits of a magnitude. |
| HuffmanGather.Gatherer.CountDifference | lib/src/main/jni/libjpeg-turbo-1.5.0/jchuff.c:761-780 | Counts the symbol of the difference, or reports a difference of more than 11 bits. |
| HuffmanGather.Gatherer.CountAcs | lib/src/main/jni/libjpeg-turbo-1.5.0/jchuff.c:782-817 | Counts exactly the symbols of the items encode_one_block would write, or reports a coefficient of more than 10 bits. |
| HuffmanGather.Gatherer.HtestOneBlock | lib/src/main/jni/libjpeg-turbo-1.5.0/jchuff.c:753-818 | Both parts together; fails exactly on blocks out of range. |
| HuffmanTwoPass.GatherUnits | lib/src/main/jni/libjpeg-turbo-1.5.0/jchuff.c:826-858 | Over a scan, each table's counts grow by exactly the symbols the encoder will ask of that table. |
| HuffmanTwoPass.BuildTable | lib/src/main/jni/libjpeg-turbo-1.5.0/jchuff.c:1027-1062 | Builder and deriver together give a table with a code for exactly the counted symbols, unless some depth exceeds 32; with no depth above 16 every code is as long as its symbol is deep, and limited or not no symbol has a longer code than a deeper one. The deriver never rejects what the builder made. |
| HuffmanLeast.TableLeast | lib/src/main/jni/libjpeg-turbo-1.5.0/jchuff.c:886-1020 | With no depth above 16, coding all that was counted with the table, and the pseudo-symbol once, takes no more bits than with any prefix code. |
| HuffmanTwoPass.CoveredWritable | lib/src/main/jni/libjpeg-turbo-1.5.0/jchuff.c:505-611 | With tables that cover the counted items, no symbol of length 0 is ever emitted. |
| HuffmanTwoPass.FirstPass | lib/src/main/jni/libjpeg-turbo-1.5.0/jchuff.c:826-1062 | The gathering pass fails with a coefficient error exactly when a block is out of range, with a length overflow exactly when the symbols of some table make a tree deeper than 32; otherwise the same scan can be written with its tables, which are those of its symbols. |
| HuffmanTwoPass.OftenShort | lib/src/main/jni/libjpeg-turbo-1.5.0/jchuff.c:753-818 | When no depth exceeds 16 and more than 63 in 144 blocks of every AC table, or none, end in a zero, the end of block gets a code of at most ten bits. |
| HuffmanTwoPass.TwoPass | lib/src/main/jni/libjpeg-turbo-1.5.0/jchuff.c:505-1062 | Optimising and writing a scan gives the bits of the scan but for those a flush loses: none with 32 bits, with end-of-block codes of at most ten bits, or when no depth exceeds 16 and more than 63 in 144 blocks of every AC table, or none, end in a zero; with none lost they decode, with the tables chosen, to the same blocks. |
| Quantiser.Flss | lib/src/main/jni/libjpeg-turbo-1.5.0/jcdctmgr.c:82-110 | The binary search finds the number of significant bits of any 16-bit value. |
| Quantiser.RoundedDivNearest | lib/src/main/jni/libjpeg-turbo-1.5.0/jcdctmgr.c:404-438 | The reference quotient is the one integer nearest to x / d, ties away from zero. |
| Quantiser.NoFraction | lib/src/main/jni/libjpeg-turbo-1.5.0/jcdctmgr.c:192-203 | The remainder is zero exactly for powers of two, whose bit count then gives the shift. |
| Quantiser.ExactPowerOfTwo | lib/src/main/jni/libjpeg-turbo-1.5.0/jcdctmgr.c:200-203 | Power of two: halved reciprocal, smaller shift, exact for every dividend an element can hold. |
| Quantiser.ExactRoundedDown | lib/src/main/jni/libjpeg-turbo-1.5.0/jcdctmgr.c:204-205 | Fraction at most one half: reciprocal rounded down with one added to the correction is exact for every dividend an element can hold. |
| Quantiser.ExactRoundedUp | lib/src/main/jni/libjpeg-turbo-1.5.0/jcdctmgr.c:206-208 | Fraction above one half: reciprocal rounded up is exact for every dividend an element can hold. |
| Quantiser.ComputeReciprocal | lib/src/main/jni/libjpeg-turbo-1.5.0/jcdctmgr.c:172-221 | For every divisor from 1 to 65535 and both element widths, entry i of the table becomes reciprocal, correction, scale and shift of that divisor, and the other entries are untouched. |
| Quantiser.EntryDivides | lib/src/main/jni/libjpeg-turbo-1.5.0/jcdctmgr.c:172-221 | That entry divides every nonnegative element with rounding, without overflow. |
| Quantiser.ScaleShifts | lib/src/main/jni/libjpeg-turbo-1.5.0/jcdctmgr.c:212-216 | The scale stands for the shift: high half of a product with it, after dropping the low half, is the shifted product. |
| QuantiserLoop.ElementExact | lib/src/main/jni/libjpeg-turbo-1.5.0/jcdctmgr.c:420-438 | With the casts of the source, an element of either sign becomes the rounded quotient if and only if it is not the least 16-bit one or the divisor fits that one. |
| QuantiserLoop.LeastElement | lib/src/main/jni/libjpeg-turbo-1.5.0/jcdctmgr.c:426-431 | The least 16-bit element, whose negation wraps, is quantised correctly by exactly the divisors 1, 257, 513 to 516, 1025 to 1040, 2049 to 2114, 4097 to 4369, 8193 to 9362, 16385 to 21845 and 32769 to 65535 but 65534. |
| QuantiserLoop.Quantize | lib/src/main/jni/libjpeg-turbo-1.5.0/jcdctmgr.c:406-438 | Every coefficient of the block becomes its rounded quotient, the least 16-bit element exactly when its divisor fits it. |
| HandleManager.HandleRoundTrip | lib/src/main/jni/UVCCamera/HandleManager.h:158-219 | A handle is accepted and read back as its slot and generation if and only if its generation is below 2^31. |
| HandleManager.StepKeepsInv | lib/src/main/jni/UVCCamera/HandleManager.h:118-315 | Whichever thread takes the next atomic step, the invariant on slots, reference counts and threads holds again. |
| HandleManager.NoUseAfterFree | lib/src/main/jni/UVCCamera/HandleManager.h:118-315 | In every run of any number of threads: a live reference has a non-null context that has not been deleted; a context is never handed out for deletion while a reference to its slot is live; an odd generation has a non-null context. |
| HandleManager.StaleForever | lib/src/main/jni/UVCCamera/HandleManager.h:206-247 | A handle once invalidated never validates again, however often its slot is reused. |
| HandleManager.ForgedHandle | lib/src/main/jni/UVCCamera/HandleManager.h:226-247 | A handle with an even generation, which was never issued, can validate on a draining slot; the promise needs handles that were issued. |
| HandleManager.ForgedReachable | lib/src/main/jni/UVCCamera/HandleManager.h:158-315 | A run of permitted steps, one registration and one invalidation, comes to a state of that kind. |
| HandleProgress.Registers | lib/src/main/jni/UVCCamera/HandleManager.h:158-200 | A registration with a free slot, run alone: the first one from the hint on gets the object and its next generation, which is odd, and nothing else changes but the hint. |
| HandleProgress.Refuses | lib/src/main/jni/UVCCamera/HandleManager.h:158-200 | Without a free slot it is refused, and the slots stay as they are. |
| HandleProgress.Acquires | lib/src/main/jni/UVCCamera/HandleManager.h:206-247 | An acquire run alone holds the object exactly when the handle has the generation of its slot and there is an object. |
| HandleProgress.Invalidates | lib/src/main/jni/UVCCamera/HandleManager.h:260-315 | Invalidating a current handle without references makes the generation even, takes the object out and deletes it; the slot is free again. |
| HandleProgress.Waits | lib/src/main/jni/UVCCamera/HandleManager.h:289-306 | With references it waits, and the object stays, however long. |
| HandleProgress.Life | lib/src/main/jni/UVCCamera/HandleManager.h:158-315 | With some slot free an object can be registered, held, given up and invalidated; afterwards the slot is free once more. |
| PendingQueue.StepKeeps | lib/src/main/jni/UVCCamera/FrameBufferRing.cpp:828-1009 | Every atomic step of producer or consumer keeps the queue invariant, for any queue size from 2. |
| PendingQueue.ConsumerKeeps | lib/src/main/jni/UVCCamera/UVCPreview.cpp:2780-2993 | One turn of the conversion loop, which commits or drops the frame it dequeued, keeps the invariant at each of its atomic steps. |
| PendingQueue.QueueSafe | lib/src/main/jni/UVCCamera/FrameBufferRing.cpp:828-1009 | In every run: producer and consumer never touch the same slot, a dequeued head is always ready and holds the oldest accepted frame, completed frames are a prefix of the accepted ones, and committed frames are an in-order subsequence. That they come at all is said by QueueProgress. |
| QueueProgress.Dequeues | lib/src/main/jni/UVCCamera/FrameBufferRing.cpp:982-999 | With frames waiting, three steps of a polling consumer, whatever the producer does in between, reach the conversion of the slot that holds the oldest frame not completed. |
| QueueProgress.Drains | lib/src/main/jni/UVCCamera/UVCPreview.cpp:2780-2993 | Enough steps of the consumer, seven for each frame, complete the first n accepted frames, in order, whatever is added meanwhile. |
| QueueProgress.Commits | lib/src/main/jni/UVCCamera/UVCPreview.cpp:2780-2993 | If every frame converts, the frames committed are exactly those completed, each once and in order, and the head if its turn has come. |
| QueueProgress.Enqueues | lib/src/main/jni/UVCCamera/FrameBufferRing.cpp:828-966 | A frame offered while there is room is accepted within five steps of the producer, whatever the consumer does in between. |
| PendingQueue.RefusedOnlyWhenFull | lib/src/main/jni/UVCCamera/FrameBufferRing.cpp:849-865 | A frame is refused for lack of room exactly when all slots but one hold waiting frames. |
| FrameMailbox.NextWrite | lib/src/main/jni/UVCCamera/FrameBufferRing.cpp:385-392 | The next write slot is neither the one just written nor the one last read. |
| FrameMailbox.UnlockedOk | lib/src/main/jni/UVCCamera/FrameBufferRing.cpp:351-397 | Completing a frame keeps the write slot away from the latest and the held slot. |
| FrameMailbox.AcquiredOk | lib/src/main/jni/UVCCamera/FrameBufferRing.cpp:399-449 | An acquire returns the frame committed last, and its number does not decrease. |
| FrameMailbox.ApplyOk | lib/src/main/jni/UVCCamera/FrameBufferRing.cpp:232-471 | Every call, in any order the reader's alternation permits, keeps the mailbox invariant. |
| FrameMailbox.MailboxSafe | lib/src/main/jni/UVCCamera/FrameBufferRing.cpp:232-471 | In every run: the write slot is never the held or the latest slot, the locked-by-consumer branch is unreachable, the held buffer keeps the contents committed, and acquired frame numbers never decrease. |
| FrameMailbox.Delivered | lib/src/main/jni/UVCCamera/FrameBufferRing.cpp:232-449 | A frame locked, written and unlocked becomes the newest, under the next number, and is what an acquire then returns, with its pixels and its fence. |
| FrameMailbox.CancelledUnseen | lib/src/main/jni/UVCCamera/FrameBufferRing.cpp:232-348 | A cancelled write leaves what a reader gets and what it holds as they were. |
| FrameMailbox.ReleasedFrees | lib/src/main/jni/UVCCamera/FrameBufferRing.cpp:451-471 | After a release nothing is held, no slot is locked, and nothing else has changed. |
| SplitCalls.PartsTogether | lib/src/main/jni/UVCCamera/FrameBufferRing.cpp:351-435 | The parts of an acquire or of an unlock with nothing in between are the atomic call. |
| SplitCalls.StepKeeps | lib/src/main/jni/UVCCamera/FrameBufferRing.cpp:351-449 | With acquire and unlock taken apart into their index accesses, every step keeps the invariant that tells whose buffer is whose. |
| SplitCalls.CollidesExactly | lib/src/main/jni/UVCCamera/FrameBufferRing.cpp:380-434 | In every run without a collision so far, the reader is about to take the buffer being written if and only if the buffer it read last is another one than it loaded, an odd number of frames has been completed since the load, and the writer has chosen its next buffer since. |
| SplitCalls.HeldUnchanged | lib/src/main/jni/UVCCamera/FrameBufferRing.cpp:351-449 | In every such run the buffer held keeps the frame acquired and is never the one written. |
| SplitCalls.CollisionReached | lib/src/main/jni/UVCCamera/FrameBufferRing.cpp:380-434 | A run of two frames, the load and one more frame gets there: the buffer then held is the one written next, and changes while it is held. |
| FrameMailbox.Mailbox.constructor | lib/src/main/jni/UVCCamera/FrameBufferRing.cpp:109-122 | A new ring has no completed frame and has been given no fence descriptor. |
| FrameMailbox.Mailbox.LockWriteBuffer | lib/src/main/jni/UVCCamera/FrameBufferRing.cpp:232-328 | Succeeds if and only if the ring is allocated and the hardware lock succeeds; what it closes is the stale release fence of the slot, once. |
| FrameMailbox.Mailbox.CancelWriteBuffer | lib/src/main/jni/UVCCamera/FrameBufferRing.cpp:331-348 | A cancelled write changes nothing a reader can see; the descriptor it is given is closed once, and no other. |
| FrameMailbox.Mailbox.UnlockWriteBuffer | lib/src/main/jni/UVCCamera/FrameBufferRing.cpp:351-397 | Commits the written contents under the next frame number and moves on to a free slot; takes the descriptor given and closes the acquire fence it replaces, once, and no other. |
| FrameMailbox.Mailbox.AcquireReadBuffer | lib/src/main/jni/UVCCamera/FrameBufferRing.cpp:399-449 | Returns exactly the last committed frame, or nothing if none has been committed. |
| FrameMailbox.Mailbox.ReleaseReadBuffer | lib/src/main/jni/UVCCamera/FrameBufferRing.cpp:451-471 | Gives up the held slot and nothing else. |
| FrameMailbox.Mailbox.FindSlotByFrameNumber | lib/src/main/jni/UVCCamera/FrameBufferRing.cpp:748-755 | Finds a slot holding the frame, or -1 if none does; the held frame is found in the held slot. |
| FrameMailbox.Mailbox.SetGpuReleaseFence | lib/src/main/jni/UVCCamera/FrameBufferRing.cpp:768-783 | The ring owns the descriptor from here on: stored in its slot, with the one it replaces closed once, or itself closed once if there is no such slot. |
| FrameMailbox.Mailbox.Destroy | lib/src/main/jni/UVCCamera/FrameBufferRing.cpp:200-230 | All descriptors ever given to the ring have then been closed, each exactly once. |
| RingHandover.CallbackKeeps | lib/src/main/jni/UVCCamera/UVCPreview.cpp:587-605 | Every step of any USB callback keeps the hand-over invariant. |
| RingHandover.OwnerKeeps | lib/src/main/jni/UVCCamera/UVCPreview.cpp:1634-1740 | Every step of clearing or injecting keeps it, provided that no callback is between its two loads with a freed ring when a ring is injected. |
| RingHandover.NoUseAfterFree | lib/src/main/jni/UVCCamera/UVCPreview.cpp:1634-1740 | In every run of any number of callbacks a ring in use has not been freed, and none is in use once the owner has drained. |
| RingHandover.IdleNoStale | lib/src/main/jni/UVCCamera/UVCPreview.cpp:1919-1923 | With no callback in flight the proviso holds. |
| RingHandover.CheckedSafe | lib/src/main/jni/UVCCamera/UVCPreview.cpp:1919-1923 | If every injection first sees no callback in flight, no run of any number of callbacks uses a freed ring, whatever enters between that look and the stores. |
| RingHandover.StaleInjection | lib/src/main/jni/UVCCamera/UVCPreview.cpp:1919-1923 | From any state where that proviso fails, injecting and clearing make the callback use a freed ring: the proviso is exact. |
| RingHandover.StaleReachable | lib/src/main/jni/UVCCamera/UVCPreview.cpp:587-605 | Such a state is reached by a run in which clearing itself behaved as documented. |
| RingProgress.Uses | lib/src/main/jni/UVCCamera/UVCPreview.cpp:587-605 | With a ring in place every callback that comes uses it, after four steps of its own, whatever other callbacks do. |
| RingProgress.Injects | lib/src/main/jni/UVCCamera/UVCPreview.cpp:1919-1923 | The three stores of an injection put the ring in place. |
| RingProgress.Clears | lib/src/main/jni/UVCCamera/UVCPreview.cpp:1634-1740 | Clearing takes both flags down and comes to the drain if the ring was in use. |
| RingProgress.Drains | lib/src/main/jni/UVCCamera/UVCPreview.cpp:1634-1740 | The drain ends when every callback has had five turns, in any order. |
| RingProgress.Frees | lib/src/main/jni/UVCCamera/UVCPreview.cpp:1634-1740 | After the drain the owner frees the ring, once, and leaves none in place. |
| ScanGeometry.DivUpNested | lib/src/main/jni/libjpeg-turbo-1.5.0/jcmaster.c:395-401 | Rounding up to blocks and then to MCUs is rounding up once, so interleaved MCU counts and block counts agree. |
| ScanGeometry.LastUnit | lib/src/main/jni/libjpeg-turbo-1.5.0/jcmaster.c:412-418 | The last column and row of MCUs hold between one block and a full width of real blocks. |
| ScanGeometry.SetupOk | lib/src/main/jni/libjpeg-turbo-1.5.0/jcmaster.c:148-170 | For every image size and sampling factors the computed layout satisfies everything the controllers assume. |
| CoefController.ColumnSplit | lib/src/main/jni/libjpeg-turbo-1.5.0/jccoefct.c:170-182 | In each MCU column the real blocks come first, at least one, and dummies follow only at the right edge. |
| McuContents.DummyIs | lib/src/main/jni/libjpeg-turbo-1.5.0/jccoefct.c:185-187 | A dummy block has the DC value it is given and 63 zero AC coefficients. |
| McuContents.RealRow | lib/src/main/jni/libjpeg-turbo-1.5.0/jccoefct.c:174-188 | Each block of an MCU row with real blocks: the component's block where it has one, past the right edge the DC value of its last block in that row and no AC coefficients. |
| McuContents.BottomRow | lib/src/main/jni/libjpeg-turbo-1.5.0/jccoefct.c:189-196 | Each block of a row below the last real one has the DC value of the last block of the MCU in the row above and no AC coefficients. |
| McuContents.McuBlock | lib/src/main/jni/libjpeg-turbo-1.5.0/jccoefct.c:158-200 | The block at every place of an MCU, by member, row and column: real blocks, right-edge dummies and bottom dummies with their DC values. |
| McuContents.McuAt | lib/src/main/jni/libjpeg-turbo-1.5.0/jccoefct.c:142-218 | The MCU at every position of the image: iMCU rows in order, in each its MCU rows, in each its columns. |
| McuContents.RealRowsAre | lib/src/main/jni/libjpeg-turbo-1.5.0/jcmaster.c:412-418 | The rows of an iMCU row counted as real are exactly those the component has. |
| McuContents.EveryBlockSent | lib/src/main/jni/libjpeg-turbo-1.5.0/jccoefct.c:142-218 | Every block of every component in the scan stands in one of the MCUs of the image, at the MCU and the place given by its row and column: none is left out, whatever the size and the sampling. |
| CoefController.Controller.StartImcuRow | lib/src/main/jni/libjpeg-turbo-1.5.0/jccoefct.c:71-92 | Sets the number of MCU rows of the current iMCU row, the last one included. |
| CoefController.Controller.FillMcu | lib/src/main/jni/libjpeg-turbo-1.5.0/jccoefct.c:158-200 | The loops over members and rows build exactly the specified MCU, dummies and their DC values included. |
| CoefController.Controller.CompressData | lib/src/main/jni/libjpeg-turbo-1.5.0/jccoefct.c:142-218 | The accepted MCUs are exactly those before the position the counters give; the call ends with the row complete if and only if no MCU left in it is refused, takes exactly the MCUs before the first refusal, and uses up exactly their answers. |
| CoefController.Controller.LoadStrip | lib/src/main/jni/libjpeg-turbo-1.5.0/jccoefct.c:256-320 | The first pass stores each component's blocks with the right-edge and bottom dummies of the specification. |
| CoefController.Controller.CopyMcu | lib/src/main/jni/libjpeg-turbo-1.5.0/jccoefct.c:368-379 | The output pass picks the same MCU out of the stored image as the one-pass controller builds. |
| CoefController.Controller.CompressOutput | lib/src/main/jni/libjpeg-turbo-1.5.0/jccoefct.c:340-395 | One iMCU row from the stored image: done exactly without a refusal, with exactly the MCUs before the first refusal, as compress_data. |
| CoefController.Controller.CompressFirstPass | lib/src/main/jni/libjpeg-turbo-1.5.0/jccoefct.c:244-327 | Stores the iMCU row and emits it up to the first refusal, as compress_data; rows stored before stay stored, and a retry after suspension does no harm. |
| CoefController.Controller.StartPass | lib/src/main/jni/libjpeg-turbo-1.5.0/jccoefct.c:99-130 | A further pass starts from the first MCU. |
| MainController.Compressor.constructor | lib/src/main/jni/libjpeg-turbo-1.5.0/jcmainct.c:51-68 | Compression starts at scanline 0 and iMCU row 0. |
| MainController.Compressor.PreProcess | lib/src/main/jni/libjpeg-turbo-1.5.0/jcmainct.c:84-97 | The preprocessor takes each scanline once and never past the end of the current iMCU row. |
| MainController.Compressor.ProcessData | lib/src/main/jni/libjpeg-turbo-1.5.0/jcmainct.c:77-123 | The caller's row counter is that of the rows taken, less one exactly while suspended; no scanline is preprocessed twice; unless suspended by exactly one refusal, all rows offered are taken. |
| MainController.Compressor.WriteScanlines | lib/src/main/jni/libjpeg-turbo-1.5.0/jcapistd.c:77-112 | next_scanline advances by the rows reported, all rows offered unless exactly one refusal suspends the call; it reaches the height exactly when all iMCU rows are done, and then every MCU has been accepted once, in order. |
| PassRuns.SentPrefix | lib/src/main/jni/libjpeg-turbo-1.5.0/jccoefct.c:142-218 | What has been accepted at any suspension point is a prefix of the unsuspended MCU sequence. |
| PassRuns.FirstCall | lib/src/main/jni/libjpeg-turbo-1.5.0/jccoefct.c:201-217 | How the refusals and the answers still to come divide between one call and the calls after it. |
| PassRuns.OnePass | lib/src/main/jni/libjpeg-turbo-1.5.0/jccoefct.c:142-218 | For every schedule and number of calls: exactly the MCUs the schedule lets through are accepted, in order, and the pass is finished if and only if there are as many calls as iMCU rows and refusals met. |
| PassRuns.PassCallsBound | lib/src/main/jni/libjpeg-turbo-1.5.0/jccoefct.c:142-218 | That many calls are never more than the iMCU rows and the refusals of the schedule together. |
| PassRuns.TwoPasses | lib/src/main/jni/libjpeg-turbo-1.5.0/jccoefct.c:244-395 | For every schedule, storing pass and output pass each deliver exactly the part of the one-pass sequence their answers let through, and both all of it if and only if there are calls enough. |
| PassRuns.WriteImage | lib/src/main/jni/libjpeg-turbo-1.5.0/jcapistd.c:77-112 | For every split of the scanlines into calls and every schedule: the iMCU rows before next_scanline have been encoded, in order, once; with n or more lines a call, height / n calls (rounded up) and one more for each refusal write the image. |

## Left out

- HuffmanOptimal.GenOptimalTable: says nothing on how far from the best a code is whose lengths had to be limited to 16 (otherwise `HuffmanLeast.TableLeast` does), which the source calls almost optimal; it takes at most 254 used symbols and fewer than 10^9 counts, because the counts of lengths are bytes and the searches start from 10^9. The gathering pass never asks for more symbols (`HuffmanTwoPass.FirstPass`).
- HuffmanTwoPass.FirstPass: takes scans of fewer than 10^9 / 64 blocks in which every component of the scan occurs, so that no table is built from zero counts.
- HuffmanTable.MakeDerived: says nothing about the code of a symbol that has none; the source leaves it uninitialised, the model has zero there.
- HuffmanBits.BitWriter.EmitBits: models the output as an unbounded sequence; the local buffer of `BUFSIZE` bytes, the destination manager and suspension inside a block with its rollback are not modelled.
- HuffmanScan.EncodeScan: one scan without restart markers; the SIMD encoder is not modelled. When the flush loses bits, the bytes are given exactly, not what a decoder makes of them (one case is worked out in `HuffmanFlush.FlushLosesBlock`).
- HuffmanRoundTrip.BlockRoundTrip: the decoder reads bit by bit; its lookahead tables, its fast path and the zeros it invents after the end of the data are not modelled.
- HuffmanBlocks.EncodeOneBlock: the sign trick with shifts and exclusive or is modelled as absolute value and complement, and the table lookup of bit counts as counting.
- ArithScan.ScanEncoder.EmitRestart: the counters that decide when a restart marker is due (`restarts_to_go`, `next_restart_num`) are not modelled; a restart may come between any two MCUs.
- ArithScan.ScanEncoder.EncodeAc: the sequential loop over AC coefficients is the progressive one with the band 1 to 63 and no point transform.
- ArithDecoder.ByteDecoder.NextByte: the end of the input reads like a marker; the data source's refill is not modelled.
- ArithTheorems.McuRoundTrip: for differences the decoder accepts, at most 2^15 in magnitude along the chain of predictions; larger ones are refused (`ArithTheorems.DcDecodable`).
- ArithSequential.EncodeSequential: the MCU loops of the decoder are functions of the exact decoder that the byte decoder is proved to follow; one segment a scan, without restart markers.
- ArithProgressive.EncodeScript: likewise; the order of the blocks in a scan is any order that has each block of its components once.
- QmEstimation.Learned: the estimates of the table itself are transcribed, not derived; what is proved of them is their order along the estimation.
- ScanScript.ValidateScript: errors are one refusal, without their codes; the script is a list, with as many component indexes in an entry as it says.
- HandleProgress.Life: one thread's calls with the other threads standing still; what others can do in between is the invariant's business (`HandleManager.NoUseAfterFree`).
- Quantiser.ComputeReciprocal: the scale with 16-bit elements is that of a build with SIMD code, and 1 with 32-bit elements, as the two builds define it. The fall-back quantiser for other sample widths, the SIMD and the floating-point ones are not modelled.
- QuantiserLoop.Quantize: with 32-bit elements leaves out the least one, whose negation is undefined in C.
- HandleManager.NoUseAfterFree: generations stay below 2^31 (no wrap-around), the drain in `invalidateAndFree` does not time out, and memory orders weaker than sequential consistency are not modelled.
- PendingQueue.QueueSafe: buffer growth in `ensureCapacity` is a choice to fail or to go on; the event descriptor, telemetry, and stopping the conversion thread are not modelled.
- FrameMailbox.MailboxSafe: one consumer that alternates acquire and release; the second consumer of still captures, the GPU's own timing and the time-out of the fence wait are not modelled.
- RingHandover.NoUseAfterFree: assumes that the drain does not time out and that only `clearRingBuffer` clears the ring flag; rings the preview allocates itself, and pointer comparison with an earlier ring, are not modelled.
- MainController.Compressor.PreProcess: the preprocessor is its consumption contract (rows taken once, never past the iMCU row); smoothing, context rows and the raw-data entry point are not modelled.
- CoefController.Controller.FillMcu: `forward_DCT` is any function of component, iMCU row, block row and block column.
- Progressive Huffman coding (`jcphuff.c`) and the Huffman decoder's own suspension: not modelled.
- Markers, colour conversion, downsampling, memory management, and the command-line tools of the JPEG library: only easy members or foreign to the properties above.
- JNI bridges, EGL, native windows, USB transport, camera controls, logging and telemetry: foreign calls without provable content.
