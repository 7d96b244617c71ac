# Aerospike benchmark: verified model

A Dafny model of the logic the benchmark's numbers depend on, with proofs over
every input, every run or every reachable state.

- **Latency histogram engine.** A log-linear index maps a 63-bit latency to a
  slot. Recording, back-filling, merging, percentile lookup, iteration, the
  lock-free recording path and the wire form are all built on it. The model
  states what each of them means for the plain list of recorded values.
- **Stage coordination.** Worker threads, the output thread and the coordinator
  move from stage to stage with two barrier waits, a counter under a mutex and
  three per-thread flags. The protocol is a step relation; the barrier under it
  is an abstract law, and the hand-written barrier is shown to keep that law.
- **Command-slot queue.** A lock-free ring with 32-bit positions recycles command
  slots between completion listeners and one worker.
- **Object specs.** A stack-machine parser, a printer, the write-bin selection
  and sweep, and the word-at-a-time random string generator.
- **Key ranges and the period histogram.** How linear stages share keys, and how
  the period histogram counts while it is being printed.

Code that computes is modelled by functions and lemmas, code that updates state
by classes, arrays and methods with loops proved against those functions, and
concurrent code by step relations with invariants proved over runs.

## Files

| file | content |
|---|---|
| Bits, Sequences | machine-word and counting facts |
| SlotIndex, BucketConfig | layout, index arithmetic, choice of layout |
| HistogramState, Histogram, Percentile, Iterators | recording, queries, iteration, merging |
| LinearIteration | iteration in steps of fixed units, with 64-bit levels |
| AtomicRecording, AtomicProgress | the compare-and-swap recording path; its calls come to an end |
| ZigZag, CountsCodec, CountsStatus, Base64 | wire form; what decoding makes of arbitrary data |
| Barrier, PthreadBarrier | what a barrier promises; the hand-written one |
| Stages, StageSafety, StageServing, StageProgress | the stage protocol, its safety, how long a stage is worked on, progress |
| Queue, QueueWork | the lock-free ring; the worker while it is told to work |
| KeyRange, WrappedLoop, StageKeys | subranges and the issuing loop; when it ends at all; what a linear stage has issued when it is halted |
| SpecSyntax, SpecGrammar, SpecParser, SpecAccepts | object specs, their grammar, the parser, and that it accepts exactly the grammar |
| SpecRoundTrip, SpecPrinted | printing and parsing back; the printed text as a tree of the grammar |
| WriteBins, BinList | selection and sweep of written bins; which texts are selections |
| RandomString, RandomRange | string generation and unbiased draws |
| LatencyHistogram | the period histogram |

## Where the code falls short of the obvious property

- The reported maximum after decoding, and the value at the last rank, equal
  `hdr_max` if and only if the histogram is empty, its unit is one, or a non-zero
  value was recorded (`Percentile.RebuildKeepsMax`, `Percentile.LastRankIsMax`,
  example `CountsCodec.ZeroLosesMax`).
- The reported minimum survives decoding if and only if the histogram is empty,
  slot 0 is used, or a value other than the largest 64-bit one set the minimum
  (`Percentile.RebuildKeepsMin`, examples `CountsCodec.LargestLosesMin`,
  `CountsCodec.WidestLosesMin`).
- The threads' subranges cover the stage's keys if and only if keys times threads
  fits in 64 bits (`KeyRange.TilesIff`, example `KeyRange.OverflowExample`).
- A worker's loop ends, having issued exactly the keys from its start to the first
  whole number of batches at or past its end, if and only if that point is below
  2^64 (`KeyRange.LoopEndsIff`; the point from the stage's numbers in
  `KeyRange.ReachIs`). Otherwise its counter wraps below its end
  (`KeyRange.LoopWraps`) and it stays near its subrange only if it starts at key 0
  (`KeyRange.StaysNearIff`). It then still comes to an end, in some later turn, if
  and only if some 64-bit number at or past its end has its start's remainder
  modulo the largest power of two dividing the batch size (`WrappedLoop.EndsIff`);
  in the accepted stage `KeyRange.WrapExample` it issues key 0 and never ends.
- A linear iteration's reporting level is a signed 64-bit number. The iteration ends
  with every level in range if and only if its top level, a number made from the
  layout, the last used slot and the units, is below 2^63; otherwise a raise of the
  level overflows (`LinearIteration.LinearEndsIff`). With a range limit below 2^63
  it is always below (`LinearIteration.SmallRangeFits`). With the limit at 2^63
  and units of 2^62 an iteration over any non-empty histogram goes round for ever
  in two's complement (`LinearIteration.NeverEnds`, example
  `LinearIteration.NeverEndsExample`).
- A random string's bytes are all inside its buffer if and only if its length is
  below 2^32 - 1 (`RandomString.WritesInsideIff`): at 2^32 - 1, which the spec
  "S4294967295" asks for (`SpecRoundTrip.LongestStringAccepted`), the 32-bit size
  wraps to 0 (`RandomString.LongestHasNoBuffer`).
- After adding a histogram of the same configuration, the reported maximum is the
  larger of the two if and only if the added one's largest value is 0 or past slot
  0, or the receiver's is not 0 (`Iterators.MergedMaxIff`, example
  `Iterators.MergeHidesMax`); the minimum is the smaller of the two if and only if
  the added one is empty, slot 0 is used, or one of the minima is not the largest
  64-bit value (`Iterators.MergedMinIff`, example `Iterators.MergeFindsMin`).
- Multipliers are printed signed: a printed spec parses back if and only if every
  multiplier is below 2^31, and is rejected otherwise (`SpecRoundTrip.RoundTrip`,
  example `SpecRoundTrip.SignedMultiplierLost`).
- In a list, or between bins, a space before a comma is rejected, while a comma may
  follow the last element (`SpecAccepts.CommaExamples`); in a map it is the other way
  round. Both follow from the exact grammar (`SpecAccepts.AcceptedIff`), which also
  shows that a length or bin number with a minus sign is accepted when it is small
  modulo 2^64.
- An empty write-bin selection, accepted from an empty text
  (`WriteBins.EmptyTextSelectsNothing`), makes the sweep visit bin 0, its zero
  terminator (`WriteBins.Sweep`).
- The period histogram's signed index is the bucket number if and only if there
  are at most 2^31 buckets (`LatencyHistogram.IndexExactIff`, example
  `LatencyHistogram.TooManyBuckets`). The program's own calls pass one fixed
  list of three ranges up to 128 ms, far below that.
- A period counter loses increments if and only if it is incremented 2^32 times
  between two swaps (`LatencyHistogram.KeptIff`, example
  `LatencyHistogram.LosingRun`).

## Model

| member | source | states |
|---|---|---|
| SlotIndex.Located | modules/hdr_histogram/hdr_histogram.c:170-190 | the leading-zero count and shift place any value in a sub-bucket of its bucket whose range contains it, the upper half from bucket 1 on |
| SlotIndex.IndexCharacterization | modules/hdr_histogram/hdr_histogram.c:197-217 | a slot is the index of a value if and only if the value lies between that slot's lowest value and the next slot's |
| SlotIndex.IndexOfValueAt | modules/hdr_histogram/hdr_histogram.c:197-217 | looking up a slot's lowest value gives the slot back |
| SlotIndex.IndexMonotone | modules/hdr_histogram/hdr_histogram.c:197-203 | larger values never have smaller indices |
| SlotIndex.ValueAtIndexMonotone | modules/hdr_histogram/hdr_histogram.c:205-217 | slots start at strictly increasing values |
| SlotIndex.EquivalentRange | modules/hdr_histogram/hdr_histogram.c:219-242 | lowest, next and highest equivalent values are exactly the bounds of the value's slot, and the adjusted-bucket branch is never taken |
| SlotIndex.EquivalentIffSameSlot | modules/hdr_histogram/hdr_histogram.c:227-247 | two values have the same lowest equivalent value exactly when they share a slot |
| SlotIndex.SlotsEndAtLimit | modules/hdr_histogram/hdr_histogram.c:303-318 | the slot array ends at a power of two no larger than 2^63 that lies above the highest trackable value |
| SlotIndex.AcceptedIff | modules/hdr_histogram/hdr_histogram.c:471-491 | a value's index is inside the array if and only if the value is below the limit, and every trackable value is |
| SlotIndex.FitsInt64 | modules/hdr_histogram/hdr_histogram.c:219-242 | derived values of a recordable value fit 64 bits; only the first value past the top slot may be 2^63 |
| SlotIndex.Precision | modules/hdr_histogram/hdr_histogram.h:52-55 | a slot is one unit wide, no wider than the lowest trackable value, or its width times 10^figures is at most any value in it |
| BucketConfig.BucketsNeeded | modules/hdr_histogram/hdr_histogram.c:303-318 | the loop returns the smallest number of buckets, at least one, covering the value, without 64-bit overflow |
| BucketConfig.CalculateBucketConfig | modules/hdr_histogram/hdr_histogram.c:328-367 | rejects exactly the stated parameters; otherwise gives a valid layout for them, with no more than twice the range needed |
| BucketConfig.LogBounds | modules/hdr_histogram/hdr_histogram.c:347-352 | both logarithms, as whole numbers, from one up: the powers of two around a number |
| BucketConfig.FiguresMagnitude | modules/hdr_histogram/hdr_histogram.c:348-356 | the half count is the power of two just below twice 10^figures |
| BucketConfig.CountsLenBound | modules/hdr_histogram/hdr_histogram.c:357-367 | the slot array of every accepted layout is below 2^31 long |
| HistogramState.RecordAppends | modules/hdr_histogram/hdr_histogram.c:471-491 | recording a value below the limit stands for appending that many copies of it to the list of recorded values |
| HistogramState.RecordRejects | modules/hdr_histogram/hdr_histogram.c:471-491 | a negative or too large value changes nothing |
| HistogramState.BackFillIs | modules/hdr_histogram/hdr_histogram.c:532-546 | the values a corrected recording records are the value and exactly those below it, an interval or more, a whole number of intervals away, each an interval below the one before |
| HistogramState.CorrectedAppends | modules/hdr_histogram/hdr_histogram.c:525-549 | a corrected recording of a recordable value stands for that many more values: each back-filled value exactly count times and nothing else, the total growing by the count per whole interval |
| HistogramState.MaxMeaning | modules/hdr_histogram/hdr_histogram.c:629-637 | the maximum is the highest equivalent of the largest recorded value, or 0 |
| HistogramState.MinMeaning | modules/hdr_histogram/hdr_histogram.c:639-647 | the minimum is 0 when the smallest value is in slot 0, else its lowest equivalent, and the largest 64-bit value when nothing or only that value was recorded |
| HistogramState.RankSlot | modules/hdr_histogram/hdr_histogram.c:649-672 | the slot at which the running count reaches k is the slot of the k-th smallest recorded value |
| HistogramState.TotalIsSum | modules/hdr_histogram/hdr_histogram.c:471-491 | the slots always add up to the total |
| Histogram.Histogram.constructor | modules/hdr_histogram/hdr_histogram.c:369-423 | a new histogram is empty |
| Histogram.Histogram.RecordValues | modules/hdr_histogram/hdr_histogram.c:471-491 | the in-place update is the recording function, and reports whether the value was recordable |
| Histogram.Histogram.RecordCorrectedValues | modules/hdr_histogram/hdr_histogram.c:525-549 | all or nothing: records the value and every back-filled one, or changes nothing |
| Histogram.Histogram.ResetInternalCounters | modules/hdr_histogram/hdr_histogram.c:259-301 | total, minimum and maximum become those rebuilt from the slots |
| Percentile.PercentileIsRankedValue | modules/hdr_histogram/hdr_histogram.c:649-672 | the value at a percentile is the highest equivalent of the recorded value of that rank in sorted order, or 0 when empty |
| Percentile.PercentileMonotone | modules/hdr_histogram/hdr_histogram.c:649-672 | higher percentiles never report lower values |
| Percentile.RankIsNearest | modules/hdr_histogram/hdr_histogram.c:653-656 | the rank is the whole number nearest to the percentile's share of the total, halves upwards and at least one, and the total from the hundredth percentile on |
| Percentile.RankInRange | modules/hdr_histogram/hdr_histogram.c:651-656 | the rank asked for is between 1 and the total, whatever the percentile |
| Percentile.LastRankIsMax | modules/hdr_histogram/hdr_histogram.c:649-672 | the value at the last rank is the reported maximum if and only if the histogram is empty, the unit is one or a non-zero value was recorded |
| Percentile.RepresentsIsConsistent | modules/hdr_histogram/hdr_histogram.c:259-301 | any histogram built by recording has extremes that agree with its slots |
| Percentile.RebuildIsConsistent | modules/hdr_histogram/hdr_histogram.c:259-301 | counters rebuilt from any non-negative slots agree with those slots |
| Percentile.RebuildKeepsMax | modules/hdr_histogram/hdr_histogram.c:259-301 | rebuilding keeps the reported maximum if and only if the histogram is empty, the unit is one or a non-zero value was recorded |
| Percentile.RebuildKeepsMin | modules/hdr_histogram/hdr_histogram.c:259-301 | rebuilding keeps the reported minimum if and only if the histogram is empty, slot 0 is used or the minimum is not the largest 64-bit value |
| Iterators.Iter.MoveNext | modules/hdr_histogram/hdr_histogram.c:756-774 | stepping accumulates the counts up to and including the slot reached |
| Iterators.Iter.BasicNext | modules/hdr_histogram/hdr_histogram.c:792-802 | it stops only when every later slot is zero, and never runs past the array |
| Iterators.Iter.RecordedNext | modules/hdr_histogram/hdr_histogram.c:947-961 | it visits the next non-zero slot, all slots skipped being zero, and ends only when all later ones are |
| Iterators.ValueAtPercentile | modules/hdr_histogram/hdr_histogram.c:649-672 | the iterator loop computes the value at the rank of the percentile |
| Iterators.Add | modules/hdr_histogram/hdr_histogram.c:577-595 | the histogram becomes the merge of both and the result is the count that did not fit |
| Iterators.MergeConserves | modules/hdr_histogram/hdr_histogram.c:577-595 | new total plus dropped is old total plus the source's counts |
| Iterators.MergeSlots | modules/hdr_histogram/hdr_histogram.c:577-595 | between any two configurations each slot gains exactly the counts of the source slots whose lowest value belongs in it |
| Iterators.MergeSameConfig | modules/hdr_histogram/hdr_histogram.c:577-595 | between equal configurations nothing is dropped and slots add pointwise |
| Iterators.MergedMax | modules/hdr_histogram/hdr_histogram.c:577-595 | the merged maximum is the largest of the old one and the lowest values of the source's recordable slots |
| Iterators.MergedMin | modules/hdr_histogram/hdr_histogram.c:577-595 | the merged minimum is the smallest of the old one and those lowest values that are not zero |
| Iterators.MergedMaxIff | modules/hdr_histogram/hdr_histogram.c:629-637 | exactly when the maximum reported after adding is the larger of the two |
| Iterators.MergedMinIff | modules/hdr_histogram/hdr_histogram.c:639-647 | exactly when the minimum reported after adding is the smaller of the two |
| Iterators.MergeHidesMax | modules/hdr_histogram/hdr_histogram.c:577-595 | a one in wider units added to an empty histogram is reported as 0 |
| Iterators.MergeFindsMin | modules/hdr_histogram/hdr_histogram.c:577-595 | the largest value added to an empty histogram changes which minimum is reported |
| Iterators.RecordConsistent | modules/hdr_histogram/hdr_histogram.c:471-491 | recording any value leaves total, maximum and minimum in agreement with the slots |
| Iterators.MergeConsistent | modules/hdr_histogram/hdr_histogram.c:577-595 | adding a histogram of any configuration leaves total, maximum and minimum in agreement with the slots |
| LinearIteration.LinearIter.Next | modules/hdr_histogram/hdr_histogram.c:981-1015 | a call, with its 64-bit level, is one turn of the walk over the slots, returns what that turn says and adds exactly the counts of the slots it walked |
| LinearIteration.StrollIs | modules/hdr_histogram/hdr_histogram.c:990-1010 | a call stays where the level's slot is already reached, else goes to that slot, or past the last one |
| LinearIteration.HasNextIff | modules/hdr_histogram/hdr_histogram.c:751-754 | counts remain to be seen exactly before the last used slot |
| LinearIteration.StepFrom | modules/hdr_histogram/hdr_histogram.c:981-1015 | while nothing has overflowed a call ends the iteration at the top level and past the last used slot, moves on to a later slot or a higher level, or overflows only if the top level is out of range |
| LinearIteration.LinearEndsIff | modules/hdr_histogram/hdr_histogram.c:981-1028 | an iteration ends with every level in range if and only if the top level is below 2^63, and a raise overflows if and only if it is not |
| LinearIteration.SmallRangeFits | modules/hdr_histogram/hdr_histogram.c:995-999 | with a range limit below 2^63 the top level is below 2^63 for all counts and units |
| LinearIteration.NeverEnds | modules/hdr_histogram/hdr_histogram.c:981-1015 | with the limit at 2^63 and units of 2^62 every call on a non-empty histogram returns true, standing at one slot |
| LinearIteration.NeverEndsExample | modules/hdr_histogram/hdr_histogram.c:981-1015 | the same in the layout for 1, the largest 64-bit value and one figure, with 3 recorded once |
| LinearIteration.LinearSteps | modules/hdr_histogram/hdr_histogram.c:981-1028 | a linear iteration ends without overflow if and only if the top level is below 2^63, and its steps then sum to the total |
| AtomicRecording.RunInv | modules/hdr_histogram/hdr_histogram.c:70-117 | in every interleaving the slots are those of the calls counted, and the total and extremes lag only by calls in flight |
| AtomicRecording.QuiescentIsSequential | modules/hdr_histogram/hdr_histogram.c:493-513 | whenever no call is in flight the histogram equals a sequential run of the same calls |
| AtomicRecording.SlotsLeadTotal | modules/hdr_histogram/hdr_histogram.c:493-513 | in every state the slots exceed the total by exactly the counts between the two adds |
| AtomicRecording.ExtremesMonotone | modules/hdr_histogram/hdr_histogram.c:87-117 | over a run the minimum never rises and the maximum never falls |
| AtomicProgress.AloneReturns | modules/hdr_histogram/hdr_histogram.c:87-117 | a thread inside a call that runs alone has returned after at most six steps, a failed swap and the load it repeats included |
| AtomicProgress.StepLowers | modules/hdr_histogram/hdr_histogram.c:92-116 | every step inside a call, a failed swap included, lowers a bounded measure of the whole run |
| AtomicProgress.EveryPathEnds | modules/hdr_histogram/hdr_histogram.c:92-116 | in every interleaving of n threads, once no call begins, at most n * (4n + 6) steps remain |
| AtomicProgress.EveryRunCanQuiesce | modules/hdr_histogram/hdr_histogram.c:493-513 | every run can go on until every call has returned, and the histogram is then that of the same calls made one after another |
| AtomicRecording.SequentialPermutation | modules/hdr_histogram/hdr_histogram.c:471-491 | the order of calls does not matter to the histogram they leave |
| AtomicRecording.SequentialMeaning | modules/hdr_histogram/hdr_histogram.c:471-491 | a sequential run's slots add up to its total and its extremes are those of its calls |
| ZigZag.LebRoundTrip | modules/hdr_histogram/hdr_encoding.c:13-162 | the byte form of any word decodes to it and to its exact length, whatever follows |
| ZigZag.LebDigits | modules/hdr_histogram/hdr_encoding.c:13-95 | the bytes are the base-128 digits lowest first, without leading zeros, the high bit set on all but the last |
| ZigZag.UnLebDigits | modules/hdr_histogram/hdr_encoding.c:97-162 | whatever the bytes, the number read has them as base-128 digits, up to the first without a high bit or the ninth |
| ZigZag.RoundTrip | modules/hdr_histogram/hdr_encoding.c:13-162 | decoding inverts encoding for every signed 64-bit value, whatever bytes follow |
| ZigZag.ZigZagIsXor | modules/hdr_histogram/hdr_encoding.c:18-18 | the encoder's number is the xor of the value shifted left and its sign spread over 64 bits |
| ZigZag.UnZigZagIsXor | modules/hdr_histogram/hdr_encoding.c:155-155 | the decoder's value is, modulo 2^64, the xor of the half and the negated low bit |
| ZigZag.WordsDouble | modules/hdr_histogram/hdr_encoding.c:18-18 | the encoder's shift and xor on a 64-bit word are doubling, and doubling the negated word minus one |
| ZigZag.WordsHalve | modules/hdr_histogram/hdr_encoding.c:155-155 | the decoder's are a half, and a negated half minus one |
| ZigZag.WordsInverse | modules/hdr_histogram/hdr_encoding.c:18-18 | the two word operations are inverse |
| ZigZag.Encode | modules/hdr_histogram/hdr_encoding.c:13-95 | writes exactly the encoded bytes at the position given and nothing else |
| ZigZag.Decode | modules/hdr_histogram/hdr_encoding.c:97-162 | reads the number and length the decoding function gives |
| CountsCodec.EncodeSlots | modules/hdr_histogram/hdr_histogram_log.c:179-209 | the buffer holds the encoding of the slots up to that of the largest value |
| CountsCodec.ApplyToSlots | modules/hdr_histogram/hdr_histogram_log.c:288-326 | slots and error status after decoding are those of the decoding function, for any bytes |
| CountsStatus.StatusIff | modules/hdr_histogram/hdr_histogram_log.c:288-324 | for arbitrary data, each status is answered if and only if the data is a list of fitting numbers behind which decoding stops that way: at the limit, past it, with slots used up before it, or before a run that does not fit |
| CountsStatus.WrittenAt | modules/hdr_histogram/hdr_histogram_log.c:294-314 | every count read is in the slot the numbers before it lead to |
| CountsStatus.NotWritten | modules/hdr_histogram/hdr_histogram_log.c:294-314 | every other slot is left alone |
| CountsStatus.EncodedNumbers | modules/hdr_histogram/hdr_histogram_log.c:179-209 | an encoding consists of the non-zero counts and one number for each whole run of zeros |
| CountsCodec.ApplyEncoded | modules/hdr_histogram/hdr_histogram_log.c:288-326 | decoding an encoded run of slots from any point writes exactly those slots |
| CountsCodec.HistogramRoundTrip | modules/hdr_histogram/hdr_histogram_log.c:179-209 | decoding an encoded histogram restores every slot and the total, in at most nine bytes a slot |
| CountsCodec.DecodedExtremes | modules/hdr_histogram/hdr_histogram_log.c:625-631 | exactly when the decoded histogram reports the original maximum and minimum |
| CountsCodec.ZeroLosesMax | modules/hdr_histogram/hdr_histogram_log.c:625-631 | a single zero in wider units is decoded with a larger maximum |
| CountsCodec.LargestLosesMin | modules/hdr_histogram/hdr_histogram_log.c:625-631 | a single largest value is decoded with a different minimum |
| CountsCodec.WidestLosesMin | modules/hdr_histogram/hdr_histogram_log.c:625-631 | the layout for 1 to the largest 64-bit value holds every 63-bit value and shows it |
| CountsCodec.DecodeHistogram | modules/hdr_histogram/hdr_histogram_log.c:614-631 | decoding gives a fresh histogram whose counters are rebuilt from the decoded slots |
| Base64.EncodedIsStandard | modules/hdr_histogram/hdr_encoding.c:173-284 | every character is the symbol of its six input bits, then padding, as section 4 of RFC 4648 has it |
| Base64.RoundTrip | modules/hdr_histogram/hdr_encoding.c:219-321 | decoding an encoding gives the bytes back, then only zeros to the next multiple of three |
| Base64.Encode | modules/hdr_histogram/hdr_encoding.c:264-284 | fills the output with the encoding exactly when it has the encoded length, else leaves it alone |
| Base64.Decode | modules/hdr_histogram/hdr_encoding.c:303-321 | accepts exactly whole non-empty quads of the right size and fills the output with their bytes |
| Barrier.LawBoundsSkew | src/main/coordinator.c:73-81 | under the barrier law completed waits of any two parties differ by at most one |
| PthreadBarrier.RunInv | src/main/osx_pthread_barrier.c:43-90 | in every interleaving, re-entry and spurious wake-ups included, waits, count, round word, mutex and serial codes agree |
| PthreadBarrier.StepIsBarrierMove | src/main/osx_pthread_barrier.c:43-90 | every action enters a wait, leaves one that all have entered, or is invisible: the barrier refines the abstract law |
| PthreadBarrier.RunKeepsLaw | src/main/osx_pthread_barrier.c:43-90 | no thread has left a wait that some thread has not entered, at any point of any run, across round wrap-around |
| PthreadBarrier.SerialToOne | src/main/osx_pthread_barrier.c:71-89 | of the threads returning from their k-th wait exactly the one that closed round k gets the serial code |
| PthreadBarrier.StuckOnlyIfSettled | src/main/osx_pthread_barrier.c:55-70 | when nothing can act, all inside wait for the current round and some party has not arrived: no broadcast is missed |
| PthreadBarrier.StepNearer | src/main/osx_pthread_barrier.c:43-90 | without new calls and spurious wake-ups every action lowers a bounded measure |
| PthreadBarrier.EveryoneLeaves | src/main/osx_pthread_barrier.c:43-90 | whenever every party has entered its k-th wait, all of them can go on to leave it |
| StageSafety.RunInv | src/main/coordinator.c:118-217 | flags, counter, mutex, waits and positions of all threads agree in every state of every run |
| StageSafety.CounterExact | src/main/coordinator.c:83-95 | unfinished_threads is always the number of parties yet to complete the counted stage, so each completes a stage exactly once and it never wraps |
| StageSafety.WritesOnlyWhenSafe | src/main/coordinator.c:189-212 | do_work is cleared only after all have completed; stage index, finished flag, refill and release happen only while every thread is between its two waits |
| StageSafety.AllParked | src/main/coordinator.c:189-212 | while the coordinator sets up the next stage every participant is between its two barrier waits |
| StageSafety.SameStage | src/main/transaction.c:190-218 | a thread at work is in the coordinator's current stage, so no two threads work in different stages |
| StageSafety.BatchesAllIssued | src/main/transaction.c:1028-1078 | in a linear stage do_work stays set until a thread has issued all its batches |
| StageSafety.ToldToWork | src/main/coordinator.c:183-191 | until a participant completes its stage its do_work flag is set and the counter is positive |
| StageSafety.PStepInv | src/main/latency_output.c:381-562 | every step of a worker or of the output thread keeps the invariant |
| StageSafety.CStepInv | src/main/coordinator.c:260-323 | every step of the coordinator keeps the invariant |
| StageServing.ServesToTheEnd | src/main/transaction.c:1091-1101 | in every run a transaction worker is past its loop only with its do_work flag cleared and every party done with the stage, and the output thread is past its own only then |
| StageServing.ServesWhileTold | src/main/transaction.c:1091-1101 | in every run a transaction worker at work whose flag is set is completing the stage or serving |
| StageServing.StaysServing | src/main/transaction.c:1091-1101 | a step of a serving worker leaves it serving or in a sleep of its loop while the flag is set, and takes it out of the loop when it is not |
| StageServing.SleepEnds | src/main/coordinator.c:97-116 | a sleeper whose time is up is back at work after at most four steps of its own, whoever has completed the stage |
| StageProgress.SomeoneReady | src/main/coordinator.c:97-116 | in every reachable non-final state some thread can act without a spurious wake-up: no wake-up is lost |
| StageProgress.CanFinish | src/main/coordinator.c:118-217 | from every such state all stages can be completed and all threads finish |
| StageProgress.EveryRunCanFinish | src/main/coordinator.c:118-217 | every state of every run, whatever wake-ups happened, can still finish |
| KeyRange.TilesIff | src/main/transaction.c:644-651 | subranges are ordered, disjoint and cover the keys if and only if keys times threads is below 2^64 |
| KeyRange.OverflowExample | src/main/transaction.c:644-651 | 2^63 keys on two threads leave the second thread an empty subrange |
| KeyRange.IssueLinear | src/main/transaction.c:1028-1078 | for any start, end and batch size, and any number of times do_work reads true, the 64-bit loop issues the keys and leaves the counter the loop functions give, the whole range up to the reach when that is below 2^64 |
| KeyRange.ReachIs | src/main/transaction.c:1044-1065 | the turns a loop needs and the key it reaches, from start, end and batch size: whole batches up to the end |
| KeyRange.LoopEndsIff | src/main/transaction.c:1044-1078 | a loop from any start ends having issued exactly the keys from its start to its reach if and only if the reach is below 2^64 |
| KeyRange.LoopWraps | src/main/transaction.c:1064-1065 | otherwise, after those turns the 64-bit counter is below the end again |
| WrappedLoop.EndsIff | src/main/transaction.c:1044-1078 | a loop comes to an end, however often its counter wraps, if and only if the highest 64-bit number with its start's remainder modulo the largest power of two in the stride is at its end or past it |
| WrappedLoop.OddAlwaysEnds | src/main/transaction.c:1044-1078 | with an odd batch size, or single keys, every loop ends |
| KeyRange.GuardIsCount | src/main/transaction.c:1044-1046 | with the reach below 2^64 the loop goes on exactly until it has made its turns |
| KeyRange.EachKeyOnce | src/main/transaction.c:1028-1078 | with batch size one every loop ends with exactly its own keys and the threads together issue every key exactly once, in order |
| KeyRange.EachKeyCovered | src/main/transaction.c:1135-1186 | with any batch size every key of the stage is issued by the 64-bit loop that owns it, within its turns |
| KeyRange.StaysNearIff | src/main/transaction.c:1135-1186 | in every number of turns a thread issues only keys from its start to fewer than a batch past its end if and only if its reach is below 2^64 or it starts at key 0 |
| KeyRange.Overshoot | src/main/transaction.c:1135-1186 | with tiling subranges and a reach below 2^64 a thread never issues a key a batch or more past its end, nor past its end with batch size one, nor any when its range is empty |
| KeyRange.WrapExample | src/main/workload.c:376-380 | an accepted stage of two keys just below 2^64 in batches of four: the loop strays from its subrange and never ends |
| KeyRange.LoopsFit | src/main/workload.c:376-380 | no thread's reach passes 2^64 when the stage's end plus a batch stays within 64 bits |
| StageKeys.BatchesAreTurns | src/main/transaction.c:1044-1046 | a worker whose plan has the turns of its loop goes on in the protocol exactly while its counter is below its end |
| StageKeys.AllKeysIssued | src/main/coordinator.c:183-191 | in every run of the protocol, when a flag is first cleared in a linear stage every worker's loop has ended with exactly the keys from its start to its reach |
| StageKeys.EveryKeyIssued | src/main/coordinator.c:183-191 | and every key of the stage has been issued by then |
| Queue.NextPow2 | src/main/queue.c:87-93 | the ring is the least power of two above the requested length |
| Queue.CellIsMod | src/main/queue.c:57-80 | masking the wrapped 32-bit position gives the unbounded position modulo the ring |
| Queue.WordsCompare | src/main/queue.c:66-80 | head and pos differ if and only if a reservation is pending, before and after wrap-around |
| Queue.RunInv | src/main/queue.c:57-80 | in every interleaving of listeners and worker, cells, words, locations and pops agree |
| Queue.StoreFindsNull | src/main/queue.c:57-63 | a push never overwrites an unconsumed item |
| Queue.SwapFindsOldest | src/main/queue.c:66-80 | a pop that returns an item returns the oldest reservation |
| Queue.PopsInOrder | src/main/queue.c:57-80 | pops are the reservations in order, each once; the rest are at most the slots in circulation |
| Queue.Conserved | src/main/transaction.c:1740-1799 | slots unpushed, in flight, queued, held and drained always add up to all of them |
| Queue.DrainedMeansIdle | src/main/transaction.c:1791-1795 | when the final drain ends no call is outstanding and the ring is empty |
| Queue.EmptyMeansInFlight | src/main/transaction.c:1448-1467 | the worker spins on an empty ring only while some call is outstanding |
| QueueWork.StaysWorking | src/main/transaction.c:1537-1575 | as long as do_work reads true the worker never begins to drain and takes no slot out of circulation |
| QueueWork.EveryRunCanIssue | src/main/transaction.c:1448-1467 | in every run that has not begun to drain the worker can come to issue another call with do_work set all the way |
| Queue.EveryRunCanDrain | src/main/transaction.c:1740-1799 | from every state of every run the worker can stop and the drain can end |
| SpecSyntax.ReadDecimal | src/main/object_spec.c:1036-1041 | a printed number is read back whatever non-digit follows |
| SpecAccepts.Parse | src/main/object_spec.c:836-1381 | the loop ends, and accepts a text with certain bins and their number if and only if the grammar derives those bins from it |
| SpecAccepts.AcceptedIff | src/main/object_spec.c:836-1381 | a text is accepted as these bins if and only if it is the text of a legal syntax tree that stands for them: multipliers, lengths, sizes, optional spaces, separators, nesting and 32-bit sums |
| SpecAccepts.SpacesOptional | src/main/object_spec.c:1279-1375 | dropping every optional space and trailing comma and writing out every integer size changes nothing |
| SpecAccepts.DefaultSize | src/main/object_spec.c:1103-1117 | I without a size is I4, wherever it may stand |
| SpecAccepts.BadFormRejected | src/main/object_spec.c:1092-1165 | nothing, a string or byte string without a legal length, or a key that is no integer, string or byte string is rejected in any collection at any depth |
| SpecAccepts.BadTimesRejected | src/main/object_spec.c:1036-1078 | so is a multiplier of zero, of 2^32 or more, or other than one for a map value |
| SpecAccepts.BadFollowerRejected | src/main/object_spec.c:1278-1375 | so is a legal element wrongly followed, or one that makes its collection 2^32 long |
| SpecAccepts.IntegerConstant | src/main/object_spec.c:1255-1287 | a decimal integer is a constant exactly when it is a 64-bit number, not a multiplied key and properly followed, and is rejected otherwise |
| SpecAccepts.CommaExamples | src/main/object_spec.c:1289-1310 | a comma after the last bin is accepted, a space before a comma is rejected |
| SpecParser.ParsedIsWellFormed | src/main/object_spec.c:1278-1287 | in every accepted spec each multiplier is at least 1, each stored length is the sum of its multipliers without wrap, map keys are scalar and map values single |
| SpecParser.WrapTest | src/main/object_spec.c:1278-1287 | the overflow test on a 32-bit sum catches exactly the sums that wrap |
| SpecRoundTrip.ElementBack | src/main/object_spec.c:1870-1963 | parsing a printed element, wherever it stands, records that element, or rejects the text when it holds a multiplier of 2^31 or more |
| SpecRoundTrip.RoundTrip | src/main/object_spec.c:532-547 | a printed spec parses to the same bins and number exactly when all multipliers are below 2^31, and is rejected otherwise |
| SpecPrinted.PrintedTree | src/main/object_spec.c:532-547 | the text printed is that of the tree with one space after every comma between bins and no other, every integer size and every multiplier but one written |
| SpecPrinted.SignedIs | src/main/object_spec.c:1870-1876 | a printed multiplier, read as a signed number, is its 32-bit two's complement |
| SpecRoundTrip.SignedMultiplierLost | src/main/object_spec.c:1870-1876 | the multiplier 2^31 is printed negative, read as an integer constant that a star may not follow, and rejected |
| SpecRoundTrip.LongestStringAccepted | src/main/object_spec.c:1118-1138 | the text S4294967295 is accepted as one bin of 2^32 - 1 characters |
| SpecRoundTrip.ReprintStable | src/main/object_spec.c:532-547 | the printed form of any accepted text parses to the same bins, exactly under the same condition |
| WriteBins.ParseSelection | src/main/workload.c:823-905 | accepted selections are strictly ascending and name existing bins |
| BinList.SelectedIff | src/main/workload.c:844-895 | a text is accepted as these bins if and only if it lists them in ascending order as numbers separated by single commas, one comma allowed at the end |
| WriteBins.EmptyTextSelectsNothing | src/main/workload.c:846-889 | an empty text is accepted as an empty selection |
| WriteBins.SelectionRoundTrip | src/main/workload.c:823-905 | every ascending list of existing bins is accepted as itself |
| WriteBins.Populate | src/main/object_spec.c:443-464 | the populate loop visits every bin index once with the spec that owns it |
| WriteBins.OneOwner | src/main/object_spec.c:443-464 | at most one spec owns a bin index |
| WriteBins.Sweep | src/include/object_spec.h:95-118 | the sweep visits exactly the selected bins in order with the owning specs and never takes the unreachable exit; an empty selection visits bin 0 |
| RandomString.AlnumIs | src/main/object_spec.c:1671-1672 | digit d is the d-th character of 0-9 followed by a-z |
| RandomString.AlphanumLane | src/main/object_spec.c:197-213 | every byte of the word-parallel conversion is the one-character conversion of its digit |
| RandomString.PackWords | src/main/object_spec.c:1628-1653 | three words hold the twenty-four digits of two seeds in order |
| RandomString.BlockChars | src/main/object_spec.c:1655-1664 | the twenty-four bytes stored are the characters the one-at-a-time path gives for the two seeds |
| RandomString.GenRandomStr | src/main/object_spec.c:1616-1690 | for every 32-bit length position p holds digit p mod 12 of seed p / 12, one seed is drawn per twelve characters, and all writes are inside the buffer exactly when the length is below 2^32 - 1 |
| RandomString.WritesInsideIff | src/main/object_spec.c:1617-1623 | characters and terminator fit the 32-bit buffer size if and only if the length is below 2^32 - 1 |
| RandomString.LongestHasNoBuffer | src/main/object_spec.c:1617-1623 | at length 2^32 - 1 the buffer size is 0 |
| RandomRange.GenRandRange64 | src/main/common.c:187-197 | the result is the first draw not rejected, reduced below the bound |
| RandomRange.EquallyMany | src/main/common.c:187-197 | every result comes from exactly 2^64 / max accepted draws |
| RandomRange.BlockEquallyLikely | src/main/object_spec.c:1601-1614 | every block of twelve digits comes from equally many accepted draws |
| RandomRange.CharactersEquallyLikely | src/main/object_spec.c:1601-1614 | every block of twelve characters comes from equally many accepted draws |
| LatencyHistogram.Create | src/main/histogram.c:83-130 | accepts exactly ascending ranges that their bucket width divides, and lays them out end to end |
| LatencyHistogram.GetIndex | src/main/histogram.c:318-342 | a delay is counted as underflow, overflow, or under the signed number of the bucket whose printed interval contains it |
| LatencyHistogram.CounterOf | src/main/histogram.c:73-76 | with at most 2^31 buckets a delay is counted in the underflow counter below the range, in the overflow counter past it, and else in that of the bucket whose printed interval contains it |
| LatencyHistogram.OneBucket | src/main/histogram.c:251-269 | no delay is in two printed intervals |
| LatencyHistogram.IndexExactIff | src/main/histogram.c:318-342 | the signed index is the bucket number for every delay if and only if there are at most 2^31 buckets |
| LatencyHistogram.TooManyBuckets | src/main/histogram.c:318-342 | 2^31 + 1 one-microsecond buckets break the index |
| LatencyHistogram.NothingLost | src/main/histogram.c:227-246 | under any interleaving of increments and printing, each counter's increments are those in it, held, reported or lost to whole wraps, and the printed total is the sum of the printed counts |
| LatencyHistogram.LineIsWhole | src/main/histogram.c:227-300 | over any run a line is printed only when every counter has been swapped for it, and its total is the sum of its counts |
| LatencyHistogram.CanReport | src/main/histogram.c:227-246 | from every state the printer can swap the counters it has left and report, every count it finds included |
| LatencyHistogram.KeptIff | src/main/histogram.c:227-246 | over any run a counter has lost nothing if and only if it was never incremented 2^32 times between two swaps |
| LatencyHistogram.LosingRun | src/main/histogram.c:227-246 | a run of 2^32 increments with no swap between leaves the counter at zero, the increments lost |

## Left out

- HistogramState.RecordAppends: takes counts of at least one; a zero or negative count is recorded by the code but stands for no list of values.
- HistogramState.CorrectedAppends: takes counts of at least one, for the same reason.
- Iterators.Add: the two histograms are distinct objects; adding a histogram to itself reads slots it is changing and is not modelled.
- LinearIteration.LinearSteps: takes a positive number of units, and gives up when a raise turns the level negative; what a later wrapped level may lead to is followed only in `LinearIteration.NeverEnds`.
- Percentile.PercentileIsRankedValue: the rank is computed over real numbers; rounding of doubles is not modelled.
- Percentile.PercentileMonotone: over the same rank.
- Percentile.RankInRange: over the same rank.
- Iterators.ValueAtPercentile: over the same rank.
- BucketConfig.CalculateBucketConfig: the floating-point logarithms are taken exactly.
- SpecAccepts.Parse: accepted constant values and constant collections are outside the model. Reaching one ends the parse with the outcome Constant; a boolean, string, double or hexadecimal that the code goes on to reject ends so too.
- RandomRange.GenRandRange64: takes a finite stream that holds an accepted draw; with none the loop does not end.
- Queue.RunInv: an asynchronous call is only that its listener runs at most once per issue.
- StageProgress.CanFinish: states that every reachable state can still finish, not that every fair run does.
- Slot counts and totals are unbounded integers in HistogramState, Histogram and AtomicRecording; the code's are signed 64-bit and overflow only when the recorded counts add up to 2^63.
- The normalizing index offset of the histogram is zero, as initialisation sets it.
- Base64 decoding of characters outside the alphabet is kept as the code has it, with its error code used as a value.
- zlib compression, flyweight headers, endian conversion, log files and the older wire versions: foreign calls and plumbing.
- Mean, standard deviation, the percentile and logarithmic iterators, and the dynamic throttle: floating-point arithmetic.
- Command-line and YAML handling, console output and the client calls that build records: plumbing.
- Memory ownership and allocation failure, thread-creation failure, and weaker-than-sequential memory ordering.
- Random numbers and clocks are arbitrary inputs and nondeterministic timeouts.
