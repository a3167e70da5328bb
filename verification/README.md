# Verified model of the measurement probe's core

The probe connects to a coordinating API, accepts measurement requests, runs them and sends back
results. This project models the parts of it whose correctness is hardest to see from the code and
proves what they promise, over every input, every call history or every interleaving:

- **Fitting HTTP headers into 10,000 bytes** (`HeaderTruncation`, `DropOrders`,
  `HeaderTheorems`, `HeaderText`, `HeaderDedup`). A drop phase and a search for one uniform cap on
  value lengths. Proved: the joined text fits and reads back as the headers, the drop phase is
  optimal, the cap is the largest one, the result loses only what was cut, and exactly when the
  function panics.
- **Measurement dispatch, limiter, counters and graceful shutdown** (`MeasurementDispatch`,
  `DispatchTheorems`, `Shutdown`, `StatsReports`, `Limiter`). One connection as a transition system
  with any number of tasks, interleaved at every await point and atomic operation with the statistics
  flusher, status changes and the shutdown sequence.
- **Outcome signal and reconnect loop** (`OutcomeSignal`, `Reconnect`), **disconnect window and
  status** (`Disconnect`, `StatusManagement`).
- **Stream parsers** (`MtrParser`, `MtrTheorems`, `MtrHops`, `MtrOutput`, `MtrStats`, `MtrStatsLaws`,
  `DnsTrace`): accumulators folded over lines, specified by the whole trace of lines.
- **Bounded buffers and cutters** (`LogBuffer`, `ProgressBuffering`, `OutputLimit`, `Utf8`,
  `Utf8Encoding`). UTF-8 is that of section 3 of RFC 3629.

Code that updates state in place is a class or a method with loops, tied by its contract to a
specification function or predicate; the theorems are about those. `Sums` holds sums over index sets
and the sort, whose contract (a permutation in descending order) leaves the order of ties open, as
the unstable sort of the source does.

Where the code and the repository's documentation disagree, the code is followed: the documentation
gives policy delays of 60 s and 5 s (README.md:209-218), the code waits 3,600 s and 60 s.

Promises that do not hold without a further condition are stated with the exact condition and a
counterexample:

- `truncate_headers` completes: `HeaderTheorems.PanicsExactlyWhen`, with `PanicsOnAccents` and
  `PanicsOnLongName`.
- A drained connection has answered every acknowledged measurement, and starts less finishes are the
  measurements running: `DispatchTheorems.EveryoneAnsweredExactlyWhen` and `StatsBalance`, with
  `PanicLosesAResult` and `PanicsWidenTheGap`. A measurement that panics, as one that receives the
  header of `PanicsOnAccents` does, ends its task after the start is recorded: the slot comes back,
  the finish is not recorded and no result is sent.
- The shutdown waits for every result: `Shutdown.ClosesOnlyAfter` and
  `DispatchTheorems.ResultMissingExactlyWhile`, with `TimeoutCanLoseAResult`.
- The disconnect flag tells about the present: `StatusManagement.FlagAgreesExactlyWhen`, with
  `FlagCanBeStale`.
- The lowest mtr hop with an address survives and the others do not:
  `MtrHops.LowestSurvivesExactlyWhen`, with `OutOfOrderKeepsBoth` and `OutOfOrderLosesAddress`.
- Every started measurement is reported in the statistics of its connection:
  `StatsReports.ReportedForGoodExactlyWhen` and `ToldOfAllExactlyWhen`, with `CloseCanLoseCounts` and
  `FailedReportLosesCounts`.
- Truncating output twice changes nothing: `OutputLimit.TruncatingTwice` and `LimitingTwice`, with
  `TruncatingTwiceCanDiffer` and `LimitingTwiceCanDiffer`. The probe limits each value once
  (src/probe/client.rs:232, src/probe/progress.rs:30), so this is a statement about the public
  functions and not about a text that the probe sends.
- Taking progress in Diff mode completes: `ProgressBuffering.ProgressBuffer.TakeProgress`, with
  `DiffCanPanic`. Outside its own tests nothing in the repository creates a `ProgressBuffer`, so this
  is a statement about the public type and not about an input that the probe receives.

## Model

| member | source | states |
|---|---|---|
| HeaderTruncation.TruncateHeaders | src/command/http.rs:126-199 | for every header list, every tie-breaking and both overflow modes, the outcome (unchanged, truncated, or panic) is one the two-phase specification allows |
| HeaderTruncation.DropInOrder | src/command/http.rs:149-156 | the running totals stay equal to the sizes of what is left; the surviving set drops the largest minimum sizes first and not one header more than needed; the subtractions underflow exactly when the last header goes |
| HeaderTruncation.DropLargest | src/command/http.rs:142-161 | the kept headers are the survivors in their original order, with their exact size |
| HeaderTruncation.FindCap | src/command/http.rs:167-185 | the loop always reaches its break; at the cap the values fit the budget and one byte more does not |
| HeaderTruncation.CapWithinStep | src/command/http.rs:174-185 | no saturating subtraction saturates, and ceiling division hits the largest fitting cap of the current step |
| HeaderTruncation.CapCoversMark | src/command/http.rs:187-187 | the drop phase's guarantee makes the cap at least the marker's length, so the `max` never changes it |
| HeaderTruncation.CutValues | src/command/http.rs:189-196 | every longer value is cut to the cap with the marker, or the call panics because some cut falls inside a character |
| DropOrders.KeepsExactlyWhatAnOrderLeaves | src/command/http.rs:148-161 | the specification of the drop phase is exact: a set of survivors meets it if and only if dropping along some order by descending minimum size, ties in any order, stops with that set |
| HeaderTheorems.JoinedSizeIsTextLength | src/command/http.rs:119-131 | the size the algorithm accounts for is the length of the text that is sent |
| HeaderTheorems.TextFits | src/command/http.rs:999-1003 | every completed truncation gives a text of at most 10,000 bytes |
| HeaderText.TextReadsBack | src/command/http.rs:999-1003 | splitting the sent text at newlines and each line at its first ": " gives every name and value back, in order, for names and values as the header file yields them |
| HeaderText.TruncatedTextReadsBack | src/command/http.rs:997-1003 | the text sent after truncating is read back as exactly the truncated headers |
| HeaderText.MarkIsDots | src/command/http.rs:6-6 | the marker is the 14 bytes of "...[truncated]" |
| HeaderTheorems.ShrunkTextFits | src/command/http.rs:167-198 | the unused budget is smaller than the number of shortened values |
| HeaderTheorems.TruncatingAgain | src/command/http.rs:126-199 | truncating a result returns it unchanged and not marked as truncated |
| HeaderTheorems.TruncatedMeansChanged | src/command/http.rs:133-165 | `truncated` is true exactly when the headers differ, which is exactly when the original text is too long |
| HeaderTheorems.DropPhaseIsOptimal | src/command/http.rs:141-161 | no set of headers whose minimum sizes fit is larger than the set kept |
| HeaderTheorems.NothingFits | src/command/http.rs:149-161 | everything is dropped exactly when no header fits on its own |
| HeaderTheorems.CapIsLargest | src/command/http.rs:167-185 | a uniform limit fits the budget if and only if it is at most the cap |
| HeaderTheorems.CapIsDetermined | src/command/http.rs:174-187 | the cap is unique, at least 14, and shortens some value |
| HeaderTheorems.ResultOnlyCuts | src/command/http.rs:141-198 | the result is the subsequence that the drop phase keeps, with unchanged names; a value is whole, or a prefix plus the marker of exactly the computed cap's length |
| HeaderTheorems.ResultIsValidUtf8 | src/command/http.rs:189-198 | valid headers give valid headers and a valid text |
| HeaderTheorems.PanicsExactlyWhen | src/command/http.rs:153-191 | the call panics if and only if no header fits on its own and overflow is checked, or the cap cuts a surviving value inside a character |
| HeaderTheorems.PanicsWithoutDropping | src/command/http.rs:163-192 | when all minimum sizes fit, the call panics if and only if the cap cuts one of the given values inside a character |
| HeaderTheorems.PanicsOverAllOrders | src/command/http.rs:148-192 | over every way to break ties a panic is possible (certain) if and only if no header fits and overflow is checked, or some (every) set that the drop phase may keep is cut inside a character |
| HeaderTheorems.AsciiNeverPanics | src/command/http.rs:189-192 | ASCII values, one header of which fits, never panic |
| HeaderTheorems.PanicsOnAccents | src/command/http.rs:189-192 | one valid header of 5,001 two-byte characters panics in every build |
| HeaderTheorems.PanicsOnLongName | src/command/http.rs:153-154 | one header with a name of 9,999 bytes panics where overflow is checked, and is dropped where it is not |
| HeaderDedup.DedupHeaders | src/command/http.rs:202-220 | the map lists under each lowercased name (field names are case-insensitive, section 5.1 of RFC 9110) exactly that name's values in order, a string iff there is one, an array iff there are more, and nothing else |
| HeaderDedup.ValueIsListed | src/command/http.rs:204-218 | no header is lost: its value is at the place given by the earlier headers of its name |
| HeaderDedup.ListedValueIsAHeader | src/command/http.rs:204-218 | nothing is invented or repeated: each listed value is one header's, found at its rank |
| HeaderDedup.MapsAgreeExactlyWhen | src/command/http.rs:202-220 | two lists give the same map if and only if they agree name by name |
| HeaderDedup.MapLosesOnlyWhatWasCut | src/command/http.rs:997-998 | after truncating and collapsing, the map lists exactly the values of the headers that the drop phase keeps, by name and in order, each whole or cut to the computed cap |
| MeasurementDispatch.RunsKeepInv | src/probe/client.rs:147-241 | in every reachable state permits and statistics are conserved, every task's acknowledgement and result counts match where it is, panicked or not, sigterm is respected, and a completed drain stays complete |
| MeasurementDispatch.InvStep | src/probe/client.rs:147-241 | each single step of a task, a panic, the flusher, a status change or the shutdown keeps all these invariants |
| DispatchTheorems.DrainedMeansAnswered | src/probe/client.rs:535-547 | if the drain completed or nothing was in flight, every acknowledged measurement has exactly one result emission before the disconnect, or none if and only if it panicked, and nothing follows it |
| DispatchTheorems.EveryoneAnsweredExactlyWhen | src/probe/client.rs:535-547 | after a completed drain every acknowledged measurement has its result if and only if none panicked |
| DispatchTheorems.ResultMissingExactlyWhile | src/probe/client.rs:180-241 | a result is missing exactly while its task is between acknowledgement and emission, or for good once it panicked; no task acknowledges or answers twice |
| DispatchTheorems.AckFollowsReady | src/probe/client.rs:171-183 | in every reachable state each acknowledgement attempt is preceded by a read of Ready by the same task |
| DispatchTheorems.NoAckAfterSigterm | src/probe/client.rs:171-183 | a task that reads the status after the sigterm flag went up is never acknowledged |
| DispatchTheorems.WorkShrinks | src/probe/client.rs:171-241 | after sigterm the remaining work of accepted tasks never grows and falls with each of their steps, panics included |
| DispatchTheorems.AcceptedTasksFinish | src/probe/client.rs:535-546 | after sigterm, accepted tasks take at most four steps per slot in any run of any length |
| DispatchTheorems.DrainCanComplete | src/probe/limiter.rs:50-56 | from every reachable state of a drain, at most five steps per slot empty all slots, whichever of the emissions succeed, and two more complete it |
| DispatchTheorems.DrainCompletesOnlyWhenIdle | src/probe/limiter.rs:50-56 | in no run does waiting for idleness succeed while a task holds a slot |
| Shutdown.ClosesOnlyAfter | src/probe/client.rs:524-547 | over every run a connection closes without a completed drain only after it was lost or the drain timed out |
| Shutdown.ShutdownCanDrain | src/probe/client.rs:535-546 | from every reachable state of a clean shutdown, whatever the tasks are doing, a bounded continuation without time-out completes the drain |
| Shutdown.FarewellIsInOrder | src/probe/client.rs:535-547 | a clean shutdown raises the flag, announces it and disconnects, each once and in this order; a lost connection only disconnects |
| Shutdown.LostConnectionCloses | src/probe/client.rs:524-547 | a lost connection closes at once, with its tasks where they are and without the flag |
| DispatchTheorems.AdmissionIsBounded | src/probe/limiter.rs:30-37 | free permits, slot holders and permits collected by the drain add up to the capacity; `in_flight` is exact and never saturates |
| DispatchTheorems.AdmittedExactlyWhen | src/probe/limiter.rs:30-32 | a request gets a slot on its first step if and only if fewer than capacity permits are in use, and otherwise ends without a trace |
| DispatchTheorems.StatsBalance | src/probe/client.rs:259-267 | starts less finishes, counted over reports, a `take` in progress and the counters, are the running measurements, at most the capacity, plus those that ever panicked, even between the two swaps |
| StatsReports.EveryStartIsCounted | src/probe/client.rs:259-267 | the reports, a `take` in progress and the counters hold every start and every finish of the run exactly once |
| StatsReports.FlusherCanReportAll | src/probe/client.rs:259-267 | from every reachable state before the abort, at most five steps of the flusher report everything started and finished so far |
| StatsReports.ToldOfAllExactlyWhen | src/probe/client.rs:259-267 | the API has been told of all starts (finishes) if and only if none was in a failed report and none is held or still counted |
| StatsReports.EndIsFinal | src/probe/client.rs:531-533 | once the aborted flusher has ended, nothing more is reported |
| StatsReports.ReportedForGoodExactlyWhen | src/probe/client.rs:531-547 | every start (finish) up to that point is reported for good if and only if the flusher holds none unsent and the counter is 0; otherwise those are the ones lost |
| StatsReports.CloseCanLoseCounts | src/probe/client.rs:531-547 | a run that closes after a completed drain with its one measurement answered and never reported |
| StatsReports.FailedReportLosesCounts | src/probe/client.rs:262-266 | a run in which a failed report leaves a measurement counted nowhere |
| DispatchTheorems.TimeoutCanLoseAResult | src/probe/client.rs:540-547 | a run in which the drain times out and the connection closes with an acknowledged measurement unanswered |
| DispatchTheorems.PanicLosesAResult | src/probe/client.rs:205-222 | a run in which a measurement panics, the shutdown finds nothing in flight, and the acknowledged measurement is never answered |
| DispatchTheorems.PanicsWidenTheGap | src/probe/client.rs:201-222 | for every n some run has n more starts than finishes with nothing running |
| Limiter.MeasurementLimiter.TryAcquire | src/probe/limiter.rs:30-32 | a slot is granted if and only if fewer than `capacity` are held |
| Limiter.MeasurementLimiter.DropSlot | src/probe/limiter.rs:8-9 | dropping a slot gives exactly one permit back |
| Limiter.MeasurementLimiter.InFlight | src/probe/limiter.rs:35-37 | the number of slots held |
| Limiter.MeasurementStats.Take | src/probe/stats.rs:33-37 | returns both counters and clears them, when not interrupted |
| OutcomeSignal.RunsKeepInv | src/probe/client.rs:98-127 | under any interleaving the lock has one holder, the first signaller's outcome is stored, and its wake-up is pending, still to be sent or consumed |
| OutcomeSignal.WaiterReturnsFirst | src/probe/client.rs:110-127 | the waiter can return only the outcome of the first signaller, and a stored outcome never changes |
| OutcomeSignal.NoLostWakeUp | src/probe/client.rs:110-127 | once the outcome is stored a waiting waiter can be woken or the writer is about to notify; it never wakes in vain; it is never blocked by a stuck lock holder |
| OutcomeSignal.WaiterCanReturn | src/probe/client.rs:110-127 | from every reachable state with a stored outcome and an uncancelled waiter, at most five steps return the first signaller's outcome |
| OutcomeSignal.SignalReachesWaiter | src/probe/client.rs:110-127 | if any outcome is signalled, at most seven steps return the first locker's, and as long as none has the lock any signaller can be the first |
| Reconnect.ReconnectDelay | src/probe/reconnect.rs:39-48 | the delay for each outcome; only a transient one advances the back-off |
| Reconnect.RunLoop | src/probe/client.rs:566-609 | over any sequence of sessions each transient delay is min(2^c, 300) s, c counting the failures since the last reset; the loop ends exactly at a clean shutdown or an invalid version |
| Reconnect.DelaysDoNotFall | src/probe/reconnect.rs:65-69 | between resets transient delays never fall |
| Reconnect.FailuresSinceReset | src/probe/client.rs:586-588 | the counted failures are transient, never connected, and reach back exactly to the last reset |
| Reconnect.FailuresLengthenTheDelay | src/probe/client.rs:586-588 | k transient sessions that never connected do not reset: the next transient delay is at least min(2^k, 300) s, and exactly that after a session that does reset |
| Reconnect.Pow2Doubles | src/probe/reconnect.rs:65-69 | the powers in the schedule: 1, 2, and products for sums |
| Reconnect.ResetAndCeiling | src/probe/reconnect.rs:65-73 | after a reset the delay is 1 s; it is 300 s if and only if nine or more failures preceded |
| Disconnect.EvictionLosesNothing | src/status/disconnect.rs:23-25 | evicting early loses nothing that a later evaluation would count |
| Disconnect.RecentForFiveMinutes | src/status/disconnect.rs:5-5 | a disconnect is recent for exactly 300 seconds |
| Disconnect.RecentMapCounts | src/status/disconnect.rs:16-30 | with distinct keys the map has one entry for every past disconnect younger than five minutes |
| Disconnect.CountFalls | src/status/disconnect.rs:23-30 | without new disconnects the count never rises |
| Disconnect.YoungestRecent | src/status/disconnect.rs:23-30 | for k up to 3, there are k recent disconnects if and only if the k-th youngest is recent |
| Disconnect.DisconnectTracker.Record | src/status/disconnect.rs:16-21 | the answer is whether three or more of all past disconnects, this one included, are recent |
| Disconnect.DisconnectTracker.Count | src/status/disconnect.rs:27-30 | the number of all past disconnects younger than five minutes |
| StatusManagement.StatusManager.ReportDisconnect | src/status/status_manager.rs:108-112 | the flag becomes whether the full history holds three recent disconnects |
| StatusManagement.StatusManager.RecheckDisconnectStatus | src/status/status_manager.rs:116-119 | the flag is re-evaluated against the full history |
| StatusManagement.FlagAgreesExactlyWhen | src/status/status_manager.rs:108-119 | in every reachable state and at every later moment the flag agrees with the last five minutes unless the third-youngest disconnect expired since the last evaluation, and then it does not |
| StatusManagement.ReadyMeansFewRecent | src/status/status_manager.rs:62-79 | Ready implies fewer than three disconnects in the five minutes before now |
| StatusManagement.StatusExactlyWhen | src/status/status_manager.rs:62-79 | each status, Ready included, is given if and only if its reason holds and no stronger one does |
| StatusManagement.FlagsAreTheLastResults | src/status/status_manager.rs:83-106 | in every reachable state a test result is unknown exactly until its first test and then the last one that counts; proxy information before the first ICMP/TCP test does not |
| StatusManagement.FlagCanBeStale | src/status/status_manager.rs:114-119 | the converse fails: the flag can outlast its disconnects until the next recheck |
| StatusManagement.SigtermIsFinal | src/status/status_manager.rs:62-65 | after the sigterm call the status is Sigterm whatever is called later |
| StatusManagement.HistoryIsComplete | src/status/status_manager.rs:108-112 | every reported disconnect stays in the history the window is judged by |
| MtrParser.BuildTable | src/command/mtr.rs:67-125 | the loop's table is the fold of the events |
| MtrParser.ParseRaw | src/command/mtr.rs:127-159 | the surviving hops with propagated names, statistics over all probes and received timings |
| MtrTheorems.TableIsFaithful | src/command/mtr.rs:104-123 | after any event sequence each hop's probes are those sent, distinct, in first-`x` order, with the times of their last replies |
| MtrTheorems.ProbesMeanTheTrace | src/command/mtr.rs:104-123 | a probe has a time if and only if some `p` follows its first `x`, and it is the last such `p`'s |
| MtrTheorems.EverySentProbeIsListed | src/command/mtr.rs:104-110 | every `x` line is represented |
| MtrTheorems.PresentExactlyWhen | src/command/mtr.rs:78-119 | a hop exists if and only if an `h`, `d` or `x` line named it |
| MtrHops.AddressIsTheLast | src/command/mtr.rs:83-92 | a hop's address is that of its last `h` line |
| MtrHops.DuplicateExactlyWhen | src/command/mtr.rs:84-92 | in any order of lines, a hop is a duplicate if and only if a lower hop had its address at its last `h` line |
| MtrHops.SurvivorsAreDistinct | src/command/mtr.rs:138-141 | when the hops' last `h` lines are in hop order, every address of the final table survives exactly once, at its lowest index |
| MtrHops.HopOrderIsEnough | src/command/mtr.rs:138-141 | `h` lines in hop order meet that condition |
| MtrHops.LowestSurvivesExactlyWhen | src/command/mtr.rs:83-92 | in any order of lines, survival as the lowest hop with an address fails for a hop if and only if a line after its last `h` line takes the address to a lower hop that keeps it, or drops it from the last lower hop for good |
| MtrHops.LowestSurvives | src/command/mtr.rs:83-92 | it holds for a hop when no lower hop has an `h` line after its last one |
| MtrHops.NamelessHopsStay | src/command/mtr.rs:138-141 | a hop without an address is never removed |
| MtrHops.OutOfOrderKeepsBoth | src/command/mtr.rs:84-92 | out of order two hops with one address can both survive |
| MtrHops.OutOfOrderLosesAddress | src/command/mtr.rs:84-92 | out of order the only hop left with an address can be removed |
| MtrHops.NamesByAddress | src/command/mtr.rs:93-103 | the map gives each address the name of the last `d` line at a hop that then had it |
| MtrHops.ReportedName | src/command/mtr.rs:127-136 | a hop is reported under its own last name unless that is missing or repeats the address, then under its address's name |
| MtrHops.OutputListsSurvivors | src/command/mtr.rs:138-159 | the output lists the surviving hops in index order and no others |
| MtrHops.ReportedAddressesDiffer | src/command/mtr.rs:138-159 | when the hops' last `h` lines are in hop order, no two hops of the output have the same address, and every address of the final table is in it |
| MtrHops.ReportedCounts | src/command/mtr.rs:142-159 | rcv + drop is the number of probes on a final parse, one less on a non-empty running one; emitted timings number rcv on a final parse |
| MtrOutput.OutputSaysTheTrace | src/command/mtr.rs:127-159 | every hop of the output, position by position, has the address of its last `h` line, the name the trace gives it, the times of the last replies to its probes in order, and the statistics of those |
| MtrOutput.SentIdsMeaning | src/command/mtr.rs:104-110 | those probes are exactly the ones sent, each once, in the order of first sending |
| MtrStats.ComputeStats | src/command/mtr.rs:161-205 | the loops compute the statistics functions of the timings |
| MtrStats.ProbesAddUp | src/command/mtr.rs:180-187 | received and dropped probes account for all counted ones and the loss lies in 0 to 100 |
| MtrStats.AverageIsInRange | src/command/mtr.rs:168-178 | min and max are attained and bound every time; the average is within 0.05 of their range |
| MtrStatsLaws.AvgIsTheMean | src/command/mtr.rs:173-173 | `avg` is, to one decimal, the value around which the deviations of the received times cancel |
| MtrStatsLaws.MeanBalances | src/command/mtr.rs:173-173 | the mean is the one value with that property |
| MtrStatsLaws.StDevIsTheDeviation | src/command/mtr.rs:174-177 | `stDev` is, to one decimal, the root of the mean squared distance from the reported average |
| MtrStatsLaws.LossIsTheShare | src/command/mtr.rs:187-187 | `loss` is, to one decimal, the share of lost probes in percent |
| MtrStatsLaws.RunningLeavesOutTheLast | src/command/mtr.rs:180-186 | a running test leaves out exactly its last probe, replied to or not |
| MtrStatsLaws.JitterIsOfPairs | src/command/mtr.rs:189-203 | `jMin`, `jMax` and `jAvg` are the smallest, largest and mean difference within consecutive pairs, to one decimal |
| MtrStatsLaws.NoJitter | src/command/mtr.rs:197-198 | with fewer than two replies all three are 0 |
| MtrStatsLaws.NoReplies | src/command/mtr.rs:168-169 | without a reply only the counts and the loss can differ from 0 |
| MtrStatsLaws.RttsOfParts | src/command/mtr.rs:166-166 | the received times are those of the replies, in order |
| MtrStatsLaws.SumOfParts | src/command/mtr.rs:173-173 | sums add up over concatenation |
| MtrStatsLaws.R1Rounds | src/command/mtr.rs:207-209 | rounding gives a whole number of tenths, none nearer, away from zero on a tie |
| MtrStatsLaws.RoundsOnce | src/command/mtr.rs:207-209 | and there is only one such number |
| MtrStats.DeviationIsDetermined | src/command/mtr.rs:174-177 | any square root function that yields the root of the variance gives the same deviation, within 0.05 of that root |
| MtrStats.VarianceIsNotNegative | src/command/mtr.rs:174-176 | the root is never taken of a negative number |
| MtrStats.JitterIsOrdered | src/command/mtr.rs:189-203 | one jitter sample per two replies, and 0 <= jMin <= jAvg <= jMax after rounding |
| MtrStats.R1Properties | src/command/mtr.rs:207-209 | rounding is monotone and moves a value by at most 0.05 |
| DnsTrace.ParseTraceHops | src/command/dns/parse.rs:236-286 | the parser yields one hop for each block between empty lines that has an answer or names a resolver, in order |
| DnsTrace.BlocksPartitionLines | src/command/dns/parse.rs:256-265 | the blocks hold no empty line and joined by empty lines are the input |
| DnsTrace.NoAnswerIsLost | src/command/dns/parse.rs:273-275 | the hops' answers joined are exactly the answer lines in order |
| DnsTrace.AnswersOfParts | src/command/dns/parse.rs:273-275 | an answer line counts with its answer, any other line not, in order |
| DnsTrace.HopsByBlock | src/command/dns/parse.rs:242-254 | one hop for each block with an answer or a resolver, at its place among them, with the block's own answers |
| DnsTrace.ResolverIsTheLast | src/command/dns/parse.rs:266-272 | resolver and time are those of the block's last line that names a resolver |
| DnsTrace.NoResolverNamed | src/command/dns/parse.rs:266-272 | a block that names no resolver gives a hop without one and time 0, kept exactly if it has an answer |
| DnsTrace.HopsAreMeaningful | src/command/dns/parse.rs:242-254 | every hop has an answer or a resolver, and without a resolver its time is 0 |
| LogBuffer.ApiLogsBuffer.Push | src/util/logs_transport.rs:58-67 | keeps the latest entries, as many as the limit allows, and counts the others |
| LogBuffer.ApiLogsBuffer.Update | src/util/logs_transport.rs:69-74 | changes the given settings and nothing else |
| LogBuffer.ApiLogsBuffer.Take | src/util/logs_transport.rs:85-94 | hands out everything buffered and the drop count, unless inactive or empty |
| LogBuffer.PushKeepsWhatFits | src/util/logs_transport.rs:60-66 | after a push the buffer holds the newest min(old count + 1, limit) entries and only the others are dropped |
| LogBuffer.NothingIsLostOrRepeated | src/util/logs_transport.rs:58-94 | over any history the buffer is a suffix of the pushes, each delivery is the contiguous block its `skipped` places it at, and delivered + skipped + dropped + buffered = pushed |
| LogBuffer.BufferHoldsTheNewest | src/util/logs_transport.rs:58-94 | over any history under one limit the buffer holds the newest min(limit, pushes since the last delivery) entries and the others are counted as dropped |
| LogBuffer.TakeDeliversExactlyWhen | src/util/logs_transport.rs:85-94 | a take delivers if and only if the transport is active and something is buffered; otherwise it changes nothing |
| LogBuffer.SettingsAreTheLastGiven | src/util/logs_transport.rs:29-74 | over any history each setting is the one last given, and its default before |
| LogBuffer.TakeSettlesAccounts | src/util/logs_transport.rs:85-94 | after a successful take the receiver can place every push made so far |
| LogBuffer.ZeroLimitIsSilent | src/util/logs_transport.rs:61-66 | under a limit of zero a push leaves nothing to deliver, so its drops stay unreported |
| ProgressBuffering.ProgressBuffer.Push | src/util/progress_buffer.rs:26-38 | appends in Append mode, replaces otherwise, other fields unchanged |
| ProgressBuffering.ProgressBuffer.TakeProgress | src/util/progress_buffer.rs:40-57 | panics if and only if a field cannot be sliced at its offset; otherwise yields the new part of every field, in whatever order the map is visited |
| ProgressBuffering.AppendSendsEverything | src/util/progress_buffer.rs:28-33 | over any history the takes plus the buffer are all pushes |
| ProgressBuffering.OverwriteSendsTheLast | src/util/progress_buffer.rs:34-36 | a take yields exactly the last push of each field since the previous take |
| ProgressBuffering.DiffSendsPrefix | src/util/progress_buffer.rs:42-50 | when each value extends the previous one no take panics, offsets stay within values, and the text sent is the value up to the offset |
| ProgressBuffering.DiffReconstructs | src/util/progress_buffer.rs:42-50 | right after a take the receiver has the field's whole value |
| ProgressBuffering.DiffCanPanic | src/util/progress_buffer.rs:45-46 | a shorter value after a take makes the next take of the public type panic |
| OutputLimit.TruncateOutput | src/util/output_limit.rs:13-23 | the longest valid UTF-8 prefix within the limit plus the marker, found at most three steps back; short inputs are unchanged |
| OutputLimit.TruncationIsValidAndUnique | src/util/output_limit.rs:13-23 | the output is valid UTF-8, at most limit + 15 bytes, and determined by this specification |
| OutputLimit.CutPosition | src/util/output_limit.rs:18-21 | the cut is at most three bytes below the limit, and at it exactly when it is a character boundary |
| OutputLimit.TruncatingTwice | src/util/output_limit.rs:13-23 | truncating twice changes nothing if and only if nothing was cut or the limit is a character boundary |
| OutputLimit.TruncatingTwiceCanDiffer | src/util/output_limit.rs:13-23 | otherwise the second pass differs |
| OutputLimit.MeasurementResult.LimitRawOutput | src/util/output_limit.rs:28-35 | only an oversized `rawOutput` text changes, to its truncation; every other field and value stays |
| OutputLimit.RawOutputIsBounded | src/util/output_limit.rs:28-35 | afterwards any `rawOutput` text has at most 10,255 bytes; up to 10,240 it is untouched, above at least 10,252 are left |
| OutputLimit.MarkerText | src/util/output_limit.rs:8-8 | the marker is the 15 bytes of a newline and "[...truncated]" |
| OutputLimit.LimitingTwice | src/util/output_limit.rs:28-35 | limiting a limited result changes nothing exactly under the same condition |
| OutputLimit.LimitingTwiceCanDiffer | src/util/output_limit.rs:28-35 | 10,239 letters and a two-byte character: every second pass at the limit of 10,240 bytes changes the result |
| Utf8Encoding.ValidExactlyWhenEncoded | src/util/output_limit.rs:18-21 | what counts as valid text is exactly what encodes a sequence of Unicode scalar values (section 3 of RFC 3629) |
| Utf8Encoding.AsciiEncodesItself | src/util/output_limit.rs:8-8 | ASCII literals stand for their own bytes |
| Utf8.BoundaryIffValidPrefix | src/util/output_limit.rs:18-21 | in valid text a position is a character boundary if and only if the prefix up to it is valid |
| Utf8.BoundaryNearby | src/util/output_limit.rs:18-21 | every position of valid text has a boundary at most three bytes below it |

## Left out

- HeaderTruncation.TruncateHeaders: requires the total size to be below 2^64, which any list held in memory satisfies.
- HeaderDedup.DedupHeaders: Unicode lower-casing is a parameter; every statement holds for any such function.
- Limiter.MeasurementStats.Take: the wrap-around of the 64-bit counters is not modelled; interruption between the two swaps is, in `MeasurementDispatch`.
- MtrStats.ComputeStats: times are real numbers, not IEEE floats; the square root is a parameter, and `DeviationIsDetermined` says what any true root gives.
- MtrParser.ParseRaw: lines are events already; splitting a line and reading its numbers is not modelled, nor is the always empty list of autonomous systems.
- DnsTrace.ParseTraceHops: lines are classified already; the regular expression and the answer-line parser are not modelled.
- Disconnect.DisconnectTracker.Record: a monotone clock and fresh random keys are preconditions.
- LogBuffer.ApiLogsBuffer.Push: a poisoned mutex, which turns the call into a no-op, is not modelled.
- Reconnect.RunLoop: the interruption of a wait by shutdown is not modelled; it only ends the loop.
- DispatchTheorems.DrainCanComplete: the semaphore is modelled as handing free permits to the drain in any portions, which allows more behaviours than its fair queue does.
- MeasurementDispatch.RunsKeepInv: why a measurement panics is not modelled; any running one may.
- StatsReports.EndIsFinal: the instant at which an abort takes effect is left open, so an aborted flusher may take more steps in the model than it can before its next yield; every statement holds for those runs too.
- Sockets, processes, files, timers: an emission is a trace event that may succeed or fail; which steps are taken when is left to the run.
- The order of progress events and results: the forwarder is a separate task, so the code fixes none.
- A bound on measurements across reconnects: every connection has its own limiter.
- VPN evaluation: its verdict is a parameter of the status calls.
- Error classification, TLS text, classic DNS output, tables, host validation and argument building: decided by reading one branch each.
