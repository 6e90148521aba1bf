# A verified model of iperf 2.1.4

The Dafny files model the parts of iperf (under `jni/`) in which the hard logic sits, in the
form the C and C++ code has, and prove what they promise:

- **Addresses** (`InetDigits`, `InetPton`, `InetGrammar`, `InetNtop`, `InetRoundTrip`, `InetEmbedded`): the
  IPv4/IPv6 parsers and printers. The loops run on arrays as in C and are proved against
  scanner functions; an independent grammar of address spellings gives the exact language and
  meaning of the parsers; printing and parsing back is proved for all 2^128 addresses.
- **UDP accounting** (`WireId`, `TransferInfo`, `UdpFlow`, `UdpReports`): client numbering with
  negated final ids, the 64-bit id on the wire, the server's lost / out-of-order / packet id
  counters, and the end-to-end meaning of the error count under loss, reordering and
  duplication, through the packet ring and its own losses.
- **Reporter** (`PacketRing`, `EndJob`, `JobQueue`, `GroupSum`): the packet ring, the end-of-job
  handshake over every interleaving, the linked job list with its pointer-to-pointer removal,
  and group sums over every interleaving.
- **Report clock and statistics** (`ReportClock`, `TransitStats`): interval tiling and catch-up,
  Welford mean and variance, jitter.
- **Transmit loops** (`BurstFraming`, `RateLimiter`, `Kalman`): TCP burst framing under partial
  reads and writes, the token bucket, the delay filter.
- **Threads** (`ThreadCount`, `Barrier`): the counters behind `thread_joinall`, the two-party
  full-duplex barrier.

State that the source changes in place is a class or an array. Each such method is tied to a
function on values, and the theorems are about those functions, over every input, run or
interleaving. System calls (writes, reads, clocks, errors, wake-ups) are inputs that may take
any value the system allows.

## Where the code does less than it seems to

For each of these the lemmas named give an input or a run that shows it and the condition
under which the expected property holds, as an equivalence.

- A "::" in an address that already has eight groups zeroes the groups after it, against the
  comment at `jni/compat/inet_pton.c:112` (`InetGrammar.GapMeaning`, `InetGrammar.FullGapLoses`).
- The packet ring's test for a full ring compares the producer with `maxcount`, which it never
  reaches. With the consumer at slot 0 and the producer at the last slot an enqueue makes the
  full ring look empty (`PacketRing.EnqueueExact`, `PacketRing.FullLoadIsLost`). `EndJob` waits
  for ever if and only if that enqueue is its end marker (`EndJob.StuckIffMarkerOverran`), which
  some run does for every capacity (`EndJob.MarkerCanStick`).
- A read timeout reports an empty packet that still carries the last id. Once the interval has
  a packet it is counted as out of order and hides a lost one (`UdpFlow.EndToEnd`, the term
  `stale`; `UdpFlow.StaleHidesLoss`).
- After a fatal write error the client's final datagram reuses the last data id; if the first
  write is fatal that id is 0, which does not end the server (`UdpFlow.RunClient`,
  `UdpFlow.ZeroIgnored`).
- The first sample sets m2 to its own square, so the total variance is too high by that, and
  so is the first interval's (`TransitStats.VarianceExactIff`, `TransitStats.IntervalVarianceIff`,
  `TransitStats.VarianceIsOff`); after a reset the maximum starts at FLT_MIN, a positive number,
  so all-negative delays are reported as FLT_MIN (`TransitStats.MaxExactIff`,
  `TransitStats.MaxIsOff`).
- A receive call that fails without being fatal takes one off the server's byte count, and
  nothing else does (`BurstFraming.ReceiveBursts`, `BurstFraming.CountExactIff`,
  `BurstFraming.MissTakesOne`).
- The header of a rate-limited burst goes uncharged when the write after it fails: the bytes
  counted are the bytes sent if and only if that never happens (`RateLimiter.SentCountedIff`).
  For every buffer larger than a header a run then sends more than the credit and one write
  (`RateLimiter.HeaderUncounted`), which `RateLimiter.SimpleBoundIff` makes exact; what holds of
  the wire is a bound by bufLen / (bufLen - 92) times the credit, one write and a header
  (`RateLimiter.WireBound`, `RateLimiter.WireBoundCredit`).
- A thread gives up its place in the count before it starts its successor, so `thread_joinall`
  can pass in between (`ThreadCount.ChainGap`, `ThreadCount.ChainGapHappens`).
- A full-duplex barrier timeout returns -1, which `EndJob` takes for "close". Both sides close if
  and only if the second comes after the first has woken up `timeout` times (`Barrier.OneRound`,
  `Barrier.BothClose`). A party that comes back to the barrier before the other has left the last
  round breaks it for good (`Barrier.EarlyCallBreaks`, `Barrier.EarlyCallHappens`).
- The interval sum of a group is shown when the member reports since the last one are as many as
  the members left, so a member that reports and then ends can silence it until another joins
  (`GroupSum.FiresIff`, `GroupSum.SilentUntilJoin`, `GroupSum.SilentHappens`).

## Model

| member | source | states |
|---|---|---|
| InetDigits.NumeralValue | jni/compat/inet_ntop.c:187 | reading a number printed in base ten or sixteen gives the number |
| InetDigits.HexNumeralWidth | jni/compat/inet_ntop.c:187 | a 16-bit word prints as one to four digits |
| InetDigits.NumeralShortest | jni/compat/inet_ntop.c:187 | a printed number has no leading zero, except zero itself, in both bases |
| InetDigits.DecNumeralWidth | jni/compat/inet_ntop.c:95-105 | a byte prints as at most three digits |
| InetDigits.DecAsHex | jni/compat/inet_pton.c:141-175 | an octet scanned as hexadecimal before its dot is seen does not overflow a group |
| InetPton.Pton4 | jni/compat/inet_pton.c:66-103 | the loop returns 1 exactly when the scanner function accepts, with its four bytes; on failure the destination is untouched |
| InetPton.Shift | jni/compat/inet_pton.c:184-197 | the overlapping in-place shift moves the bytes after "::" to the end and zeroes the gap, or zeroes them in a full buffer |
| InetPton.Finish | jni/compat/inet_pton.c:184-201 | the end of the parse: gap, length check, copy out; failure leaves the destination alone |
| InetPton.Pton6 | jni/compat/inet_pton.c:120-202 | the loop returns 1 exactly when the scanner function accepts, with its sixteen bytes; on failure the destination is untouched |
| InetGrammar.ParseV4Exact | jni/compat/inet_pton.c:66-103 | inet_pton4 accepts exactly four non-empty digit runs of value at most 255 joined by dots, and yields those values |
| InetGrammar.QuadParses | jni/compat/inet_pton.c:76-101 | every dotted quad of such octets is accepted |
| InetGrammar.FourOctets | jni/compat/inet_pton.c:76-101 | every accepted string is such a dotted quad |
| InetGrammar.Parses | jni/compat/inet_pton.c:141-177 | from any scan state, a spelling that fits is accepted and its bytes are stored in order |
| InetGrammar.Spells | jni/compat/inet_pton.c:141-177 | from any scan state, an accepted rest of input is a spelling that fits |
| InetGrammar.ParseV6Exact | jni/compat/inet_pton.c:120-202 | inet_pton6 accepts a string with result b if and only if it is the text of a well-formed spelling that denotes b |
| InetGrammar.Rfc1884Parses | jni/compat/inet_pton.c:106-118 | every string of the three forms of section 2.2 of RFC 1884, in either case, yields the bytes the RFC gives it, "::" read as the zeros that fill the address |
| InetGrammar.GapMeaning | jni/compat/inet_pton.c:184-197 | "::" is read as zeros that fill the address if and only if the address was not full or the bytes after it are zero |
| InetGrammar.FullGapLoses | jni/compat/inet_pton.c:189-195 | "1:1:1:1:1:1:1::8" is accepted and its last group becomes zero |
| InetNtop.Ntop4 | jni/compat/inet_ntop.c:95-105 | prints the dotted quad and NUL, or fails exactly when the size is too small and writes nothing |
| InetNtop.BestRunLeftmostLongest | jni/compat/inet_ntop.c:138-161 | the compressed run is the leftmost longest run of zero words, and none is compressed exactly when no run has two words (sections 4.2.2 and 4.2.3 of RFC 5952) |
| InetNtop.FindRun | jni/compat/inet_ntop.c:138-161 | the search loop finds that run |
| InetNtop.Words | jni/compat/inet_ntop.c:135-137 | the word array holds the big-endian words of the address |
| InetNtop.Format | jni/compat/inet_ntop.c:166-193 | the formatter writes the text of the address and never passes character 39 of its buffer |
| InetNtop.Print6Width | jni/compat/inet_ntop.c:166-193 | at most 39 characters for every address |
| InetNtop.Ntop6 | jni/compat/inet_ntop.c:115-204 | the printed text and NUL reach the caller's buffer, or NULL is returned exactly when the size is too small and nothing is written |
| InetRoundTrip.PrintedSpelling | jni/compat/inet_ntop.c:166-193 | the printed text is the canonical spelling of the address and denotes it |
| InetRoundTrip.PrintedRfc1884 | jni/compat/inet_ntop.c:108-193 | the printed text has one of the three RFC 1884 forms |
| InetEmbedded.EmbeddedExact | jni/compat/inet_ntop.c:179-186 | over the bytes alone: exactly the IPv4-compatible addresses (twelve zero bytes, then not two more) and the IPv4-mapped ones are printed with a dotted quad, as "::" or "::ffff:" and the four octets |
| InetEmbedded.EmbedsIff | jni/compat/inet_ntop.c:138-180 | the run found and the test of the formatter single out those addresses |
| InetRoundTrip.RoundTrip | jni/compat/inet_pton.c:120-202 | parsing what is printed gives the address back, for all addresses |
| InetRoundTrip.PrintInjective | jni/compat/inet_ntop.c:115-204 | different addresses print differently |
| InetRoundTrip.PrintThenParse | jni/compat/inet_ntop.c:115-204 | the two C functions, one on the other's output buffer: returns 1 and the sixteen bytes |
| WireId.PacketIdRoundTrip | jni/src/Client.cpp:1215-1236 | for every signed 64-bit id but the least, the server reads its absolute value and ends exactly when it was negative; the 32-bit read agrees below 2^31 |
| WireId.CountRoundTrip | jni/src/Reports.c:886-902 | a count survives split and join if and only if it fits a signed 64-bit variable |
| WireId.AckRoundTrip | jni/src/Reports.c:807-823 | bytes, errors, out-of-order and datagram counts of 64 bits survive the server's final report |
| WireId.LegacyAck | jni/src/Reports.c:816-827 | a header without the 64-bit flag gives the byte count and the low words of the other counts |
| TransferInfo.TransferInfo.HandlePacket | jni/src/Reporter.c:842-892 | the server's packet handler on the counters, whose meaning over the events is UdpFlow.RunInvariant |
| TransferInfo.TransferInfo.ResetStats | jni/src/Reporter.c:1056-1069 | the roll-over between intervals |
| TransferInfo.TransferInfo.Protocol | jni/src/Reporter.c:1086-1191 | an interval report feeds the group sum and then rolls over; a final one feeds it and shows totals |
| TransferInfo.TransferInfo.SumProtocol | jni/src/Reporter.c:1193-1227 | the interval and final values of the sum |
| UdpFlow.RunUDP | jni/src/Client.cpp:967-1057 | whatever the writes do, the loop ends with the first fatal one and exactly the successful ones before that leave, numbered 1..n without a hole |
| UdpFlow.Finish | jni/src/Client.cpp:1336-1428 | the final datagrams carry the negated next id and the ones after it, one more for each wait that brings nothing, up to the server's report and at most 200 |
| UdpFlow.RunClient | jni/src/Client.cpp:967-1340 | everything a client run puts on the wire is data 1..last in order or a final datagram with a higher id, the last data id itself after a fatal error; after a fatal first write it is id 0 and then final datagrams from 1 on |
| UdpFlow.RunInvariant | jni/src/Reporter.c:842-892 | on every run the counters are those of the events: highest id, arrivals and their bytes, late arrivals and timeouts taken for packets as out of order, and lost = highest id - arrivals + late |
| UdpFlow.MissingCount | jni/src/Reporter.c:1153-1160 | the highest id less the arrivals is the missing less the duplicate ids |
| UdpFlow.FinalReport | jni/src/Reporter.c:1149-1163 | for every sequence of events the final report shows the highest id, the bytes received, late arrivals and stale timeouts, and the highest id less arrivals and stale timeouts as errors, cut off at zero |
| UdpFlow.EndToEnd | jni/src/Server.cpp:732-773 | for every pattern of loss, reordering, duplication, timeouts and interval reports, the final error count is max(0, missing - duplicates - stale) over 1..G where G is the id of the first final datagram to arrive, and equals the missing exactly when there is nothing to subtract or nothing missing |
| UdpReports.AccountedEndToEnd | jni/src/Server.cpp:732-773 | the same through the packet ring, for every interleaving and whatever the ring lost: the count is that of the datagrams accounted, which are all received if none was lost |
| UdpFlow.StaleHidesLoss | jni/src/Reporter.c:845-892 | ids 1 and 3 with a timeout in between: id 2 is missing and the report shows no error |
| UdpFlow.ZeroIgnored | jni/src/Server.cpp:545-576 | a final datagram with id 0 neither ends the server nor touches its counters |
| UdpFlow.Telescope | jni/src/Reporter.c:1056-1062 | what the interval reports showed adds up to the rolled-over counters |
| UdpFlow.IntervalReport | jni/src/Reporter.c:1091-1099 | in every run an interval report shows the rise of the highest id, the bytes, late arrivals and stale timeouts since the report before, and the rise less arrivals and stale timeouts as errors, cut off at zero |
| UdpFlow.EveryReport | jni/src/Reporter.c:1598-1605 | every report of a run is that of the events before one of its interval reports |
| UdpFlow.IntervalsAddUp | jni/src/Reporter.c:1091-1163 | interval values plus the last partial equal the final bytes, out-of-order and datagram totals; the clamped error counts add up to at least the final one |
| PacketRing.EnqueueExact | jni/src/packet_ring.c:91-126 | an enqueue that does not wait appends to the queue if and only if it does not overrun; an overrun empties the queue |
| PacketRing.DequeueExact | jni/src/packet_ring.c:128-153 | a dequeue takes the oldest packet, and none exactly when the queue is empty |
| PacketRing.HandedOutSlot | jni/src/packet_ring.c:138-140 | the slot a dequeue hands out is overwritten by the next enqueue exactly when that one overruns |
| PacketRing.FullExact | jni/src/packet_ring.c:92-93 | all slots but one are in use exactly when an enqueue waits or overruns |
| PacketRing.FullLoadIsLost | jni/src/packet_ring.c:92-93 | for every capacity, filling a fresh ring with as many packets as it has slots loses them all |
| PacketRing.PacketRing.TryEnqueue | jni/src/packet_ring.c:91-126 | the in-place enqueue, its wait condition and its effect on the queue |
| PacketRing.PacketRing.Dequeue | jni/src/packet_ring.c:128-153 | the in-place dequeue and its effect on the queue |
| EndJob.RunInv | jni/src/Reporter.c:209-259 | in every interleaving: accounted plus queued packets are sent packets in order without repetition, all but the lost ones |
| EndJob.EndJobAccountsAll | jni/src/Reporter.c:490-587 | when EndJob stops waiting the ring is empty, and every packet was accounted once and in order if and only if none was lost |
| EndJob.LossIsOverrun | jni/src/packet_ring.c:91-126 | packets are lost in a run exactly when some enqueue overran the ring |
| EndJob.LostMarkerSticks | jni/src/Reporter.c:231-258 | after a marker that overruns no step is left |
| EndJob.StuckIffMarkerOverran | jni/src/Reporter.c:231-258 | over every run, whatever was lost before, EndJob is stuck if and only if its marker overran the ring |
| EndJob.MarkerCanStick | jni/src/packet_ring.c:91-126 | for every capacity some run ends stuck |
| EndJob.EndJobProgress | jni/src/Reporter.c:490-608 | while EndJob waits the reporter has a step if and only if EndJob is not stuck, and each step leaves less to do, whatever was lost before |
| JobQueue.PassExact | jni/src/Reporter.c:452-473 | a pass leaves exactly the jobs not processed and reported done, in their old order |
| JobQueue.ProcessedOnce | jni/src/Reporter.c:452-473 | no job is processed twice in a pass |
| JobQueue.ProcessedIff | jni/src/Reporter.c:463-472 | a job is processed in a pass unless the one before it was processed and reported done |
| JobQueue.SkippedMovesUp | jni/src/Reporter.c:465-471 | a job stepped over because its predecessor was removed stays and moves nearer to the head |
| JobQueue.ProcessedWithin | jni/src/Reporter.c:452-473 | the job at index i is processed within i + 1 passes, whatever the passes report |
| JobQueue.PendingList.Post | jni/src/Reporter.c:92-123 | posting appends to the linked pending list |
| JobQueue.JobList.SetRoot | jni/src/Reporter.c:337-372 | the pending list moves in front of the job list, both stay well linked |
| JobQueue.JobList.Unlink | jni/src/Reporter.c:468-470 | the store through the pointer to a pointer removes exactly the job at the cursor, whatever that job's own link holds |
| JobQueue.Process | jni/src/Reporter.c:463 | processing reports done jobs as such and leaves nothing known of their links |
| JobQueue.JobList.Visit | jni/src/Reporter.c:453-472 | one turn of the loop: the link is read before processing, of a header reported done nothing is known afterwards, and it is in the set of gone headers from then on |
| JobQueue.JobList.Pass | jni/src/Reporter.c:452-473 | the pass over the linked list computes the kept and processed jobs of the specification although the links of exactly the headers reported done are lost on the way; those are never touched again |
| GroupSum.StepInv | jni/src/Reporter.c:1086-1191 | every event keeps: the sum holds what its members have reported, the reference count is the number of live members |
| GroupSum.SumInFlight | jni/src/Reporter.c:1589-1633 | at any time the sum is the live members' values at their last interval plus the totals of those that ended |
| GroupSum.SumConserves | jni/src/Reporter.c:543-586 | when the group closes every member has had its final report and the final sum shows exactly the sums of the members' totals, its errors being the ids less the packets handled, cut off at zero |
| GroupSum.ClosesIff | jni/src/Reporter.c:572-582 | the group closes when its last member has ended, and not before |
| GroupSum.IntervalSumExact | jni/src/Reporter.c:1207-1218 | in every run each interval sum shows what the members reported since the one before, and as errors the ids less the packets handled in those reports, cut off at zero |
| GroupSum.IntervalSumsAddUp | jni/src/Reporter.c:1193-1227 | the interval sums and what came after the last add up to the final sum; their clamped errors to at least the final ones |
| GroupSum.FiresIff | jni/src/Reporter.c:1612-1625 | in every run a step shows an interval sum if and only if it is a member's interval report that makes the interval reports since the last sum as many as the members left |
| GroupSum.SilentUntilJoin | jni/src/Reporter.c:1612-1625 | once as many have reported as are left, no interval sum is shown until somebody joins |
| GroupSum.CanFire | jni/src/Reporter.c:1612-1625 | as long as fewer have reported than are left, some run without a join shows a sum |
| GroupSum.SilentHappens | jni/src/Reporter.c:556-582 | one of two members reports and ends: that state is reached |
| ReportClock.TimeAdd | jni/include/util.h:201-208 | exact in microseconds, and leaves a full second in the microseconds exactly when they add up to one |
| ReportClock.Clock.SetInterval | jni/src/Reporter.c:960-974 | the INTERVAL timestamps and the packet before the start |
| ReportClock.Clock.MissedReports | jni/src/Reporter.c:994-1008 | the catch-up loop terminates with the specified number of reports, still tiling |
| ReportClock.Clock.CondPrint | jni/src/Reporter.c:1589-1633 | a packet up to the next report time does nothing; past it the clock goes one interval without output, and with output the least number of intervals, at least one, that leaves the packet at most one interval beyond the next report time |
| ReportClock.ReportsDue | jni/src/Reporter.c:1598-1631 | the report and the catch-up loop together leave that number |
| ReportClock.Clock.Finish | jni/src/Reporter.c:975-981 | the partial report continues where the last interval ended and the total starts at zero |
| ReportClock.TilesAt | jni/src/Reporter.c:969-973 | report k starts where the one before ended and ends at k intervals |
| ReportClock.CatchUpLeast | jni/src/Reporter.c:994-1008 | the loop stops at the least number of reports for which the packet is at most one interval beyond the next report |
| ReportClock.NoFutureReport | jni/src/Reporter.c:1598-1631 | with non-decreasing times no report ends after the packet that caused it, or any later one |
| ReportClock.CaughtUp | jni/src/Reporter.c:1627-1630 | with output on, a packet leaves the clock at most one interval behind |
| ReportClock.Run | jni/src/Reporter.c:1589-1633 | over a whole run each packet moves the clock by the intervals due; intervals and the last partial cover the run from start to last packet without gap or overlap; with output on they are what is printed, otherwise nothing is |
| TransitStats.UpdateTracks | jni/src/Reporter.c:725-733 | the Welford step keeps mean exact and m2 at a constant offset from the sum of squared deviations |
| TransitStats.IntervalExact | jni/src/Reporter.c:1063-1069 | after a reset mean, m2, sum are exactly those of the interval's samples; minimum and maximum up to their start values |
| TransitStats.TotalExact | jni/src/Reporter.c:679-695 | over the run mean, sum, minimum and maximum are exact and m2 is the sum of squared deviations plus the first sample squared |
| TransitStats.VarianceExactIff | jni/src/Reporter.c:692-695 | total m2 is exact if and only if the first sample is zero |
| TransitStats.IntervalVarianceIff | jni/src/Reporter.c:692 | an interval's m2 is exact if and only if a reset came before it or the first sample is zero |
| TransitStats.VarianceIsOff | jni/src/Reporter.c:692-695 | one sample of a second has no deviation and is given its square |
| TransitStats.MaxExactIff | jni/src/Reporter.c:1064 | the interval maximum is a sample if and only if some sample is at least FLT_MIN |
| TransitStats.MaxIsOff | jni/src/Reporter.c:1064 | one sample of minus a second is given FLT_MIN as maximum |
| TransitStats.JitterBounded | jni/src/Reporter.c:697-705 | jitter stays between zero and the largest difference of successive samples, wherever it was set back to zero |
| TransitStats.JitterClosedForm | jni/src/Reporter.c:697-705 | jitter is the sum of the differences since it was last zero, each weighted by a sixteenth and fifteen sixteenths for every later one |
| TransitStats.Transit.Sample | jni/src/Reporter.c:669-736 | the handler in place: both tracks, jitter and last sample follow the specification |
| TransitStats.Transit.Handle | jni/src/Reporter.c:842-892 | an empty report is taken for a sample unless the interval has none |
| TransitStats.Transit.Report | jni/src/Reporter.c:1113-1114 | jitter goes back to zero while there is one datagram; an interval report resets the interval track |
| BurstFraming.HeaderRoundTrip | jni/src/Client.cpp:1238-1262 | the reader gets id and size from a written header, whatever the other fields hold |
| BurstFraming.BeginBurst | jni/src/Client.cpp:554-602 | a burst of at least a header; a whole header begins a frame, less leaves a cut-off header |
| BurstFraming.ContinueBurst | jni/src/Client.cpp:603-645 | later writes stay inside the burst |
| BurstFraming.SendBursts | jni/src/Client.cpp:544-659 | for every outcome of the writes the stream is framed by exactly the bursts begun, with sizes and ids as asked for or counted; the loop ends early only when a header is cut short, a later write returns 0 or fails fatally; all bytes but those of a cut header are counted; if every write takes something each turn brings the burst nearer to its end |
| BurstFraming.FramedPrefix | jni/src/Server.cpp:209-218 | a connection cut at any byte still delivers a framed stream of a prefix of the bursts |
| BurstFraming.ReceiveBursts | jni/src/Server.cpp:163-247 | for every outcome of the reads: headers seen are exactly the first bursts, burst_nleft is what the last one lacks and never negative, and the byte count is the bytes taken less the receive calls that failed without being fatal |
| BurstFraming.ReaderLeavesIff | jni/src/Server.cpp:163-241 | the reader leaves its loop if and only if some turn finds no whole header between bursts, meets the end of the stream, receives nothing or fails fatally |
| BurstFraming.WholeBurst | jni/src/Server.cpp:180-231 | a whole burst that is there is read in one turn if buffer and receive call allow |
| BurstFraming.CountExactIff | jni/src/Server.cpp:221-247 | the byte count is exact if and only if no turn that calls recv has it fail without being fatal |
| BurstFraming.MissTakesOne | jni/src/Server.cpp:236-247 | such a failure inside a burst takes one off the count and nothing from the stream |
| BurstFraming.SteadyDrains | jni/src/Server.cpp:163-247 | from a peer that neither fails nor closes, as many turns as bytes read the whole stream, up to a header cut short |
| BurstFraming.ReadyExact | jni/src/Server.cpp:199-231 | transit_ready is raised once per whole burst, with its last byte, and nowhere else |
| BurstFraming.FramedUnique | jni/src/Server.cpp:180-218 | a stream carries one sequence of bursts, although payload may look like headers |
| BurstFraming.Transfer | jni/src/Server.cpp:163-247 | sender, cut and receiver together: the server sees a prefix of the client's bursts, all of them once every byte was read |
| RateLimiter.Write | jni/src/Client.cpp:777-837 | one turn charges, sends and takes off the amount exactly what the specification says; a failed write charges nothing, header or not |
| RateLimiter.Run | jni/src/Client.cpp:750-847 | the loop ends in the state of the specification for every schedule of rates and writes |
| RateLimiter.TokensExact | jni/src/Client.cpp:763-820 | tokens are credit less bytes counted at every step, under varying rates, and the bytes counted exceed the credit by at most one write |
| RateLimiter.ConstantRateBound | jni/src/Client.cpp:774-776 | at constant rate tokens = rate/8 * elapsed - totLen, and totLen <= rate/8 * elapsed + one write |
| RateLimiter.SentExact | jni/src/Client.cpp:785-820 | the socket took the bytes counted plus exactly the headers whose write failed, and so at most the credit, one write and those headers |
| RateLimiter.SentCountedIff | jni/src/Client.cpp:785-820 | the bytes counted are the bytes the socket took if and only if no turn that begins a burst has its write fail after header bytes went out |
| RateLimiter.HeaderUncounted | jni/src/Client.cpp:785-820 | for every buffer larger than a header, a run with one failed write sends more than the credit and one write |
| RateLimiter.SimpleBoundIff | jni/src/Client.cpp:777-820 | the bytes sent stay within the credit and one write if and only if the uncharged headers fit the tokens and one write |
| RateLimiter.HeadersPaidFor | jni/src/Client.cpp:785-822 | over every run the uncharged header bytes are covered, m to bufLen - m, by counted bytes and the rest of the open burst |
| RateLimiter.WireBound | jni/src/Client.cpp:785-822 | with a buffer larger than a header, sent * (bufLen - 92) <= bufLen * (totLen + 92) |
| RateLimiter.WireBoundCredit | jni/src/Client.cpp:763-822 | the same against the credit: bufLen / (bufLen - 92) times the credit, one write and a header |
| RateLimiter.WireBoundTight | jni/src/Client.cpp:785-822 | with a buffer of exactly a header, and writes of no bytes that do not fail, only parts of headers go uncharged and sent stays bounded |
| RateLimiter.AmountKept | jni/src/Client.cpp:778-836 | the amount left is the amount less the bytes sent, down to zero, with and without trip times |
| RateLimiter.WriteSize | jni/src/Client.cpp:777-820 | without trip times a turn sends nothing without tokens or on a failed write, else what the write takes of the buffer or of the amount left |
| RateLimiter.OverIff | jni/src/Client.cpp:803-812 | the loop is left for good if and only if some turn taken has its write fail fatally |
| RateLimiter.StopsIff | jni/src/Client.cpp:763 | the loop stops if and only if that happened or the amount asked for has been sent |
| RateLimiter.BurstsWhole | jni/src/Client.cpp:785-822 | with trip times the bytes sent and the rest of the open burst make up the bursts begun, a buffer each |
| RateLimiter.ConstantRate | jni/src/Client.cpp:774-776 | the credit is rate/8 times the time elapsed |
| Kalman.State.Update | jni/compat/delay.c:216-223 | the in-place update is one step of the filter: 0 < k < 1, 0 < p < r, x moved by k towards the measurement |
| Kalman.ExcessShrinks | jni/compat/delay.c:216-223 | the distance function from the fixed point is multiplied by (r/(p+q+r)) squared |
| Kalman.MovesTowards | jni/compat/delay.c:216-223 | p moves strictly towards the fixed point and does not cross it |
| Kalman.TowardsFixedPoint | jni/compat/delay.c:216-223 | the same for any fixed point of p = r(p+q)/(p+q+r) |
| Kalman.StaysInHull | jni/compat/delay.c:216-223 | for every measurement sequence x stays in the hull of its start and the measurements, and 0 < p < r |
| Kalman.Converges | jni/compat/delay.c:216-223 | the excess falls geometrically with ratio (r/(q+r)) squared whatever is measured |
| ThreadCount.CountsOverRuns | jni/compat/Thread.c:218-251 | every run keeps thread_sNum = live - ignored - (registered - nonterminating_num) and thread_trfc_sNum = live client and server threads |
| ThreadCount.CensusExact | jni/compat/Thread.c:218-502 | the threads that are live, ignored or registered are those that the events say |
| ThreadCount.JoinExact | jni/compat/Thread.c:423-429 | the count is never negative, and zero if and only if registrations were released and every thread left is ignored or a registered listener |
| ThreadCount.StepInv | jni/compat/Thread.c:458-520 | each operation keeps the accounting |
| ThreadCount.ChainGap | jni/compat/Thread.c:393-405 | in any state of any run, joinall passes between a thread's end and the start of its successor if and only if registrations are released and every other thread is ignored or a registered listener |
| ThreadCount.ChainGapHappens | jni/compat/Thread.c:393-405 | it does for a thread that is alone |
| ThreadCount.StartEndUndo | jni/compat/Thread.c:226-400 | a thread leaves the counters as they were before it started |
| ThreadCount.Counters.Start | jni/compat/Thread.c:226-232 | the counting part of thread_start |
| ThreadCount.Counters.End | jni/compat/Thread.c:393-400 | the counting part of a thread's end, of thread_stop and of a failed creation |
| ThreadCount.Counters.SetIgnore | jni/compat/Thread.c:458-463 | thread_setignore |
| ThreadCount.Counters.UnsetIgnore | jni/compat/Thread.c:471-476 | thread_unsetignore |
| ThreadCount.Counters.RegisterNonterm | jni/compat/Thread.c:482-486 | thread_register_nonterm |
| ThreadCount.Counters.UnregisterNonterm | jni/compat/Thread.c:492-502 | thread_unregister_nonterm, before and after a release |
| ThreadCount.Counters.ReleaseNonterm | jni/compat/Thread.c:510-520 | thread_release_nonterm and the count it returns |
| ThreadCount.Counters.JoinDone | jni/compat/Thread.c:423-429 | thread_joinall stops waiting exactly when no thread it should wait for is left |
| Barrier.BarrierMutex.Begin | jni/src/Launch.cpp:67-84 | a call up to its first wait |
| Barrier.BarrierMutex.Resume | jni/src/Launch.cpp:84-99 | one turn of the wait loop |
| Barrier.RoundsPair | jni/src/Launch.cpp:67-100 | over any number of rounds in which the second call comes in time and none comes early: nobody returns before both arrived, one gets 1 and the other 0, count is 0 once both are out |
| Barrier.RoundsTimeoutIff | jni/src/Launch.cpp:83-96 | over any number of rounds there is no timeout if and only if in each the second call begins before the first has woken up timeout times |
| Barrier.OneRound | jni/src/Reporter.c:260-272 | in any interleaving of one round: a result other than a timeout means both arrived; at least one side closes, and exactly one if and only if fewer than timeout wake-ups lie between the two calls |
| Barrier.TimeoutIff | jni/src/Launch.cpp:83-96 | a round meets no timeout if and only if the second call begins before the first has woken up timeout times |
| Barrier.BothClose | jni/src/Reporter.c:260-272 | for every timeout some run makes both sides close |
| Barrier.EarlyCallBreaks | jni/src/Launch.cpp:71-98 | after a call made while the other party is still leaving, every later return is a timeout |
| Barrier.EarlyCallHappens | jni/src/Launch.cpp:71-98 | such a call is possible |

## Left out

- Socket setup, options, multicast, packet filters and tun/tap (`jni/src/Listener.cpp`, `jni/src/PerfSocket.cpp`): calls into the system without logic to prove.
- Printing and formats (`jni/src/ReportOutputs.c`, `jni/src/Locale.c`): output handlers change no counter.
- Settings parsing, isochronous frame counter, histograms, active-host table, the Python scripts under `jni/flows`: only easy members.
- The other transmit loops (`RunNearCongestionTCP`, `RunUDPIsoch`, write-ack clients) and TCP, full-duplex and client-side sums: they repeat the counter pattern of the server's UDP sums, or share fields that make a clean total impossible.
- Client-side UDP datagram totals: the end marker passes through the packet handler and overwrites the packet id.
- Retransmitted server acks: only the contents of the first are modelled.
- Connect-time statistics, L2 counters and isochronous counters of the handlers: they do not touch the counters modelled.
- Memory release after the end-of-job and barrier signals, condition variables below the level of atomic locked sections, and memory ordering: a step of a state machine is one locked section or one ring operation.
- Floating-point rounding: statistics, tokens and the filter are over exact reals, report times over integer microseconds. Integer counters do not wrap; ids and counts on the wire do.
- UdpFlow.EndToEnd: the first datagram, which the listener reads before the server thread starts, is like any other here; the flag that it is a final datagram is not looked at by the source.
- GroupSum.SumConserves: single-UDP servers that bypass the reporter thread, and the filter that prints the final sum only for groups of more than one member, are not modelled, nor is the same filter on the interval sums; no member joins a group that has closed.
- TransferInfo.TransferInfo.Protocol: with a group sum; without one the same counters change and no sum is fed.
- ReportClock.Clock.CondPrint: the clock of the group sum, which advances by the same function, is not modelled.
- RateLimiter.WireBound: buffers smaller than a header, where the source asks for a negative number of bytes; the token bucket on the reading side and the sizes of single reads there.
- ThreadCount.CountsOverRuns: thread_stop on a registered listener, or on a thread that ends by itself as well, counts it twice and is not an event of the model.
- BurstFraming.SendBursts: ids of a signed counter beyond 2^31 are taken modulo 2^32.
