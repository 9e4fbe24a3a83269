# SimpleSocketBridge transport tests, modelled in Dafny

SimpleSocketBridge measures a local TCP/UDP transport between an Unreal Engine
host, a few standalone Windows clients and some Python servers. It runs latency,
throughput, endurance and combined tests, and it includes a CARLA control loop
fed by UDP control packets. This project models the sequential logic inside
those programs and proves properties about it. Sockets, threads and clocks are
removed. The outcome of each loop iteration (what a send or recv returned,
whether a deadline or report boundary was crossed, whether the run flag is still
up) becomes a field of an observation record. Each loop becomes a pure function
folded over a trace of those records.

| module | file | what it models |
|---|---|---|
| `Wrappers` | `wrappers.dfy` | `Option`, standing in for `None` / `nullptr` / a raised error |
| `LittleEndian` | `little_endian.dfy` | bytes, little-endian `uint32` / `uint64` encode and decode, 32-bit wrap |
| `Dispatcher` | `dispatcher.dfy` | `ABridgeSender::ListenForCommand` and `ConnectSocket`: the connect, wait for a one-byte command, open data, dispatch, close-all, reconnect cycle, as an explicit state machine |
| `Handshake` | `handshake.dfy` | start-up of `ws_combined_client` (`'C'`) and `ws_throughput_client` (`'T'`) |
| `Stats` | `stats.dfy` | the three accumulator policies: a delta-snapshot window, lifetime stats, and a window/total pair; plus byte-count snapshots |
| `LatencyLoops` | `latency_loops.dfy` | the four latency loops, each reduced to the statistics events it produces |
| `Streaming` | `streaming.dfy` | the bulk-send loops: throughput, endurance, and both combined senders with their frame counters |
| `Reassembly` | `reassembly.dfy` | `data_loop` of `ssb_combined_server.py`: splitting chunks into 65536-byte frames, header decode, loss counting, final `total_pkts` / `loss_pct` |
| `ControlPacket` | `control_packet.dfy` | the 24-byte `<IfffQ` control record and the test sender's wrapping sequence counter |
| `Percentile` | `percentile.dfy` | `pct` of `ssb_control.py`: sorted copy, truncated rank index, clamp |
| `Freshness` | `freshness.dfy` | the tick loop of `ssb_control.py`: drain-to-latest, freshness, window counters, window report and reset |

Conventions:
- Integers are unbounded. The source's wrap-around is written out explicitly: `% 2^32` for the frame counter and the packet sequence, `% 2^64` for the unsigned byte delta.
- Latency samples are exact `real`s; float rounding is not modelled.
- Float fields of the control packet are opaque 32-bit words.

## Model

| member | source | states |
|---|---|---|
| Dispatcher.ModeOf | examples/unreal/BridgeSender.cpp:110-119 | `'L'`, `'T'`, `'E'` and `'C'` select the latency, throughput, endurance and combined test, each if and only if the byte is that letter; every other byte selects none |
| Dispatcher.CodeOf | examples/unreal/BridgeSender.cpp:110-115 | every test has a command byte that selects exactly that test (the inverse of `ModeOf`) |
| Dispatcher.NeedsDataIffStreaming | examples/unreal/BridgeSender.cpp:99-108 | the data socket is needed exactly for the known tests other than latency |
| Dispatcher.CommandOpensDataIff | examples/unreal/BridgeSender.cpp:99-108 | after a command byte arrives, the machine goes on to connect the data socket iff the byte is `'T'`, `'E'` or `'C'`; `'L'` and unknown bytes go straight to dispatch |
| Dispatcher.WaitOutcome | examples/unreal/BridgeSender.cpp:82-97 | the wait ends in teardown when the flag drops or 5 s pass with no byte; while neither happens and no byte arrives, the state does not change |
| Dispatcher.TimeoutRestarts | examples/unreal/BridgeSender.cpp:91-96 | a wait that times out closes both sockets, then restarts at `reconnect` iff the flag is up and stops otherwise |
| Dispatcher.TearDownOutcome | examples/unreal/BridgeSender.cpp:62-66 | `CloseAll` leaves both sockets empty; the machine re-enters `reconnect` iff the flag is up, else stops; the log of tests run is unchanged |
| Dispatcher.DispatchOutcome | examples/unreal/BridgeSender.cpp:110-122 | dispatch always ends in teardown; a known command appends exactly its test to the log of tests run, an unknown one appends nothing |
| Dispatcher.RetryOutcome | examples/unreal/BridgeSender.cpp:54-58 | the connect loop repeats exactly while the flag is up and the connect fails; a success opens the socket; a dropped flag leaves the loop without opening it |
| Dispatcher.ConnectResult | examples/unreal/BridgeSender.cpp:59-59 | `ConnectSocket` returns the flag. A false result on the command socket ends the dispatcher; on the data socket it tears down. A true result goes on to the wait or to dispatch |
| Dispatcher.ConnectEarlyFailure | examples/unreal/BridgeSender.cpp:43-48 | a failed socket creation leaves the slot empty; a failed address parse leaves an unconnected socket; both count as a failed connect |
| Dispatcher.InitWf | examples/unreal/BridgeSender.cpp:68-73 | the initial state satisfies the strong (all sockets connected) invariant |
| Dispatcher.StepPreservesWf | examples/unreal/BridgeSender.cpp:68-123 | every transition keeps the socket invariant (a command socket exists in every phase past connect) and only appends to the log of tests run |
| Dispatcher.RunPreservesWf | examples/unreal/BridgeSender.cpp:68-123 | the invariant and the append-only log hold after any trace |
| Dispatcher.ReachableWf | examples/unreal/BridgeSender.cpp:99-112 | in every reachable state, dispatching a command that needs no data socket happens with no data socket |
| Dispatcher.LiveStepPreservesLiveWf | examples/unreal/BridgeSender.cpp:54-59 | while the flag stays up, every socket past its connect phase is connected |
| Dispatcher.LiveRunConnected | examples/unreal/BridgeSender.cpp:54-59 | the connected-sockets invariant holds after any trace on which the flag never drops |
| Dispatcher.StoppedIsFinal | examples/unreal/BridgeSender.cpp:71-71 | once the function has returned, nothing changes any more |
| Dispatcher.StepTowardStop | examples/unreal/BridgeSender.cpp:95-96 | with the flag down, every transition strictly decreases the distance to returning |
| Dispatcher.StopsWithinFourSteps | examples/unreal/BridgeSender.cpp:71-122 | once the flag is down, the dispatcher returns within at most four transitions from any phase |
| Handshake.CombinedStart | examples/ws_combined_client.cpp:41-55 | start-up proceeds iff every call succeeds and the byte read is exactly `'C'`; the data connect is attempted iff everything before it succeeded; the command socket is never closed on exit |
| Handshake.ThroughputStart | examples/ws_throughput_client.cpp:39-70 | start-up proceeds iff every call succeeds and the byte read is exactly `'T'`; the command socket is closed on exit iff it was connected |
| Handshake.WrongCodeNeverOpensData | examples/ws_combined_client.cpp:49-51 | a missing or wrong command byte exits before the data socket is touched, in both clients |
| Handshake.ClientsAgree | examples/ws_throughput_client.cpp:54-70 | given the right byte, the two clients proceed or fail at the same calls |
| Stats.GuardedAverage | examples/ws_combined_client.cpp:140-141 | the guarded average times the count is the sum when the count is positive, else it is 0 |
| Stats.Mean | examples/standalone_transport/ws_latency_client.cpp:68-71 | the mean of a non-empty list times its length is its sum |
| Stats.MinOfBounds | examples/standalone_transport/ws_latency_client.cpp:60-60 | the running minimum lies at or below the sentinel and every sample, and is one of them or the sentinel |
| Stats.MaxOfBounds | examples/standalone_transport/ws_latency_client.cpp:61-61 | the running maximum lies at or above the sentinel and every sample, and is one of them or the sentinel |
| Stats.RecordDelta | examples/unreal/BridgeSender.cpp:143-143 | recording adds the sample to the sum and one to the count; the new min/max bracket the sample; the snapshot is untouched |
| Stats.FlushDelta | examples/unreal/BridgeSender.cpp:146-151 | a report fires iff `Count > LastCount`, covers at least one sample, then snapshots sum and count and resets min/max; otherwise nothing changes |
| Stats.RunDelta | examples/unreal/BridgeSender.cpp:129-152 | along any trace the snapshot count never exceeds the count, and every report covers at least one sample |
| Stats.DeltaWindowTracksPending | examples/standalone_transport/ws_latency_client.cpp:37-75 | `Sum - LastSum` and `Count - LastCount` are the sum and number of the samples since the last report; min/max are their running extremes; sum and count cover the whole run |
| Stats.DeltaReportsExpected | examples/standalone_transport/ws_latency_client.cpp:66-75 | the reports are exactly one summary (mean, min, max, count) of the samples since the previous report, per reporting point with at least one new sample |
| Stats.FlushSummarises | examples/standalone_transport/ws_latency_client.cpp:68-71 | a report over a window tracking some samples prints their mean, min, max and number, or nothing when there are none |
| Stats.DeltaReportBoundsWindow | examples/standalone_transport/ws_latency_client.cpp:59-74 | every report covers at least one sample, its min and max bracket every sample of its window, and its min is one of them when one lies below the sentinel |
| Stats.RecordLifetime | examples/unreal/BridgeSender.cpp:291-291 | recording adds the sample to the sum and one to the count; min/max bracket the sample |
| Stats.ReportLifetime | examples/unreal/BridgeSender.cpp:298-302 | the report's average is `Sum / Count`, or 0 when there is no sample; nothing is reset |
| Stats.LifetimeTracksSamples | examples/unreal/BridgeSender.cpp:270-301 | the lifetime record is the sum, count, min and max of every sample of the run; each report summarises all samples before it |
| Stats.LifetimeBounds | examples/unreal/BridgeSender.cpp:291-301 | `Min <=` every sample `<= Max` over the whole run |
| Stats.RecordPair | examples/ws_combined_client.cpp:120-124 | recording a sample leaves the already-flushed part of the totals (totals minus window, in sum and in count) unchanged, keeps the window no larger than the totals, and adds the sample to the window |
| Stats.FlushPair | examples/ws_combined_client.cpp:140-159 | the report carries both guarded averages and counts; afterwards only the window is reset |
| Stats.PairTracks | examples/ws_combined_client.cpp:120-124 | the window holds exactly the samples since the last report, and the totals hold every sample |
| Stats.PairConservation | examples/ws_combined_client.cpp:156-159 | the flushed window sums and counts plus the current window equal the totals, so the window count never exceeds the total count |
| Stats.Deltas | examples/ws_combined_client.cpp:132-135 | one delta per reading |
| Stats.DeltaAt | examples/ws_combined_client.cpp:132-135 | each delta is the reading minus the previous snapshot, which starts at 0 |
| Stats.DeltasTelescope | examples/ws_combined_client.cpp:132-135 | the deltas add up to the last snapshot |
| Stats.DeltasNonNegative | examples/ws_throughput_client.cpp:92-101 | for a counter that never decreases, every delta is non-negative |
| LatencyLoops.RunClient | examples/standalone_transport/ws_latency_client.cpp:41-81 | the final average exists iff at least one sample was taken; every periodic report covers at least one sample |
| LatencyLoops.ClientTraceSamples | examples/standalone_transport/ws_latency_client.cpp:47-63 | the samples recorded are exactly the round trips of the probes whose echo came back as 8 bytes, and never more than the probes sent |
| LatencyLoops.ClientSummary | examples/standalone_transport/ws_latency_client.cpp:66-81 | the reports are the window summaries between reporting points; the final line is the mean of every accepted round trip over the whole run |
| LatencyLoops.HostTraceSamples | examples/unreal/BridgeSender.cpp:131-145 | the host test records a sample for every probe whose `Recv` succeeded, byte count unchecked |
| LatencyLoops.HostLatencyReports | examples/unreal/BridgeSender.cpp:125-156 | the host test's reports are the window summaries of its samples, and its sum and count are those of every accepted round trip |
| LatencyLoops.RunCombinedLatency | examples/unreal/BridgeSender.cpp:270-308 | the combined test's latency stats are never reset: each report is the guarded mean of all samples so far; at the end count and sum are those of every accepted round trip, `Min <=` every sample `<= Max`, and `bStopCombined` is set however the probing loop ended |
| LatencyLoops.WrappingDeltas | examples/ws_combined_client.cpp:132-135 | the unsigned 64-bit byte delta always lies in `[0, 2^64)` |
| LatencyLoops.WrappingDeltasExact | examples/ws_combined_client.cpp:132-135 | for a growing 64-bit counter the wrapping subtraction never wraps, so the deltas are the plain differences and telescope to the last snapshot |
| LatencyLoops.RunPairClient | examples/ws_combined_client.cpp:172-181 | the final line's ping count is the total count, and its average is the guarded total mean |
| LatencyLoops.PairTraceDueCount | examples/ws_combined_client.cpp:128-135 | there is exactly one latency report per byte-counter reading |
| LatencyLoops.PairReportsPerDue | examples/ws_combined_client.cpp:129-160 | the window/total pair produces one report per reporting point |
| LatencyLoops.PairDues | examples/ws_combined_client.cpp:129-135 | the byte counter is read once per reporting point |
| LatencyLoops.PairClientConsistent | examples/ws_combined_client.cpp:109-159 | one byte delta per report; the flushed windows plus the current one equal the totals; for a growing counter the byte deltas add up to the last reading |
| Streaming.AcceptedSends | examples/ws_throughput_client.cpp:86-88 | every send the loop accepts returned a positive count |
| Streaming.ThroughputLoop | examples/ws_throughput_client.cpp:79-103 | the loop stops at the deadline or the first send returning 0 or less; every accepted send adds exactly its count; the snapshot never overtakes the total; the printed deltas add up to the snapshot's movement |
| Streaming.RunThroughput | examples/ws_throughput_client.cpp:74-111 | from zero: the final total is the sum of the accepted sends and `0 <= last_total <= total`. The printed deltas are `Stats.Deltas` of the totals at the report points, and `last_total` is the last of those totals, or 0 when no report fell due |
| Streaming.ThroughputReports | examples/ws_throughput_client.cpp:90-101 | from any state, the deltas the loop appends are the differences between successive totals at the report points (`ReportTotals`), the first one taken from the starting `last_total` |
| Streaming.ThroughputLastReport | examples/ws_throughput_client.cpp:90-101 | from any state, `last_total` ends at the total of the last report point, or keeps its starting value when no report fell due |
| Streaming.DeltasFromZero | examples/ws_throughput_client.cpp:77-100 | the deltas printed from a zero snapshot are exactly `Stats.Deltas` of the same readings |
| Streaming.NonNegativeDeltas | examples/ws_throughput_client.cpp:92-101 | the snapshot only moves forward |
| Streaming.EnduranceCount | examples/unreal/BridgeSender.cpp:198-201 | the endurance count never exceeds the number of passes |
| Streaming.HostCounters | examples/unreal/BridgeSender.cpp:166-169 | the throughput total is the sum of every `Sent`, unfiltered; the endurance count is the number of passes whose `Sent` was positive |
| Streaming.Frame | examples/unreal/BridgeSender.cpp:241-241 | a frame is 65536 bytes and its first four bytes decode to the counter written into it |
| Streaming.NextCounter | examples/unreal/BridgeSender.cpp:242-242 | the `uint32_t` increment stays below 2^32 and is `c + 1` when that fits |
| Streaming.Counters | examples/unreal/BridgeSender.cpp:229-242 | the counters written into successive frames are `0, 1, 2, ...` reduced mod 2^32, one per frame |
| Streaming.HostSenderLoop | examples/unreal/BridgeSender.cpp:234-253 | frames accepted so far carry counters `0, 1, ...` with no gap; `Total` is 65536 per accepted frame; earlier frames are never rewritten (how many are accepted: `Streaming.HostSenderFrom`) |
| Streaming.HostSenderFrom | examples/unreal/BridgeSender.cpp:234-253 | the loop accepts exactly one frame per send that succeeded in full, up to the first stop flag, missing or disconnected socket, or failed, short or disconnecting send |
| Streaming.HostSenderFrames | examples/unreal/BridgeSender.cpp:229-253 | from the start: the frames sent carry `0 .. k-1` (mod 2^32), `Total` is 65536 k, and k is the number of full sends before the loop stopped |
| Streaming.DataThreadLoop | examples/ws_combined_client.cpp:78-87 | the standalone data thread keeps gap-free counters, a total of 65536 per full send, and a counter naming the next frame |
| Streaming.DataThreadFrames | examples/ws_combined_client.cpp:78-87 | from the start: the frames sent carry `0 .. k-1`, `total_bytes` is 65536 k, and k is the number of full sends before the first stop or short send |
| Streaming.DataThreadFrom | examples/ws_combined_client.cpp:81-86 | each full send adds exactly one frame |
| Streaming.Wire | examples/ws_combined_client.cpp:80-81 | the bytes on the wire are 65536 per frame |
| Reassembly.SplitFrames | ssb_combined_server.py:51-53 | every frame taken out is exactly 65536 bytes and fewer than 65536 bytes stay in the buffer |
| Reassembly.SplitFramesRejoin | ssb_combined_server.py:51-53 | the frames followed by the leftover are the input, so the byte count is conserved |
| Reassembly.SplitAppend | ssb_combined_server.py:49-53 | splitting a concatenation equals splitting the first part, then splitting its leftover with the second: frames do not depend on chunk boundaries |
| Reassembly.SplitFlatten | ssb_combined_server.py:51-53 | frames followed by a short tail split back into exactly those frames and that tail |
| Reassembly.Account | ssb_combined_server.py:58-60 | `last_id` becomes the header; `lost` changes only when a previous id exists and the header is not `last_id + 1`, by `pkt - last_id - 1` |
| Reassembly.Headers | ssb_combined_server.py:56-57 | each header is the little-endian `uint32` of the frame's first four bytes |
| Reassembly.LossTelescopes | ssb_combined_server.py:56-60 | after any headers, `last_id` is the latest one and `lost` is the last minus the first minus the frames in between |
| Reassembly.InOrderLoss | ssb_combined_server.py:56-60 | in-order headers from a wrapping 32-bit counter: up to 2^32 frames `lost == 0` and `last_id == n - 1`; past that every wrap adds `-2^32` to `lost` (2^32 + 1 frames give `lost == -2^32`, `last_id == 0`) |
| Reassembly.PacketsReceivedOrLost | ssb_combined_server.py:56-60 | when the first frame carries 0, `total_pkts` is the number of frames received plus `lost` |
| Reassembly.LossPercent | ssb_combined_server.py:110-110 | `loss_pct` is 0 with no packet, else `lost * 100 / total_pkts` |
| Reassembly.NoLossPercent | ssb_combined_server.py:110-110 | no loss means a loss percentage of 0 |
| Reassembly.Feed | ssb_combined_server.py:49-54 | after a chunk, fewer than 65536 bytes wait; every frame is 65536 bytes; `total_bytes + len(buf)` grows by the chunk's length; frames plus buffer are the old buffer plus the chunk |
| Reassembly.ProcessChunk | ssb_combined_server.py:49-60 | the inner `while` loop, as a method with loop invariants, computes exactly `Feed` |
| Reassembly.TakeOne | ssb_combined_server.py:52-60 | one pass of the inner loop keeps its invariant |
| Reassembly.TakenAll | ssb_combined_server.py:51-51 | when the inner loop exits, its state is `Feed`'s result |
| Reassembly.DataLoopSplits | ssb_combined_server.py:44-68 | whatever the chunking, timeouts and stop, the data loop's frames, buffer, byte total and loss tracker are those of splitting everything received |
| Reassembly.ChunkThenRest | ssb_combined_server.py:46-53 | feeding one chunk and then the rest equals feeding everything at once |
| Reassembly.Conservation | ssb_combined_server.py:46-54 | `total_bytes + len(buf)` is the number of bytes received; `total_bytes` is a multiple of 65536; fewer than 65536 bytes stay buffered |
| Reassembly.FramesOf | examples/ws_combined_client.cpp:80-80 | built frames are 65536 bytes and decode to their counters |
| Reassembly.WireIsFlatten | examples/ws_combined_client.cpp:80-81 | the sender's wire bytes are its frames laid end to end |
| Reassembly.HeadersOfFrames | ssb_combined_server.py:57-57 | decoding the headers of the sent frames gives back the counters the sender wrote |
| Reassembly.ServerTakesSentFrames | ssb_combined_server.py:49-60 | the server takes out exactly the frames that were sent, in order |
| Reassembly.ReceivedFrames | ssb_combined_server.py:51-57 | the frames taken out carry counters `0, 1, 2, ...` mod 2^32, in order |
| Reassembly.ReceivedCounts | ssb_combined_server.py:109-110 | after `n` frames in order `total_bytes == 65536 n` and the tracker is that of the in-order counters; up to 2^32 frames `last_id == n - 1`, `lost == 0`, `total_pkts == n` and `loss_pct == 0`, while past that `lost` is negative and `total_pkts` restarts from the wrapped counter |
| Reassembly.EndToEnd | ssb_combined_server.py:40-60 | a combined sender's stream, cut into any chunks, is reassembled into exactly its frames and bytes; no loss is counted up to 2^32 frames, and past that the wrapped counter makes the loss negative |
| LittleEndian.DecodeEncode | ssb_combined_server.py:57-57 | decoding an encoded value returns it |
| LittleEndian.EncodeDecode | ssb_combined_server.py:57-57 | encoding a decoded byte string returns it |
| LittleEndian.EncodeInjective | ssb_combined_server.py:57-57 | different values have different encodings |
| LittleEndian.U32HeaderRoundTrip | examples/ws_combined_client.cpp:80-80 | a counter written into bytes 0..3 is read back from those bytes, whatever follows |
| LittleEndian.U32BytesRoundTrip | ssb_combined_server.py:57-57 | four bytes decoded and re-encoded are unchanged |
| LittleEndian.U64RoundTrip | examples/single_agent_v1/ssb_core_test_sender.py:30-30 | a 64-bit value encoded and decoded is unchanged |
| LittleEndian.U64BytesRoundTrip | examples/single_agent_v1/ssb_control.py:123-123 | eight bytes decoded and re-encoded are unchanged |
| ControlPacket.Pack | examples/single_agent_v1/ssb_core_test_sender.py:24-31 | packing succeeds iff the sequence fits 32 bits and the timestamp 64 bits, giving 24 bytes with each field at its offset 0/4/8/12/16 |
| ControlPacket.Unpack | examples/single_agent_v1/ssb_control.py:123-123 | unpacking succeeds iff the buffer is exactly 24 bytes, and yields a packable record |
| ControlPacket.UnpackPack | examples/single_agent_v1/ssb_control.py:17-17 | unpacking a packed record returns the same tuple |
| ControlPacket.PackUnpack | examples/single_agent_v1/ssb_core_test_sender.py:8-9 | packing an unpacked 24-byte buffer returns the same bytes |
| ControlPacket.NextSeq | examples/single_agent_v1/ssb_core_test_sender.py:21-21 | the masked increment stays in `[0, 2^32)`, is `s + 1` when that fits and 0 after `0xFFFFFFFF` |
| ControlPacket.SeqsFromAt | examples/single_agent_v1/ssb_core_test_sender.py:13-21 | packet `i` carries `(s + i + 1) mod 2^32` |
| ControlPacket.SenderSequence | examples/single_agent_v1/ssb_core_test_sender.py:13-21 | every sequence number is 32-bit, the first is 1, and consecutive ones differ by 1 mod 2^32 |
| ControlPacket.SenderPacketRoundTrip | examples/single_agent_v1/ssb_core_test_sender.py:21-31 | every packet the sender builds packs to 24 bytes, and the controller unpacks it to the same sequence number and timestamp |
| Percentile.Insert | examples/single_agent_v1/ssb_control.py:26-26 | inserting into a sorted list keeps it sorted and adds exactly that element |
| Percentile.Sort | examples/single_agent_v1/ssb_control.py:26-26 | `sorted` returns a sorted permutation of its input |
| Percentile.SortUnique | examples/single_agent_v1/ssb_control.py:26-26 | two sorted permutations of the same values are equal |
| Percentile.TruncDiv | examples/single_agent_v1/ssb_control.py:27-27 | `int()` of a quotient truncates toward zero: it is the floor for a non-negative numerator |
| Percentile.PyPosition | examples/single_agent_v1/ssb_control.py:28-28 | Python indexing: a non-negative index is itself; an index in `[-n, n)` lands in the list |
| Percentile.RankIndex | examples/single_agent_v1/ssb_control.py:27-28 | the clamped index never passes the last element, is non-negative for `p >= 0`, and is the last element for `p >= 100` |
| Percentile.Pct | examples/single_agent_v1/ssb_control.py:23-28 | `pct` returns `None` iff the list is empty, otherwise an element of the list for every `p >= 0`; it can fail with `IndexError` only for negative `p` |
| Percentile.PctZeroIsMinimum | examples/single_agent_v1/ssb_control.py:26-28 | `p = 0` gives the minimum |
| Percentile.PctFullIsMaximum | examples/single_agent_v1/ssb_control.py:26-28 | `p >= 100` gives the maximum |
| Percentile.RankIndexMonotone | examples/single_agent_v1/ssb_control.py:27-28 | the rank index is monotone in `p` |
| Percentile.PctMonotone | examples/single_agent_v1/ssb_control.py:26-28 | the percentile is monotone in `p` for `p >= 0` |
| Percentile.PctOrderInsensitive | examples/single_agent_v1/ssb_control.py:26-26 | the result depends only on the multiset of values, not their order |
| Freshness.DrainFrom | examples/single_agent_v1/ssb_control.py:115-124 | draining crashes iff some datagram is not 24 bytes; otherwise `latest` is the last datagram read, or unchanged when none arrived |
| Freshness.DrainKeepsLast | examples/single_agent_v1/ssb_control.py:115-124 | whatever came before it, the tick sees only the last datagram, unpacked with its receive time |
| Freshness.NewWindow | examples/single_agent_v1/ssb_control.py:180-186 | the reset window has no ticks, no fresh ticks, empty sample lists, a largest tick gap of 0.0, starts at the given time and is well formed |
| Freshness.Start | examples/single_agent_v1/ssb_control.py:91-102 | the controller starts with no applied sequence number, no previous tick, and an empty well-formed window starting now with a largest tick gap of 0.0 |
| Freshness.Advance | examples/single_agent_v1/ssb_control.py:106-158 | a tick crashes iff the drain does. Otherwise it counts one tick, and counts it fresh iff a packet was drained and its sequence differs from the last applied one (or none was applied). A fresh tick records that sequence; a stale one keeps the old. The window stays well formed and the max gap never shrinks |
| Freshness.RepeatIsNotFresh | examples/single_agent_v1/ssb_control.py:126-130 | re-receiving the last applied sequence number is not fresh and changes nothing |
| Freshness.FreshPercent | examples/single_agent_v1/ssb_control.py:165-165 | `fresh_pct` lies in `[0, 100]`, is 0 with no fresh tick and 100 when every tick was fresh |
| Freshness.FreshPercentExact | examples/single_agent_v1/ssb_control.py:165-165 | with at least one tick, `fresh_pct * win_ticks == 100 * win_fresh` |
| Freshness.Largest | examples/single_agent_v1/ssb_control.py:173-175 | Python's `max`: absent iff the list is empty, otherwise an element at least every element |
| Freshness.LargestInt | examples/single_agent_v1/ssb_control.py:176-176 | the same for the integer wait list |
| Freshness.PctOf | examples/single_agent_v1/ssb_control.py:171-174 | the report's percentile is present iff the list is non-empty, and then an element of it |
| Freshness.Report | examples/single_agent_v1/ssb_control.py:160-178 | the report carries the window's tick and fresh counts, its length and its max gap |
| Freshness.ReportPresence | examples/single_agent_v1/ssb_control.py:171-176 | every age, adapter and wait statistic is present iff the window had a fresh tick |
| Freshness.ReportAges | examples/single_agent_v1/ssb_control.py:171-173 | both age percentiles are samples of the window and the age maximum bounds them all |
| Freshness.ReportAdapterTimes | examples/single_agent_v1/ssb_control.py:174-175 | the adapter percentile is a sample and the adapter maximum bounds them all |
| Freshness.ReportWait | examples/single_agent_v1/ssb_control.py:176-176 | the reported wait is the largest tick-wait estimate of the window |
| Freshness.ReportAsWritten | examples/single_agent_v1/ssb_control.py:167-178 | the report as the source formats it, when it succeeds, is the corrected report and has every statistic present |
| Freshness.AsWrittenFailsIffNoFreshTick | examples/single_agent_v1/ssb_control.py:167-178 | the source's report fails exactly when the window had no fresh tick |
| Freshness.IdleWindowStopsController | examples/single_agent_v1/ssb_control.py:160-178 | a 5 s window with one tick and no packet makes the source's report fail, while the corrected report prints `fresh=0%` |
| Freshness.Tick | examples/single_agent_v1/ssb_control.py:105-186 | the corrected tick: it reports with `Report`, not with the formatting as written. It crashes iff its drain does. A report is produced iff `now - win_start >= 5 s`. The report covers `now - win_start` nanoseconds, counts this tick as fresh iff the drained packet is newer than the last applied one, never lowers the largest tick gap, and carries the age, adapter and wait statistics iff the window had a fresh tick. The next window starts empty at `now_ns`; otherwise the window goes on with one more tick |
| Freshness.IdleWindowIsReported | examples/single_agent_v1/ssb_control.py:160-186 | the corrected tick reports a 5 s window with one tick and no packet as `fresh=0%` without age or wait statistics, and starts a new empty window |
| Freshness.RunKeepsInvariants | examples/single_agent_v1/ssb_control.py:155-165 | along every run the window stays well formed, `win_fresh <= win_ticks`, and every report has `0 < ticks` and `fresh <= ticks` |

## Left out

- Sockets, connect, send/recv, `WSAStartup`, and the Unreal socket subsystem are not modelled. Their results appear only as fields of the observation records, and address parsing is a boolean.
- Threads, atomics, `Async`, `join` and the grace sleep are not modelled. Each loop is modelled on its own; the combined client's data thread and main loop share nothing in the model except the byte counter readings, which are inputs.
- Wall-clock reads, sleeps and the 100 ms / 5 s / 50 ms cadences are not modelled. Nor are the 30 s / 86400 s durations, apart from the constants. A crossed deadline or report boundary is a boolean of the iteration.
- Floating point is not modelled: samples are exact reals. GB/s figures, `/1e9` conversions and the `printf` / f-string formatting are not modelled.
- The `math.ceil` tick-wait estimate in `ssb_control.py` is taken as an observation of each tick. The float32 packing of throttle/steer/brake is not modelled: those fields are opaque 32-bit words.
- The contents of the probe request (a `memcpy` of a `double`) are not modelled. They are never checked.
- CARLA calls, vehicle spawn and control, and `world.tick()` are not modelled.
- `recvfrom(PACKET_SIZE)` truncating an over-long datagram is not modelled. A datagram's bytes are what `recvfrom` returned.
- `examples/ssb_control_core.py`, `ssb_throughput_server.py`, `examples/servers/ssb_latency_server.py` and `examples/unreal/BridgeSender.h` are not part of this model. The first is two threads sharing state under a lock; the two servers are accept/echo/count I/O loops; the header holds only declarations, whose defaults (ports 5050/5051, duration 86400) are constants in `Dispatcher`.
- The outer `while True` / `except` retry of `ssb_combined_server.py`, its command echo loop and its progress printing are not modelled. Only `data_loop` and the final `total_pkts` / `loss_pct` are.
- The run flag `bRunning` is an input on every observation and is not forced to stay down once dropped. So `Dispatcher.StepPreservesWf` proves the weaker invariant: a socket exists, not necessarily connected. The connected-sockets invariant is `Dispatcher.LiveRunConnected`, for runs on which the flag stays up, and `Dispatcher.StopsWithinFourSteps` covers the flag going down.
- `RecvError` / `PeerClosed` distinguish the two failing results of the one-byte `recv` in the standalone handshakes, but the clients treat both alike.
- AchievedHz: only non-negativity of `win_ticks / win_s` is stated, because the rate is float arithmetic printed for humans.
- Streaming.EnduranceCount: states only the bound by the number of passes; its exact value is stated by `Streaming.HostCounters`.
- Stats.Deltas: states only the length; each element is stated by `Stats.DeltaAt`, and the sum by `Stats.DeltasTelescope`.
- The 32-bit frame counter wraps after 2^32 frames (256 TiB, within reach of the 86400 s default run at a few GB/s). The model keeps the server's accounting as written: `Reassembly.InOrderLoss` and `Reassembly.EndToEnd` state that each wrap adds `-2^32` to `lost`. What the counter should have meant past the wrap is not modelled.
- The frame size 65536 and header size 4 are declared once per program: in `Streaming` for the senders, in `Reassembly` for the server. `Reassembly.EndToEnd` relates the two.

## Findings

| source | as written | input that shows it | evidently intended | confidence | as-written member | corrected member |
|---|---|---|---|---|---|---|
| examples/single_agent_v1/ssb_control.py:167-178 | The window report formats `pct(ages_ms,50)` with `:.1f` and calls `max(ages_ms)`, `max(adapter_us)` and `max(wait_ticks)`. All of these fail when the window had no fresh tick: `pct` returns `None` and `max([])` raises. The exception leaves the `try`, so the controller stops. | A 5 s window in which no control packet arrives: one tick, no datagram, `now - win_start >= 5e9`. | Report the window with `fresh=0%` and leave the age, adapter and wait statistics out, then go on ticking. | not executed | Freshness.IdleWindowStopsController | Freshness.Tick |
