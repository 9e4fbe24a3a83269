/** The four latency-probe loops, each reduced to the statistics events one
    iteration produces. An iteration's clock readings and socket results are
    fields of an observation record; the loop is the prefix of observations
    before its exit condition, and its statistics are those of `Stats` run over
    the events of that prefix. */
module LatencyLoops {
  import opened Wrappers
  import opened LittleEndian
  import opened Stats

  function SampleIf(c: bool, x: real): seq<Event>
  {
    if c then [Sample(x)] else []
  }

  function DueIf(c: bool): seq<Event>
  {
    if c then [Due] else []
  }

  /** One iteration's events hold its sample, if any, and nothing else. */
  lemma IterationSamples(c: bool, x: real, due: bool)
    ensures Samples(SampleIf(c, x) + DueIf(due)) == if c then [x] else []
  {
    SamplesAppend(SampleIf(c, x), DueIf(due));
    assert Samples(DueIf(due)) == [] by {
      if due {
        assert Samples([Due]) == Samples([]);
      }
    }
    if c {
      assert Samples([Sample(x)]) == Samples([]) + [x];
    }
  }

  // ---------------------------------------------------------------------------
  // Standalone latency client: blocking echo wait, delta-snapshot window

  const CLIENT_MIN_INIT: real := 1000000000.0
  /** The request and the echo are one 8-byte double. */
  const PROBE_BYTES: int := 8

  /** One pass of the client's loop: whether the 30 s run is over, whether 100 ms
      have passed since the last probe, what `recv` returned for the echo, the
      measured round trip, and whether 5 s have passed since the last report. */
  datatype ClientIteration = ClientIteration(timeUp: bool, probeDue: bool, recvBytes: int,
                                             rtt: real, reportDue: bool)

  /** The sample is recorded only when `recv` returned exactly 8 bytes. */
  predicate ClientAccepts(it: ClientIteration)
  {
    it.probeDue && it.recvBytes == PROBE_BYTES
  }

  /** The statistics events of the loop: the deadline is checked first; a probe
      may add a sample; then the reporting point is reached. */
  function ClientTrace(iters: seq<ClientIteration>): seq<Event>
  {
    if |iters| == 0 || iters[0].timeUp then []
    else
      SampleIf(ClientAccepts(iters[0]), iters[0].rtt) + DueIf(iters[0].reportDue)
      + ClientTrace(iters[1..])
  }

  /** Reference: the round trips of the iterations before the deadline whose
      echo came back in full. */
  function ClientRtts(iters: seq<ClientIteration>): seq<real>
  {
    if |iters| == 0 || iters[0].timeUp then []
    else (if ClientAccepts(iters[0]) then [iters[0].rtt] else []) + ClientRtts(iters[1..])
  }

  /** Number of probes sent: one per iteration that is due, echo or not. */
  function ClientProbes(iters: seq<ClientIteration>): nat
  {
    if |iters| == 0 || iters[0].timeUp then 0
    else (if iters[0].probeDue then 1 else 0) + ClientProbes(iters[1..])
  }

  datatype ClientResult = ClientResult(reports: seq<LatencyReport>, finalAvg: Option<real>,
                                       finalSamples: nat)

  /** The client run: periodic reports from the delta window, then the final line
      `sum / count` over the whole run. With no sample that division is 0/0 and
      prints NaN; the model returns `None` there. */
  function RunClient(iters: seq<ClientIteration>): (r: ClientResult)
    ensures r.finalAvg.Some? <==> r.finalSamples > 0
    ensures forall i :: 0 <= i < |r.reports| ==> r.reports[i].samples >= 1
  {
    var run := RunDelta(CLIENT_MIN_INIT, ClientTrace(iters));
    var w := run.window;
    ClientResult(run.reports, if w.count > 0 then Some(w.sum / (w.count as real)) else None,
                 w.count)
  }

  lemma {:induction false} ClientTraceSamples(iters: seq<ClientIteration>)
    ensures Samples(ClientTrace(iters)) == ClientRtts(iters)
    ensures |ClientRtts(iters)| <= ClientProbes(iters)
  {
    if |iters| > 0 && !iters[0].timeUp {
      var it := iters[0];
      ClientTraceSamples(iters[1..]);
      SamplesAppend(SampleIf(ClientAccepts(it), it.rtt) + DueIf(it.reportDue),
                    ClientTrace(iters[1..]));
      IterationSamples(ClientAccepts(it), it.rtt, it.reportDue);
    }
  }

  /** The client's reports are the window summaries of the samples between
      reporting points; the final line is the mean of every accepted round trip,
      and there are never more samples than probes. */
  lemma ClientSummary(iters: seq<ClientIteration>)
    ensures RunClient(iters).reports == ExpectedDeltaReports(CLIENT_MIN_INIT, ClientTrace(iters))
    ensures RunClient(iters).finalSamples == |ClientRtts(iters)| <= ClientProbes(iters)
    ensures |ClientRtts(iters)| > 0 ==> RunClient(iters).finalAvg == Some(Mean(ClientRtts(iters)))
  {
    DeltaWindowTracksPending(CLIENT_MIN_INIT, ClientTrace(iters));
    DeltaReportsExpected(CLIENT_MIN_INIT, ClientTrace(iters));
    ClientTraceSamples(iters);
  }

  // ---------------------------------------------------------------------------
  // Host-embedded latency test: the same window, a different acceptance rule

  const HOST_MIN_INIT: real := 9999.0

  /** One pass of `RunLatencyTest`: the run flag, whether 30 s are over, whether a
      probe is due, whether `Recv` reported success, the round trip, and whether
      more than 5 s passed since the last report. */
  datatype HostIteration = HostIteration(running: bool, timeUp: bool, probeDue: bool,
                                         recvOk: bool, rtt: real, reportDue: bool)

  /** `Recv` returning true records a sample; the byte count is not checked. */
  predicate HostAccepts(it: HostIteration)
  {
    it.probeDue && it.recvOk
  }

  function HostTrace(iters: seq<HostIteration>): seq<Event>
  {
    if |iters| == 0 || !iters[0].running || iters[0].timeUp then []
    else
      SampleIf(HostAccepts(iters[0]), iters[0].rtt) + DueIf(iters[0].reportDue)
      + HostTrace(iters[1..])
  }

  function HostRtts(iters: seq<HostIteration>): seq<real>
  {
    if |iters| == 0 || !iters[0].running || iters[0].timeUp then []
    else (if HostAccepts(iters[0]) then [iters[0].rtt] else []) + HostRtts(iters[1..])
  }

  lemma {:induction false} HostTraceSamples(iters: seq<HostIteration>)
    ensures Samples(HostTrace(iters)) == HostRtts(iters)
  {
    if |iters| > 0 && iters[0].running && !iters[0].timeUp {
      var it := iters[0];
      HostTraceSamples(iters[1..]);
      SamplesAppend(SampleIf(HostAccepts(it), it.rtt) + DueIf(it.reportDue),
                    HostTrace(iters[1..]));
      IterationSamples(HostAccepts(it), it.rtt, it.reportDue);
    }
  }

  /** `RunLatencyTest` prints one line per reporting point whose window holds at
      least one sample: the mean, min and max of exactly those samples. */
  lemma HostLatencyReports(iters: seq<HostIteration>)
    ensures RunDelta(HOST_MIN_INIT, HostTrace(iters)).reports
            == ExpectedDeltaReports(HOST_MIN_INIT, HostTrace(iters))
    ensures RunDelta(HOST_MIN_INIT, HostTrace(iters)).window.count == |HostRtts(iters)|
    ensures RunDelta(HOST_MIN_INIT, HostTrace(iters)).window.sum == Sum(HostRtts(iters))
  {
    DeltaWindowTracksPending(HOST_MIN_INIT, HostTrace(iters));
    DeltaReportsExpected(HOST_MIN_INIT, HostTrace(iters));
    HostTraceSamples(iters);
  }

  // ---------------------------------------------------------------------------
  // Host-embedded combined test, latency side: bounded echo wait, lifetime stats

  /** One pass of the combined test's probing loop: the run flag, whether the
      configured duration is over, whether 100 ms passed since the last ping,
      whether the command socket still exists, the echo that arrived within the
      50 ms wait (with its round trip), and whether more than 5 s passed since
      the last report. */
  datatype CombinedProbe = CombinedProbe(running: bool, timeUp: bool, pingDue: bool,
                                         socketPresent: bool, echo: Option<real>,
                                         reportDue: bool)

  /** The loop leaves when the flag drops or time is up, and also when a ping is
      due but the command socket is gone. */
  predicate CombinedProbeStops(it: CombinedProbe)
  {
    !it.running || it.timeUp || (it.pingDue && !it.socketPresent)
  }

  function CombinedProbeTrace(iters: seq<CombinedProbe>): seq<Event>
  {
    if |iters| == 0 || CombinedProbeStops(iters[0]) then []
    else
      var it := iters[0];
      SampleIf(it.pingDue && it.echo.Some?, it.echo.GetOr(0.0)) + DueIf(it.reportDue)
      + CombinedProbeTrace(iters[1..])
  }

  datatype CombinedLatencyResult = CombinedLatencyResult(stats: Lifetime,
                                                         reports: seq<LatencyReport>,
                                                         stopCombined: bool)

  /** The probing loop followed by the shutdown. The statistics are never reset:
      each report gives the guarded mean of every sample so far, the final count
      and sum are those of the whole run with `Min <= sample <= Max` for each
      sample, and `bStopCombined = true` is set however the loop ended. */
  function RunCombinedLatency(iters: seq<CombinedProbe>): (r: CombinedLatencyResult)
    ensures var xs := Samples(CombinedProbeTrace(iters));
            && r.reports == ExpectedLifetimeReports(HOST_MIN_INIT, CombinedProbeTrace(iters))
            && r.stats.count == |xs| && r.stats.sum == Sum(xs)
            && forall i :: 0 <= i < |xs| ==> r.stats.min <= xs[i] <= r.stats.max
    ensures r.stopCombined
  {
    var run := RunLifetime(HOST_MIN_INIT, CombinedProbeTrace(iters));
    LifetimeTracksSamples(HOST_MIN_INIT, CombinedProbeTrace(iters));
    LifetimeBounds(HOST_MIN_INIT, CombinedProbeTrace(iters));
    CombinedLatencyResult(run.stats, run.reports, true)
  }

  // ---------------------------------------------------------------------------
  // Standalone combined client, latency side: window/total pair and byte deltas

  /** One pass of the combined client's main loop: whether the duration is over,
      whether 100 ms passed since the last ping, what `send` and `recv` returned
      for the 8-byte ping, its round trip, whether 5 s passed since the last
      report, and the data thread's byte counter read at that report. */
  datatype PairIteration = PairIteration(timeUp: bool, pingDue: bool, sendResult: int,
                                         recvResult: int, rtt: real, reportDue: bool,
                                         bytesNow: nat)

  /** The loop leaves at the deadline, and when a due ping cannot be sent in full. */
  predicate PairStops(it: PairIteration)
  {
    it.timeUp || (it.pingDue && it.sendResult != PROBE_BYTES)
  }

  function PairTrace(iters: seq<PairIteration>): seq<Event>
  {
    if |iters| == 0 || PairStops(iters[0]) then []
    else
      var it := iters[0];
      SampleIf(it.pingDue && it.recvResult == PROBE_BYTES, it.rtt) + DueIf(it.reportDue)
      + PairTrace(iters[1..])
  }

  /** The byte counter readings taken at the reporting points. */
  function ByteReadings(iters: seq<PairIteration>): seq<int>
  {
    if |iters| == 0 || PairStops(iters[0]) then []
    else (if iters[0].reportDue then [iters[0].bytesNow as int] else []) + ByteReadings(iters[1..])
  }

  /** `uint64_t delta_bytes = cur_bytes - last_bytes_snapshot`, wrapping modulo
      2^64 as unsigned arithmetic does, for the snapshot before each reading. */
  function WrappingDeltas(readings: seq<int>): (ds: seq<int>)
    ensures |ds| == |readings|
    ensures forall i :: 0 <= i < |ds| ==> 0 <= ds[i] < U64_LIMIT
  {
    if |readings| == 0 then []
    else
      var p := readings[..|readings| - 1];
      var last := if |p| == 0 then 0 else p[|p| - 1];
      WrappingDeltas(p) + [(readings[|readings| - 1] - last) % U64_LIMIT]
  }

  /** For the 64-bit counter, which only grows, the wrapping subtraction never
      wraps: the reported deltas are the plain differences and they telescope to
      the last snapshot. */
  lemma {:induction false} WrappingDeltasExact(readings: seq<int>)
    requires NonDecreasing(readings)
    requires forall i :: 0 <= i < |readings| ==> 0 <= readings[i] < U64_LIMIT
    ensures WrappingDeltas(readings) == Deltas(readings)
    ensures |readings| > 0 ==> SumInts(WrappingDeltas(readings)) == readings[|readings| - 1]
  {
    if |readings| > 0 {
      var p := readings[..|readings| - 1];
      WrappingDeltasExact(p);
      DeltasTelescope(readings);
    }
  }

  datatype PairClientResult = PairClientResult(stats: WindowTotal, reports: seq<PairReport>,
                                               byteDeltas: seq<int>,
                                               finalAvg: real, finalPings: nat)

  function RunPairClient(iters: seq<PairIteration>): (r: PairClientResult)
    ensures r.finalPings == r.stats.totalCount
    ensures r.finalPings > 0 ==> r.finalAvg * (r.finalPings as real) == r.stats.totalSum
    ensures r.finalPings == 0 ==> r.finalAvg == 0.0
  {
    var run := RunPair(PairTrace(iters));
    PairClientResult(run.stats, run.reports, WrappingDeltas(ByteReadings(iters)),
                     GuardedAverage(run.stats.totalSum, run.stats.totalCount),
                     run.stats.totalCount)
  }

  lemma {:induction false} PairTraceDueCount(iters: seq<PairIteration>)
    ensures |RunPair(PairTrace(iters)).reports| == |ByteReadings(iters)|
  {
    PairReportsPerDue(PairTrace(iters));
    PairDues(iters);
  }

  /** One report per reporting point of the trace. */
  function DueCount(t: seq<Event>): nat
  {
    if |t| == 0 then 0 else DueCount(t[..|t| - 1]) + (if t[|t| - 1].Due? then 1 else 0)
  }

  lemma {:induction false} PairReportsPerDue(t: seq<Event>)
    ensures |RunPair(t).reports| == DueCount(t)
  {
    if |t| > 0 {
      PairReportsPerDue(t[..|t| - 1]);
    }
  }

  lemma {:induction false} DueCountAppend(a: seq<Event>, b: seq<Event>)
    ensures DueCount(a + b) == DueCount(a) + DueCount(b)
    decreases |b|
  {
    if |b| > 0 {
      assert (a + b)[..|a + b| - 1] == a + b[..|b| - 1];
      DueCountAppend(a, b[..|b| - 1]);
    } else {
      assert a + b == a;
    }
  }

  lemma {:induction false} PairDues(iters: seq<PairIteration>)
    ensures DueCount(PairTrace(iters)) == |ByteReadings(iters)|
  {
    if |iters| > 0 && !PairStops(iters[0]) {
      var it := iters[0];
      var s := SampleIf(it.pingDue && it.recvResult == PROBE_BYTES, it.rtt);
      PairDues(iters[1..]);
      DueCountAppend(s + DueIf(it.reportDue), PairTrace(iters[1..]));
      DueCountAppend(s, DueIf(it.reportDue));
      assert DueCount(s) == 0 by {
        if s != [] {
          assert DueCount(s) == DueCount([]) + 0;
        }
      }
      if it.reportDue {
        assert DueCount([Due]) == DueCount([]) + 1;
      }
    }
  }

  /** The combined client's reports: one byte delta per latency report; the
      window is flushed at each report while the totals keep every sample, so
      the flushed windows plus the open one add up to the totals; and when the
      byte counter only grows the deltas are exact and add up to the last
      snapshot. */
  lemma PairClientConsistent(iters: seq<PairIteration>)
    ensures var r := RunPairClient(iters);
            && |r.reports| == |r.byteDeltas|
            && r.stats.windowCount <= r.stats.totalCount
            && FlushedSum(r.reports) + r.stats.windowSum == r.stats.totalSum
            && FlushedCount(r.reports) + r.stats.windowCount == r.stats.totalCount
    ensures var rs := ByteReadings(iters);
            NonDecreasing(rs) && (forall i :: 0 <= i < |rs| ==> rs[i] < U64_LIMIT) && |rs| > 0 ==>
              SumInts(RunPairClient(iters).byteDeltas) == rs[|rs| - 1]
  {
    PairTraceDueCount(iters);
    PairConservation(PairTrace(iters));
    var rs := ByteReadings(iters);
    if NonDecreasing(rs) && (forall i :: 0 <= i < |rs| ==> rs[i] < U64_LIMIT) && |rs| > 0 {
      ReadingsNonNegative(iters);
      WrappingDeltasExact(rs);
    }
  }

  lemma {:induction false} ReadingsNonNegative(iters: seq<PairIteration>)
    ensures forall i :: 0 <= i < |ByteReadings(iters)| ==> 0 <= ByteReadings(iters)[i]
  {
    if |iters| > 0 && !PairStops(iters[0]) {
      ReadingsNonNegative(iters[1..]);
    }
  }
}
