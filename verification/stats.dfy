/** The three latency-statistics policies the clients use, each as a small record
    with `record` and `report` operations, folded over a trace of events: a
    sample arrives, or the reporting interval has elapsed. Each policy is proved
    against a reference definition that only looks at the samples themselves.

    - `DeltaWindow`: running sum and count are never reset; a report covers the
      samples since the previous report by subtracting a snapshot, and resets
      min/max (the standalone latency test of the host-embedded client and the
      standalone latency client).
    - `Lifetime`: nothing is ever reset; every report covers the whole run (the
      latency side of the host-embedded client's combined test).
    - `WindowTotal`: a window sum/count pair beside a total sum/count pair; a
      report resets only the window (the standalone combined client).

    Samples are exact reals: floating-point rounding is not modelled. */
module Stats {
  import opened Wrappers

  datatype Event = Sample(x: real) | Due

  // ---------------------------------------------------------------------------
  // Reference definitions over a list of samples

  function Sum(xs: seq<real>): real
  {
    if |xs| == 0 then 0.0 else Sum(xs[..|xs| - 1]) + xs[|xs| - 1]
  }

  function Min(a: real, b: real): real { if a <= b then a else b }

  function Max(a: real, b: real): real { if a >= b then a else b }

  /** The running minimum of `xs`, starting from the sentinel `init`. */
  function MinOf(init: real, xs: seq<real>): real
  {
    if |xs| == 0 then init else Min(MinOf(init, xs[..|xs| - 1]), xs[|xs| - 1])
  }

  /** The running maximum of `xs`, starting from the sentinel `init`. */
  function MaxOf(init: real, xs: seq<real>): real
  {
    if |xs| == 0 then init else Max(MaxOf(init, xs[..|xs| - 1]), xs[|xs| - 1])
  }

  /** The arithmetic mean, or 0 for no samples: the `count ? sum / count : 0.0`
      guard of the reports. */
  function Mean(xs: seq<real>): (m: real)
    ensures |xs| > 0 ==> m * (|xs| as real) == Sum(xs)
    ensures |xs| == 0 ==> m == 0.0
  {
    GuardedAverage(Sum(xs), |xs|)
  }

  /** `count > 0 ? sum / count : 0.0`. */
  function GuardedAverage(sum: real, count: nat): (a: real)
    ensures count > 0 ==> a * (count as real) == sum
    ensures count == 0 ==> a == 0.0
  {
    if count > 0 then sum / (count as real) else 0.0
  }

  /** The samples in a trace, in order. */
  function Samples(t: seq<Event>): (xs: seq<real>)
    ensures |xs| <= |t|
  {
    if |t| == 0 then []
    else match t[|t| - 1]
      case Sample(x) => Samples(t[..|t| - 1]) + [x]
      case Due => Samples(t[..|t| - 1])
  }

  /** Samples of a concatenated trace are the samples of its parts. */
  lemma {:induction false} SamplesAppend(a: seq<Event>, b: seq<Event>)
    ensures Samples(a + b) == Samples(a) + Samples(b)
    decreases |b|
  {
    if |b| > 0 {
      var b' := b[..|b| - 1];
      assert (a + b)[..|a + b| - 1] == a + b';
      assert (a + b)[|a + b| - 1] == b[|b| - 1];
      SamplesAppend(a, b');
      match b[|b| - 1]
      case Sample(x) =>
        assert Samples(a + b) == Samples(a + b') + [x];
        assert Samples(b) == Samples(b') + [x];
        assert Samples(a) + Samples(b') + [x] == Samples(a) + (Samples(b') + [x]);
      case Due =>
        assert Samples(a + b) == Samples(a + b');
        assert Samples(b) == Samples(b');
    } else {
      assert a + b == a;
    }
  }

  /** The samples after the last reporting point of a trace. */
  function Pending(t: seq<Event>): (xs: seq<real>)
    ensures |xs| <= |t|
  {
    if |t| == 0 then []
    else match t[|t| - 1]
      case Sample(x) => Pending(t[..|t| - 1]) + [x]
      case Due => []
  }

  /** The running minimum lies at or below the sentinel and every sample, and is
      one of them. */
  lemma {:induction false} MinOfBounds(init: real, xs: seq<real>)
    ensures MinOf(init, xs) <= init
    ensures forall i :: 0 <= i < |xs| ==> MinOf(init, xs) <= xs[i]
    ensures MinOf(init, xs) == init || MinOf(init, xs) in xs
  {
    if |xs| > 0 {
      MinOfBounds(init, xs[..|xs| - 1]);
    }
  }

  /** The running maximum lies at or above the sentinel and every sample, and is
      one of them. */
  lemma {:induction false} MaxOfBounds(init: real, xs: seq<real>)
    ensures init <= MaxOf(init, xs)
    ensures forall i :: 0 <= i < |xs| ==> xs[i] <= MaxOf(init, xs)
    ensures MaxOf(init, xs) == init || MaxOf(init, xs) in xs
  {
    if |xs| > 0 {
      MaxOfBounds(init, xs[..|xs| - 1]);
    }
  }

  /** What a latency report prints: average, min, max and number of samples. */
  datatype LatencyReport = LatencyReport(avg: real, min: real, max: real, samples: nat)

  // ---------------------------------------------------------------------------
  // Policy 1: delta-snapshot window with min/max reset at each report

  datatype DeltaWindow = DeltaWindow(sum: real, count: nat, min: real, max: real,
                                     lastSum: real, lastCount: nat)

  /** The initial values: `Sum = 0, Min = minInit, Max = 0, LastSum = 0, Count =
      0, LastCount = 0`. */
  function NewDeltaWindow(minInit: real): DeltaWindow
  {
    DeltaWindow(0.0, 0, minInit, 0.0, 0.0, 0)
  }

  /** `Sum += L; Min = min(Min, L); Max = max(Max, L); Count++`. */
  function RecordDelta(w: DeltaWindow, x: real): (r: DeltaWindow)
    ensures r.count == w.count + 1 && r.sum == w.sum + x
    ensures r.min <= x <= r.max
    ensures r.lastSum == w.lastSum && r.lastCount == w.lastCount
  {
    w.(sum := w.sum + x, count := w.count + 1, min := Min(w.min, x), max := Max(w.max, x))
  }

  datatype Flushed<W> = Flushed(report: Option<LatencyReport>, next: W)

  /** The reporting point: a report fires only when `Count > LastCount`; it prints
      `(Sum - LastSum) / (Count - LastCount)`, `Min`, `Max` and the sample count,
      then snapshots `LastSum = Sum, LastCount = Count` and resets `Min`, `Max`. */
  function FlushDelta(w: DeltaWindow, minInit: real): (f: Flushed<DeltaWindow>)
    ensures f.report.Some? <==> w.count > w.lastCount
    ensures f.report.Some? ==> f.report.value.samples >= 1
    ensures f.report.None? ==> f.next == w
    ensures f.report.Some? ==> f.next == w.(lastSum := w.sum, lastCount := w.count,
                                            min := minInit, max := 0.0)
  {
    if w.count > w.lastCount then
      var n := w.count - w.lastCount;
      Flushed(Some(LatencyReport((w.sum - w.lastSum) / (n as real), w.min, w.max, n)),
              w.(lastSum := w.sum, lastCount := w.count, min := minInit, max := 0.0))
    else
      Flushed(None, w)
  }

  datatype DeltaRun = DeltaRun(window: DeltaWindow, reports: seq<LatencyReport>)

  /** The accumulator after a trace. */
  function RunDelta(minInit: real, t: seq<Event>): (r: DeltaRun)
    ensures r.window.lastCount <= r.window.count
    ensures forall i :: 0 <= i < |r.reports| ==> r.reports[i].samples >= 1
  {
    if |t| == 0 then DeltaRun(NewDeltaWindow(minInit), [])
    else
      var prev := RunDelta(minInit, t[..|t| - 1]);
      match t[|t| - 1]
      case Sample(x) => DeltaRun(RecordDelta(prev.window, x), prev.reports)
      case Due =>
        var f := FlushDelta(prev.window, minInit);
        DeltaRun(f.next, prev.reports + f.report.ToSeq())
  }

  /** The report a window of samples should produce: their mean, the running
      min/max from the sentinels, and their number. */
  function WindowSummary(minInit: real, xs: seq<real>): LatencyReport
  {
    LatencyReport(Mean(xs), MinOf(minInit, xs), MaxOf(0.0, xs), |xs|)
  }

  /** Reference: one summary per reporting point whose window is not empty. */
  function ExpectedDeltaReports(minInit: real, t: seq<Event>): seq<LatencyReport>
  {
    if |t| == 0 then []
    else
      var p := t[..|t| - 1];
      match t[|t| - 1]
      case Sample(_) => ExpectedDeltaReports(minInit, p)
      case Due =>
        ExpectedDeltaReports(minInit, p)
        + (if |Pending(p)| > 0 then [WindowSummary(minInit, Pending(p))] else [])
  }

  /** The snapshot arithmetic tracks exactly the samples since the last report:
      `Sum - LastSum` and `Count - LastCount` are their sum and number, `Min`/`Max`
      their running extremes; `Sum`/`Count` cover the whole run. */
  lemma {:induction false} DeltaWindowTracksPending(minInit: real, t: seq<Event>)
    ensures var w := RunDelta(minInit, t).window;
            && w.sum - w.lastSum == Sum(Pending(t))
            && w.count - w.lastCount == |Pending(t)|
            && w.min == MinOf(minInit, Pending(t))
            && w.max == MaxOf(0.0, Pending(t))
            && w.sum == Sum(Samples(t))
            && w.count == |Samples(t)|
  {
    if |t| > 0 {
      var p := t[..|t| - 1];
      DeltaWindowTracksPending(minInit, p);
      match t[|t| - 1]
      case Sample(x) =>
        assert Pending(t)[..|Pending(t)| - 1] == Pending(p);
        assert Samples(t)[..|Samples(t)| - 1] == Samples(p);
      case Due =>
    }
  }

  /** Every report is the mean, min and max of exactly the samples since the
      previous report, and a reporting point with no new sample prints nothing. */
  lemma {:induction false} DeltaReportsExpected(minInit: real, t: seq<Event>)
    ensures RunDelta(minInit, t).reports == ExpectedDeltaReports(minInit, t)
  {
    if |t| > 0 {
      var p := t[..|t| - 1];
      DeltaReportsExpected(minInit, p);
      match t[|t| - 1]
      case Sample(x) =>
      case Due =>
        DeltaWindowTracksPending(minInit, p);
        FlushSummarises(RunDelta(minInit, p).window, minInit, Pending(p));
    }
  }

  /** A reporting point over a window that tracks `xs` prints the summary of
      `xs`, or nothing when `xs` is empty. */
  lemma FlushSummarises(w: DeltaWindow, minInit: real, xs: seq<real>)
    requires w.lastCount <= w.count
    requires w.sum - w.lastSum == Sum(xs) && w.count - w.lastCount == |xs|
    requires w.min == MinOf(minInit, xs) && w.max == MaxOf(0.0, xs)
    ensures FlushDelta(w, minInit).report.ToSeq()
            == if |xs| > 0 then [WindowSummary(minInit, xs)] else []
  {
    if |xs| > 0 {
      var n := w.count - w.lastCount;
      assert (w.sum - w.lastSum) / (n as real) == GuardedAverage(Sum(xs), |xs|);
    }
  }

  /** Every report of the delta window covers at least one sample, and its min and
      max bound every sample of its window. */
  lemma DeltaReportBoundsWindow(minInit: real, xs: seq<real>)
    requires |xs| > 0
    ensures WindowSummary(minInit, xs).samples >= 1
    ensures forall i :: 0 <= i < |xs| ==>
              WindowSummary(minInit, xs).min <= xs[i] <= WindowSummary(minInit, xs).max
    ensures (exists i :: 0 <= i < |xs| && xs[i] <= minInit) ==>
              WindowSummary(minInit, xs).min in xs
  {
    MinOfBounds(minInit, xs);
    MaxOfBounds(0.0, xs);
  }

  // ---------------------------------------------------------------------------
  // Policy 2: lifetime statistics, never reset

  datatype Lifetime = Lifetime(sum: real, count: nat, min: real, max: real)

  function NewLifetime(minInit: real): Lifetime
  {
    Lifetime(0.0, 0, minInit, 0.0)
  }

  /** `Sum += L; Min = min(Min, L); Max = max(Max, L); Count++`. */
  function RecordLifetime(s: Lifetime, x: real): (r: Lifetime)
    ensures r.count == s.count + 1 && r.sum == s.sum + x
    ensures r.min <= x <= r.max
  {
    Lifetime(s.sum + x, s.count + 1, Min(s.min, x), Max(s.max, x))
  }

  /** The report prints `Count > 0 ? Sum / Count : 0`, `Min`, `Max`, `Count` and
      resets nothing. */
  function ReportLifetime(s: Lifetime): (r: LatencyReport)
    ensures r.samples == s.count
    ensures s.count > 0 ==> r.avg * (s.count as real) == s.sum
    ensures s.count == 0 ==> r.avg == 0.0
  {
    LatencyReport(GuardedAverage(s.sum, s.count), s.min, s.max, s.count)
  }

  datatype LifetimeRun = LifetimeRun(stats: Lifetime, reports: seq<LatencyReport>)

  function RunLifetime(minInit: real, t: seq<Event>): LifetimeRun
  {
    if |t| == 0 then LifetimeRun(NewLifetime(minInit), [])
    else
      var prev := RunLifetime(minInit, t[..|t| - 1]);
      match t[|t| - 1]
      case Sample(x) => LifetimeRun(RecordLifetime(prev.stats, x), prev.reports)
      case Due => LifetimeRun(prev.stats, prev.reports + [ReportLifetime(prev.stats)])
  }

  /** Reference: every reporting point summarises all samples so far. */
  function ExpectedLifetimeReports(minInit: real, t: seq<Event>): seq<LatencyReport>
  {
    if |t| == 0 then []
    else
      var p := t[..|t| - 1];
      match t[|t| - 1]
      case Sample(_) => ExpectedLifetimeReports(minInit, p)
      case Due => ExpectedLifetimeReports(minInit, p) + [WindowSummary(minInit, Samples(p))]
  }

  /** The lifetime record is the summary of every sample of the run, and each
      report summarises all samples before it. */
  lemma {:induction false} LifetimeTracksSamples(minInit: real, t: seq<Event>)
    ensures var s := RunLifetime(minInit, t).stats;
            && s.sum == Sum(Samples(t))
            && s.count == |Samples(t)|
            && s.min == MinOf(minInit, Samples(t))
            && s.max == MaxOf(0.0, Samples(t))
    ensures RunLifetime(minInit, t).reports == ExpectedLifetimeReports(minInit, t)
  {
    if |t| > 0 {
      var p := t[..|t| - 1];
      LifetimeTracksSamples(minInit, p);
      match t[|t| - 1]
      case Sample(x) =>
        assert Samples(t)[..|Samples(t)| - 1] == Samples(p);
      case Due =>
    }
  }

  /** `Min <= every sample <= Max` over the whole run. */
  lemma LifetimeBounds(minInit: real, t: seq<Event>)
    ensures forall i :: 0 <= i < |Samples(t)| ==>
              RunLifetime(minInit, t).stats.min <= Samples(t)[i] <= RunLifetime(minInit, t).stats.max
  {
    LifetimeTracksSamples(minInit, t);
    MinOfBounds(minInit, Samples(t));
    MaxOfBounds(0.0, Samples(t));
  }

  // ---------------------------------------------------------------------------
  // Policy 3: window/total pair, only the window is reset

  datatype WindowTotal = WindowTotal(windowSum: real, windowCount: nat,
                                     totalSum: real, totalCount: nat)

  /** What the combined client prints every interval: window average and ping
      count, total average and ping count. The window's sum is not printed; it is
      kept so that `PairConservation` can add the flushed windows up. */
  datatype PairReport = PairReport(windowAvg: real, windowCount: nat, windowSum: real,
                                   totalAvg: real, totalCount: nat)

  /** Each RTT sample is added to both the window and the totals, so the part
      of the totals already flushed (totals minus window) is left as it was, and
      a window no larger than the totals stays so. */
  function RecordPair(s: WindowTotal, x: real): (r: WindowTotal)
    ensures r.totalSum - r.windowSum == s.totalSum - s.windowSum
    ensures r.totalCount - r.windowCount == s.totalCount - s.windowCount
    ensures s.windowCount <= s.totalCount ==> r.windowCount <= r.totalCount
    ensures r.windowSum == s.windowSum + x && r.windowCount == s.windowCount + 1
  {
    WindowTotal(s.windowSum + x, s.windowCount + 1, s.totalSum + x, s.totalCount + 1)
  }

  /** The report uses guarded averages for both halves, then resets only the
      window. */
  function FlushPair(s: WindowTotal): (f: (PairReport, WindowTotal))
    ensures f.1 == s.(windowSum := 0.0, windowCount := 0)
    ensures f.0.windowCount == s.windowCount && f.0.totalCount == s.totalCount
    ensures f.0.windowSum == s.windowSum
    ensures s.windowCount > 0 ==> f.0.windowAvg * (s.windowCount as real) == s.windowSum
    ensures s.windowCount == 0 ==> f.0.windowAvg == 0.0
    ensures s.totalCount > 0 ==> f.0.totalAvg * (s.totalCount as real) == s.totalSum
    ensures s.totalCount == 0 ==> f.0.totalAvg == 0.0
  {
    (PairReport(GuardedAverage(s.windowSum, s.windowCount), s.windowCount, s.windowSum,
                GuardedAverage(s.totalSum, s.totalCount), s.totalCount),
     s.(windowSum := 0.0, windowCount := 0))
  }

  datatype PairRun = PairRun(stats: WindowTotal, reports: seq<PairReport>)

  function RunPair(t: seq<Event>): PairRun
  {
    if |t| == 0 then PairRun(WindowTotal(0.0, 0, 0.0, 0), [])
    else
      var prev := RunPair(t[..|t| - 1]);
      match t[|t| - 1]
      case Sample(x) => PairRun(RecordPair(prev.stats, x), prev.reports)
      case Due =>
        var f := FlushPair(prev.stats);
        PairRun(f.1, prev.reports + [f.0])
  }

  function FlushedSum(rs: seq<PairReport>): real
  {
    if |rs| == 0 then 0.0 else FlushedSum(rs[..|rs| - 1]) + rs[|rs| - 1].windowSum
  }

  function FlushedCount(rs: seq<PairReport>): nat
  {
    if |rs| == 0 then 0 else FlushedCount(rs[..|rs| - 1]) + rs[|rs| - 1].windowCount
  }

  /** The window holds exactly the samples since the last report and the totals
      hold every sample of the run. */
  lemma {:induction false} PairTracks(t: seq<Event>)
    ensures var r := RunPair(t);
            && r.stats.windowSum == Sum(Pending(t))
            && r.stats.windowCount == |Pending(t)|
            && r.stats.totalSum == Sum(Samples(t))
            && r.stats.totalCount == |Samples(t)|
  {
    if |t| > 0 {
      var p := t[..|t| - 1];
      PairTracks(p);
      match t[|t| - 1]
      case Sample(x) =>
        assert Pending(t)[..|Pending(t)| - 1] == Pending(p);
        assert Samples(t)[..|Samples(t)| - 1] == Samples(p);
      case Due =>
    }
  }

  /** No sample is lost or counted twice: the flushed window sums and counts
      plus the current window add up to the totals, so the window count never
      exceeds the total count. */
  lemma {:induction false} PairConservation(t: seq<Event>)
    ensures var r := RunPair(t);
            && FlushedSum(r.reports) + r.stats.windowSum == r.stats.totalSum
            && FlushedCount(r.reports) + r.stats.windowCount == r.stats.totalCount
            && r.stats.windowCount <= r.stats.totalCount
  {
    if |t| > 0 {
      var p := t[..|t| - 1];
      PairConservation(p);
      match t[|t| - 1]
      case Sample(x) =>
      case Due =>
        var r := RunPair(t);
        assert r.reports[..|r.reports| - 1] == RunPair(p).reports;
    }
  }

  // ---------------------------------------------------------------------------
  // Byte-count snapshots: `delta = cur - last; last = cur`

  /** The per-report byte deltas for successive readings of a byte counter,
      starting from a snapshot of 0. */
  function Deltas(readings: seq<int>): (ds: seq<int>)
    ensures |ds| == |readings|
  {
    if |readings| == 0 then []
    else
      var p := readings[..|readings| - 1];
      var last := if |p| == 0 then 0 else p[|p| - 1];
      Deltas(p) + [readings[|readings| - 1] - last]
  }

  function SumInts(xs: seq<int>): int
  {
    if |xs| == 0 then 0 else SumInts(xs[..|xs| - 1]) + xs[|xs| - 1]
  }

  /** Sum of a concatenation. */
  lemma {:induction false} SumIntsAppend(a: seq<int>, b: seq<int>)
    ensures SumInts(a + b) == SumInts(a) + SumInts(b)
    decreases |b|
  {
    if |b| > 0 {
      assert (a + b)[..|a + b| - 1] == a + b[..|b| - 1];
      SumIntsAppend(a, b[..|b| - 1]);
    } else {
      assert a + b == a;
    }
  }

  /** The deltas telescope: together they add up to the last snapshot. */
  lemma {:induction false} DeltasTelescope(readings: seq<int>)
    requires |readings| > 0
    ensures SumInts(Deltas(readings)) == readings[|readings| - 1]
  {
    var p := readings[..|readings| - 1];
    assert Deltas(readings)[..|readings| - 1] == Deltas(p);
    if |p| > 0 {
      DeltasTelescope(p);
    }
  }

  predicate NonDecreasing(xs: seq<int>)
  {
    forall i, j :: 0 <= i <= j < |xs| ==> xs[i] <= xs[j]
  }

  /** For a counter that only grows from 0, every delta is non-negative. */
  lemma DeltasNonNegative(readings: seq<int>)
    requires NonDecreasing(readings)
    requires |readings| > 0 ==> 0 <= readings[0]
    ensures forall i :: 0 <= i < |readings| ==> Deltas(readings)[i] >= 0
  {
    forall i | 0 <= i < |readings|
      ensures Deltas(readings)[i] >= 0
    {
      DeltaAt(readings, i);
    }
  }

  /** Delta `i` is reading `i` minus the reading before it (0 before the first). */
  lemma {:induction false} DeltaAt(readings: seq<int>, i: nat)
    requires i < |readings|
    ensures Deltas(readings)[i] == readings[i] - (if i == 0 then 0 else readings[i - 1])
  {
    var p := readings[..|readings| - 1];
    if i < |readings| - 1 {
      DeltaAt(p, i);
    }
  }
}
