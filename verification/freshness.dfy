/** The controller's per-tick logic: drain every datagram waiting on the UDP
    socket keeping only the last one, apply it when its sequence number differs
    from the last one applied ("fresh"), count ticks and fresh ticks, and every
    5 seconds report the window's statistics and start a new window.

    Clock readings, the adapter's timing and the tick-wait estimate (a float
    `ceil`) are fields of the tick's observation; the simulator calls are left
    out. */
module Freshness {
  import opened Wrappers
  import opened LittleEndian
  import ControlPacket
  import Percentile

  /** `WINDOW_S * 1e9`: the window length in nanoseconds. */
  const WINDOW_NS: int := 5_000_000_000
  const NS_PER_MS: real := 1_000_000.0

  /** One `recvfrom`: the bytes it returned and the clock right after it. */
  datatype Datagram = Datagram(bytes: seq<byte>, recvNs: int)

  /** `latest`: an unpacked packet and its receive time. */
  datatype Arrival = Arrival(packet: ControlPacket.Packet, recvNs: int)

  /** The drain's end: the `struct.error` of a datagram that is not 24 bytes
      long (nothing catches it, so the controller stops), or the latest packet
      read (None when the socket was empty). */
  datatype Drained = DrainCrash | Drained(latest: Option<Arrival>)

  function ArrivalOf(d: Datagram): Option<Arrival>
  {
    match ControlPacket.Unpack(d.bytes)
    case None => None
    case Some(p) => Some(Arrival(p, d.recvNs))
  }

  /** The drain loop, from the `latest` found so far: each datagram is unpacked
      and replaces `latest`; the first malformed one ends the controller. */
  function DrainFrom(latest: Option<Arrival>, ds: seq<Datagram>): (r: Drained)
    ensures r.DrainCrash? <==> exists i :: 0 <= i < |ds| && |ds[i].bytes| != ControlPacket.PACKET_SIZE
    ensures r.Drained? && |ds| == 0 ==> r.latest == latest
    ensures r.Drained? && |ds| > 0 ==> r.latest == ArrivalOf(ds[|ds| - 1]) && r.latest.Some?
    decreases |ds|
  {
    if |ds| == 0 then Drained(latest)
    else
      match ArrivalOf(ds[0])
      case None => DrainCrash
      case Some(a) =>
        var r := DrainFrom(Some(a), ds[1..]);
        assert forall i :: 1 <= i < |ds| ==> ds[i] == ds[1..][i - 1];
        r
  }

  /** One tick's drain, starting from `latest = None`. */
  function Drain(ds: seq<Datagram>): Drained
  {
    DrainFrom(None, ds)
  }

  /** Draining keeps only the last datagram read: whatever came before it, the
      tick sees the same packet as if the last datagram had arrived alone. */
  lemma DrainKeepsLast(earlier: seq<Datagram>, last: Datagram)
    requires forall i :: 0 <= i < |earlier| ==> |earlier[i].bytes| == ControlPacket.PACKET_SIZE
    requires |last.bytes| == ControlPacket.PACKET_SIZE
    ensures Drain(earlier + [last]) == Drain([last])
    ensures Drain([last]).latest == Some(Arrival(ControlPacket.Unpack(last.bytes).value, last.recvNs))
  {
    var ds := earlier + [last];
    assert ds[|ds| - 1] == last;
    assert forall i :: 0 <= i < |ds| ==> |ds[i].bytes| == ControlPacket.PACKET_SIZE;
    assert [last][0] == last;
  }

  /** A tick is fresh iff a packet was drained and either nothing has been
      applied yet or its sequence number differs from the last one applied. */
  predicate IsFresh(latest: Option<Arrival>, lastApplied: Option<int>)
  {
    latest.Some? && (lastApplied.None? || latest.value.packet.sequence != lastApplied.value)
  }

  // ---------------------------------------------------------------------------
  // The window

  /** The window's counters and sample lists: `win_start_ns`, `win_ticks`,
      `win_fresh`, `ages_ms`, `adapter_us`, `wait_ticks`, `max_tick_gap_ms`. */
  datatype Window = Window(startNs: int, ticks: nat, freshTicks: nat, agesMs: seq<real>,
                           adapterUs: seq<real>, waitTicks: seq<int>, maxGapMs: real)

  /** The window after the reset: every counter and list empty, the largest
      tick gap back to 0.0, starting at `startNs`. */
  function NewWindow(startNs: int): (w: Window)
    ensures w.ticks == 0 && w.freshTicks == 0 && w.startNs == startNs
    ensures |w.agesMs| == 0 && |w.adapterUs| == 0 && |w.waitTicks| == 0
    ensures w.maxGapMs == 0.0 && WindowWf(w)
  {
    Window(startNs, 0, 0, [], [], [], 0.0)
  }

  /** One sample of each list per fresh tick, and no more fresh ticks than
      ticks. */
  ghost predicate WindowWf(w: Window)
  {
    && w.freshTicks <= w.ticks
    && |w.agesMs| == w.freshTicks
    && |w.adapterUs| == w.freshTicks
    && |w.waitTicks| == w.freshTicks
    && w.maxGapMs >= 0.0
  }

  /** The controller's state across ticks. */
  datatype Controller = Controller(lastApplied: Option<int>, prevTickNs: Option<int>, win: Window)

  /** The metrics state before the first tick: nothing applied, no previous
      tick, and an empty window starting now. */
  function Start(nowNs: int): (c: Controller)
    ensures WindowWf(c.win) && c.lastApplied.None? && c.prevTickNs.None?
    ensures c.win.ticks == 0 && c.win.freshTicks == 0 && c.win.startNs == nowNs
    ensures c.win.maxGapMs == 0.0 && |c.win.agesMs| == 0
  {
    Controller(None, None, NewWindow(nowNs))
  }

  /** What one tick observes: the clock at its start, the datagrams drained,
      the adapter's time in microseconds and the tick-wait estimate (used only
      on a fresh tick), and the clock after the world tick. */
  datatype TickObs = TickObs(tickStartNs: int, datagrams: seq<Datagram>, adapterUs: real,
                             waitTicks: int, nowNs: int)

  function MaxReal(a: real, b: real): real { if a >= b then a else b }

  /** Everything a tick does before the window check: the gap to the previous
      tick, the drain, the freshness decision and its samples, and the tick
      count. None when the drain crashed. */
  function Advance(c: Controller, o: TickObs): (r: Option<Controller>)
    ensures r.None? <==> Drain(o.datagrams).DrainCrash?
    ensures r.Some? ==> r.value.prevTickNs == Some(o.tickStartNs)
    ensures r.Some? ==> r.value.win.ticks == c.win.ticks + 1
    ensures r.Some? ==> r.value.win.startNs == c.win.startNs
    ensures r.Some? ==> var isFresh := IsFresh(Drain(o.datagrams).latest, c.lastApplied);
                        && r.value.win.freshTicks == c.win.freshTicks + (if isFresh then 1 else 0)
                        && (isFresh ==> r.value.lastApplied == Some(Drain(o.datagrams).latest.value.packet.sequence))
                        && (!isFresh ==> r.value.lastApplied == c.lastApplied)
    ensures r.Some? && WindowWf(c.win) ==> WindowWf(r.value.win)
    ensures r.Some? ==> r.value.win.maxGapMs >= c.win.maxGapMs
  {
    var gapMax := match c.prevTickNs
      case Some(prev) => MaxReal(c.win.maxGapMs, (o.tickStartNs - prev) as real / NS_PER_MS)
      case None => c.win.maxGapMs;
    match Drain(o.datagrams)
    case DrainCrash => None
    case Drained(latest) =>
      var w := c.win.(maxGapMs := gapMax);
      if IsFresh(latest, c.lastApplied) then
        var a := latest.value;
        var w' := w.(freshTicks := w.freshTicks + 1,
                     agesMs := w.agesMs + [(o.tickStartNs - a.recvNs) as real / NS_PER_MS],
                     waitTicks := w.waitTicks + [o.waitTicks],
                     adapterUs := w.adapterUs + [o.adapterUs],
                     ticks := w.ticks + 1);
        Some(Controller(Some(a.packet.sequence), Some(o.tickStartNs), w'))
      else
        Some(Controller(c.lastApplied, Some(o.tickStartNs), w.(ticks := w.ticks + 1)))
  }

  /** Re-sending the packet last applied is not fresh: a tick that drains only
      an already-applied sequence number leaves the fresh count and the applied
      sequence number alone. */
  lemma RepeatIsNotFresh(c: Controller, o: TickObs)
    requires Drain(o.datagrams).Drained? && Drain(o.datagrams).latest.Some?
    requires c.lastApplied == Some(Drain(o.datagrams).latest.value.packet.sequence)
    ensures Advance(c, o).Some?
    ensures Advance(c, o).value.win.freshTicks == c.win.freshTicks
    ensures Advance(c, o).value.lastApplied == c.lastApplied
  {
  }

  /** `fresh_pct = 100.0 * win_fresh / max(1, win_ticks)`. */
  function FreshPercent(freshTicks: nat, ticks: nat): (pct: real)
    requires freshTicks <= ticks
    ensures 0.0 <= pct <= 100.0
    ensures freshTicks == 0 ==> pct == 0.0
    ensures 0 < freshTicks == ticks ==> pct == 100.0
  {
    var denominator := if ticks > 1 then ticks else 1;
    RatioBounds(freshTicks as real, denominator as real);
    100.0 * ((freshTicks as real) / (denominator as real))
  }

  /** A share of a positive whole lies between 0 and 1. */
  lemma RatioBounds(part: real, whole: real)
    requires 0.0 <= part <= whole && whole > 0.0
    ensures 0.0 <= part / whole <= 1.0
    ensures part == 0.0 ==> part / whole == 0.0
    ensures part == whole ==> part / whole == 1.0
  {
    var r := part / whole;
    assert r * whole == part;
    assert (1.0 - r) * whole == whole - part;
  }

  /** With at least one tick, `max(1, win_ticks)` is `win_ticks`: the
      percentage is exactly the share of fresh ticks. */
  lemma FreshPercentExact(freshTicks: nat, ticks: nat)
    requires freshTicks <= ticks && ticks > 0
    ensures FreshPercent(freshTicks, ticks) * (ticks as real) == 100.0 * (freshTicks as real)
  {
  }

  /** Python's `max` over a non-empty list; None for the empty list, where
      Python raises `ValueError`. */
  function Largest(xs: seq<real>): (m: Option<real>)
    ensures m.None? <==> |xs| == 0
    ensures m.Some? ==> m.value in xs && forall i :: 0 <= i < |xs| ==> xs[i] <= m.value
  {
    if |xs| == 0 then None
    else
      var init, last := xs[..|xs| - 1], xs[|xs| - 1];
      var rest := Largest(init);
      var m := if rest.None? || last > rest.value then last else rest.value;
      assert forall i :: 0 <= i < |xs| ==> xs[i] <= m by {
        forall i | 0 <= i < |xs|
          ensures xs[i] <= m
        {
          if i < |xs| - 1 {
            assert xs[i] == init[i];
          }
        }
      }
      assert m in xs by {
        if rest.Some? && m == rest.value {
          var j :| 0 <= j < |init| && init[j] == m;
          assert xs[j] == init[j];
        }
      }
      Some(m)
  }

  /** `max(wait_ticks)` on the integer estimates: the same maximum, taken over
      the estimates as reals. */
  function LargestInt(xs: seq<int>): (m: Option<int>)
    ensures m.None? <==> |xs| == 0
    ensures m.Some? ==> m.value in xs && forall i :: 0 <= i < |xs| ==> xs[i] <= m.value
  {
    var rs := seq(|xs|, i requires 0 <= i < |xs| => xs[i] as real);
    match Largest(rs)
    case None => None
    case Some(v) =>
      assert v.Floor in xs by {
        var j :| 0 <= j < |rs| && rs[j] == v;
        assert xs[j] == v.Floor;
      }
      assert forall i :: 0 <= i < |xs| ==> xs[i] <= v.Floor by {
        forall i | 0 <= i < |xs|
          ensures xs[i] <= v.Floor
        {
          assert rs[i] <= v;
        }
      }
      Some(v.Floor)
  }

  /** `pct(values, p)` for a non-negative `p`, None for an empty list. */
  function PctOf(values: seq<real>, p: nat): (r: Option<real>)
    ensures r.Some? <==> |values| > 0
    ensures r.Some? ==> r.value in values
  {
    var pick := Percentile.Pct(values, p);
    if pick.Picked? then Some(pick.v) else None
  }

  /** One window report: its length in nanoseconds, its tick and fresh-tick
      counts, the command-age percentiles and maximum, the adapter-time 95th
      percentile and maximum, the largest tick-wait estimate and the largest
      gap between ticks. A statistic over an empty list is None. The printed
      rate and percentage are functions of the counts. */
  datatype WindowReport = WindowReport(windowNs: int, ticks: nat, freshTicks: nat,
                                       ageP50: Option<real>, ageP95: Option<real>, ageMax: Option<real>,
                                       adapterP95: Option<real>, adapterMax: Option<real>,
                                       maxWait: Option<int>, maxGapMs: real)
  {
    /** `achieved_hz = win_ticks / win_s`. */
    function AchievedHz(): (hz: real)
      requires windowNs > 0
      ensures hz >= 0.0
    {
      (ticks as real) / ((windowNs as real) / 1_000_000_000.0)
    }

    /** The report's `fresh_pct`. */
    function FreshPct(): (pct: real)
      requires freshTicks <= ticks
      ensures 0.0 <= pct <= 100.0
    {
      FreshPercent(freshTicks, ticks)
    }
  }

  /** The report with every statistic over an empty list left out. */
  function Report(w: Window, nowNs: int): (r: WindowReport)
    requires WindowWf(w) && nowNs - w.startNs >= WINDOW_NS
    ensures r.ticks == w.ticks && r.freshTicks == w.freshTicks && r.windowNs == nowNs - w.startNs
    ensures r.maxGapMs == w.maxGapMs
  {
    WindowReport(nowNs - w.startNs, w.ticks, w.freshTicks,
                 PctOf(w.agesMs, 50), PctOf(w.agesMs, 95), Largest(w.agesMs),
                 PctOf(w.adapterUs, 95), Largest(w.adapterUs),
                 LargestInt(w.waitTicks), w.maxGapMs)
  }

  /** Each statistic of a report is present iff the window had a fresh tick. */
  lemma ReportPresence(w: Window, nowNs: int)
    requires WindowWf(w) && nowNs - w.startNs >= WINDOW_NS
    ensures var r := Report(w, nowNs);
            && (r.ageP50.Some? <==> w.freshTicks > 0)
            && (r.ageP95.Some? <==> w.freshTicks > 0)
            && (r.ageMax.Some? <==> w.freshTicks > 0)
            && (r.adapterP95.Some? <==> w.freshTicks > 0)
            && (r.adapterMax.Some? <==> w.freshTicks > 0)
            && (r.maxWait.Some? <==> w.freshTicks > 0)
  {
  }

  /** The reported command ages: both percentiles are samples of the window and
      the maximum bounds them all. */
  lemma ReportAges(w: Window, nowNs: int)
    requires WindowWf(w) && nowNs - w.startNs >= WINDOW_NS
    ensures var r := Report(w, nowNs);
            && (r.ageP50.Some? ==> r.ageP50.value in w.agesMs)
            && (r.ageP95.Some? ==> r.ageP95.value in w.agesMs)
            && (r.ageMax.Some? ==> forall i :: 0 <= i < |w.agesMs| ==> w.agesMs[i] <= r.ageMax.value)
  {
  }

  /** The reported adapter times: the percentile is a sample of the window and
      the maximum bounds them all. */
  lemma ReportAdapterTimes(w: Window, nowNs: int)
    requires WindowWf(w) && nowNs - w.startNs >= WINDOW_NS
    ensures var r := Report(w, nowNs);
            && (r.adapterP95.Some? ==> r.adapterP95.value in w.adapterUs)
            && (r.adapterMax.Some? ==> forall i :: 0 <= i < |w.adapterUs| ==> w.adapterUs[i] <= r.adapterMax.value)
  {
  }

  /** The reported wait is the largest tick-wait estimate of the window. */
  lemma ReportWait(w: Window, nowNs: int)
    requires WindowWf(w) && nowNs - w.startNs >= WINDOW_NS
    ensures var r := Report(w, nowNs);
            && (r.maxWait.Some? ==> r.maxWait.value in w.waitTicks)
            && (r.maxWait.Some? ==> forall i :: 0 <= i < |w.waitTicks| ==> w.waitTicks[i] <= r.maxWait.value)
  {
  }

  /** The report as the controller formats it: `pct` of an empty list is None
      and formatting None with `:.1f` raises `TypeError` (and `max` of an empty
      list raises `ValueError`); nothing catches either, so the result is None,
      the controller having stopped. */
  function ReportAsWritten(w: Window, nowNs: int): (r: Option<WindowReport>)
    requires WindowWf(w) && nowNs - w.startNs >= WINDOW_NS
    ensures r.Some? ==> r.value == Report(w, nowNs)
    ensures r.Some? ==> r.value.ageP50.Some? && r.value.ageMax.Some? && r.value.maxWait.Some?
  {
    var r := Report(w, nowNs);
    if r.ageP50.None? || r.ageP95.None? || r.ageMax.None? || r.adapterP95.None?
       || r.adapterMax.None? || r.maxWait.None?
    then None
    else Some(r)
  }

  /** The report as written fails exactly for the windows without a fresh tick. */
  lemma AsWrittenFailsIffNoFreshTick(w: Window, nowNs: int)
    requires WindowWf(w) && nowNs - w.startNs >= WINDOW_NS
    ensures ReportAsWritten(w, nowNs).None? <==> w.freshTicks == 0
  {
    ReportPresence(w, nowNs);
  }

  /** A concrete failing window: the controller starts at time 0, its first tick
      drains nothing and ends 5 seconds later, so the window holds one tick and
      no fresh one, and the report as written stops the controller. */
  lemma IdleWindowStopsController()
    ensures var c := Advance(Start(0), TickObs(0, [], 0.0, 0, WINDOW_NS));
            && c.Some? && c.value.win.ticks == 1 && c.value.win.freshTicks == 0
            && ReportAsWritten(c.value.win, WINDOW_NS).None?
            && Report(c.value.win, WINDOW_NS).FreshPct() == 0.0
  {
    var c := Advance(Start(0), TickObs(0, [], 0.0, 0, WINDOW_NS));
    assert Drain([]) == Drained(None);
    AsWrittenFailsIffNoFreshTick(c.value.win, WINDOW_NS);
  }

  // ---------------------------------------------------------------------------
  // A tick and a run of ticks

  /** A report covers at least one tick, and no more fresh ticks than ticks. */
  predicate Plausible(rep: WindowReport)
  {
    rep.ticks > 0 && rep.freshTicks <= rep.ticks
  }

  datatype TickResult = Crashed | Ticked(next: Controller, report: Option<WindowReport>)

  /** One iteration of the controller's main loop, corrected: it reports with
      `Report`, which cannot fail, not with the formatting as written
      (`ReportAsWritten`), which stops the controller on a window without a
      fresh tick. When the window has lasted 5 seconds it is reported and replaced by an
      empty window starting at `now_ns`; the applied sequence number and the
      previous tick's time carry over. */
  function Tick(c: Controller, o: TickObs): (r: TickResult)
    requires WindowWf(c.win)
    ensures r.Crashed? <==> Drain(o.datagrams).DrainCrash?
    ensures r.Ticked? ==> WindowWf(r.next.win)
    ensures r.Ticked? && r.report.Some? ==> r.next.win == NewWindow(o.nowNs)
                                            && r.report.value.ticks == c.win.ticks + 1
                                            && Plausible(r.report.value)
    ensures r.Ticked? && r.report.None? ==> r.next.win.ticks == c.win.ticks + 1
                                            && r.next.win.startNs == c.win.startNs
    ensures r.Ticked? ==> r.next.prevTickNs == Some(o.tickStartNs)
    ensures r.Ticked? ==> (r.report.Some? <==> o.nowNs - c.win.startNs >= WINDOW_NS)
    ensures r.Ticked? && r.report.Some? ==>
              var rep := r.report.value;
              var isFresh := IsFresh(Drain(o.datagrams).latest, c.lastApplied);
              && rep.windowNs == o.nowNs - c.win.startNs
              && rep.freshTicks == c.win.freshTicks + (if isFresh then 1 else 0)
              && rep.maxGapMs >= c.win.maxGapMs
              && (rep.ageP50.Some? <==> rep.freshTicks > 0)
              && (rep.ageP95.Some? <==> rep.freshTicks > 0)
              && (rep.ageMax.Some? <==> rep.freshTicks > 0)
              && (rep.adapterP95.Some? <==> rep.freshTicks > 0)
              && (rep.adapterMax.Some? <==> rep.freshTicks > 0)
              && (rep.maxWait.Some? <==> rep.freshTicks > 0)
  {
    match Advance(c, o)
    case None => Crashed
    case Some(c1) =>
      if o.nowNs - c1.win.startNs >= WINDOW_NS then
        ReportPresence(c1.win, o.nowNs);
        Ticked(c1.(win := NewWindow(o.nowNs)), Some(Report(c1.win, o.nowNs)))
      else
        Ticked(c1, None)
  }

  /** The idle window of `IdleWindowStopsController`, through the corrected tick:
      it is reported with `fresh=0%` and no age, adapter or wait statistics, and
      the controller goes on with an empty window. */
  lemma IdleWindowIsReported()
    ensures var t := Tick(Start(0), TickObs(0, [], 0.0, 0, WINDOW_NS));
            && t.Ticked? && t.report.Some?
            && t.report.value.ticks == 1 && t.report.value.freshTicks == 0
            && t.report.value.FreshPct() == 0.0
            && t.report.value.ageP50.None? && t.report.value.maxWait.None?
            && t.next.win == NewWindow(WINDOW_NS)
  {
  }

  datatype ControlRun = ControlRun(last: Option<Controller>, reports: seq<WindowReport>)

  /** The main loop over a trace of ticks, until a drain crashes. */
  function RunControl(c: Controller, ticks: seq<TickObs>): (r: ControlRun)
    requires WindowWf(c.win)
    decreases |ticks|
  {
    if |ticks| == 0 then ControlRun(Some(c), [])
    else
      var t := Tick(c, ticks[0]);
      if t.Crashed? then ControlRun(None, [])
      else
        var rest := RunControl(t.next, ticks[1..]);
        var here := t.report.ToSeq();
        ControlRun(rest.last, here + rest.reports)
  }

  /** Along every run the window stays well formed, so the fresh count never
      exceeds the tick count, and every report covers at least one tick and no
      more fresh ticks than ticks. */
  lemma {:induction false} RunKeepsInvariants(c: Controller, ticks: seq<TickObs>)
    requires WindowWf(c.win)
    ensures var r := RunControl(c, ticks);
            && (r.last.Some? ==> WindowWf(r.last.value.win))
            && (r.last.Some? ==> r.last.value.win.freshTicks <= r.last.value.win.ticks)
            && forall i :: 0 <= i < |r.reports| ==> Plausible(r.reports[i])
    decreases |ticks|
  {
    if |ticks| > 0 {
      var t := Tick(c, ticks[0]);
      if t.Ticked? {
        var rest := RunControl(t.next, ticks[1..]);
        RunKeepsInvariants(t.next, ticks[1..]);
        var here := t.report.ToSeq();
        assert RunControl(c, ticks) == ControlRun(rest.last, here + rest.reports);
        assert forall i :: 0 <= i < |here| ==> Plausible(here[i]);
      }
    }
  }
}
