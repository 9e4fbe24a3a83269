/** The clients' bulk-send loops. Each loop is a fold over the outcome of every
    send (plus the flags and clock readings checked in that iteration); the
    state is the byte total, the report snapshot and, for the combined senders,
    the 32-bit frame counter written into the first four bytes of each frame. */
module Streaming {
  import opened LittleEndian
  import opened Stats

  /** The throughput and combined frame size. */
  const FRAME_SIZE: nat := 65536
  const HEADER_SIZE: nat := 4

  // ---------------------------------------------------------------------------
  // Standalone throughput client

  /** One pass: whether the 30 s run is over (checked before the send), what
      `send` returned, and whether 5 s passed since the last report. */
  datatype ThroughputIteration = ThroughputIteration(timeUp: bool, sent: int, reportDue: bool)

  /** `total`, `last_total` and the byte delta printed at each report. */
  datatype ThroughputState = ThroughputState(total: int, lastTotal: int, deltas: seq<int>)

  predicate ThroughputStops(it: ThroughputIteration)
  {
    it.timeUp || it.sent <= 0
  }

  /** `total += sent`; at a report the delta `total - last_total` is printed and
      `last_total = total`. */
  function ThroughputStep(s: ThroughputState, it: ThroughputIteration): ThroughputState
  {
    var total := s.total + it.sent;
    if it.reportDue then ThroughputState(total, total, s.deltas + [total - s.lastTotal])
    else s.(total := total)
  }

  /** Reference: the send results the loop accepts, up to the first stop. */
  function AcceptedSends(iters: seq<ThroughputIteration>): (xs: seq<int>)
    ensures forall i :: 0 <= i < |xs| ==> xs[i] > 0
  {
    if |iters| == 0 || ThroughputStops(iters[0]) then []
    else [iters[0].sent] + AcceptedSends(iters[1..])
  }

  /** The loop from state `s`: it stops at the deadline or at the first send that
      returns 0 or less; every accepted send adds exactly its count to the total;
      the snapshot never overtakes the total; and the printed deltas add up to the
      movement of the snapshot. */
  function ThroughputLoop(s: ThroughputState, iters: seq<ThroughputIteration>): (r: ThroughputState)
    ensures r.total == s.total + SumInts(AcceptedSends(iters))
    ensures s.lastTotal <= s.total ==> r.lastTotal <= r.total
    ensures SumInts(r.deltas) - SumInts(s.deltas) == r.lastTotal - s.lastTotal
    ensures |s.deltas| <= |r.deltas|
    decreases |iters|
  {
    if |iters| == 0 || ThroughputStops(iters[0]) then s
    else
      var s' := ThroughputStep(s, iters[0]);
      SumIntsAppend([iters[0].sent], AcceptedSends(iters[1..]));
      assert SumInts([iters[0].sent]) == iters[0].sent;
      SumIntsAppend(s.deltas, [s'.total - s.lastTotal]);
      assert SumInts([s'.total - s.lastTotal]) == s'.total - s.lastTotal;
      ThroughputLoop(s', iters[1..])
  }

  /** Reference: the value of `total` at each report point, from a running
      total of `total`, up to the first stop. */
  function ReportTotals(total: int, iters: seq<ThroughputIteration>): seq<int>
    decreases |iters|
  {
    if |iters| == 0 || ThroughputStops(iters[0]) then []
    else
      var t := total + iters[0].sent;
      (if iters[0].reportDue then [t] else []) + ReportTotals(t, iters[1..])
  }

  /** The deltas printed for successive readings, starting from snapshot `prev`. */
  function DeltasFrom(prev: int, readings: seq<int>): seq<int>
    decreases |readings|
  {
    if |readings| == 0 then [] else [readings[0] - prev] + DeltasFrom(readings[0], readings[1..])
  }

  /** The last reading, or `d` when there is none. */
  function LastOr(d: int, readings: seq<int>): int
  {
    if |readings| == 0 then d else readings[|readings| - 1]
  }

  /** One pass of the loop that goes on: the rest runs from the stepped state. */
  lemma LoopUnfolds(s: ThroughputState, iters: seq<ThroughputIteration>)
    requires |iters| > 0 && !ThroughputStops(iters[0])
    ensures ThroughputLoop(s, iters) == ThroughputLoop(ThroughputStep(s, iters[0]), iters[1..])
  {
  }

  /** The report totals of a pass that goes on: this pass's (if it reports)
      followed by the rest's. */
  lemma ReportTotalsUnfold(total: int, iters: seq<ThroughputIteration>)
    requires |iters| > 0 && !ThroughputStops(iters[0])
    ensures var t := total + iters[0].sent;
            ReportTotals(total, iters)
            == (if iters[0].reportDue then [t] else []) + ReportTotals(t, iters[1..])
  {
  }

  /** Each report prints `total - last_total` and moves `last_total` to `total`:
      the printed deltas are those of the totals at the report points. */
  lemma {:induction false} ThroughputReports(s: ThroughputState, iters: seq<ThroughputIteration>)
    ensures ThroughputLoop(s, iters).deltas == s.deltas + DeltasFrom(s.lastTotal, ReportTotals(s.total, iters))
    decreases |iters|
  {
    if |iters| == 0 || ThroughputStops(iters[0]) {
      assert ReportTotals(s.total, iters) == [];
    } else {
      var s' := ThroughputStep(s, iters[0]);
      var t := s.total + iters[0].sent;
      var rest := ReportTotals(t, iters[1..]);
      LoopUnfolds(s, iters);
      ReportTotalsUnfold(s.total, iters);
      ThroughputReports(s', iters[1..]);
      var r := ThroughputLoop(s', iters[1..]);
      assert r.deltas == s'.deltas + DeltasFrom(s'.lastTotal, rest);
      if iters[0].reportDue {
        assert ([t] + rest)[0] == t && ([t] + rest)[1..] == rest;
        assert DeltasFrom(s.lastTotal, [t] + rest) == [t - s.lastTotal] + DeltasFrom(t, rest);
        assert s'.deltas == s.deltas + [t - s.lastTotal] && s'.lastTotal == t;
        assert r.deltas == s.deltas + ([t - s.lastTotal] + DeltasFrom(t, rest));
      } else {
        assert ReportTotals(s.total, iters) == [] + rest == rest;
        assert s'.deltas == s.deltas && s'.lastTotal == s.lastTotal;
      }
    }
  }

  /** `last_total` ends at the total of the last report point, or where it
      started when no report fell due. */
  lemma {:induction false} ThroughputLastReport(s: ThroughputState, iters: seq<ThroughputIteration>)
    ensures ThroughputLoop(s, iters).lastTotal == LastOr(s.lastTotal, ReportTotals(s.total, iters))
    decreases |iters|
  {
    if |iters| == 0 || ThroughputStops(iters[0]) {
      assert ReportTotals(s.total, iters) == [];
    } else {
      var s' := ThroughputStep(s, iters[0]);
      var t := s.total + iters[0].sent;
      var rest := ReportTotals(t, iters[1..]);
      LoopUnfolds(s, iters);
      ReportTotalsUnfold(s.total, iters);
      ThroughputLastReport(s', iters[1..]);
      if iters[0].reportDue {
        assert LastOr(s.lastTotal, [t] + rest) == LastOr(t, rest);
        assert s'.lastTotal == t;
      } else {
        assert s'.lastTotal == s.lastTotal;
      }
    }
  }

  lemma {:induction false} DeltasFromSnoc(prev: int, xs: seq<int>, y: int)
    ensures DeltasFrom(prev, xs + [y]) == DeltasFrom(prev, xs) + [y - LastOr(prev, xs)]
    decreases |xs|
  {
    if |xs| == 0 {
      assert [y][1..] == [];
    } else {
      assert (xs + [y])[0] == xs[0];
      assert (xs + [y])[1..] == xs[1..] + [y];
      DeltasFromSnoc(xs[0], xs[1..], y);
      assert LastOr(xs[0], xs[1..]) == LastOr(prev, xs);
    }
  }

  /** From a zero snapshot, the printed deltas are the snapshot deltas of
      `Stats.Deltas`. */
  lemma {:induction false} DeltasFromZero(readings: seq<int>)
    ensures DeltasFrom(0, readings) == Deltas(readings)
    decreases |readings|
  {
    if |readings| > 0 {
      var p := readings[..|readings| - 1];
      DeltasFromZero(p);
      DeltasFromSnoc(0, p, readings[|readings| - 1]);
      assert p + [readings[|readings| - 1]] == readings;
    }
  }

  /** The whole run from zero: the final report uses the whole-run total, which
      is the sum of the accepted sends; each printed delta is the total at its
      report point minus the total at the previous one; `last_total` is the
      total at the last report point, so the deltas add up to it. */
  function RunThroughput(iters: seq<ThroughputIteration>): (r: ThroughputState)
    ensures r.total == SumInts(AcceptedSends(iters))
    ensures r.deltas == Deltas(ReportTotals(0, iters))
    ensures r.lastTotal == LastOr(0, ReportTotals(0, iters))
    ensures 0 <= r.lastTotal <= r.total
    ensures SumInts(r.deltas) == r.lastTotal
  {
    var r := ThroughputLoop(ThroughputState(0, 0, []), iters);
    assert SumInts([]) == 0;
    SumsOfPositives(AcceptedSends(iters));
    NonNegativeDeltas(ThroughputState(0, 0, []), iters);
    ThroughputReports(ThroughputState(0, 0, []), iters);
    ThroughputLastReport(ThroughputState(0, 0, []), iters);
    DeltasFromZero(ReportTotals(0, iters));
    r
  }

  lemma {:induction false} SumsOfPositives(xs: seq<int>)
    requires forall i :: 0 <= i < |xs| ==> xs[i] > 0
    ensures SumInts(xs) >= 0
  {
    if |xs| > 0 {
      SumsOfPositives(xs[..|xs| - 1]);
    }
  }

  /** The snapshot only moves forward when every accepted send is positive. */
  lemma {:induction false} NonNegativeDeltas(s: ThroughputState, iters: seq<ThroughputIteration>)
    requires s.lastTotal <= s.total
    ensures s.lastTotal <= ThroughputLoop(s, iters).lastTotal
    decreases |iters|
  {
    if |iters| > 0 && !ThroughputStops(iters[0]) {
      NonNegativeDeltas(ThroughputStep(s, iters[0]), iters[1..]);
    }
  }

  // ---------------------------------------------------------------------------
  // Host-embedded throughput and endurance tests

  /** One pass of `RunThroughputTest` / `RunEnduranceTest`: the run flag, whether
      30 s are over, and the `Sent` count `Send` wrote. */
  datatype HostSend = HostSend(running: bool, timeUp: bool, sent: int)

  function HostActive(iters: seq<HostSend>): (a: seq<HostSend>)
    ensures |a| <= |iters|
    ensures forall i :: 0 <= i < |a| ==> a[i] == iters[i] && a[i].running && !a[i].timeUp
  {
    if |iters| == 0 || !iters[0].running || iters[0].timeUp then []
    else [iters[0]] + HostActive(iters[1..])
  }

  /** `Total += Sent` on every pass, whatever `Send` returned. */
  function HostThroughputTotal(iters: seq<HostSend>): (total: int)
  {
    if |iters| == 0 || !iters[0].running || iters[0].timeUp then 0
    else iters[0].sent + HostThroughputTotal(iters[1..])
  }

  /** `if (Sent > 0) Count++`: a packet counts only when some bytes went out. */
  function EnduranceCount(iters: seq<HostSend>): (count: nat)
    ensures count <= |HostActive(iters)|
  {
    if |iters| == 0 || !iters[0].running || iters[0].timeUp then 0
    else (if iters[0].sent > 0 then 1 else 0) + EnduranceCount(iters[1..])
  }

  function SentCounts(a: seq<HostSend>): (xs: seq<int>)
    ensures |xs| == |a|
  {
    if |a| == 0 then [] else [a[0].sent] + SentCounts(a[1..])
  }

  /** The positive entries of `xs`, in order. */
  function Positives(xs: seq<int>): (ps: seq<int>)
    ensures |ps| <= |xs|
    ensures forall i :: 0 <= i < |ps| ==> ps[i] > 0
  {
    if |xs| == 0 then []
    else (if xs[0] > 0 then [xs[0]] else []) + Positives(xs[1..])
  }

  /** The throughput total is the sum of every `Sent` while the loop runs,
      unfiltered; the endurance count is the number of those passes whose `Sent`
      was positive. */
  lemma {:induction false} HostCounters(iters: seq<HostSend>)
    ensures HostThroughputTotal(iters) == SumInts(SentCounts(HostActive(iters)))
    ensures EnduranceCount(iters) == |Positives(SentCounts(HostActive(iters)))|
  {
    if |iters| > 0 && iters[0].running && !iters[0].timeUp {
      HostCounters(iters[1..]);
      var a' := HostActive(iters[1..]);
      assert HostActive(iters) == [iters[0]] + a';
      assert SentCounts(HostActive(iters)) == [iters[0].sent] + SentCounts(a');
      SumIntsAppend([iters[0].sent], SentCounts(a'));
      assert SumInts([iters[0].sent]) == iters[0].sent;
    }
  }

  // ---------------------------------------------------------------------------
  // Combined senders: counter-stamped 64 KiB frames

  /** A frame: the little-endian counter in bytes 0..3, then the rest of the
      buffer, which the sender never rewrites. */
  function Frame(counter: nat, body: seq<byte>): (f: seq<byte>)
    requires counter < U32_LIMIT
    requires |body| == FRAME_SIZE - HEADER_SIZE
    ensures |f| == FRAME_SIZE
    ensures DecodeU32(f) == counter
  {
    U32HeaderRoundTrip(counter, body);
    EncodeU32(counter) + body
  }

  /** `counter++` on a `uint32_t`. */
  function NextCounter(c: nat): (r: nat)
    ensures r < U32_LIMIT
    ensures c + 1 < U32_LIMIT ==> r == c + 1
  {
    (c + 1) % U32_LIMIT
  }

  /** Reference: the counters `0, 1, 2, ...` of the first `n` frames, modulo 2^32. */
  function Counters(n: nat): (cs: seq<nat>)
    ensures |cs| == n
    ensures forall i :: 0 <= i < n ==> cs[i] == i % U32_LIMIT
  {
    seq(n, i => i % U32_LIMIT)
  }

  /** The state of a combined sender: its counter, the byte total, and the
      counters of the frames sent in full. */
  datatype SenderState = SenderState(counter: nat, total: int, accepted: seq<nat>)

  /** Frames sent in full so far carry `0, 1, ...` with no gap, and `Total` is
      64 KiB per such frame. */
  predicate Accounted(s: SenderState)
  {
    s.accepted == Counters(|s.accepted|) && s.total == FRAME_SIZE * |s.accepted|
  }

  /** Between iterations the counter also names the next frame. */
  predicate Continuing(s: SenderState)
  {
    Accounted(s) && s.counter == |s.accepted| % U32_LIMIT
  }

  lemma CountersExtend(n: nat)
    ensures Counters(n) + [n % U32_LIMIT] == Counters(n + 1)
  {
  }

  /** One pass of the host-embedded combined sender: the flags it tests at the top
      (`bRunning`, `bStopCombined`, the duration), whether the data socket exists
      and is connected, what `Send` returned and wrote, and the connection state
      after the send. */
  datatype HostFrameSend = HostFrameSend(running: bool, stopCombined: bool, timeUp: bool,
                                         socketPresent: bool, connectedBefore: bool,
                                         sendOk: bool, sent: int, connectedAfter: bool)

  /** The loop leaves before writing a frame when a flag says stop or the socket
      is missing or disconnected. */
  predicate HostSenderHalts(it: HostFrameSend)
  {
    !it.running || it.stopCombined || it.timeUp || !it.socketPresent || !it.connectedBefore
  }

  /** The frame is rejected when `Send` fails, sends short, or leaves the socket
      disconnected. */
  predicate HostSendFails(it: HostFrameSend)
  {
    !it.sendOk || it.sent != FRAME_SIZE || !it.connectedAfter
  }

  /** The sender loop: the counter is written and then incremented before the
      send; a failed or short send ends the loop without adding to `Total`. */
  function HostSenderLoop(s: SenderState, iters: seq<HostFrameSend>): (r: SenderState)
    requires Continuing(s)
    ensures Accounted(r)
    ensures |s.accepted| <= |r.accepted|
    ensures r.accepted[..|s.accepted|] == s.accepted
    decreases |iters|
  {
    if |iters| == 0 || HostSenderHalts(iters[0]) then s
    else
      var it := iters[0];
      var stamped := s.counter;
      var s1 := s.(counter := NextCounter(s.counter));
      if HostSendFails(it) then s1
      else
        var s' := SenderState(s1.counter, s.total + it.sent, s.accepted + [stamped]);
        assert Continuing(s') by {
          CountersExtend(|s.accepted|);
          AddMod(|s.accepted|, 1);
        }
        var r := HostSenderLoop(s', iters[1..]);
        assert r.accepted[..|s.accepted|] == r.accepted[..|s'.accepted|][..|s.accepted|];
        r
  }

  /** One pass of the standalone combined client's data thread: the stop flag and
      what `send` returned. */
  datatype DataSend = DataSend(stop: bool, sent: int)

  /** `while (!stop)`: stamp the counter, send, leave on a short send, otherwise
      add to the total and increment the counter. */
  function DataThreadLoop(s: SenderState, iters: seq<DataSend>): (r: SenderState)
    requires Continuing(s)
    ensures Continuing(r)
    ensures |s.accepted| <= |r.accepted|
    ensures r.accepted[..|s.accepted|] == s.accepted
    decreases |iters|
  {
    if |iters| == 0 || iters[0].stop then s
    else if iters[0].sent != FRAME_SIZE then s
    else
      var s' := SenderState(NextCounter(s.counter), s.total + iters[0].sent,
                            s.accepted + [s.counter]);
      assert Continuing(s') by {
        CountersExtend(|s.accepted|);
        AddMod(|s.accepted|, 1);
      }
      var r := DataThreadLoop(s', iters[1..]);
      assert r.accepted[..|s.accepted|] == r.accepted[..|s'.accepted|][..|s.accepted|];
      r
  }

  /** Reference: how many sends the data thread completes in full before the stop
      flag or the first short send. */
  function FullSends(iters: seq<DataSend>): nat
  {
    if |iters| == 0 || iters[0].stop || iters[0].sent != FRAME_SIZE then 0
    else 1 + FullSends(iters[1..])
  }

  /** The standalone data thread from its start: the frames sent in full carry
      counters `0, 1, 2, ...` with no gap, `total_bytes` is 65536 times their
      number, and their number is the count of full sends before the first stop. */
  lemma {:induction false} DataThreadFrames(iters: seq<DataSend>)
    ensures var r := DataThreadLoop(SenderState(0, 0, []), iters);
            && r.accepted == Counters(FullSends(iters))
            && r.total == FRAME_SIZE * FullSends(iters)
  {
    DataThreadFrom(SenderState(0, 0, []), iters);
  }

  lemma {:induction false} DataThreadFrom(s: SenderState, iters: seq<DataSend>)
    requires Continuing(s)
    ensures |DataThreadLoop(s, iters).accepted| == |s.accepted| + FullSends(iters)
    decreases |iters|
  {
    if |iters| > 0 && !iters[0].stop && iters[0].sent == FRAME_SIZE {
      CountersExtend(|s.accepted|);
      DataThreadFrom(SenderState(NextCounter(s.counter), s.total + iters[0].sent,
                                 s.accepted + [s.counter]), iters[1..]);
    }
  }

  /** Reference: how many frames the host sender gets out in full before the
      loop's own checks stop it or the first failed, short or disconnecting
      send. */
  function HostFullSends(iters: seq<HostFrameSend>): nat
  {
    if |iters| == 0 || HostSenderHalts(iters[0]) || HostSendFails(iters[0]) then 0
    else 1 + HostFullSends(iters[1..])
  }

  /** The loop accepts exactly `HostFullSends` more frames. */
  lemma {:induction false} HostSenderFrom(s: SenderState, iters: seq<HostFrameSend>)
    requires Continuing(s)
    ensures |HostSenderLoop(s, iters).accepted| == |s.accepted| + HostFullSends(iters)
    decreases |iters|
  {
    if |iters| > 0 && !HostSenderHalts(iters[0]) && !HostSendFails(iters[0]) {
      var s' := SenderState(NextCounter(s.counter), s.total + iters[0].sent,
                            s.accepted + [s.counter]);
      assert Continuing(s') by {
        CountersExtend(|s.accepted|);
        AddMod(|s.accepted|, 1);
      }
      HostSenderFrom(s', iters[1..]);
    }
  }

  /** The host-embedded combined sender from its start: the frames sent in full
      carry counters `0, 1, 2, ...` with no gap, `Total` is 65536 times their
      number, and their number is the count of full sends before the loop
      stopped. */
  lemma HostSenderFrames(iters: seq<HostFrameSend>)
    ensures var r := HostSenderLoop(SenderState(0, 0, []), iters);
            && r.accepted == Counters(HostFullSends(iters))
            && r.total == FRAME_SIZE * HostFullSends(iters)
  {
    HostSenderFrom(SenderState(0, 0, []), iters);
  }

  /** The bytes a sender put on the data connection for frames sent in full. */
  function Wire(counters: seq<nat>, body: seq<byte>): (w: seq<byte>)
    requires forall i :: 0 <= i < |counters| ==> counters[i] < U32_LIMIT
    requires |body| == FRAME_SIZE - HEADER_SIZE
    ensures |w| == FRAME_SIZE * |counters|
  {
    if |counters| == 0 then []
    else Frame(counters[0], body) + Wire(counters[1..], body)
  }
}
