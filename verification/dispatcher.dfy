/** The host's command dispatcher: connect the command socket, wait a bounded
    time for a one-byte command, open the data socket only for the commands
    that stream data, run the test, close both sockets and start over while the
    run flag holds.

    The `goto reconnect` control flow becomes a phase datatype and a transition
    function `Step`; every read of the run flag, the clock, a socket call's
    result or a received byte is a field of the observation `Obs` the step
    consumes. A run is `Step` folded over a trace of observations. */
module Dispatcher {
  import opened Wrappers
  import opened LittleEndian

  const CMD_PORT: nat := 5050
  const DATA_PORT: nat := 5051
  /** Seconds the dispatcher waits for a command byte. */
  const COMMAND_WAIT_SECONDS: nat := 5
  /** Seconds a combined test runs by default. */
  const COMBINED_DURATION_SECONDS: nat := 86400

  /** The tests a command byte selects. */
  datatype TestMode = Latency | Throughput | Endurance | Combined

  /** `'L'`, `'T'`, `'E'`, `'C'` select a test; every other byte selects none. */
  function ModeOf(code: byte): (m: Option<TestMode>)
    ensures m == Some(Latency) <==> code == 'L' as int
    ensures m == Some(Throughput) <==> code == 'T' as int
    ensures m == Some(Endurance) <==> code == 'E' as int
    ensures m == Some(Combined) <==> code == 'C' as int
  {
    if code == 'L' as int then Some(Latency)
    else if code == 'T' as int then Some(Throughput)
    else if code == 'E' as int then Some(Endurance)
    else if code == 'C' as int then Some(Combined)
    else None
  }

  /** The command byte that selects a test. */
  function CodeOf(m: TestMode): (code: byte)
    ensures ModeOf(code) == Some(m)
  {
    match m
    case Latency => 'L' as int
    case Throughput => 'T' as int
    case Endurance => 'E' as int
    case Combined => 'C' as int
  }

  /** The commands that open the data socket before the test runs. */
  predicate NeedsData(code: byte)
  {
    code == 'T' as int || code == 'E' as int || code == 'C' as int
  }

  /** Only the latency test does without the data socket; an unknown byte
      needs nothing. */
  lemma NeedsDataIffStreaming(code: byte)
    ensures NeedsData(code) <==> ModeOf(code).Some? && ModeOf(code).value != Latency
  {
  }

  /** A socket handle: null, a created socket that is not connected (creation
      worked but the address did not parse, or the connect loop gave up), or a
      connected socket. */
  datatype Slot = Empty | Unconnected | Open

  /** The socket being connected: the command socket, or the data socket for
      the command byte already received. */
  datatype Channel = CommandChannel | DataChannel(code: byte)

  datatype Phase =
    | Top                    // the `reconnect:` label
    | Connecting(ch: Channel)   // dispose of the old socket, create, parse the address
    | Retrying(ch: Channel)     // the `while (bRunning && !Connect)` loop
    | Confirming(ch: Channel)   // `return bRunning`
    | Awaiting               // the bounded wait for a command byte
    | Dispatching(code: byte)
    | TearingDown            // `CloseAll()` then `if (bRunning) goto reconnect`
    | Stopped                // the dispatcher has returned

  /** The dispatcher's state: its phase, both socket handles and the tests it
      has started, in order. */
  datatype Session = Session(phase: Phase, cmd: Slot, data: Slot, ran: seq<TestMode>)

  const INIT: Session := Session(Top, Empty, Empty, [])

  /** What one step observes: the run flag as read at this step, whether the
      socket was created, whether the server address parsed, whether `Connect`
      succeeded, whether the 5-second wait has run out, and the byte `Recv`
      delivered (None when it failed or delivered no byte). Each step reads
      only the fields its phase uses. */
  datatype Obs = Obs(running: bool, created: bool, parsed: bool, connected: bool,
                     timeUp: bool, received: Option<byte>)

  function SlotOf(s: Session, ch: Channel): Slot
  {
    if ch.CommandChannel? then s.cmd else s.data
  }

  function SetSlot(s: Session, ch: Channel, v: Slot): Session
  {
    if ch.CommandChannel? then s.(cmd := v) else s.(data := v)
  }

  /** Where `ConnectSocket`'s result leads: a connected command socket goes on
      to the wait, a failed one ends the dispatcher (without closing anything);
      a connected data socket goes on to the test, a failed one tears down. */
  function AfterConnect(ch: Channel, ok: bool): Phase
  {
    match ch
    case CommandChannel => if ok then Awaiting else Stopped
    case DataChannel(code) => if ok then Dispatching(code) else TearingDown
  }

  /** One transition of `ListenForCommand` / `ConnectSocket`. */
  function Step(s: Session, o: Obs): Session
  {
    match s.phase
    case Top =>
      s.(phase := if o.running then Connecting(CommandChannel) else Stopped)
    case Connecting(ch) =>
      if !o.created then SetSlot(s, ch, Empty).(phase := AfterConnect(ch, false))
      else if !o.parsed then SetSlot(s, ch, Unconnected).(phase := AfterConnect(ch, false))
      else SetSlot(s, ch, Unconnected).(phase := Retrying(ch))
    case Retrying(ch) =>
      if !o.running then s.(phase := Confirming(ch))
      else if o.connected then SetSlot(s, ch, Open).(phase := Confirming(ch))
      else s
    case Confirming(ch) =>
      s.(phase := AfterConnect(ch, o.running))
    case Awaiting =>
      if !o.running || o.timeUp then s.(phase := TearingDown)
      else if o.received.Some? then
        var code := o.received.value;
        s.(phase := if NeedsData(code) then Connecting(DataChannel(code)) else Dispatching(code))
      else s
    case Dispatching(code) =>
      var ran := match ModeOf(code) case Some(m) => s.ran + [m] case None => s.ran;
      s.(phase := TearingDown, ran := ran)
    case TearingDown =>
      Session(if o.running then Top else Stopped, Empty, Empty, s.ran)
    case Stopped =>
      s
  }

  /** The dispatcher after consuming a trace of observations. */
  function Run(s: Session, trace: seq<Obs>): Session
    decreases |trace|
  {
    if |trace| == 0 then s else Run(Step(s, trace[0]), trace[1..])
  }

  // ---------------------------------------------------------------------------
  // The socket invariant

  /** Which sockets can exist in each phase. The data socket exists only while
      a data-streaming command is being connected, run or torn down; the
      command socket exists whenever a command is awaited or dispatched;
      nothing is held at the `reconnect:` label. */
  ghost predicate Wf(s: Session)
  {
    match s.phase
    case Top => s.cmd == Empty && s.data == Empty
    case Connecting(ch) =>
      s.data == Empty && (ch.DataChannel? ==> NeedsData(ch.code) && s.cmd != Empty)
    case Retrying(ch) =>
      SlotOf(s, ch) != Empty
      && (ch.CommandChannel? ==> s.data == Empty)
      && (ch.DataChannel? ==> NeedsData(ch.code) && s.cmd != Empty)
    case Confirming(ch) =>
      SlotOf(s, ch) != Empty
      && (ch.CommandChannel? ==> s.data == Empty)
      && (ch.DataChannel? ==> NeedsData(ch.code) && s.cmd != Empty)
    case Awaiting => s.cmd != Empty && s.data == Empty
    case Dispatching(code) => s.cmd != Empty && (NeedsData(code) <==> s.data != Empty)
    case TearingDown => true
    case Stopped => s.data == Empty
  }

  /** While the flag stays up the sockets in use are connected ones: the
      connect loop can only be left by connecting, so a command is awaited and
      dispatched on a connected command socket, and a streaming test runs on a
      connected data socket. */
  ghost predicate LiveWf(s: Session)
  {
    && Wf(s)
    && (s.phase.Confirming? ==> SlotOf(s, s.phase.ch) == Open)
    && (s.phase.Awaiting? ==> s.cmd == Open)
    && (s.phase.Dispatching? ==> s.cmd == Open && (NeedsData(s.phase.code) ==> s.data == Open))
    && (s.phase.Connecting? && s.phase.ch.DataChannel? ==> s.cmd == Open)
    && (s.phase.Retrying? && s.phase.ch.DataChannel? ==> s.cmd == Open)
    && (s.phase.Confirming? && s.phase.ch.DataChannel? ==> s.cmd == Open)
  }

  lemma InitWf()
    ensures LiveWf(INIT)
  {
  }

  /** Every transition keeps the socket invariant and never forgets a test
      already started. */
  lemma StepPreservesWf(s: Session, o: Obs)
    requires Wf(s)
    ensures Wf(Step(s, o))
    ensures s.ran <= Step(s, o).ran
  {
  }

  lemma {:induction false} RunPreservesWf(s: Session, trace: seq<Obs>)
    requires Wf(s)
    ensures Wf(Run(s, trace))
    ensures s.ran <= Run(s, trace).ran
    decreases |trace|
  {
    if |trace| > 0 {
      StepPreservesWf(s, trace[0]);
      RunPreservesWf(Step(s, trace[0]), trace[1..]);
    }
  }

  /** Every state a run reaches from the start satisfies the invariant; in
      particular the data socket is never held while a latency test or an
      unknown command is dispatched. */
  lemma ReachableWf(trace: seq<Obs>)
    ensures Wf(Run(INIT, trace))
    ensures var s := Run(INIT, trace);
            s.phase.Dispatching? && !NeedsData(s.phase.code) ==> s.data == Empty
  {
    InitWf();
    RunPreservesWf(INIT, trace);
  }

  lemma LiveStepPreservesLiveWf(s: Session, o: Obs)
    requires LiveWf(s) && o.running
    ensures LiveWf(Step(s, o))
  {
  }

  predicate AllRunning(trace: seq<Obs>)
  {
    forall i :: 0 <= i < |trace| ==> trace[i].running
  }

  /** A run during which the flag never drops keeps every socket it uses
      connected. */
  lemma {:induction false} LiveRunConnected(s: Session, trace: seq<Obs>)
    requires LiveWf(s) && AllRunning(trace)
    ensures LiveWf(Run(s, trace))
    decreases |trace|
  {
    if |trace| > 0 {
      LiveStepPreservesLiveWf(s, trace[0]);
      assert AllRunning(trace[1..]) by {
        forall i | 0 <= i < |trace[1..]|
          ensures trace[1..][i].running
        {
          assert trace[1..][i] == trace[i + 1];
        }
      }
      LiveRunConnected(Step(s, trace[0]), trace[1..]);
    }
  }

  // ---------------------------------------------------------------------------
  // Transitions

  /** A received byte opens the data socket iff it is `'T'`, `'E'` or `'C'`;
      `'L'` and unknown bytes go straight to dispatch. */
  lemma CommandOpensDataIff(s: Session, o: Obs)
    requires s.phase == Awaiting && o.running && !o.timeUp && o.received.Some?
    ensures Step(s, o).phase == Connecting(DataChannel(o.received.value))
            <==> o.received.value in {'T' as int, 'E' as int, 'C' as int}
    ensures !NeedsData(o.received.value) ==> Step(s, o).phase == Dispatching(o.received.value)
  {
  }

  /** The wait ends without a command when the flag drops or 5 seconds pass;
      a failed or empty `Recv` keeps waiting. */
  lemma WaitOutcome(s: Session, o: Obs)
    requires s.phase == Awaiting
    ensures !o.running || o.timeUp ==> Step(s, o).phase == TearingDown
    ensures o.running && !o.timeUp && o.received.None? ==> Step(s, o) == s
  {
  }

  /** Tearing down closes both sockets and restarts at `reconnect:` iff the run
      flag holds; otherwise the dispatcher returns. */
  lemma TearDownOutcome(s: Session, o: Obs)
    requires s.phase == TearingDown
    ensures Step(s, o).cmd == Empty && Step(s, o).data == Empty
    ensures Step(s, o).phase == Top <==> o.running
    ensures Step(s, o).phase == Stopped <==> !o.running
    ensures Step(s, o).ran == s.ran
  {
  }

  /** No command within the wait: two steps later both sockets are closed and
      the dispatcher is back at `reconnect:` iff the flag still holds. */
  lemma TimeoutRestarts(s: Session, o1: Obs, o2: Obs)
    requires s.phase == Awaiting && o1.timeUp
    ensures var s2 := Run(s, [o1, o2]);
            && s2.cmd == Empty && s2.data == Empty
            && (s2.phase == Top <==> o2.running)
            && (s2.phase == Stopped <==> !o2.running)
  {
    assert [o1, o2][0] == o1 && [o1, o2][1..] == [o2];
    assert [o2][0] == o2 && [o2][1..] == [];
    assert Run(s, [o1, o2]) == Run(Step(s, o1), [o2]);
    assert Run(Step(s, o1), [o2]) == Step(Step(s, o1), o2);
  }

  /** A dispatched command starts its test (an unknown byte starts none) and
      always goes on to tear down. */
  lemma DispatchOutcome(s: Session, o: Obs)
    requires s.phase.Dispatching?
    ensures Step(s, o).phase == TearingDown
    ensures ModeOf(s.phase.code).None? ==> Step(s, o).ran == s.ran
    ensures ModeOf(s.phase.code).Some? ==> Step(s, o).ran == s.ran + [ModeOf(s.phase.code).value]
  {
  }

  /** The connect loop retries only while the flag holds and the connect fails;
      it leaves the loop at the first dropped flag or successful connect. */
  lemma RetryOutcome(s: Session, o: Obs)
    requires s.phase.Retrying?
    ensures Step(s, o) == s <==> o.running && !o.connected
    ensures !o.running ==> Step(s, o).phase == Confirming(s.phase.ch)
                           && SlotOf(Step(s, o), s.phase.ch) == SlotOf(s, s.phase.ch)
    ensures o.running && o.connected ==> Step(s, o).phase == Confirming(s.phase.ch)
                                         && SlotOf(Step(s, o), s.phase.ch) == Open
  {
  }

  /** `ConnectSocket` returns the run flag: a failed command-socket connect
      ends the dispatcher, a failed data-socket connect tears down (and so
      reconnects while the flag holds). */
  lemma ConnectResult(s: Session, o: Obs)
    requires s.phase.Confirming?
    ensures s.phase.ch.CommandChannel? ==> (Step(s, o).phase == Stopped <==> !o.running)
    ensures s.phase.ch.CommandChannel? && o.running ==> Step(s, o).phase == Awaiting
    ensures s.phase.ch.DataChannel? ==> (Step(s, o).phase == TearingDown <==> !o.running)
    ensures s.phase.ch.DataChannel? && o.running ==> Step(s, o).phase == Dispatching(s.phase.ch.code)
  {
  }

  /** Socket creation or address parsing failing makes `ConnectSocket` return
      false at once, without consulting the flag. */
  lemma ConnectEarlyFailure(s: Session, o: Obs)
    requires s.phase.Connecting? && (!o.created || !o.parsed)
    ensures Step(s, o).phase == AfterConnect(s.phase.ch, false)
    ensures SlotOf(Step(s, o), s.phase.ch) == (if o.created then Unconnected else Empty)
  {
  }

  /** Once the dispatcher has returned it stays returned, whatever follows. */
  lemma {:induction false} StoppedIsFinal(s: Session, trace: seq<Obs>)
    requires s.phase == Stopped
    ensures Run(s, trace) == s
    decreases |trace|
  {
    if |trace| > 0 {
      StoppedIsFinal(Step(s, trace[0]), trace[1..]);
    }
  }

  predicate AllStopped(trace: seq<Obs>)
  {
    forall i :: 0 <= i < |trace| ==> !trace[i].running
  }

  /** The distance to return once the flag is down: four steps from a data
      socket being created, fewer from everywhere else. */
  function StepsToStop(p: Phase): (n: nat)
    ensures n <= 4
    ensures n == 0 <==> p == Stopped
  {
    match p
    case Top => 1
    case Connecting(ch) => if ch.CommandChannel? then 3 else 4
    case Retrying(ch) => if ch.CommandChannel? then 2 else 3
    case Confirming(ch) => if ch.CommandChannel? then 1 else 2
    case Awaiting => 2
    case Dispatching(_) => 2
    case TearingDown => 1
    case Stopped => 0
  }

  /** Each step taken with the flag down brings the dispatcher one step closer
      to returning. */
  lemma StepTowardStop(s: Session, o: Obs)
    requires !o.running && s.phase != Stopped
    ensures StepsToStop(Step(s, o).phase) < StepsToStop(s.phase)
  {
  }

  /** Once `bRunning` is false, the dispatcher returns within four further
      steps, from any state: no loop waits on anything but the flag. */
  lemma {:induction false} StopsWithinFourSteps(s: Session, trace: seq<Obs>)
    requires AllStopped(trace) && |trace| >= StepsToStop(s.phase)
    ensures Run(s, trace).phase == Stopped
    decreases |trace|
  {
    if s.phase == Stopped {
      StoppedIsFinal(s, trace);
    } else {
      StepTowardStop(s, trace[0]);
      assert AllStopped(trace[1..]) by {
        forall i | 0 <= i < |trace[1..]|
          ensures !trace[1..][i].running
        {
          assert trace[1..][i] == trace[i + 1];
        }
      }
      StopsWithinFourSteps(Step(s, trace[0]), trace[1..]);
    }
  }
}
