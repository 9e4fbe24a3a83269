/** The start-up of the two standalone clients: initialise the socket library,
    connect the command socket, read exactly one command byte with
    `MSG_WAITALL`, check it, then connect the data socket. Every failure exits
    with status 1; only a client that got its command byte opens the data
    socket. */
module Handshake {
  import opened LittleEndian

  /** What `recv(cmd, &code, 1, MSG_WAITALL)` returned: one byte, 0 (the server
      closed the connection), or an error. */
  datatype RecvResult = OneByte(b: byte) | PeerClosed | RecvError

  /** The results of the start-up calls, in the order they are made. */
  datatype StartObs = StartObs(startupOk: bool, cmdConnected: bool, handshake: RecvResult,
                               dataConnected: bool)

  /** How start-up ended: with exit status 1 (saying whether the data socket's
      connect was attempted and whether the command socket was closed before
      exiting), or with both sockets connected and the main loop starting. */
  datatype Start = ExitOne(dataAttempted: bool, cmdClosed: bool) | Proceed

  /** The combined client's check: anything but exactly one byte equal to `'C'`
      exits. */
  predicate GotCode(r: RecvResult, want: byte)
  {
    r.OneByte? && r.b == want
  }

  /** ws_combined_client's start-up. It never closes the command socket before
      exiting. */
  function CombinedStart(o: StartObs): (r: Start)
    ensures r == Proceed <==> o.startupOk && o.cmdConnected && GotCode(o.handshake, 'C' as int) && o.dataConnected
    ensures r.ExitOne? ==> !r.cmdClosed
    ensures r.ExitOne? && r.dataAttempted <==> o.startupOk && o.cmdConnected && GotCode(o.handshake, 'C' as int) && !o.dataConnected
  {
    if !o.startupOk then ExitOne(false, false)
    else if !o.cmdConnected then ExitOne(false, false)
    else if !(o.handshake.OneByte? && o.handshake.b == 'C' as int) then ExitOne(false, false)
    else if !o.dataConnected then ExitOne(true, false)
    else Proceed
  }

  /** ws_throughput_client's start-up: a wrong handshake or a failed data
      connect closes the command socket before exiting. */
  function ThroughputStart(o: StartObs): (r: Start)
    ensures r == Proceed <==> o.startupOk && o.cmdConnected && GotCode(o.handshake, 'T' as int) && o.dataConnected
    ensures r.ExitOne? && r.dataAttempted <==> o.startupOk && o.cmdConnected && GotCode(o.handshake, 'T' as int) && !o.dataConnected
    ensures r.ExitOne? && r.cmdClosed <==> o.startupOk && o.cmdConnected && !(GotCode(o.handshake, 'T' as int) && o.dataConnected)
  {
    if !o.startupOk then ExitOne(false, false)
    else if !o.cmdConnected then ExitOne(false, false)
    else if o.handshake != OneByte('T' as int) then ExitOne(false, true)
    else if !o.dataConnected then ExitOne(true, true)
    else Proceed
  }

  /** A wrong or missing command byte ends start-up before the data socket is
      touched, whichever client; only the throughput client closes its command
      socket on the way out. */
  lemma WrongCodeNeverOpensData(o: StartObs)
    requires o.startupOk && o.cmdConnected
    ensures !GotCode(o.handshake, 'C' as int) ==> CombinedStart(o) == ExitOne(false, false)
    ensures !GotCode(o.handshake, 'T' as int) ==> ThroughputStart(o) == ExitOne(false, true)
  {
  }

  /** The two clients differ only in the byte they expect and in closing the
      command socket: with the same outcomes and the right byte for each, both
      proceed or both exit after the same calls. */
  lemma ClientsAgree(o: StartObs, c: StartObs)
    requires o.startupOk == c.startupOk && o.cmdConnected == c.cmdConnected
    requires o.dataConnected == c.dataConnected
    requires o.handshake == OneByte('T' as int) && c.handshake == OneByte('C' as int)
    ensures ThroughputStart(o) == Proceed <==> CombinedStart(c) == Proceed
    ensures ThroughputStart(o).ExitOne? ==> CombinedStart(c).ExitOne?
                                            && ThroughputStart(o).dataAttempted == CombinedStart(c).dataAttempted
  {
  }
}
