/** The combined server's data receiver: it appends every received chunk to a
    buffer, cuts the buffer into 65536-byte frames, decodes the little-endian
    32-bit counter at the start of each frame and counts gaps between
    consecutive counters. Ends with the end-to-end property of the data
    channel: whatever the chunking, the frames a combined sender sent in full
    are recovered, with no loss counted until its 32-bit counter wraps. */
module Reassembly {
  import opened LittleEndian
  import Streaming

  const PACKET_SIZE: nat := 65536
  const HEADER_SIZE: nat := 4

  function Flatten(fs: seq<seq<byte>>): seq<byte>
  {
    if |fs| == 0 then [] else fs[0] + Flatten(fs[1..])
  }

  /** Reference: the consecutive `PACKET_SIZE` slices of a byte stream, and the
      incomplete tail after them. */
  function SplitFrames(s: seq<byte>): (r: (seq<seq<byte>>, seq<byte>))
    ensures |r.1| < PACKET_SIZE
    ensures forall i :: 0 <= i < |r.0| ==> |r.0[i]| == PACKET_SIZE
    decreases |s|
  {
    if |s| < PACKET_SIZE then ([], s)
    else
      var r := SplitFrames(s[PACKET_SIZE..]);
      ([s[..PACKET_SIZE]] + r.0, r.1)
  }

  /** The frames and the tail put back together give the stream again, so no
      byte is dropped or reordered, and the stream's length is a whole number of
      frames plus the tail. */
  lemma {:induction false} SplitFramesRejoin(s: seq<byte>)
    ensures Flatten(SplitFrames(s).0) + SplitFrames(s).1 == s
    ensures |s| == PACKET_SIZE * |SplitFrames(s).0| + |SplitFrames(s).1|
    decreases |s|
  {
    if |s| >= PACKET_SIZE {
      var r := SplitFrames(s[PACKET_SIZE..]);
      SplitFramesRejoin(s[PACKET_SIZE..]);
      assert Flatten([s[..PACKET_SIZE]] + r.0) == s[..PACKET_SIZE] + Flatten(r.0) by {
        assert ([s[..PACKET_SIZE]] + r.0)[1..] == r.0;
      }
      assert s == s[..PACKET_SIZE] + s[PACKET_SIZE..];
    }
  }

  /** Splitting depends only on the bytes, not on where they were cut: splitting
      `x + y` yields the frames of `x`, then the frames of `x`'s tail followed by
      `y`. */
  lemma {:induction false} SplitAppend(x: seq<byte>, y: seq<byte>)
    ensures SplitFrames(x + y).0 == SplitFrames(x).0 + SplitFrames(SplitFrames(x).1 + y).0
    ensures SplitFrames(x + y).1 == SplitFrames(SplitFrames(x).1 + y).1
    decreases |x|
  {
    if |x| >= PACKET_SIZE {
      assert (x + y)[..PACKET_SIZE] == x[..PACKET_SIZE];
      assert (x + y)[PACKET_SIZE..] == x[PACKET_SIZE..] + y;
      SplitAppend(x[PACKET_SIZE..], y);
    }
  }

  /** A stream made of whole frames followed by a short tail splits back into
      exactly those frames and that tail. */
  lemma {:induction false} SplitFlatten(fs: seq<seq<byte>>, tail: seq<byte>)
    requires forall i :: 0 <= i < |fs| ==> |fs[i]| == PACKET_SIZE
    requires |tail| < PACKET_SIZE
    ensures SplitFrames(Flatten(fs) + tail) == (fs, tail)
  {
    if |fs| > 0 {
      var s := Flatten(fs) + tail;
      assert s == fs[0] + (Flatten(fs[1..]) + tail);
      assert s[..PACKET_SIZE] == fs[0];
      assert s[PACKET_SIZE..] == Flatten(fs[1..]) + tail;
      SplitFlatten(fs[1..], tail);
      assert fs == [fs[0]] + fs[1..];
    } else {
      assert Flatten(fs) + tail == tail;
    }
  }

  // ---------------------------------------------------------------------------
  // Loss accounting

  /** `last_id` (-1 before the first frame) and `lost`. */
  datatype Tracker = Tracker(lastId: int, lost: int)

  const NO_FRAME_YET: Tracker := Tracker(-1, 0)

  /** `if last_id >= 0 and pkt != last_id + 1: lost += pkt - last_id - 1`, then
      `last_id = pkt`. */
  function Account(t: Tracker, pkt: nat): (r: Tracker)
    ensures r.lastId == pkt
    ensures t.lastId < 0 ==> r.lost == t.lost
    ensures t.lastId >= 0 ==> r.lost - t.lost == pkt - t.lastId - 1
    ensures r.lost != t.lost ==> t.lastId >= 0 && pkt != t.lastId + 1
  {
    if t.lastId >= 0 && pkt != t.lastId + 1 then Tracker(pkt, t.lost + (pkt - t.lastId - 1))
    else Tracker(pkt, t.lost)
  }

  function AccountAll(t: Tracker, headers: seq<nat>): Tracker
  {
    if |headers| == 0 then t else Account(AccountAll(t, headers[..|headers| - 1]), headers[|headers| - 1])
  }

  /** The header of every frame: `struct.unpack('<I', frame[:4])`. */
  function Headers(frames: seq<seq<byte>>): (hs: seq<nat>)
    requires forall i :: 0 <= i < |frames| ==> |frames[i]| >= HEADER_SIZE
    ensures |hs| == |frames|
    ensures forall i :: 0 <= i < |hs| ==> hs[i] == DecodeU32(frames[i]) && hs[i] < U32_LIMIT
  {
    if |frames| == 0 then []
    else Headers(frames[..|frames| - 1]) + [DecodeU32(frames[|frames| - 1])]
  }

  /** The loss counter telescopes: from the first decoded header on, each frame
      adds `pkt - last_id - 1` (0 when in sequence), so `lost` is the distance
      from the first header to the last minus the frames in between — negative
      after a reordering or a counter wrap. `last_id` is the latest header. */
  lemma {:induction false} LossTelescopes(headers: seq<nat>)
    requires |headers| > 0
    ensures AccountAll(NO_FRAME_YET, headers).lastId == headers[|headers| - 1]
    ensures AccountAll(NO_FRAME_YET, headers).lost
            == headers[|headers| - 1] - headers[0] - (|headers| - 1)
  {
    if |headers| > 1 {
      LossTelescopes(headers[..|headers| - 1]);
    }
  }

  /** In-order frames `0, 1, 2, ...` from a sender's 32-bit counter. Up to 2^32
      frames no loss is counted and `last_id == n - 1`. Past that the header
      wraps to 0, each wrap adds `pkt - last_id - 1 == -2^32` to `lost`, and
      `last_id` follows the wrapped counter. */
  lemma InOrderLoss(n: nat)
    requires n > 0
    ensures AccountAll(NO_FRAME_YET, Streaming.Counters(n)).lastId == (n - 1) % U32_LIMIT
    ensures AccountAll(NO_FRAME_YET, Streaming.Counters(n)).lost == (n - 1) % U32_LIMIT - (n - 1)
    ensures n <= U32_LIMIT ==> AccountAll(NO_FRAME_YET, Streaming.Counters(n)) == Tracker(n - 1, 0)
    ensures n == U32_LIMIT + 1 ==> AccountAll(NO_FRAME_YET, Streaming.Counters(n)) == Tracker(0, -(U32_LIMIT as int))
  {
    LossTelescopes(Streaming.Counters(n));
  }

  /** `total_pkts = last_id + 1 if last_id >= 0 else 0`. */
  function TotalPackets(t: Tracker): (n: int)
    ensures t.lastId >= 0 ==> n == t.lastId + 1
    ensures t.lastId < 0 ==> n == 0
  {
    if t.lastId >= 0 then t.lastId + 1 else 0
  }

  /** When the first frame carries counter 0, every packet up to `last_id` is
      either a frame that arrived or counted as lost:
      `total_pkts == frames + lost`. */
  lemma PacketsReceivedOrLost(headers: seq<nat>)
    requires |headers| > 0 && headers[0] == 0
    ensures TotalPackets(AccountAll(NO_FRAME_YET, headers))
            == |headers| + AccountAll(NO_FRAME_YET, headers).lost
  {
    LossTelescopes(headers);
  }

  /** `loss_pct = lost / total_pkts * 100 if total_pkts else 0`. */
  function LossPercent(t: Tracker): (pct: real)
    ensures TotalPackets(t) == 0 ==> pct == 0.0
    ensures TotalPackets(t) > 0 ==> pct * (TotalPackets(t) as real) == (t.lost as real) * 100.0
  {
    var total := TotalPackets(t);
    if total != 0 then (t.lost as real) / (total as real) * 100.0 else 0.0
  }

  // ---------------------------------------------------------------------------
  // The receive loop

  /** The receiver's state: the reassembly buffer, `total_bytes`, and the loss
      tracker. */
  datatype Receiver = Receiver(buf: seq<byte>, totalBytes: nat, tracker: Tracker)

  const START: Receiver := Receiver([], 0, NO_FRAME_YET)

  /** Appends a chunk and takes out every complete frame (lines of the inner
      `while len(buf) >= PACKET_SIZE` loop). Returns the frames taken out. */
  function Feed(r: Receiver, chunk: seq<byte>): (out: (Receiver, seq<seq<byte>>))
    ensures |out.0.buf| < PACKET_SIZE
    ensures forall i :: 0 <= i < |out.1| ==> |out.1[i]| == PACKET_SIZE
    ensures out.0.totalBytes + |out.0.buf| == r.totalBytes + |r.buf| + |chunk|
    ensures Flatten(out.1) + out.0.buf == r.buf + chunk
  {
    var split := SplitFrames(r.buf + chunk);
    SplitFramesRejoin(r.buf + chunk);
    (Receiver(split.1, r.totalBytes + PACKET_SIZE * |split.0|,
              AccountAll(r.tracker, Headers(split.0))),
     split.0)
  }

  /** The inner loop as written: take a frame from the front while the buffer
      holds one, add its length to the total, decode its header when it has
      one, and account for it. */
  method ProcessChunk(r: Receiver, chunk: seq<byte>) returns (r': Receiver, frames: seq<seq<byte>>)
    ensures (r', frames) == Feed(r, chunk)
    ensures |r'.buf| < PACKET_SIZE
  {
    var buf := r.buf + chunk;
    var total: nat := r.totalBytes;
    var tracker := r.tracker;
    frames := [];
    assert SplitFrames(r.buf + chunk).0 == frames + SplitFrames(buf).0;
    while |buf| >= PACKET_SIZE
      invariant Taken(r, chunk, buf, frames, total, tracker)
      decreases |buf|
    {
      var frame := buf[..PACKET_SIZE];
      TakeOne(r, chunk, buf, frames, total, tracker);
      buf := buf[PACKET_SIZE..];
      total := total + |frame|;
      if |frame| >= HEADER_SIZE {
        var pkt := DecodeU32(frame[..HEADER_SIZE]);
        tracker := Account(tracker, pkt);
      }
      frames := frames + [frame];
    }
    TakenAll(r, chunk, buf, frames, total, tracker);
    r' := Receiver(buf, total, tracker);
  }

  /** The loop's invariant: `frames` have been cut from the front of the split,
      `buf` splits into the remaining frames and the same tail, and the total and
      tracker account for `frames`. */
  ghost predicate Taken(r: Receiver, chunk: seq<byte>, buf: seq<byte>, frames: seq<seq<byte>>,
                        total: nat, tracker: Tracker)
  {
    && (forall i :: 0 <= i < |frames| ==> |frames[i]| == PACKET_SIZE)
    && SplitFrames(r.buf + chunk).0 == frames + SplitFrames(buf).0
    && SplitFrames(r.buf + chunk).1 == SplitFrames(buf).1
    && total == r.totalBytes + PACKET_SIZE * |frames|
    && tracker == AccountAll(r.tracker, Headers(frames))
  }

  lemma TakeOne(r: Receiver, chunk: seq<byte>, buf: seq<byte>, frames: seq<seq<byte>>,
                total: nat, tracker: Tracker)
    requires Taken(r, chunk, buf, frames, total, tracker)
    requires |buf| >= PACKET_SIZE
    ensures var frame := buf[..PACKET_SIZE];
            Taken(r, chunk, buf[PACKET_SIZE..], frames + [frame], total + PACKET_SIZE,
                  Account(tracker, DecodeU32(frame[..HEADER_SIZE])))
  {
    var frame := buf[..PACKET_SIZE];
    SplitStep(buf);
    SplitRegroup(frames, frame, SplitFrames(buf[PACKET_SIZE..]).0);
    AccountStep(r.tracker, frames, frame);
  }

  lemma TakenAll(r: Receiver, chunk: seq<byte>, buf: seq<byte>, frames: seq<seq<byte>>,
                 total: nat, tracker: Tracker)
    requires Taken(r, chunk, buf, frames, total, tracker)
    requires |buf| < PACKET_SIZE
    ensures (Receiver(buf, total, tracker), frames) == Feed(r, chunk)
  {
    SplitShort(buf);
    assert frames + SplitFrames(buf).0 == frames;
  }

  lemma SplitShort(buf: seq<byte>)
    requires |buf| < PACKET_SIZE
    ensures SplitFrames(buf) == ([], buf)
  {
  }

  /** One step of the reference split: a buffer holding a frame splits into that
      frame followed by the split of the rest. */
  lemma SplitStep(buf: seq<byte>)
    requires |buf| >= PACKET_SIZE
    ensures SplitFrames(buf).0 == [buf[..PACKET_SIZE]] + SplitFrames(buf[PACKET_SIZE..]).0
    ensures SplitFrames(buf).1 == SplitFrames(buf[PACKET_SIZE..]).1
  {
  }

  lemma SplitRegroup(frames: seq<seq<byte>>, frame: seq<byte>, rest: seq<seq<byte>>)
    ensures frames + ([frame] + rest) == (frames + [frame]) + rest
  {
  }

  /** Accounting for one more frame extends the header sequence by its header. */
  lemma AccountStep(t: Tracker, frames: seq<seq<byte>>, frame: seq<byte>)
    requires forall i :: 0 <= i < |frames| ==> |frames[i]| >= HEADER_SIZE
    requires |frame| >= HEADER_SIZE
    ensures AccountAll(t, Headers(frames + [frame]))
            == Account(AccountAll(t, Headers(frames)), DecodeU32(frame[..HEADER_SIZE]))
  {
    assert (frames + [frame])[..|frames|] == frames;
    assert frame[..HEADER_SIZE][..4] == frame[..4];
    var hs := Headers(frames + [frame]);
    assert hs == Headers(frames) + [DecodeU32(frame)];
    assert hs[..|hs| - 1] == Headers(frames);
  }

  /** What one `recv` produced: a chunk (empty when the peer closed), a timeout
      (the loop just continues), an error (the loop ends), or the stop flag seen
      at the top of the loop. */
  datatype RecvEvent = Chunk(bytes: seq<byte>) | TimedOut | Failed | StopSeen

  predicate EndsLoop(e: RecvEvent)
  {
    e == Chunk([]) || e.Failed? || e.StopSeen?
  }

  /** The receive loop: stops at an empty chunk, an error or the stop flag. */
  function DataLoop(r: Receiver, events: seq<RecvEvent>): (out: (Receiver, seq<seq<byte>>))
    decreases |events|
  {
    if |events| == 0 || EndsLoop(events[0]) then (r, [])
    else if events[0].Chunk? then
      var fed := Feed(r, events[0].bytes);
      var rest := DataLoop(fed.0, events[1..]);
      (rest.0, fed.1 + rest.1)
    else
      DataLoop(r, events[1..])
  }

  /** Reference: the bytes received before the loop ended, in order. */
  function Received(events: seq<RecvEvent>): seq<byte>
  {
    if |events| == 0 || EndsLoop(events[0]) then []
    else (if events[0].Chunk? then events[0].bytes else []) + Received(events[1..])
  }

  /** The receive loop's result depends only on the concatenation of the chunks:
      the frames taken out are the consecutive 65536-byte slices of everything
      received after the buffer, the buffer keeps the short tail, and the loss
      tracker has accounted for the frames' headers in order. */
  lemma {:induction false} DataLoopSplits(r: Receiver, events: seq<RecvEvent>)
    requires |r.buf| < PACKET_SIZE
    ensures var out := DataLoop(r, events);
            var split := SplitFrames(r.buf + Received(events));
            && out.1 == split.0
            && out.0.buf == split.1
            && out.0.totalBytes == r.totalBytes + PACKET_SIZE * |split.0|
            && out.0.tracker == AccountAll(r.tracker, Headers(split.0))
    decreases |events|
  {
    if |events| == 0 || EndsLoop(events[0]) {
      assert r.buf + Received(events) == r.buf;
      SplitShort(r.buf);
    } else if events[0].Chunk? {
      var fed := Feed(r, events[0].bytes);
      DataLoopSplits(fed.0, events[1..]);
      ChunkThenRest(r, events[0].bytes, Received(events[1..]));
      assert r.buf + Received(events) == r.buf + (events[0].bytes + Received(events[1..]));
    } else {
      DataLoopSplits(r, events[1..]);
      assert Received(events) == Received(events[1..]);
    }
  }

  /** Feeding a chunk and then splitting the rest of the stream after the new
      buffer is the same as splitting the chunk and the rest together: frames,
      tail, byte total and tracker all compose. */
  lemma ChunkThenRest(r: Receiver, chunk: seq<byte>, more: seq<byte>)
    ensures var fed := Feed(r, chunk);
            var later := SplitFrames(fed.0.buf + more);
            var whole := SplitFrames(r.buf + (chunk + more));
            && whole.0 == fed.1 + later.0
            && whole.1 == later.1
            && fed.0.totalBytes + PACKET_SIZE * |later.0| == r.totalBytes + PACKET_SIZE * |whole.0|
            && AccountAll(fed.0.tracker, Headers(later.0)) == AccountAll(r.tracker, Headers(whole.0))
  {
    var first := SplitFrames(r.buf + chunk);
    var later := SplitFrames(first.1 + more);
    assert r.buf + (chunk + more) == (r.buf + chunk) + more;
    SplitAppend(r.buf + chunk, more);
    HeadersAppend(first.0, later.0);
    AccountAllAppend(r.tracker, Headers(first.0), Headers(later.0));
  }

  lemma {:induction false} HeadersAppend(a: seq<seq<byte>>, b: seq<seq<byte>>)
    requires forall i :: 0 <= i < |a| ==> |a[i]| >= HEADER_SIZE
    requires forall i :: 0 <= i < |b| ==> |b[i]| >= HEADER_SIZE
    ensures Headers(a + b) == Headers(a) + Headers(b)
  {
  }

  lemma {:induction false} AccountAllAppend(t: Tracker, a: seq<nat>, b: seq<nat>)
    ensures AccountAll(t, a + b) == AccountAll(AccountAll(t, a), b)
    decreases |b|
  {
    if |b| > 0 {
      assert (a + b)[..|a + b| - 1] == a + b[..|b| - 1];
      AccountAllAppend(t, a, b[..|b| - 1]);
    } else {
      assert a + b == a;
    }
  }

  /** Bytes are conserved: after the loop, `total_bytes + len(buf)` is the number
      of bytes received, `total_bytes` is a whole number of frames, and fewer than
      65536 bytes wait in the buffer. */
  lemma Conservation(events: seq<RecvEvent>)
    ensures var out := DataLoop(START, events);
            && out.0.totalBytes + |out.0.buf| == |Received(events)|
            && out.0.totalBytes % PACKET_SIZE == 0
            && |out.0.buf| < PACKET_SIZE
  {
    var received := Received(events);
    var out := DataLoop(START, events);
    var split := SplitFrames(received);
    assert START.buf + received == received;
    DataLoopSplits(START, events);
    assert out.0.buf == split.1 && out.0.totalBytes == PACKET_SIZE * |split.0|;
    SplitFramesRejoin(received);
    WholeFrames(|split.0|);
  }

  lemma WholeFrames(k: nat)
    ensures (PACKET_SIZE * k) % PACKET_SIZE == 0
  {
  }

  /** End to end on the data channel: a combined sender's frames with counters
      `0, 1, 2, ...` (mod 2^32), followed by at most a partial frame and cut into
      any chunks, are taken out by the server as exactly those frames, and
      `total_bytes` counts them all. Up to 2^32 frames `last_id` is `n - 1`, no
      loss is counted, `total_pkts` is `n` and the loss percentage is 0; past
      that the wrapped counter makes `lost` negative and `total_pkts` restart. */
  lemma EndToEnd(n: nat, body: seq<byte>, tail: seq<byte>, events: seq<RecvEvent>)
    requires 0 < n
    requires |body| == Streaming.FRAME_SIZE - Streaming.HEADER_SIZE
    requires |tail| < PACKET_SIZE
    requires Received(events) == Streaming.Wire(Streaming.Counters(n), body) + tail
    ensures var out := DataLoop(START, events);
            && |out.1| == n
            && (forall i :: 0 <= i < n ==> |out.1[i]| == PACKET_SIZE && DecodeU32(out.1[i]) == i % U32_LIMIT)
            && out.0.totalBytes == PACKET_SIZE * n
            && TotalPackets(out.0.tracker) == (n - 1) % U32_LIMIT + 1
            && out.0.tracker.lost == (n - 1) % U32_LIMIT - (n - 1)
    ensures var out := DataLoop(START, events);
            n <= U32_LIMIT ==> && out.0.tracker == Tracker(n - 1, 0)
                               && TotalPackets(out.0.tracker) == n
                               && LossPercent(out.0.tracker) == 0.0
  {
    ReceivedFrames(n, body, tail, events);
    ReceivedCounts(n, body, tail, events);
  }

  /** The frames the server takes out carry the counters `0, 1, 2, ...` mod
      2^32, in order. */
  lemma ReceivedFrames(n: nat, body: seq<byte>, tail: seq<byte>, events: seq<RecvEvent>)
    requires |body| == Streaming.FRAME_SIZE - Streaming.HEADER_SIZE
    requires |tail| < PACKET_SIZE
    requires Received(events) == Streaming.Wire(Streaming.Counters(n), body) + tail
    ensures var out := DataLoop(START, events);
            && |out.1| == n
            && forall i :: 0 <= i < n ==> |out.1[i]| == PACKET_SIZE && DecodeU32(out.1[i]) == i % U32_LIMIT
  {
    var cs := Streaming.Counters(n);
    var fs := FramesOf(cs, body);
    var out := DataLoop(START, events);
    ServerTakesSentFrames(n, body, tail, events);
    forall i | 0 <= i < n
      ensures |out.1[i]| == PACKET_SIZE && DecodeU32(out.1[i]) == i % U32_LIMIT
    {
      assert out.1[i] == fs[i];
    }
  }

  /** The server's counters after the sent frames: `total_bytes` is that of `n`
      frames; `last_id` and `lost` are those of the in-order counters, so up to
      2^32 frames nothing is lost, `total_pkts` is `n` and the loss percentage
      is 0. */
  lemma ReceivedCounts(n: nat, body: seq<byte>, tail: seq<byte>, events: seq<RecvEvent>)
    requires 0 < n
    requires |body| == Streaming.FRAME_SIZE - Streaming.HEADER_SIZE
    requires |tail| < PACKET_SIZE
    requires Received(events) == Streaming.Wire(Streaming.Counters(n), body) + tail
    ensures var out := DataLoop(START, events);
            && out.0.tracker == AccountAll(NO_FRAME_YET, Streaming.Counters(n))
            && out.0.totalBytes == PACKET_SIZE * n
            && TotalPackets(out.0.tracker) == (n - 1) % U32_LIMIT + 1
            && out.0.tracker.lost == (n - 1) % U32_LIMIT - (n - 1)
    ensures var out := DataLoop(START, events);
            n <= U32_LIMIT ==> && out.0.tracker == Tracker(n - 1, 0)
                               && TotalPackets(out.0.tracker) == n
                               && LossPercent(out.0.tracker) == 0.0
  {
    var cs := Streaming.Counters(n);
    var fs := FramesOf(cs, body);
    var out := DataLoop(START, events);
    ServerTakesSentFrames(n, body, tail, events);
    HeadersOfFrames(cs, body);
    InOrderLoss(n);
    if n <= U32_LIMIT {
      NoLossPercent(out.0.tracker);
    }
  }

  /** The server's split of the sent stream gives back exactly the sent
      frames, in order, and counts their bytes. */
  lemma ServerTakesSentFrames(n: nat, body: seq<byte>, tail: seq<byte>, events: seq<RecvEvent>)
    requires |body| == Streaming.FRAME_SIZE - Streaming.HEADER_SIZE
    requires |tail| < PACKET_SIZE
    requires Received(events) == Streaming.Wire(Streaming.Counters(n), body) + tail
    ensures var out := DataLoop(START, events);
            var fs := FramesOf(Streaming.Counters(n), body);
            && out.1 == fs
            && out.0.tracker == AccountAll(NO_FRAME_YET, Headers(fs))
            && out.0.totalBytes == PACKET_SIZE * n
  {
    var cs := Streaming.Counters(n);
    var fs := FramesOf(cs, body);
    WireIsFlatten(cs, body);
    SplitFlatten(fs, tail);
    DataLoopSplits(START, events);
    assert START.buf + Received(events) == Flatten(fs) + tail;
  }

  /** Decoding the headers of built frames gives back their counters. */
  lemma HeadersOfFrames(cs: seq<nat>, body: seq<byte>)
    requires forall i :: 0 <= i < |cs| ==> cs[i] < U32_LIMIT
    requires |body| == Streaming.FRAME_SIZE - Streaming.HEADER_SIZE
    ensures Headers(FramesOf(cs, body)) == cs
  {
    var hs := Headers(FramesOf(cs, body));
    assert forall i :: 0 <= i < |cs| ==> hs[i] == cs[i];
  }

  lemma NoLossPercent(t: Tracker)
    requires t.lost == 0
    ensures LossPercent(t) == 0.0
  {
    var total := TotalPackets(t);
    if total != 0 {
      assert (t.lost as real) / (total as real) == 0.0;
    }
  }

  /** The frames a sender builds for the given counters. */
  function FramesOf(cs: seq<nat>, body: seq<byte>): (fs: seq<seq<byte>>)
    requires forall i :: 0 <= i < |cs| ==> cs[i] < U32_LIMIT
    requires |body| == Streaming.FRAME_SIZE - Streaming.HEADER_SIZE
    ensures |fs| == |cs|
    ensures forall i :: 0 <= i < |fs| ==> |fs[i]| == PACKET_SIZE && DecodeU32(fs[i]) == cs[i]
  {
    seq(|cs|, i requires 0 <= i < |cs| => Streaming.Frame(cs[i], body))
  }

  lemma {:induction false} WireIsFlatten(cs: seq<nat>, body: seq<byte>)
    requires forall i :: 0 <= i < |cs| ==> cs[i] < U32_LIMIT
    requires |body| == Streaming.FRAME_SIZE - Streaming.HEADER_SIZE
    ensures Streaming.Wire(cs, body) == Flatten(FramesOf(cs, body))
  {
    if |cs| > 0 {
      WireIsFlatten(cs[1..], body);
      assert FramesOf(cs, body)[1..] == FramesOf(cs[1..], body);
    }
  }
}
