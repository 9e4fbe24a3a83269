/** The fixed control record exchanged between the test sender and the
    controller: the `struct` format `<IfffQ` — a little-endian unsigned 32-bit
    sequence number, three 32-bit floats (throttle, steer, brake) and an
    unsigned 64-bit send timestamp in nanoseconds, with no padding. */
module ControlPacket {
  import opened Wrappers
  import opened LittleEndian

  /** `struct.calcsize("<IfffQ")`: 4 + 4 + 4 + 4 + 8 bytes. */
  const PACKET_SIZE: nat := 24

  const SEQ_OFFSET: nat := 0
  const THROTTLE_OFFSET: nat := 4
  const STEER_OFFSET: nat := 8
  const BRAKE_OFFSET: nat := 12
  const SEND_NS_OFFSET: nat := 16

  /** A 32-bit float field, carried as its IEEE-754 bit pattern. */
  type Word32 = x: nat | x < U32_LIMIT

  /** The bit patterns of the constant controls the test sender packs. */
  const THROTTLE_0_6: Word32 := 0x3F19_999A
  const ZERO_FLOAT: Word32 := 0

  /** The tuple `struct.pack` is given and `struct.unpack` returns. The integer
      fields are unbounded, as Python integers are; the float fields are opaque
      32-bit words. */
  datatype Packet = Packet(sequence: int, throttle: Word32, steer: Word32, brake: Word32, sendNs: int)

  /** `struct.pack` accepts the tuple only when `I` and `Q` are in range; otherwise
      it raises `struct.error`. */
  predicate Packable(p: Packet)
  {
    0 <= p.sequence < U32_LIMIT && 0 <= p.sendNs < U64_LIMIT
  }

  /** `struct.pack("<IfffQ", ...)`; `None` stands for the raised `struct.error`. */
  function Pack(p: Packet): (r: Option<seq<byte>>)
    ensures r.Some? <==> Packable(p)
    ensures r.Some? ==> |r.value| == PACKET_SIZE
    ensures r.Some? ==> DecodeU32(r.value[SEQ_OFFSET..]) == p.sequence
    ensures r.Some? ==> DecodeU32(r.value[THROTTLE_OFFSET..]) == p.throttle
    ensures r.Some? ==> DecodeU32(r.value[STEER_OFFSET..]) == p.steer
    ensures r.Some? ==> DecodeU32(r.value[BRAKE_OFFSET..]) == p.brake
    ensures r.Some? ==> DecodeU64(r.value[SEND_NS_OFFSET..]) == p.sendNs
  {
    if !Packable(p) then None
    else
      var b := EncodeU32(p.sequence) + EncodeU32(p.throttle) + EncodeU32(p.steer)
               + EncodeU32(p.brake) + EncodeU64(p.sendNs);
      FieldAt32(b, SEQ_OFFSET, p.sequence);
      FieldAt32(b, THROTTLE_OFFSET, p.throttle);
      FieldAt32(b, STEER_OFFSET, p.steer);
      FieldAt32(b, BRAKE_OFFSET, p.brake);
      assert b[SEND_NS_OFFSET..] == EncodeU64(p.sendNs);
      U64RoundTrip(p.sendNs);
      Some(b)
  }

  /** A 32-bit field written at offset `k` reads back from offset `k`. */
  lemma FieldAt32(b: seq<byte>, k: nat, x: nat)
    requires x < U32_LIMIT && k + 4 <= |b| && b[k..k + 4] == EncodeU32(x)
    ensures DecodeU32(b[k..]) == x
  {
    assert b[k..] == EncodeU32(x) + b[k + 4..];
    U32HeaderRoundTrip(x, b[k + 4..]);
  }

  /** `struct.unpack("<IfffQ", data)`; `None` stands for the `struct.error` raised
      when the buffer is not exactly 24 bytes long. */
  function Unpack(b: seq<byte>): (r: Option<Packet>)
    ensures r.Some? <==> |b| == PACKET_SIZE
    ensures r.Some? ==> Packable(r.value)
  {
    if |b| != PACKET_SIZE then None
    else
      Some(Packet(DecodeU32(b[SEQ_OFFSET..]), DecodeU32(b[THROTTLE_OFFSET..]),
                  DecodeU32(b[STEER_OFFSET..]), DecodeU32(b[BRAKE_OFFSET..]),
                  DecodeU64(b[SEND_NS_OFFSET..])))
  }

  /** Unpacking a packed record returns the same tuple. */
  lemma UnpackPack(p: Packet)
    requires Packable(p)
    ensures Pack(p).Some? && Unpack(Pack(p).value) == Some(p)
  {
  }

  /** Packing an unpacked buffer returns the same 24 bytes. */
  lemma PackUnpack(b: seq<byte>)
    requires |b| == PACKET_SIZE
    ensures Unpack(b).Some? && Pack(Unpack(b).value) == Some(b)
  {
    var p := Unpack(b).value;
    FieldRoundTrip32(b, SEQ_OFFSET);
    FieldRoundTrip32(b, THROTTLE_OFFSET);
    FieldRoundTrip32(b, STEER_OFFSET);
    FieldRoundTrip32(b, BRAKE_OFFSET);
    FieldRoundTrip64(b, SEND_NS_OFFSET);
    assert b == b[0..4] + b[4..8] + b[8..12] + b[12..16] + b[16..24];
  }

  /** The four bytes at offset `k` re-encode the 32-bit field read from them. */
  lemma FieldRoundTrip32(b: seq<byte>, k: nat)
    requires k + 4 <= |b|
    ensures EncodeU32(DecodeU32(b[k..])) == b[k..k + 4]
  {
    U32BytesRoundTrip(b[k..k + 4]);
    assert b[k..][..4] == b[k..k + 4] == b[k..k + 4][..4];
  }

  /** The eight bytes at offset `k` re-encode the 64-bit field read from them. */
  lemma FieldRoundTrip64(b: seq<byte>, k: nat)
    requires k + 8 <= |b|
    ensures EncodeU64(DecodeU64(b[k..])) == b[k..k + 8]
  {
    U64BytesRoundTrip(b[k..k + 8]);
    assert b[k..][..8] == b[k..k + 8] == b[k..k + 8][..8];
  }

  /** `seq = (seq + 1) & 0xFFFFFFFF`: the mask of a non-negative integer keeps its
      low 32 bits, so the counter wraps from 0xFFFFFFFF to 0. */
  function NextSeq(s: nat): (r: nat)
    ensures r < U32_LIMIT
    ensures s + 1 < U32_LIMIT ==> r == s + 1
    ensures s + 1 == U32_LIMIT ==> r == 0
  {
    (s + 1) % U32_LIMIT
  }

  /** The sequence numbers carried by the next `n` packets of a sender whose
      counter currently holds `s`. */
  function SeqsFrom(s: nat, n: nat): (r: seq<nat>)
    ensures |r| == n
    decreases n
  {
    if n == 0 then [] else [NextSeq(s)] + SeqsFrom(NextSeq(s), n - 1)
  }

  /** Packet `i` of the run (counting from 0) carries `(s + i + 1) mod 2^32`. */
  lemma {:induction false} SeqsFromAt(s: nat, n: nat, i: nat)
    requires i < n
    ensures SeqsFrom(s, n)[i] == (s + i + 1) % U32_LIMIT
    decreases n
  {
    if i > 0 {
      SeqsFromAt(NextSeq(s), n - 1, i - 1);
      AddMod(s + 1, i);
    }
  }

  /** The test sender starts its counter at 0 and increments before each packet:
      every sequence number is a 32-bit value, the first packet carries 1 and
      consecutive packets differ by exactly 1 modulo 2^32. */
  lemma SenderSequence(n: nat)
    ensures forall i :: 0 <= i < n ==> SeqsFrom(0, n)[i] < U32_LIMIT
    ensures n > 0 ==> SeqsFrom(0, n)[0] == 1
    ensures forall i :: 0 <= i < n - 1 ==>
              SeqsFrom(0, n)[i + 1] == (SeqsFrom(0, n)[i] + 1) % U32_LIMIT
  {
    forall i | 0 <= i < n
      ensures SeqsFrom(0, n)[i] == (i + 1) % U32_LIMIT
    {
      SeqsFromAt(0, n, i);
    }
    forall i | 0 <= i < n - 1
      ensures SeqsFrom(0, n)[i + 1] == (SeqsFrom(0, n)[i] + 1) % U32_LIMIT
    {
      AddMod(i + 1, 1);
    }
  }

  /** The record the test sender packs for sequence number `s` at `sendNs`. */
  function SenderPacket(s: nat, sendNs: int): Packet
    requires s < U32_LIMIT
  {
    Packet(s, THROTTLE_0_6, ZERO_FLOAT, ZERO_FLOAT, sendNs)
  }

  /** The sender's packets pack exactly when the timestamp fits 64 bits, and the
      receiver reads back the sequence number and the timestamp. */
  lemma SenderPacketRoundTrip(s: nat, sendNs: int)
    requires s < U32_LIMIT
    ensures Pack(SenderPacket(s, sendNs)).Some? <==> 0 <= sendNs < U64_LIMIT
    ensures Pack(SenderPacket(s, sendNs)).Some? ==>
              var q := Unpack(Pack(SenderPacket(s, sendNs)).value).value;
              q.sequence == s && q.sendNs == sendNs
  {
    if 0 <= sendNs < U64_LIMIT {
      UnpackPack(SenderPacket(s, sendNs));
    }
  }
}
