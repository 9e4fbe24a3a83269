/** Little-endian unsigned integers over byte sequences: the layout in which the
    senders write the 32-bit frame counter (a `memcpy` of a `uint32_t` on a
    little-endian host) and in which `struct` packs `<I` and `<Q` fields. */
module LittleEndian {

  /** An octet. */
  type byte = x: int | 0 <= x < 256

  const U32_LIMIT: nat := 0x1_0000_0000
  const U64_LIMIT: nat := 0x1_0000_0000_0000_0000

  /** 256 to the power `n`: one more than the largest `n`-byte value. */
  function Pow256(n: nat): (r: nat)
    ensures r > 0
  {
    if n == 0 then 1 else 256 * Pow256(n - 1)
  }

  lemma Pow256Widths()
    ensures Pow256(4) == U32_LIMIT
    ensures Pow256(8) == U64_LIMIT
  {
  }

  /** The `n` little-endian bytes of `x`: least significant byte first. */
  function Encode(x: nat, n: nat): (r: seq<byte>)
    requires x < Pow256(n)
    ensures |r| == n
  {
    if n == 0 then [] else [x % 256] + Encode(x / 256, n - 1)
  }

  /** The unsigned value of a little-endian byte sequence. */
  function Decode(s: seq<byte>): (r: nat)
    ensures r < Pow256(|s|)
  {
    if |s| == 0 then 0 else s[0] as nat + 256 * Decode(s[1..])
  }

  /** Decoding what was encoded gives back the value. */
  lemma {:induction false} DecodeEncode(x: nat, n: nat)
    requires x < Pow256(n)
    ensures Decode(Encode(x, n)) == x
  {
    if n > 0 {
      var e := Encode(x, n);
      var lo, hi := x % 256, x / 256;
      assert x == lo + 256 * hi;
      assert hi < Pow256(n - 1);
      assert e[0] == lo;
      assert e[1..] == Encode(hi, n - 1);
      DecodeEncode(hi, n - 1);
      assert Decode(e) == e[0] as nat + 256 * Decode(e[1..]);
    }
  }

  /** Encoding what was decoded gives back the bytes: every byte sequence is the
      encoding of exactly one value of its width. */
  lemma {:induction false} EncodeDecode(s: seq<byte>)
    ensures Encode(Decode(s), |s|) == s
  {
    if |s| > 0 {
      var b, rest := s[0] as nat, Decode(s[1..]);
      var x := Decode(s);
      assert x == b + 256 * rest;
      DivModOfSum(b, rest);
      EncodeDecode(s[1..]);
      calc {
        Encode(x, |s|);
        [x % 256] + Encode(x / 256, |s| - 1);
        [b] + Encode(rest, |s[1..]|);
        [s[0]] + s[1..];
      }
      assert [s[0]] + s[1..] == s;
    }
  }

  /** Splitting `b + 256 * q` with `b < 256` into quotient and remainder. */
  lemma DivModOfSum(b: nat, q: nat)
    requires b < 256
    ensures (b + 256 * q) % 256 == b
    ensures (b + 256 * q) / 256 == q
  {
  }

  /** Encoding is injective at a fixed width. */
  lemma EncodeInjective(x: nat, y: nat, n: nat)
    requires x < Pow256(n) && y < Pow256(n)
    requires Encode(x, n) == Encode(y, n)
    ensures x == y
  {
    DecodeEncode(x, n);
    DecodeEncode(y, n);
  }

  /** The four bytes of a 32-bit unsigned value. */
  function EncodeU32(x: nat): (r: seq<byte>)
    requires x < U32_LIMIT
    ensures |r| == 4
  {
    Pow256Widths();
    Encode(x, 4)
  }

  /** The 32-bit unsigned value in the first four bytes of `s`. */
  function DecodeU32(s: seq<byte>): (r: nat)
    requires |s| >= 4
    ensures r < U32_LIMIT
  {
    Pow256Widths();
    Decode(s[..4])
  }

  /** The eight bytes of a 64-bit unsigned value. */
  function EncodeU64(x: nat): (r: seq<byte>)
    requires x < U64_LIMIT
    ensures |r| == 8
  {
    Pow256Widths();
    Encode(x, 8)
  }

  /** The 64-bit unsigned value in the first eight bytes of `s`. */
  function DecodeU64(s: seq<byte>): (r: nat)
    requires |s| >= 8
    ensures r < U64_LIMIT
  {
    Pow256Widths();
    Decode(s[..8])
  }

  /** A 32-bit header written in front of any payload reads back unchanged. */
  lemma U32HeaderRoundTrip(x: nat, rest: seq<byte>)
    requires x < U32_LIMIT
    ensures DecodeU32(EncodeU32(x) + rest) == x
  {
    Pow256Widths();
    assert (EncodeU32(x) + rest)[..4] == EncodeU32(x);
    DecodeEncode(x, 4);
  }

  /** Four bytes decode to a value whose encoding is those bytes. */
  lemma U32BytesRoundTrip(s: seq<byte>)
    requires |s| == 4
    ensures EncodeU32(DecodeU32(s)) == s
  {
    Pow256Widths();
    assert s[..4] == s;
    EncodeDecode(s);
  }

  lemma U64RoundTrip(x: nat)
    requires x < U64_LIMIT
    ensures DecodeU64(EncodeU64(x)) == x
  {
    Pow256Widths();
    assert EncodeU64(x)[..8] == EncodeU64(x);
    DecodeEncode(x, 8);
  }

  lemma U64BytesRoundTrip(s: seq<byte>)
    requires |s| == 8
    ensures EncodeU64(DecodeU64(s)) == s
  {
    Pow256Widths();
    assert s[..8] == s;
    EncodeDecode(s);
  }

  /** Reducing a 32-bit counter before adding to it does not change the
      wrapped result. */
  lemma AddMod(a: nat, b: nat)
    ensures (a % U32_LIMIT + b) % U32_LIMIT == (a + b) % U32_LIMIT
  {
  }
}
