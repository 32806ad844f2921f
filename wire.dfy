/**
 * The persistence wire format: fixed-width unsigned integers in big-endian
 * byte order, the two's-complement view of the signed types, the u32
 * length-prefixed frame used by sized buffers and strings, and C strings.
 */
module Wire {

  datatype Option<T> = None | Some(value: T)

  type u8 = x: int | 0 <= x < 0x100
  type u16 = x: int | 0 <= x < 0x1_0000
  type u32 = x: int | 0 <= x < 0x1_0000_0000
  type u64 = x: int | 0 <= x < 0x1_0000_0000_0000_0000

  type i8 = x: int | -0x80 <= x < 0x80
  type i16 = x: int | -0x8000 <= x < 0x8000
  type i32 = x: int | -0x8000_0000 <= x < 0x8000_0000
  type i64 = x: int | -0x8000_0000_0000_0000 <= x < 0x8000_0000_0000_0000

  /** The contents of a stream, or of a memory block. */
  type Bytes = seq<u8>

  /** 256 to the power n: one more than the largest n-byte value. */
  function Pow256(n: nat): (r: nat)
    ensures r > 0
  {
    if n == 0 then 1 else 256 * Pow256(n - 1)
  }

  lemma Pow256Widths()
    ensures Pow256(1) == 0x100 && Pow256(2) == 0x1_0000
    ensures Pow256(4) == 0x1_0000_0000
    ensures Pow256(8) == 0x1_0000_0000_0000_0000
  {
  }

  /** The n-byte big-endian form of v: most significant byte first. */
  function EncodeBE(n: nat, v: nat): (r: Bytes)
    requires v < Pow256(n)
    ensures |r| == n
  {
    if n == 0 then [] else EncodeBE(n - 1, v / 256) + [v % 256]
  }

  /** The value of a big-endian byte string. */
  function DecodeBE(s: Bytes): (r: nat)
    ensures r < Pow256(|s|)
  {
    if s == [] then 0 else DecodeBE(s[..|s| - 1]) * 256 + s[|s| - 1]
  }

  /** Decoding an n-byte encoding gives the value back. */
  lemma {:induction false} DecodeEncode(n: nat, v: nat)
    requires v < Pow256(n)
    ensures DecodeBE(EncodeBE(n, v)) == v
  {
    if n > 0 {
      var s := EncodeBE(n, v);
      assert s[..|s| - 1] == EncodeBE(n - 1, v / 256);
      DecodeEncode(n - 1, v / 256);
    }
  }

  /** Every byte string is the encoding of its value: the encoding is onto. */
  lemma {:induction false} EncodeDecode(s: Bytes)
    ensures EncodeBE(|s|, DecodeBE(s)) == s
  {
    if s != [] {
      var init := s[..|s| - 1];
      var d := DecodeBE(s);
      assert d / 256 == DecodeBE(init) && d % 256 == s[|s| - 1];
      EncodeDecode(init);
      assert s == init + [s[|s| - 1]];
    }
  }

  /** Two values of the same width with the same encoding are equal. */
  lemma EncodeInjective(n: nat, v: nat, w: nat)
    requires v < Pow256(n) && w < Pow256(n)
    requires EncodeBE(n, v) == EncodeBE(n, w)
    ensures v == w
  {
    DecodeEncode(n, v);
    DecodeEncode(n, w);
  }

  /** The example of the wire format: a u32 0xDEADBEEF is stored as DE AD BE EF. */
  lemma DeadBeef()
    ensures EncodeBE(4, 0xDEADBEEF) == [0xDE, 0xAD, 0xBE, 0xEF]
  {
  }

  // Signed integers travel as the bit-identical unsigned integer of the same width.

  /** Half the range of w bytes: the bound of the signed w-byte integers. */
  function Half(w: nat): (r: int)
    requires w > 0
    ensures r > 0 && Pow256(w) == 2 * r
  {
    128 * Pow256(w - 1)
  }

  /** The unsigned integer with the two's-complement bits of x, in w bytes. */
  function Unsigned(w: nat, x: int): (r: nat)
    requires w > 0 && -Half(w) <= x < Half(w)
    ensures r < Pow256(w)
    ensures x >= 0 <==> r < Half(w)
  {
    if x < 0 then x + Pow256(w) else x
  }

  /** The signed integer whose two's-complement bits, in w bytes, are u. */
  function Signed(w: nat, u: nat): (r: int)
    requires w > 0 && u < Pow256(w)
    ensures -Half(w) <= r < Half(w)
    ensures r >= 0 <==> u < Half(w)
  {
    if u < Half(w) then u else u - Pow256(w)
  }

  /** Unsigned and Signed are inverse bijections of each width. */
  lemma SignedUnsigned(w: nat, x: int, u: nat)
    requires w > 0 && -Half(w) <= x < Half(w) && u < Pow256(w)
    ensures Signed(w, Unsigned(w, x)) == x
    ensures Unsigned(w, Signed(w, u)) == u
  {
  }

  // Frames: a u32 length followed by that many bytes.

  /** The length announced by a frame at the front of s, when its four
      length bytes and its whole payload are present. */
  function FrameLength(s: Bytes): (r: Option<nat>)
    ensures r.Some? <==> |s| >= 4 && DecodeBE(s[..4]) <= |s| - 4
    ensures r.Some? ==> r.value == DecodeBE(s[..4]) && 4 + r.value <= |s|
  {
    if |s| >= 4 && DecodeBE(s[..4]) <= |s| - 4 then Some(DecodeBE(s[..4])) else None
  }

  /** The frame holding a payload of fewer than 2^32 bytes. */
  function EncodeFrame(payload: Bytes): (r: Bytes)
    requires |payload| < Pow256(4)
    ensures |r| == 4 + |payload|
  {
    EncodeBE(4, |payload|) + payload
  }

  /** A frame read back announces its payload's length and holds the payload,
      whatever follows it on the stream. */
  lemma FrameRoundTrip(payload: Bytes, rest: Bytes)
    requires |payload| < Pow256(4)
    ensures FrameLength(EncodeFrame(payload) + rest) == Some(|payload|)
    ensures (EncodeFrame(payload) + rest)[4..4 + |payload|] == payload
    ensures (EncodeFrame(payload) + rest)[4 + |payload|..] == rest
  {
    var s := EncodeFrame(payload) + rest;
    assert s[..4] == EncodeBE(4, |payload|);
    DecodeEncode(4, |payload|);
  }

  // C strings: a memory block holding a NUL byte; the string ends at the first one.

  predicate IsCString(block: Bytes) {
    0 in block
  }

  /** strlen: the index of the first NUL byte. */
  function Strlen(block: Bytes): (r: nat)
    requires IsCString(block)
    ensures r < |block| && block[r] == 0
    ensures forall i :: 0 <= i < r ==> block[i] != 0
  {
    if block[0] == 0 then 0 else 1 + Strlen(block[1..])
  }
}
