/**
 * Bytes, fixed-width unsigned values and the byte-order conversion of
 * `SwapEndian` (src/main.cpp). The tool runs on a little-endian host and
 * reads big-endian ELF fields by overlaying a native struct and swapping
 * each field; the lemmas here show that this is the same as decoding the
 * field's bytes in big-endian order.
 */
module Bytes {
  type byte = x: int | 0 <= x < 256
  type uint32 = x: int | 0 <= x < 0x1_0000_0000

  /** 256 to the power n: one more than the largest n-byte value. */
  function Pow256(n: nat): (r: nat)
    ensures r >= 1
  {
    if n == 0 then 1 else 256 * Pow256(n - 1)
  }

  function Reverse<T>(s: seq<T>): (r: seq<T>)
    ensures |r| == |s|
    ensures forall i :: 0 <= i < |s| ==> r[i] == s[|s| - 1 - i]
  {
    if s == [] then [] else Reverse(s[1..]) + [s[0]]
  }

  /** The bytes of `u` in memory on a little-endian host, least significant first. */
  function LittleEndianBytes(width: nat, u: nat): (r: seq<byte>)
    ensures |r| == width
  {
    if width == 0 then [] else [u % 256] + LittleEndianBytes(width - 1, u / 256)
  }

  /** The value a little-endian host reads from `bs`. */
  function LittleEndianValue(bs: seq<byte>): (r: nat)
    ensures r < Pow256(|bs|)
  {
    if bs == [] then 0 else bs[0] + 256 * LittleEndianValue(bs[1..])
  }

  /** The bytes of `u` most significant first, as the ELF target stores them. */
  function BigEndianBytes(width: nat, u: nat): (r: seq<byte>)
    ensures |r| == width
  {
    if width == 0 then [] else BigEndianBytes(width - 1, u / 256) + [u % 256]
  }

  /** The value of a big-endian field. */
  function BigEndianValue(bs: seq<byte>): (r: nat)
    ensures r < Pow256(|bs|)
  {
    if bs == [] then 0 else 256 * BigEndianValue(bs[..|bs| - 1]) + bs[|bs| - 1]
  }

  /** What `SwapEndian` computes for a `width`-byte value: its memory bytes reversed. */
  function Swapped(width: nat, u: nat): nat
  {
    LittleEndianValue(Reverse(LittleEndianBytes(width, u)))
  }

  /**
   * `SwapEndian`: copies the value's bytes into a second buffer in reverse order
   * and reads that buffer back as a value.
   */
  method SwapEndian(width: nat, u: nat) returns (r: nat)
    requires u < Pow256(width)
    ensures r == Swapped(width, u)
    ensures r < Pow256(width)
  {
    var source := LittleEndianBytes(width, u);
    var dest := new byte[width];
    for k := 0 to width
      invariant forall i :: 0 <= i < k ==> dest[i] == source[width - i - 1]
    {
      dest[k] := source[width - k - 1];
    }
    assert dest[..] == Reverse(source);
    r := LittleEndianValue(dest[..]);
  }

  lemma {:induction false} LittleEndianRoundTrip(width: nat, u: nat)
    requires u < Pow256(width)
    ensures LittleEndianValue(LittleEndianBytes(width, u)) == u
  {
    if width > 0 {
      LittleEndianRoundTrip(width - 1, u / 256);
      assert LittleEndianBytes(width, u)[1..] == LittleEndianBytes(width - 1, u / 256);
    }
  }

  lemma {:induction false} LittleEndianBytesOfValue(bs: seq<byte>)
    ensures LittleEndianBytes(|bs|, LittleEndianValue(bs)) == bs
  {
    if bs != [] {
      LittleEndianBytesOfValue(bs[1..]);
      var v := LittleEndianValue(bs[1..]);
      assert (bs[0] + 256 * v) % 256 == bs[0];
      assert (bs[0] + 256 * v) / 256 == v;
    }
  }

  lemma {:induction false} BigEndianRoundTrip(width: nat, u: nat)
    requires u < Pow256(width)
    ensures BigEndianValue(BigEndianBytes(width, u)) == u
  {
    if width > 0 {
      BigEndianRoundTrip(width - 1, u / 256);
      var bs := BigEndianBytes(width, u);
      assert bs[..|bs| - 1] == BigEndianBytes(width - 1, u / 256);
    }
  }

  /** A big-endian field read is a little-endian read of the reversed bytes. */
  lemma {:induction false} BigEndianIsReversedLittle(bs: seq<byte>)
    ensures BigEndianValue(bs) == LittleEndianValue(Reverse(bs))
  {
    if bs != [] {
      var init := bs[..|bs| - 1];
      BigEndianIsReversedLittle(init);
      var rev := Reverse(bs);
      assert rev[0] == bs[|bs| - 1];
      assert rev[1..] == Reverse(init);
    }
  }

  lemma {:induction false} BigEndianBytesIsReversed(width: nat, u: nat)
    ensures BigEndianBytes(width, u) == Reverse(LittleEndianBytes(width, u))
  {
    if width > 0 {
      BigEndianBytesIsReversed(width - 1, u / 256);
      var le := LittleEndianBytes(width, u);
      assert le[1..] == LittleEndianBytes(width - 1, u / 256);
      assert Reverse(le) == Reverse(le[1..]) + [le[0]];
    }
  }

  /**
   * Swapping a field that a little-endian host loaded from `bs` gives the
   * field's big-endian value: `SwapEndian(hdr->field)` decodes the ELF field.
   */
  lemma SwapOfNativeLoad(bs: seq<byte>)
    ensures Swapped(|bs|, LittleEndianValue(bs)) == BigEndianValue(bs)
  {
    LittleEndianBytesOfValue(bs);
    BigEndianIsReversedLittle(bs);
  }

  /** `SwapEndian` is its own inverse. */
  lemma SwappedInvolutive(width: nat, u: nat)
    requires u < Pow256(width)
    ensures Swapped(width, Swapped(width, u)) == u
  {
    var le := LittleEndianBytes(width, u);
    LittleEndianBytesOfValue(Reverse(le));
    assert Reverse(Reverse(le)) == le;
    LittleEndianRoundTrip(width, u);
  }

  /**
   * The memory bytes of a swapped value are the big-endian bytes of the
   * original: what `WriteFile(&nid, 4, ...)` puts on disk after
   * `nid = SwapEndian(value)`.
   */
  lemma SwappedBytes(width: nat, u: nat)
    ensures LittleEndianBytes(width, Swapped(width, u)) == BigEndianBytes(width, u)
  {
    LittleEndianBytesOfValue(Reverse(LittleEndianBytes(width, u)));
    BigEndianBytesIsReversed(width, u);
  }
}
