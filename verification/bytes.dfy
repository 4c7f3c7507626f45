/** Unsigned byte and fixed-width integer types, and the little-endian
    composition that the wM-Bus header uses for its multi-byte numbers. */
module Bytes {

  type byte = x: int | 0 <= x < 0x100
  type uint16 = x: int | 0 <= x < 0x1_0000
  type uint32 = x: int | 0 <= x < 0x1_0000_0000

  /** 256 raised to the `n`-th power: the number of values `n` bytes can hold. */
  function Pow256(n: nat): (r: nat)
    ensures r >= 1
  {
    if n == 0 then 1 else 256 * Pow256(n - 1)
  }

  /** The number whose little-endian encoding is `bs`: the first byte is the
      least significant one. This is the reference definition against which
      the header's shift-and-or compositions are proved. */
  function FromLittleEndian(bs: seq<byte>): (r: nat)
    ensures r < Pow256(|bs|)
  {
    if bs == [] then 0 else bs[0] + 256 * FromLittleEndian(bs[1..])
  }

  /** The `n` least significant bytes of `x`, least significant first. */
  function ToLittleEndian(x: nat, n: nat): (r: seq<byte>)
    ensures |r| == n
  {
    if n == 0 then [] else [x % 256] + ToLittleEndian(x / 256, n - 1)
  }

  /** Encoding a number that fits in `n` bytes and decoding it gives it back. */
  lemma {:induction false} DecodeEncode(x: nat, n: nat)
    requires x < Pow256(n)
    ensures FromLittleEndian(ToLittleEndian(x, n)) == x
  {
    if n > 0 {
      var t := ToLittleEndian(x, n);
      assert t[1..] == ToLittleEndian(x / 256, n - 1);
      DecodeEncode(x / 256, n - 1);
    }
  }

  /** Decoding a byte sequence and re-encoding it to the same width gives the
      same bytes back: the little-endian value determines every byte. */
  lemma {:induction false} EncodeDecode(bs: seq<byte>)
    ensures ToLittleEndian(FromLittleEndian(bs), |bs|) == bs
  {
    if bs != [] {
      var x := FromLittleEndian(bs);
      assert x % 256 == bs[0];
      assert x / 256 == FromLittleEndian(bs[1..]);
      EncodeDecode(bs[1..]);
    }
  }

  /** Two byte sequences of the same length have the same value only if they
      are equal. */
  lemma FromLittleEndianInjective(a: seq<byte>, b: seq<byte>)
    requires |a| == |b|
    requires FromLittleEndian(a) == FromLittleEndian(b)
    ensures a == b
  {
    EncodeDecode(a);
    EncodeDecode(b);
  }

  /** Closed form for two and four bytes, as the header composes them. */
  lemma FromLittleEndian2(bs: seq<byte>)
    requires |bs| == 2
    ensures FromLittleEndian(bs) == bs[0] as int + 0x100 * bs[1] as int
  {
    assert bs[1..][1..] == [];
  }

  lemma FromLittleEndian4(bs: seq<byte>)
    requires |bs| == 4
    ensures FromLittleEndian(bs)
         == bs[0] as int + 0x100 * bs[1] as int + 0x1_0000 * bs[2] as int + 0x100_0000 * bs[3] as int
  {
    assert bs[1..][1..] == bs[2..];
    assert bs[2..][1..] == bs[3..];
    assert bs[3..][1..] == [];
    assert FromLittleEndian(bs[3..]) == bs[3];
    assert FromLittleEndian(bs[2..]) == bs[2] + 0x100 * bs[3] as int;
    assert FromLittleEndian(bs[1..]) == bs[1] + 0x100 * bs[2] as int + 0x1_0000 * bs[3] as int;
  }
}
