/** The decryptor's hexadecimal text codec: `hexStringToBytes` turns every
    two characters into one byte through the C library's base-16 `strtol`,
    and `bytesToHexString` writes every byte as two lower-case digits. */
module HexCodec {
  import opened Bytes

  predicate IsHexDigit(c: char) {
    ('0' <= c <= '9') || ('a' <= c <= 'f') || ('A' <= c <= 'F')
  }

  predicate IsLowerHexDigit(c: char) {
    ('0' <= c <= '9') || ('a' <= c <= 'f')
  }

  /** Every character is a hexadecimal digit, in either case. */
  predicate IsHexString(s: string) {
    forall i :: 0 <= i < |s| ==> IsHexDigit(s[i])
  }

  /** The value of one hexadecimal digit. */
  function DigitValue(c: char): (v: nat)
    requires IsHexDigit(c)
    ensures v < 16
  {
    if '0' <= c <= '9' then (c - '0') as nat
    else if 'a' <= c <= 'f' then (c - 'a') as nat + 10
    else (c - 'A') as nat + 10
  }

  /** The lower-case digit of a value below 16. */
  function DigitChar(v: nat): (c: char)
    requires v < 16
    ensures IsLowerHexDigit(c) && DigitValue(c) == v
  {
    if v < 10 then ('0' as int + v) as char else ('a' as int + v - 10) as char
  }

  /** The characters that `isspace` accepts in the "C" locale, which `strtol`
      skips before the number. */
  predicate IsCSpace(c: char) {
    c == ' ' || c == '\t' || c == '\n' || c == '\r' || c == '\U{0C}' || c == '\U{0B}'
  }

  /** The byte that `static_cast<uint8_t>(strtol(chunk, nullptr, 16))` gives
      for a chunk of one or two characters: the longest prefix of the form
      [space] [sign] digits is read, no such prefix reads as 0, and a
      negative value wraps modulo 256. */
  function StrtolByte(chunk: string): (b: byte)
    requires 1 <= |chunk| <= 2
    ensures |chunk| == 2 && IsHexDigit(chunk[0]) && IsHexDigit(chunk[1])
            ==> b == 16 * DigitValue(chunk[0]) + DigitValue(chunk[1])
    ensures |chunk| == 1 && IsHexDigit(chunk[0]) ==> b == DigitValue(chunk[0])
  {
    var c0 := chunk[0];
    if IsHexDigit(c0) then
      if |chunk| == 2 && IsHexDigit(chunk[1]) then 16 * DigitValue(c0) + DigitValue(chunk[1])
      else DigitValue(c0)
    else if |chunk| == 2 && IsHexDigit(chunk[1]) then
      if IsCSpace(c0) || c0 == '+' then DigitValue(chunk[1])
      else if c0 == '-' then (0x100 - DigitValue(chunk[1])) % 0x100
      else 0
    else 0
  }

  /** The chunk that the loop of `hexStringToBytes` hands to `strtol` at
      output position `i`: `substr(2 * i, 2)`, cut short at the end. */
  function Chunk(s: string, i: nat): (c: string)
    requires 2 * i < |s|
    ensures 1 <= |c| <= 2
  {
    if 2 * i + 2 <= |s| then s[2 * i .. 2 * i + 2] else s[2 * i ..]
  }

  /** `hexStringToBytes`: one byte per two characters, and one more byte for
      an odd trailing character. */
  function HexToBytes(s: string): (r: seq<byte>)
    ensures |r| == (|s| + 1) / 2
    ensures forall i {:trigger Chunk(s, i)} :: 0 <= i < |r| ==> r[i] == StrtolByte(Chunk(s, i))
    decreases |s|
  {
    if |s| == 0 then []
    else if |s| == 1 then [StrtolByte(s)]
    else
      var rest := HexToBytes(s[2..]);
      assert forall i :: 1 <= i < (|s| + 1) / 2 ==> Chunk(s, i) == Chunk(s[2..], i - 1);
      [StrtolByte(s[..2])] + rest
  }

  /** The two lower-case digits `std::setw(2)` with fill '0' writes for `b`. */
  function ByteToHex(b: byte): (s: string)
    ensures |s| == 2 && IsLowerHexDigit(s[0]) && IsLowerHexDigit(s[1])
    ensures 16 * DigitValue(s[0]) + DigitValue(s[1]) == b
  {
    [DigitChar(b / 16), DigitChar(b % 16)]
  }

  /** `bytesToHexString`: two lower-case digits per byte, most significant
      digit first. */
  function BytesToHex(bs: seq<byte>): (s: string)
    ensures |s| == 2 * |bs|
    ensures forall i :: 0 <= i < |s| ==> IsLowerHexDigit(s[i])
    ensures forall i :: 0 <= i < |bs| ==> s[2 * i .. 2 * i + 2] == ByteToHex(bs[i])
  {
    if bs == [] then ""
    else
      var rest := BytesToHex(bs[1..]);
      var s := ByteToHex(bs[0]) + rest;
      assert forall i :: 1 <= i < |bs| ==> s[2 * i .. 2 * i + 2] == rest[2 * (i - 1) .. 2 * (i - 1) + 2];
      s
  }

  /** On an even-length string of hex digits, byte `i` is the value of
      characters `2i` and `2i+1`, most significant digit first. */
  lemma HexToBytesEven(s: string)
    requires IsHexString(s) && |s| % 2 == 0
    ensures |HexToBytes(s)| == |s| / 2
    ensures forall i :: 0 <= i < |s| / 2 ==>
              HexToBytes(s)[i] == 16 * DigitValue(s[2 * i]) + DigitValue(s[2 * i + 1])
  {
    var r := HexToBytes(s);
    forall i | 0 <= i < |s| / 2
      ensures r[i] == 16 * DigitValue(s[2 * i]) + DigitValue(s[2 * i + 1])
    {
      var c := Chunk(s, i);
      assert c[0] == s[2 * i] && c[1] == s[2 * i + 1];
    }
  }

  /** On an odd-length string of hex digits, the trailing character becomes
      one extra byte holding that digit's value. */
  lemma HexToBytesOdd(s: string)
    requires IsHexString(s) && |s| % 2 == 1
    ensures |HexToBytes(s)| == |s| / 2 + 1
    ensures HexToBytes(s)[|s| / 2] == DigitValue(s[|s| - 1])
  {
    var c := Chunk(s, |s| / 2);
    assert c == [s[|s| - 1]];
  }

  /** Decoding the encoding of any bytes gives the bytes back. */
  lemma HexRoundTrip(bs: seq<byte>)
    ensures HexToBytes(BytesToHex(bs)) == bs
  {
    var s := BytesToHex(bs);
    var r := HexToBytes(s);
    forall i | 0 <= i < |bs|
      ensures r[i] == bs[i]
    {
      assert Chunk(s, i) == ByteToHex(bs[i]);
    }
  }

  /** Encoding the decoding of an even-length lower-case hex string gives the
      string back, so the codec is a bijection between byte sequences and
      such strings. */
  lemma {:induction false} HexRoundTripText(s: string)
    requires |s| % 2 == 0
    requires forall i :: 0 <= i < |s| ==> IsLowerHexDigit(s[i])
    ensures BytesToHex(HexToBytes(s)) == s
    decreases |s|
  {
    if |s| > 0 {
      var bs := HexToBytes(s);
      assert bs[1..] == HexToBytes(s[2..]);
      HexRoundTripText(s[2..]);
      var pair := ByteToHex(bs[0]);
      LowerDigitsDetermined(pair[0], pair[1], s[0], s[1]);
      assert pair == s[..2];
      assert s == s[..2] + s[2..];
    }
  }

  /** Two pairs of lower-case digits with the same two-digit value are equal. */
  lemma LowerDigitsDetermined(a0: char, a1: char, b0: char, b1: char)
    requires IsLowerHexDigit(a0) && IsLowerHexDigit(a1)
    requires IsLowerHexDigit(b0) && IsLowerHexDigit(b1)
    requires 16 * DigitValue(a0) + DigitValue(a1) == 16 * DigitValue(b0) + DigitValue(b1)
    ensures a0 == b0 && a1 == b1
  {
  }
}
