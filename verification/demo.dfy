/** The telegram embedded in the demonstration program: 324 hex digits, of
    which the first 18 are the header `a1 44 c5 14 27 85 89 50 70`. */
module Demo {
  import opened Wrappers
  import opened Bytes
  import opened HexCodec
  import opened Parser
  import opened Decryptor

  /** The key text the demonstration program constructs its decryptor with. */
  const DemoKeyHex: string := "4255794d3dccfd46953146e701b7db68"

  /** The telegram text the demonstration program decrypts: the header
      digits, then the 306 payload digits. */
  const DemoTelegramHex: string := "a144c5142785895070"
    + "078c20607a9d00902537ca231fa2da5889be8df3673ec136aebfb80d4ce395ba"
    + "98f6b3844a115e4be1b1c9f0a2d5ffbb92906aa388deaa82c929310e9e5c4c09"
    + "22a784df89cf0ded833be8da996eb5885409b6c9867978dea24001d68c603408"
    + "d758a1e2b91c42ebad86a9b9d287880083bb0702850574d7b51e9c209ed68e03"
    + "74e9b01febfd92b4cb9410fdeaf7fb526b742dc9a8d0682653"

  const DemoHeader: seq<byte> := [0xa1, 0x44, 0xc5, 0x14, 0x27, 0x85, 0x89, 0x50, 0x70]

  /** The first nine bytes of a 324-digit telegram that starts like the
      demonstration one are its header. */
  lemma DemoBytes(hex: string)
    requires |hex| == 324 && hex[..18] == "a144c5142785895070"
    ensures |HexToBytes(hex)| == 162
    ensures HexToBytes(hex)[..9] == DemoHeader
  {
    DemoDigits(hex);
    PairByte(hex, 0, 'a', '1');
    PairByte(hex, 1, '4', '4');
    PairByte(hex, 2, 'c', '5');
    PairByte(hex, 3, '1', '4');
    PairByte(hex, 4, '2', '7');
    PairByte(hex, 5, '8', '5');
    PairByte(hex, 6, '8', '9');
    PairByte(hex, 7, '5', '0');
    PairByte(hex, 8, '7', '0');
  }

  /** The individual digits of the demonstration header. */
  lemma DemoDigits(hex: string)
    requires |hex| >= 18 && hex[..18] == "a144c5142785895070"
    ensures forall k :: 0 <= k < 18 ==> hex[k] == "a144c5142785895070"[k]
  {
    assert forall k :: 0 <= k < 18 ==> hex[k] == hex[..18][k];
  }

  /** The fields and IV parsed from a 162-byte frame with the demonstration
      header. */
  lemma DemoFrame(raw: seq<byte>)
    requires |raw| == 162 && raw[..9] == DemoHeader
    ensures Parse(raw).Success?
    ensures var t := Parse(raw).value;
            && t.lField == 0xa1 && t.cField == 0x44 && t.ciField == 0x70
            && t.mField == [0xc5, 0x14, 0x27, 0x85, 0x89, 0x50]
            && t.manufacturer == 0x14c5
            && t.serialNumber == 0x5089_8527
            && |t.encryptedPayload| == 153
            && GenerateIv(t) == [0xc5, 0x14, 0x27, 0x85, 0x89, 0x50] + Zeros(10)
  {
    assert raw[0] == raw[..9][0] && raw[1] == raw[..9][1] && raw[8] == raw[..9][8];
    assert raw[2..8] == raw[..9][2..8];
    assert raw[2..4] == raw[2..8][..2] == [0xc5, 0x14];
    assert raw[4..8] == raw[2..8][2..] == [0x27, 0x85, 0x89, 0x50];
    FromLittleEndian2(raw[2..4]);
    FromLittleEndian4(raw[4..8]);
    IvOfParsedTelegram(raw);
  }

  /** Byte `i` of decoded text is the value of the hex digits at positions
      2i and 2i+1. */
  lemma PairByte(hex: string, i: nat, c0: char, c1: char)
    requires 2 * i + 2 <= |hex| && hex[2 * i] == c0 && hex[2 * i + 1] == c1
    requires IsHexDigit(c0) && IsHexDigit(c1)
    ensures HexToBytes(hex)[i] == 16 * DigitValue(c0) + DigitValue(c1)
  {
    var c := Chunk(hex, i);
    assert c == hex[2 * i .. 2 * i + 2];
    assert c[0] == c0 && c[1] == c1;
    assert HexToBytes(hex)[i] == StrtolByte(c);
  }

  /** A cipher that rejects every ciphertext whose length is not a multiple
      of the 16-byte block, as OpenSSL's CBC decryption does in its final
      step when padding is left at its default. */
  ghost predicate RejectsPartialBlocks(aes: Cipher) {
    forall key, iv, ct :: |ct| % 16 != 0 ==> aes(key, iv, ct).None?
  }

  /** The demonstration payload is 153 bytes, not a whole number of blocks,
      so against such a cipher both attempts fail and the telegram comes back
      with no plaintext. */
  lemma DemoBothAttemptsFail(d: Decryptor, hex: string, aes: Cipher)
    requires |hex| == 324 && hex[..18] == "a144c5142785895070"
    requires RejectsPartialBlocks(aes)
    ensures DecryptTelegram(d, hex, aes).Success?
    ensures DecryptTelegram(d, hex, aes).value.status == BothFailed
    ensures DecryptTelegram(d, hex, aes).value.telegram.decryptedPayload == []
  {
    DemoBytes(hex);
    DemoFrame(HexToBytes(hex));
  }

  /** The demonstration key is accepted by the constructor as written and
      by the intended 32-digit check, and yields a 16-byte key. */
  lemma DemoKeyAccepted(keyHex: string)
    requires keyHex == DemoKeyHex
    ensures NewDecryptor(keyHex).Success?
    ensures NewDecryptorStrict(keyHex).Success?
    ensures |NewDecryptor(keyHex).value.key| == KeyLength
  {
    assert |keyHex| == 32;
    assert forall i :: 0 <= i < |keyHex| ==> IsHexDigit(DemoKeyHex[i]);
  }

  /** The demonstration telegram text is 324 digits long and starts with the
      demonstration header. */
  lemma DemoTelegramShape(hex: string)
    requires hex == DemoTelegramHex
    ensures |hex| == 324 && hex[..18] == "a144c5142785895070"
  {
  }

  /** The demonstration run: with the demonstration key and telegram, against
      a cipher that rejects partial blocks, both attempts fail and the
      telegram comes back with no plaintext. */
  lemma DemoRun(keyHex: string, hex: string, aes: Cipher)
    requires keyHex == DemoKeyHex && hex == DemoTelegramHex
    requires RejectsPartialBlocks(aes)
    ensures NewDecryptor(keyHex).Success?
    ensures var r := DecryptTelegram(NewDecryptor(keyHex).value, hex, aes);
            && r.Success?
            && r.value.status == BothFailed
            && r.value.telegram.decryptedPayload == []
  {
    DemoKeyAccepted(keyHex);
    DemoTelegramShape(hex);
    DemoBothAttemptsFail(NewDecryptor(keyHex).value, hex, aes);
  }
}
