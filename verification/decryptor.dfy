/** `WMBusDecryptor`: the key check at construction, the IV derivation, and
    the two-attempt decryption of a parsed telegram. AES-128-CBC itself is a
    parameter: a partial function from key, IV and ciphertext to plaintext,
    `None` standing for any exception the cipher routine throws. */
module Decryptor {
  import opened Wrappers
  import opened Errors
  import opened Bytes
  import opened HexCodec
  import opened Parser

  const KeyLength: nat := 16
  const IvLength: nat := 16

  /** AES-128-CBC decryption of a ciphertext under a key and an IV. */
  type Cipher = (seq<byte>, seq<byte>, seq<byte>) -> Option<seq<byte>>

  /** The decryptor object; its only state is the key. */
  datatype Decryptor = Decryptor(key: seq<byte>)

  function Zeros(n: nat): (z: seq<byte>)
    ensures |z| == n && forall i :: 0 <= i < n ==> z[i] == 0
  {
    seq(n, _ => 0)
  }

  /** The fallback IV of sixteen zero bytes. */
  function ZeroIv(): (iv: seq<byte>)
    ensures |iv| == IvLength
  {
    Zeros(IvLength)
  }

  // ---------------------------------------------------------------------
  // Construction

  /** The constructor: the key text goes through `hexStringToBytes` and is
      accepted exactly when that yields 16 bytes. */
  function NewDecryptor(keyHex: string): (r: Result<Decryptor, Error>)
    ensures r.Success? <==> |keyHex| == 2 * KeyLength - 1 || |keyHex| == 2 * KeyLength
    ensures r.Failure? ==> r.error == InvalidKeyLength
    ensures r.Success? ==> |r.value.key| == KeyLength && r.value.key == HexToBytes(keyHex)
  {
    var key := HexToBytes(keyHex);
    if |key| != KeyLength then Failure(InvalidKeyLength) else Success(Decryptor(key))
  }

  /** For hex text, the constructor keeps the key's digits exactly: the stored
      key is the 16 bytes whose lower-case encoding is the key text. */
  lemma NewDecryptorKeepsKey(keyHex: string)
    requires |keyHex| == 2 * KeyLength
    requires forall i :: 0 <= i < |keyHex| ==> IsLowerHexDigit(keyHex[i])
    ensures NewDecryptor(keyHex).Success?
    ensures BytesToHex(NewDecryptor(keyHex).value.key) == keyHex
  {
    HexRoundTripText(keyHex);
  }

  /** The constructor as written accepts a 31-digit key: its trailing digit
      becomes a sixteenth byte holding that digit's value, where a 32-digit
      key would have had a second digit. */
  lemma OddLengthKeyAccepted(keyHex: string)
    requires |keyHex| == 2 * KeyLength - 1 && IsHexString(keyHex)
    ensures NewDecryptor(keyHex).Success?
    ensures NewDecryptor(keyHex).value.key[KeyLength - 1] == DigitValue(keyHex[2 * KeyLength - 2])
  {
    HexToBytesOdd(keyHex);
  }

  /** The key check as intended: the key text must be 32 hex digits. An odd
      length or a non-digit is an encoding error, and any other even length
      of hex digits a key-length error. */
  function NewDecryptorStrict(keyHex: string): (r: Result<Decryptor, Error>)
    ensures r.Success? <==> IsHexString(keyHex) && |keyHex| == 2 * KeyLength
    ensures r.Failure? ==>
              r.error == (if IsHexString(keyHex) && |keyHex| % 2 == 0 then InvalidKeyLength else InvalidEncoding)
    ensures r.Success? ==> |r.value.key| == KeyLength
    ensures r.Success? ==> forall i :: 0 <= i < KeyLength ==>
              r.value.key[i] == 16 * DigitValue(keyHex[2 * i]) + DigitValue(keyHex[2 * i + 1])
  {
    if !IsHexString(keyHex) || |keyHex| % 2 != 0 then
      Failure(InvalidEncoding)
    else
      HexToBytesEven(keyHex);
      var key := HexToBytes(keyHex);
      if |key| != KeyLength then Failure(InvalidKeyLength) else Success(Decryptor(key))
  }

  /** On every key text the intended check accepts, the constructor as
      written accepts it too and stores the same key. */
  lemma StrictAgreesOnValidKeys(keyHex: string)
    requires NewDecryptorStrict(keyHex).Success?
    ensures NewDecryptor(keyHex) == NewDecryptorStrict(keyHex)
  {
  }

  // ---------------------------------------------------------------------
  // IV derivation

  /** `generateIV`: sixteen zero bytes, positions 0 to 5 overwritten with the
      M-field, and positions 6 and 7 with version and device type when the
      M-field is longer than six bytes. The source indexes the first six
      M-field bytes unguarded, so it needs at least six. */
  function GenerateIv(t: Telegram): (iv: seq<byte>)
    requires |t.mField| >= MFieldLength
    ensures |iv| == IvLength
    ensures iv[..6] == t.mField[..6]
    ensures |t.mField| > 6 ==> iv[6] == t.version && iv[7] == t.deviceType
    ensures |t.mField| == 6 ==> iv[6..] == Zeros(10)
    ensures iv[8..] == Zeros(8)
  {
    var m := t.mField;
    var iv := Zeros(IvLength)[0 := m[0]][1 := m[1]][2 := m[2]][3 := m[3]][4 := m[4]][5 := m[5]];
    if |m| > 6 then iv[6 := t.version][7 := t.deviceType] else iv
  }

  /** For a parsed telegram the IV is the M-field followed by ten zero bytes:
      the version and device-type positions are never filled. */
  lemma IvOfParsedTelegram(raw: seq<byte>)
    requires Parse(raw).Success?
    ensures GenerateIv(Parse(raw).value) == raw[2..8] + Zeros(10)
  {
    var t := Parse(raw).value;
    var iv := GenerateIv(t);
    assert iv == iv[..6] + iv[6..];
  }

  /** The IV depends on the M-field alone: two frames that agree on bytes 2
      to 7 get the same IV whatever their other fields and payloads, and two
      that differ there get different IVs. */
  lemma IvDependsOnlyOnMField(raw1: seq<byte>, raw2: seq<byte>)
    requires Parse(raw1).Success? && Parse(raw2).Success?
    ensures GenerateIv(Parse(raw1).value) == GenerateIv(Parse(raw2).value) <==> raw1[2..8] == raw2[2..8]
  {
    IvOfParsedTelegram(raw1);
    IvOfParsedTelegram(raw2);
    if GenerateIv(Parse(raw1).value) == GenerateIv(Parse(raw2).value) {
      assert (raw1[2..8] + Zeros(10))[..6] == raw1[2..8];
      assert (raw2[2..8] + Zeros(10))[..6] == raw2[2..8];
    }
  }

  /** The derived IV equals the fallback IV exactly when the M-field is all
      zero bytes. */
  lemma IvIsZeroIff(raw: seq<byte>)
    requires Parse(raw).Success?
    ensures GenerateIv(Parse(raw).value) == ZeroIv() <==> raw[2..8] == Zeros(6)
  {
    IvOfParsedTelegram(raw);
    assert Zeros(6) + Zeros(10) == ZeroIv();
    if GenerateIv(Parse(raw).value) == ZeroIv() {
      assert ZeroIv()[..6] == Zeros(6);
      assert (raw[2..8] + Zeros(10))[..6] == raw[2..8];
    }
  }

  // ---------------------------------------------------------------------
  // Decryption with fallback

  /** Which branch of `decryptTelegram` completed: the derived IV worked, the
      zero IV worked after it failed, or both failed. */
  datatype Status = DerivedIvSucceeded | ZeroIvSucceeded | BothFailed

  /** The telegram `decryptTelegram` returns, with the branch it took and the
      IVs handed to the cipher, in order. */
  datatype Decryption = Decryption(telegram: Telegram, status: Status, ivsTried: seq<seq<byte>>)

  /** Reference definition of a sequence of attempts that stops at the first
      success: the plaintext of the first IV in `ivs` under which `aes`
      succeeds, if there is one. */
  function FirstSuccess(aes: Cipher, key: seq<byte>, ivs: seq<seq<byte>>, ct: seq<byte>): (r: Option<seq<byte>>)
    ensures r.Some? <==> exists i :: 0 <= i < |ivs| && aes(key, ivs[i], ct).Some?
    ensures r.Some? ==> exists i :: 0 <= i < |ivs| && aes(key, ivs[i], ct) == r
                                    && forall j :: 0 <= j < i ==> aes(key, ivs[j], ct).None?
  {
    if ivs == [] then None
    else if aes(key, ivs[0], ct).Some? then aes(key, ivs[0], ct)
    else
      var rest := FirstSuccess(aes, key, ivs[1..], ct);
      assert forall i :: 1 <= i < |ivs| ==> ivs[i] == ivs[1..][i - 1];
      rest
  }

  /** The IVs such a sequence of attempts hands to the cipher: every one up to
      and including the first that succeeds. */
  function AttemptsMade(aes: Cipher, key: seq<byte>, ivs: seq<seq<byte>>, ct: seq<byte>): (r: seq<seq<byte>>)
    ensures 0 < |r| <= |ivs| || ivs == []
    ensures r <= ivs
    ensures forall i :: 0 <= i < |r| - 1 ==> aes(key, r[i], ct).None?
    ensures r == ivs || aes(key, r[|r| - 1], ct).Some?
  {
    if ivs == [] then []
    else if aes(key, ivs[0], ct).Some? then [ivs[0]]
    else [ivs[0]] + AttemptsMade(aes, key, ivs[1..], ct)
  }

  /** `decryptTelegram` after parsing: decrypt the payload under the derived
      IV; if that throws, under the zero IV; if that throws too, leave the
      telegram as it was. Nothing escapes either failure. */
  function DecryptParsed(d: Decryptor, t: Telegram, aes: Cipher): (r: Decryption)
    requires |t.mField| >= MFieldLength
    ensures |r.ivsTried| >= 1 && r.ivsTried[0] == GenerateIv(t)
    ensures r.status == DerivedIvSucceeded <==> aes(d.key, GenerateIv(t), t.encryptedPayload).Some?
    ensures r.status == DerivedIvSucceeded ==>
              r.ivsTried == [GenerateIv(t)]
              && Some(r.telegram.decryptedPayload) == aes(d.key, GenerateIv(t), t.encryptedPayload)
    ensures r.status == ZeroIvSucceeded <==>
              aes(d.key, GenerateIv(t), t.encryptedPayload).None?
              && aes(d.key, ZeroIv(), t.encryptedPayload).Some?
    ensures r.status == ZeroIvSucceeded ==>
              Some(r.telegram.decryptedPayload) == aes(d.key, ZeroIv(), t.encryptedPayload)
    ensures r.status != DerivedIvSucceeded ==> r.ivsTried == [GenerateIv(t), ZeroIv()]
    ensures r.status == BothFailed ==> r.telegram == t
    ensures r.telegram == t.(decryptedPayload := r.telegram.decryptedPayload)
  {
    var iv := GenerateIv(t);
    var ct := t.encryptedPayload;
    match aes(d.key, iv, ct)
    case Some(p) => Decryption(t.(decryptedPayload := p), DerivedIvSucceeded, [iv])
    case None =>
      match aes(d.key, ZeroIv(), ct)
      case Some(p) => Decryption(t.(decryptedPayload := p), ZeroIvSucceeded, [iv, ZeroIv()])
      case None => Decryption(t, BothFailed, [iv, ZeroIv()])
  }

  /** The orchestration is the first-success policy over the attempt list
      [derived IV, zero IV]: it stores that policy's plaintext (or keeps the
      old payload when there is none) and tries exactly the IVs it tries. */
  lemma DecryptParsedIsFirstSuccess(d: Decryptor, t: Telegram, aes: Cipher)
    requires |t.mField| >= MFieldLength
    ensures var r := DecryptParsed(d, t, aes);
            var ivs: seq<seq<byte>> := [GenerateIv(t), ZeroIv()];
            && r.ivsTried == AttemptsMade(aes, d.key, ivs, t.encryptedPayload)
            && (match FirstSuccess(aes, d.key, ivs, t.encryptedPayload)
                case Some(p) => r.telegram.decryptedPayload == p && r.status != BothFailed
                case None => r.telegram == t && r.status == BothFailed)
  {
    var ivs: seq<seq<byte>> := [GenerateIv(t), ZeroIv()];
    assert ivs[1..] == [ZeroIv()];
    assert |ivs[1..][1..]| == 0;
  }

  /** When the M-field is all zero the fallback repeats the same attempt, so
      it can never rescue a failed first attempt. */
  lemma ZeroMFieldFallbackUseless(d: Decryptor, raw: seq<byte>, aes: Cipher)
    requires Parse(raw).Success?
    requires raw[2..8] == Zeros(6)
    ensures DecryptParsed(d, Parse(raw).value, aes).status != ZeroIvSucceeded
  {
    IvIsZeroIff(raw);
  }

  /** `decryptTelegram`: parse the hex text, then decrypt with fallback. The
      only error is a too-short telegram; a cipher failure never makes the
      call fail, and the parsed header comes back unchanged. */
  function DecryptTelegram(d: Decryptor, hex: string, aes: Cipher): (r: Result<Decryption, Error>)
    ensures r.Failure? <==> ParseHex(hex).Failure?
    ensures r.Failure? ==> r.error == TelegramTooShort
    ensures r.Success? ==>
              r.value.telegram == ParseHex(hex).value.(decryptedPayload := r.value.telegram.decryptedPayload)
    ensures r.Success? && r.value.status == BothFailed ==> r.value.telegram.decryptedPayload == []
    ensures r.Success? ==> r.value == DecryptParsed(d, ParseHex(hex).value, aes)
  {
    var t :- ParseHex(hex);
    Success(DecryptParsed(d, t, aes))
  }
}
