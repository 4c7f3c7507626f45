/** The wM-Bus telegram as `parseTelegram` lays it out: fixed positions
    L (byte 0), C (byte 1), M (bytes 2 to 7), CI (byte 8), then the encrypted
    payload, with the manufacturer code and serial number composed
    little-endian from the M-field. */
module Parser {
  import opened Wrappers
  import opened Errors
  import opened Bytes
  import opened HexCodec

  /** `parseTelegram` rejects anything shorter than this many decoded bytes. */
  const MinTelegramLength: nat := 10
  /** L, C, six M-field bytes and CI precede the payload. */
  const HeaderLength: nat := 9
  const MFieldLength: nat := 6

  /** The `WMBusTelegram` record. `decryptedPayload` is empty until
      decryption stores a plaintext; `mField` is a sequence, as the C++
      vector is, so that the record's own guards on its size can be stated. */
  datatype Telegram = Telegram(
    lField: byte,
    cField: byte,
    mField: seq<byte>,
    ciField: byte,
    encryptedPayload: seq<byte>,
    decryptedPayload: seq<byte>,
    serialNumber: uint32,
    manufacturer: uint16,
    version: byte,
    deviceType: byte)

  /** `(m[1] << 8) | m[0]`: the two bytes occupy disjoint bit ranges, so the
      shift is a multiplication by 2^8 and the or an addition. */
  function ManufacturerOf(m: seq<byte>): (code: uint16)
    requires |m| >= 2
    ensures code == FromLittleEndian(m[..2])
  {
    FromLittleEndian2(m[..2]);
    0x100 * m[1] as int + m[0]
  }

  /** `(m[5] << 24) | (m[4] << 16) | (m[3] << 8) | m[2]`, read as the unsigned
      32-bit value it is stored into. */
  function SerialOf(m: seq<byte>): (serial: uint32)
    requires |m| >= 6
    ensures serial == FromLittleEndian(m[2..6])
  {
    FromLittleEndian4(m[2..6]);
    0x100_0000 * m[5] as int + 0x1_0000 * m[4] as int + 0x100 * m[3] as int + m[2]
  }

  /** `m.size() > i ? m[i] : 0`, the guard `parseTelegram` puts on the
      version (i = 6) and device-type (i = 7) bytes. */
  function ByteOrZero(m: seq<byte>, i: nat): (b: byte)
    ensures i < |m| ==> b == m[i]
    ensures |m| <= i ==> b == 0
  {
    if |m| > i then m[i] else 0
  }

  /** `parseTelegram` on the already decoded bytes. */
  function Parse(raw: seq<byte>): (r: Result<Telegram, Error>)
    ensures r.Failure? <==> |raw| < MinTelegramLength
    ensures r.Failure? ==> r.error == TelegramTooShort
    ensures r.Success? ==> WellFormed(r.value)
    ensures r.Success? ==>
              && r.value.lField == raw[0]
              && r.value.cField == raw[1]
              && r.value.mField == raw[2..8]
              && r.value.ciField == raw[8]
              && r.value.encryptedPayload == raw[HeaderLength..]
              && |r.value.encryptedPayload| == |raw| - HeaderLength >= 1
              && r.value.manufacturer == FromLittleEndian(raw[2..4])
              && r.value.serialNumber == FromLittleEndian(raw[4..8])
  {
    if |raw| < MinTelegramLength then
      Failure(TelegramTooShort)
    else
      var m := raw[2..8];
      assert m[..2] == raw[2..4] && m[2..6] == raw[4..8];
      Success(Telegram(
        lField := raw[0],
        cField := raw[1],
        mField := m,
        ciField := raw[8],
        encryptedPayload := raw[HeaderLength..],
        decryptedPayload := [],
        serialNumber := SerialOf(m),
        manufacturer := ManufacturerOf(m),
        version := ByteOrZero(m, 6),
        deviceType := ByteOrZero(m, 7)))
  }

  /** `parseTelegram` as called: hex text first goes through `hexStringToBytes`.
      Since an odd trailing digit still yields a byte, 19 hex characters
      already make a long enough telegram. */
  function ParseHex(hex: string): (r: Result<Telegram, Error>)
    ensures r.Failure? <==> |hex| < 2 * MinTelegramLength - 1
    ensures r.Failure? ==> r.error == TelegramTooShort
    ensures r.Success? ==> WellFormed(r.value)
  {
    Parse(HexToBytes(hex))
  }

  /** What every parsed telegram satisfies: a six-byte M-field from which the
      identity numbers are composed, version and device type at 0 (the size
      guards `> 6` and `> 7` never hold for a six-byte M-field), at least one
      payload byte, and no plaintext yet. */
  predicate WellFormed(t: Telegram) {
    && |t.mField| == MFieldLength
    && t.manufacturer == FromLittleEndian(t.mField[..2])
    && t.serialNumber == FromLittleEndian(t.mField[2..6])
    && t.version == 0
    && t.deviceType == 0
    && |t.encryptedPayload| >= 1
    && t.decryptedPayload == []
  }

  /** The frame a telegram was read from: header fields at their positions,
      then the payload. */
  function Serialize(t: Telegram): (raw: seq<byte>)
    ensures |raw| == 3 + |t.mField| + |t.encryptedPayload|
  {
    [t.lField, t.cField] + t.mField + [t.ciField] + t.encryptedPayload
  }

  /** Parsing never loses information: the frame is rebuilt exactly from the
      parsed telegram. */
  lemma SerializeParse(raw: seq<byte>)
    requires |raw| >= MinTelegramLength
    ensures Parse(raw).Success?
    ensures Serialize(Parse(raw).value) == raw
  {
    var t := Parse(raw).value;
    assert raw == raw[..2] + raw[2..8] + [raw[8]] + raw[HeaderLength..];
  }

  /** Parsing the frame of a well-formed telegram gives that telegram back, so
      `Parse` and `Serialize` are inverse on well-formed telegrams. */
  lemma ParseSerialize(t: Telegram)
    requires WellFormed(t)
    ensures Parse(Serialize(t)) == Success(t)
  {
    var raw := Serialize(t);
    assert raw[2..8] == t.mField;
    assert raw[HeaderLength..] == t.encryptedPayload;
  }

  /** The manufacturer code and serial number together determine the M-field:
      writing them back little-endian reproduces its six bytes. */
  lemma IdentityDeterminesMField(t: Telegram)
    requires WellFormed(t)
    ensures ToLittleEndian(t.manufacturer, 2) + ToLittleEndian(t.serialNumber, 4) == t.mField
  {
    EncodeDecode(t.mField[..2]);
    EncodeDecode(t.mField[2..6]);
    assert t.mField == t.mField[..2] + t.mField[2..6];
  }

  /** Two parsed telegrams with the same manufacturer code and serial number
      carry the same M-field. */
  lemma SameIdentitySameMField(t1: Telegram, t2: Telegram)
    requires WellFormed(t1) && WellFormed(t2)
    requires t1.manufacturer == t2.manufacturer && t1.serialNumber == t2.serialNumber
    ensures t1.mField == t2.mField
  {
    FromLittleEndianInjective(t1.mField[..2], t2.mField[..2]);
    FromLittleEndianInjective(t1.mField[2..6], t2.mField[2..6]);
    assert t1.mField == t1.mField[..2] + t1.mField[2..6];
    assert t2.mField == t2.mField[..2] + t2.mField[2..6];
  }
}
