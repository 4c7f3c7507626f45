# wM-Bus telegram decryptor — Dafny model

A model of the pure logic of `WMBusDecryptor` (`src/src/wmbus_decryptor.cpp`),
a small C++ program that decrypts Wireless M-Bus meter telegrams:

- **hex codec** (`hexStringToBytes`, `bytesToHexString`) — module `HexCodec`;
- **key check** in the constructor — `Decryptor.NewDecryptor`;
- **telegram parser** (`parseTelegram`): L-field at byte 0, C-field at byte 1,
  a six-byte M-field at bytes 2..7, CI-field at byte 8, and the encrypted
  payload after that. The manufacturer code and serial number are composed
  little-endian from the M-field. This is module `Parser`;
- **IV derivation** (`generateIV`) — `Decryptor.GenerateIv`;
- **decryption with fallback** (`decryptTelegram`): try the derived IV, then an
  all-zero IV, then give up and leave the plaintext empty. This is
  `Decryptor.DecryptParsed` and `Decryptor.DecryptTelegram`.

AES-128-CBC is not modelled. It is a parameter `aes: Cipher`, a total
function from (key, IV, ciphertext) to `Option<plaintext>`. `None` stands
for any exception the OpenSSL routine throws. So every property about the
orchestration holds for every cipher.

Modelling decisions:

- **Byte model.** Bytes are the subset type `byte` (0..255). `uint16` and
  `uint32` are the header's integer widths.
- **Shift-and-or.** The source composes numbers with `(m[1] << 8) | m[0]`
  and the 24/16/8-bit shifts. The shifted bytes occupy disjoint bit ranges,
  so the model writes them as multiplication by powers of 256 and addition.
  Each composition is proved equal to the reference
  `Bytes.FromLittleEndian`.
- **Dead guards.** The guards on version and device type
  (`m_field.size() > 6`, `> 7`) and on IV bytes 6 and 7 are kept as they are
  written (`Parser.ByteOrZero`, the `|t.mField| > 6` branch of
  `GenerateIv`). The model then proves that they never fire for a parsed
  telegram, because its M-field is always six bytes:
  - version and device type are always 0 (`Parser.Parse`, `Parser.WellFormed`);
  - the IV is always the M-field followed by ten zero bytes
    (`Decryptor.IvOfParsedTelegram`).
- **Decoding is total.** `hexStringToBytes` accepts any ASCII text. The model
  gives each one- or two-character chunk the byte that
  `static_cast<uint8_t>(strtol(chunk, nullptr, 16))` yields in the "C" locale
  (`HexCodec.StrtolByte`). The properties of interest are stated for strings
  of hex digits.

Behaviour of the code a reader might not expect:

- Parsing needs 10 decoded bytes, so the payload is never empty.
- Because an odd trailing digit still becomes a byte, 19 hex characters are
  already a long enough telegram.
- A 31-digit key is accepted (see Findings).
- Version and device type are always 0, not read from extra header bytes.

## Model

| member | source | states |
|---|---|---|
| HexCodec.StrtolByte | src/src/wmbus_decryptor.cpp:18-19 | two hex digits give 16·first + second; one trailing digit gives its value |
| HexCodec.HexToBytes | src/src/wmbus_decryptor.cpp:15-23 | any ASCII text of n characters gives ⌈n/2⌉ bytes; byte i is the strtol value of the chunk starting at 2i |
| HexCodec.HexToBytesEven | src/src/wmbus_decryptor.cpp:15-23 | for an even-length hex string, the result has \|s\|/2 bytes and byte i is 16·digit(2i) + digit(2i+1) |
| HexCodec.HexToBytesOdd | src/src/wmbus_decryptor.cpp:15-23 | an odd trailing hex digit becomes one extra byte holding that digit's value |
| HexCodec.BytesToHex | src/src/wmbus_decryptor.cpp:25-32 | the result has 2·\|b\| characters, all lower-case hex digits, and each pair of digits encodes the corresponding byte |
| HexCodec.HexRoundTrip | src/src/wmbus_decryptor.cpp:15-32 | decoding the encoding of any bytes gives back the same bytes |
| HexCodec.HexRoundTripText | src/src/wmbus_decryptor.cpp:15-32 | encoding the decoding of an even-length lower-case hex string gives back the same string |
| Decryptor.NewDecryptor | src/src/wmbus_decryptor.cpp:35-40 | construction succeeds exactly when the (ASCII) key text is 31 or 32 characters long; otherwise it fails with InvalidKeyLength; the stored key is the 16 decoded bytes |
| Decryptor.NewDecryptorKeepsKey | src/src/wmbus_decryptor.cpp:35-40 | a 32-digit lower-case key is accepted, and the stored key re-encodes to exactly that text |
| Decryptor.OddLengthKeyAccepted | src/src/wmbus_decryptor.cpp:35-39 | every 31-digit hex key is accepted; its sixteenth byte is the value of the last digit |
| Decryptor.NewDecryptorStrict | src/src/wmbus_decryptor.cpp:35-39 | intended check: success exactly for 32 hex digits, with key byte i equal to digit pair i; odd length or a non-digit fails with InvalidEncoding, any other even length with InvalidKeyLength |
| Decryptor.StrictAgreesOnValidKeys | src/src/wmbus_decryptor.cpp:35-39 | on every key the intended check accepts, the code as written gives the same decryptor |
| Parser.ManufacturerOf | src/src/wmbus_decryptor.cpp:70 | the manufacturer code is the little-endian value of M-field bytes 0..1 (below 2^16) |
| Parser.SerialOf | src/src/wmbus_decryptor.cpp:71-72 | the serial number is the little-endian value of M-field bytes 2..5 (below 2^32) |
| Parser.Parse | src/src/wmbus_decryptor.cpp:60-78 | fails with TelegramTooShort exactly when there are fewer than 10 bytes. Otherwise the L, C and CI fields are bytes 0, 1 and 8; the M-field is bytes 2..7; the payload is bytes 9.. (at least one byte); the identity numbers are little-endian; version and device type are 0; there is no plaintext |
| Parser.ParseHex | src/src/wmbus_decryptor.cpp:56-62 | parsing (ASCII) hex text fails exactly when it has fewer than 19 characters, and otherwise gives a well-formed telegram |
| Parser.SerializeParse | src/src/wmbus_decryptor.cpp:64-76 | every frame of at least 10 bytes is rebuilt exactly from its parsed fields, so parsing loses nothing |
| Parser.ParseSerialize | src/src/wmbus_decryptor.cpp:64-76 | parsing the frame of a well-formed telegram gives that telegram back |
| Parser.IdentityDeterminesMField | src/src/wmbus_decryptor.cpp:67-72 | the manufacturer code and serial number, written back little-endian, reproduce the six M-field bytes |
| Parser.SameIdentitySameMField | src/src/wmbus_decryptor.cpp:70-72 | two parsed telegrams with the same manufacturer code and serial number have the same M-field |
| Decryptor.GenerateIv | src/src/wmbus_decryptor.cpp:115-132 | the IV is 16 bytes. Bytes 0..5 are the M-field. Bytes 6..7 are version and device type only when the M-field is longer than six bytes; otherwise bytes 6..15 are zero. Bytes 8..15 are always zero |
| Decryptor.IvOfParsedTelegram | src/src/wmbus_decryptor.cpp:115-131 | for a parsed telegram the IV is frame bytes 2..7 followed by ten zero bytes |
| Decryptor.IvDependsOnlyOnMField | src/src/wmbus_decryptor.cpp:115-131 | two parsed frames get the same IV exactly when their M-fields agree, whatever their other fields and payloads |
| Decryptor.IvIsZeroIff | src/src/wmbus_decryptor.cpp:144-157 | the derived IV equals the fallback zero IV exactly when the M-field is all zero |
| Decryptor.DecryptParsed | src/src/wmbus_decryptor.cpp:144-165 | derived IV first. On success that plaintext is stored and no second attempt is made. On failure the zero-IV plaintext is stored if that attempt succeeds. If both fail the telegram is unchanged. Header fields are unchanged in every case |
| Decryptor.DecryptParsedIsFirstSuccess | src/src/wmbus_decryptor.cpp:147-163 | the orchestration equals the first-success policy over [derived IV, zero IV]: same IVs tried in the same order, and the first successful plaintext stored |
| Decryptor.ZeroMFieldFallbackUseless | src/src/wmbus_decryptor.cpp:144-163 | with an all-zero M-field the fallback repeats the first attempt and can never succeed where it failed |
| Decryptor.DecryptTelegram | src/src/wmbus_decryptor.cpp:134-166 | the only error is a too-short telegram; a cipher failure never aborts the call; the parsed header comes back unchanged; when both attempts fail, the plaintext is empty |
| Demo.DemoBytes | src/src/wmbus_decryptor.cpp:186 | the demonstration telegram decodes to 162 bytes starting a1 44 c5 14 27 85 89 50 70 |
| Demo.DemoFrame | src/src/wmbus_decryptor.cpp:186 | its manufacturer code is 0x14c5, its serial number 0x50898527, its payload 153 bytes, and its IV c5 14 27 85 89 50 followed by ten zero bytes |
| Demo.DemoBothAttemptsFail | src/src/wmbus_decryptor.cpp:186-194 | the 153-byte payload is not a whole number of AES blocks, so a cipher that rejects partial blocks fails both attempts; the call still returns, with an empty plaintext |
| Demo.DemoKeyAccepted | src/src/wmbus_decryptor.cpp:185 | the demonstration key text is accepted by the constructor as written and by the intended 32-digit check, giving a 16-byte key |
| Demo.DemoTelegramShape | src/src/wmbus_decryptor.cpp:186 | the demonstration telegram text is 324 digits long and starts with the header digits a144c5142785895070 |
| Demo.DemoRun | src/src/wmbus_decryptor.cpp:185-194 | the demonstration run: its key is accepted and, against a cipher that rejects partial blocks, `decryptTelegram` on its telegram returns normally with both attempts failed and an empty plaintext |

## Left out

- `decryptAES128CBC` (src/src/wmbus_decryptor.cpp:81-113) is a foreign OpenSSL EVP call. It appears only as the `Cipher` parameter. Its four failure points (context creation, init, update, final) collapse to `None`, and the exception messages are not modelled.
- All console output is left out: the narration inside `decryptTelegram`, `displayHumanReadable`, and `main` with its printing. The model's `Status` value records which narration branch was taken.
- `main`'s own control flow (its try/catch and exit codes) is left out. Its embedded key and telegram appear as `Demo.DemoKeyHex` and `Demo.DemoTelegramHex` and are used only in the `Demo` lemmas.
- HexCodec.HexToBytes: one Dafny `char` stands for one byte of the C++ `std::string`, whose `length()` and `substr(i, 2)` count bytes. The lengths and chunking therefore match the program only on ASCII text. Text with multi-byte UTF-8 characters is chunked differently by the program, and the length thresholds of `Decryptor.NewDecryptor` and `Parser.ParseHex` count bytes there, not characters.
- `HexCodec.StrtolByte` follows `strtol` in the "C" locale. Other locales' whitespace is not modelled.
- The shift of `m_field[5] << 24` happens in signed `int`, so it can overflow for bytes of 0x80 and above. That C++ promotion detail is not modelled: the composition is unbounded integer arithmetic, proved to stay below 2^32.
- Decryptor.GenerateIv: requires an M-field of at least six bytes. The source indexes bytes 0..5 without a guard, so a shorter field has no defined behaviour. Every parsed telegram meets this requirement.
- Cipher side effects and nondeterminism are not modelled. The cipher is a pure function, so two calls with the same key, IV and ciphertext agree.
- Allocation failure inside the cipher routine (`std::bad_alloc`, also caught by the handlers) counts as a cipher failure.

## Findings

| source | as written | input that shows it | evidently intended | confidence | as-written member | corrected member |
|---|---|---|---|---|---|---|
| src/src/wmbus_decryptor.cpp:35-39 | the key is checked after `hexStringToBytes`, which turns an odd trailing digit into a whole byte | key text `4255794d3dccfd46953146e701b7db6` (31 digits) is accepted as a 16-byte key ending in 0x06 | only 32 hex digits make a key ("AES key must be 16 bytes") | high; not executed | Decryptor.OddLengthKeyAccepted | Decryptor.NewDecryptorStrict |

The orchestration takes a `Decryptor` value, and either constructor produces one.
`Decryptor.StrictAgreesOnValidKeys` shows that on every key the corrected check accepts,
both constructors give the same decryptor.
