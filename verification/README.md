# Triple-DES padding and key layer, modelled in Dafny

The repository wraps a Windows cipher service in two backends. `Crypto3DesCNG`
uses BCrypt triple DES in ECB mode. `CryptoWinRT` uses the WinRT
`CryptographicEngine` with single DES in ECB mode. Neither implements the
cipher. What they do implement is the byte-level layer around the cipher call:

- **Key sizing** (CNG only). `CreateKeyHandle` stretches a secret of `n` bytes
  to `max(3, ceil(n/8)) * 8` bytes: the secret in front, zeros behind.
- **Padding on encrypt.** The `Padding` mode chosen at construction decides
  this. `PKCS5` appends `8 - n % 8` bytes of that value. `NOPKCS` zero-fills to
  the block boundary in the CNG backend and appends nothing in the WinRT one.
- **Unpadding on decrypt.** Both backends follow the same logic. `PKCS5` reads
  the last byte `p` and drops `p` bytes unless `p` exceeds the ciphertext
  length. `NOPKCS`
  strips a run of trailing bytes that fail the test `output[i] > 0`. It never
  looks at byte 0, and it counts in a `uint8_t`.

The model is functional. Bytes are `seq<Byte>` with `Byte = 0..255`
(module `Bytes`). The block size is the constant 8 (module `Des`).

- The unpadding logic is written once, in module `Unpadding`. It takes the
  element type it reads bytes through as a parameter: the CNG backend reads an
  unsigned `UCHAR` array, the WinRT backend a `std::string` whose `char` is
  signed.
- Modules `Cng` and `WinRt` hold each backend's padding, its unpadding, and its
  encrypt and decrypt paths.
- The cipher service is an abstract pair of functions (module `Engine`). A
  round trip through it assumes decryption inverts encryption and keeps the
  length.
- Module `Pkcs5` is an independent reference: the padding of PKCS #5 v2.1
  (RFC 8018), with the encoder of section 6.1.1 step 4 and the strict decoder
  of section 6.1.2 step 5. The backends' padding is proved equal to that
  encoder. Their lax unpadding is proved to agree with the strict decoder
  wherever the decoder accepts, and shown to accept inputs the decoder rejects.

Several details of the code are easy to misread:

- **Key zero fill.** The `memset` at 3des_cng/des.cc:71 clears only
  `key_count` bytes. But `std::make_unique<uint8_t[]>(key_size)` at :70
  value-initialises the whole buffer, so the key is zero after the secret
  (`Cng.NormalizeKeyIsZeroExtension`).
- **PKCS5 pad byte.** The unpadding at 3des_cng/des.cc:197-200 does no range
  check. It strips nothing when `p` exceeds the ciphertext length or is 0, and strips `p`
  bytes for any other `p`, even `p > 8`. The other pad bytes are never read.
- **Misaligned ciphertext.** Neither `DoDecrypt` (3des_cng/des.cc:146-193) nor
  `Decrypt` (3des_winrt/des_test/des.cc:153-160) checks the ciphertext length:
  it goes to the engine as it is.
- **WinRT key.** `DoCrypto` (3des_winrt/des_test/des.cc:105-110) passes the key
  to the engine unchanged; only the CNG backend resizes it.
- **NOPKCS stripping.** The loop at 3des_cng/des.cc:202-206 stops before byte 0,
  and its `uint8_t` count wraps at 256.

## Model

| member | source | states |
|---|---|---|
| `Bytes.MemSet` | 3des_cng/des.cc:71 | `memset(buf, v, count)` sets the first `count` bytes to `v` and leaves the rest as it was |
| `Bytes.MemCopy` | 3des_cng/des.cc:72 | `memcpy_s` puts the source in front of the destination and leaves the rest; its requires is the copy fitting the destination, since the `memcpy_s` failure path is not modelled (the same call is at :103) |
| `Bytes.Fill` | 3des_cng/des.cc:105-108 | the pad loop sets positions `from` up to `to` to the pad value and leaves the bytes before and after unchanged |
| `Des.Pkcs5PadByte` | 3des_cng/des.cc:96-107 | the PKCS5 pad value `pad ? 8 - pad : 8` is the one value in 1..8 that brings the plaintext length to a block boundary |
| `Cng.KeyBlockCount` | 3des_cng/des.cc:63-68 | `key_count` is at least 3, its blocks hold the whole secret, and it is the least such count (so it equals `max(3, ceil(n/8))`) |
| `Cng.NormalizeKey` | 3des_cng/des.cc:62-72 | the key is `key_count * 8` bytes long: a multiple of 8, at least 24, never shorter than the secret, and less than one block longer unless it is the 24-byte minimum; it starts with the secret and is zero after it |
| `Cng.NormalizeKeyIsZeroExtension` | 3des_cng/des.cc:70-72 | the key equals the secret followed by zeros, because the buffer is value-initialised before the partial `memset` and the `memcpy_s` |
| `Cng.Pad` | 3des_cng/des.cc:96-109 | the engine input is block-aligned and starts with the plaintext. PKCS5 adds 1..8 bytes, each equal to the number added. NOPKCS adds fewer than 8 bytes, all zero |
| `Cng.PadMatchesReference` | 3des_cng/des.cc:96-109 | PKCS5 padding is exactly the RFC 8018 encoding; NOPKCS padding is the plaintext followed by zeros up to the next boundary, nothing when aligned |
| `Cng.Unpad` | 3des_cng/des.cc:196-208 | the result is a prefix of the decrypted buffer. PKCS5 strips the last byte's value `p`, or nothing if `p` exceeds the ciphertext length (the model takes the engine output to be as long as the ciphertext). NOPKCS strips only zero bytes, keeps byte 0, and strips the zero run modulo 256 |
| `Cng.PadUnpadRoundTrip` | 3des_cng/des.cc:96-208 | unpadding the padded plaintext gives it back: always in PKCS5 mode, and in NOPKCS mode when the plaintext ends in a non-zero byte |
| `Cng.NoPaddingDropsTrailingZeros` | 3des_cng/des.cc:201-208 | NOPKCS round trips are lossy: "abc" followed by two zero bytes comes back as "abc" |
| `Cng.DoEncrypt` | 3des_cng/des.cc:87-143 | a ciphertext exists exactly when the engine encrypts the normalised key and padded plaintext; with an engine whose decryption inverts encryption, the ciphertext decrypts under the normalised key to the padded plaintext; if the engine also keeps lengths, the ciphertext is block-aligned and no shorter than the plaintext |
| `Cng.DoDecrypt` | 3des_cng/des.cc:146-210 | a result exists exactly when the engine decrypts; it is the prefix of the decrypted bytes of length `cipher_size - unpad`, with `unpad` read through `UCHAR` |
| `Cng.EncryptDecryptRoundTrip` | 3des_cng/des.cc:87-210 | decrypting what `DoEncrypt` produced, with the same secret, returns the plaintext (in NOPKCS mode, for plaintext ending in a non-zero byte) |
| `Cng.DemoRoundTrip` | 3des_cng/main.cc:3-11 | secret "12345678" becomes those 8 bytes plus 16 zeros, "this is a test!" gains one pad byte of value 1, and the round trip returns the text |
| `Unpadding.AsChar` | 3des_winrt/des_test/des.cc:169 | read as `UCHAR` (3des_cng/des.cc:203) a byte keeps its value; read as signed `char`, 0x80..0xFF become `b - 256`, in -128..127; either way the value is the byte modulo 256 |
| `Unpadding.IsPositive` | 3des_winrt/des_test/des.cc:169 | the test `output[i] > 0`: it passes exactly for non-zero bytes read as `UCHAR`, and for 0x01..0x7F read as signed `char` |
| `Unpadding.ZeroRun` | 3des_cng/des.cc:201-207 | the run of bytes the NOPKCS loop steps over lies at indices `size-1` down to 1, every byte in it fails the test, and a passing byte ends it unless it reaches index 1 |
| `Unpadding.CountZeroRun` | 3des_cng/des.cc:196-207 | the loop with its `uint8_t` counter computes the length of that run modulo 256 |
| `Unpadding.UnpadCount` | 3des_winrt/des_test/des.cc:162-173 | `unpad` never exceeds the buffer; in PKCS5 mode it is the last byte or 0 when that byte exceeds the ciphertext length, in NOPKCS mode the run length modulo 256 (below the buffer length, so byte 0 stays) |
| `Unpadding.Unpad` | 3des_winrt/des_test/des.cc:162-175 | the appended plaintext is the first `size - unpad` bytes of the decrypted buffer; in NOPKCS mode it is non-empty for non-empty input and only failing bytes are removed |
| `Unpadding.Pkcs5UnpadReadsLastByteOnly` | 3des_cng/des.cc:197-200 | two buffers of equal length with the same last byte lose the same number of bytes: the other padding bytes are never checked |
| `Unpadding.Pkcs5RoundTrip` | 3des_cng/des.cc:196-208 | PKCS5 unpadding returns the message of every RFC 8018 encoding |
| `Unpadding.Pkcs5AgreesWithStrictDecoder` | 3des_cng/des.cc:197-200 | wherever the strict decoder of RFC 8018 section 6.1.2 accepts, the lax unpadding returns the same message |
| `Unpadding.Pkcs5UnpadIsLax` | 3des_cng/des.cc:197-200 | the strict decoder rejects three inputs that the unpadding accepts: a last byte of 0 (nothing stripped), a last byte of 9 (nine bytes stripped), and a last byte of 2 preceded by a 7 |
| `Unpadding.ZeroRunOfZeroFill` | 3des_cng/des.cc:201-207 | behind a byte that passes the test, `k` appended zero bytes form a run of exactly `k` |
| `Unpadding.ZeroFillRoundTrip` | 3des_cng/des.cc:201-208 | NOPKCS unpadding removes a zero fill of fewer than 256 bytes from data ending in a passing byte |
| `Unpadding.NoPaddingIdentityIff` | 3des_winrt/des_test/des.cc:167-175 | NOPKCS unpadding leaves a buffer unchanged exactly when the run vanishes modulo 256; for 2..256 bytes, exactly when the last byte passes the test |
| `Unpadding.WrapKeepsZeroRun` | 3des_cng/des.cc:196-208 | a block of eight 0x01 bytes followed by 256 zero bytes comes back with none of the zeros stripped |
| `Unpadding.StripZeroRun` | 3des_cng/des.cc:201-208 | corrected stripping: keeps byte 0, leaves a result that ends in a passing byte unless only byte 0 is left, and removes only failing bytes |
| `Unpadding.StripZeroRunRoundTrip` | 3des_cng/des.cc:201-208 | the corrected stripping removes a zero fill of any length from data ending in a passing byte |
| `WinRt.Pad` | 3des_winrt/des_test/des.cc:138-149 | the engine input starts with the plaintext. PKCS5 appends 1..8 bytes, each equal to the number appended, to a block boundary. NOPKCS passes the plaintext through unchanged |
| `WinRt.PadMatchesReference` | 3des_winrt/des_test/des.cc:138-149 | PKCS5 padding equals the RFC 8018 encoding and the CNG backend's padding; in NOPKCS mode the two backends agree exactly on block-aligned plaintext |
| `WinRt.Unpad` | 3des_winrt/des_test/des.cc:162-175 | the result is a prefix of the decrypted buffer. PKCS5 behaves as in the CNG backend. NOPKCS removes bytes that are 0x00 or 0x80..0xFF, keeps byte 0, and strips the run modulo 256 |
| `WinRt.PadUnpadRoundTrip` | 3des_winrt/des_test/des.cc:138-175 | unpadding the padded plaintext gives it back: always in PKCS5 mode, and in NOPKCS mode when the last byte is 0x01..0x7F |
| `WinRt.NoPaddingRoundTripIff` | 3des_winrt/des_test/des.cc:138-175 | for NOPKCS plaintext of 2..256 bytes, the round trip returns it exactly when its last byte is 0x01..0x7F |
| `WinRt.Encrypt` | 3des_winrt/des_test/des.cc:135-151 | a ciphertext exists exactly when the engine encrypts the padded plaintext under the key as given; with an engine whose decryption inverts encryption, the ciphertext decrypts under the key as given to the padded plaintext |
| `WinRt.Decrypt` | 3des_winrt/des_test/des.cc:153-177 | a result exists exactly when the engine decrypts; it is the prefix of the decrypted bytes of length `cipher_text_size - unpad`, with `unpad` read through signed `char` |
| `WinRt.EncryptDecryptRoundTrip` | 3des_winrt/des_test/des.cc:135-177 | decrypting what `Encrypt` produced with the same key returns the plaintext (in NOPKCS mode, for plaintext ending in 0x01..0x7F) |
| `WinRt.NoPaddingLeavesUnaligned` | 3des_winrt/des_test/des.cc:139-150 | NOPKCS `Encrypt` hands the 5-byte plaintext "hello" to the engine unaligned |
| `WinRt.PadAligned` | 3des_winrt/des_test/des.cc:139-150 | corrected padding: NOPKCS zero-fills to the block boundary, so the engine input is always aligned; PKCS5 is unchanged |
| `WinRt.SignedCharStripsHighByte` | 3des_winrt/des_test/des.cc:167-173 | the block "abcdefg" followed by 0xE9 loses its last byte in the WinRT backend but is kept whole by the CNG backend |
| `WinRt.UnpadUnsigned` | 3des_winrt/des_test/des.cc:167-173 | corrected unpadding compares bytes as unsigned: NOPKCS strips the trailing zero run (modulo 256), removes only zero bytes, and keeps a buffer whose last byte is not zero; PKCS5 is unchanged |
| `WinRt.CorrectedRoundTrip` | 3des_winrt/des_test/des.cc:138-175 | with both corrections, a NOPKCS round trip returns every plaintext ending in a non-zero byte |

## Left out

- The platform calls are not modelled: `BCryptOpenAlgorithmProvider`, `BCryptSetProperty`, `BCryptGetProperty`, `BCryptGenerateSymmetricKey`, `BCryptEncrypt`, `BCryptDecrypt`, `BCryptDestroyKey`, `Initialize` and `Destroy` in the CNG backend, and the activation factories, `DoCrypto`, `SetBuffer` and `GetBuffer` in the WinRT backend. They are foreign calls and handle lifetimes. An abstract engine stands in for encryption and decryption, and every failure of these calls becomes the engine returning no result.
- The DES and triple-DES ciphers and ECB chaining are not modelled. The repository does not implement them.
- The CNG backend reads the block size from the provider (`3des_cng/des.cc:48-54`). The model fixes it at 8, the value of `DES_BLOCK_SIZE` and of DES.
- `BCryptEncrypt` and `BCryptDecrypt` are each called twice, first to ask for the output size and then to produce the output. The model makes one engine call.
- `Cng.DoDecrypt`, `WinRt.Decrypt`: assume the engine's output is as long as the ciphertext (`Engine.PreservesLength`). The CNG code indexes the output by the engine's `size` but compares `unpad` with `cipher_size`; the WinRT code indexes the output by the ciphertext length. An engine output longer than the ciphertext is read in bounds; one shorter than the ciphertext can be read out of bounds.
- `Cng.DoDecrypt`, `WinRt.Decrypt`, `Cng.Unpad`, `WinRt.Unpad`, `WinRt.UnpadUnsigned`, `Unpadding.Unpad`, `Unpadding.UnpadCount`: in PKCS5 mode they require a non-empty buffer. The code reads `output[size - 1]` (CNG) and `output[cipher_text_size - 1]` (WinRT); on an empty buffer the unsigned index wraps, so the read is out of bounds.
- Integer widths are not modelled apart from the `uint8_t` strip counter. Lengths are unbounded naturals, so the model omits overflow of `key_count * 8`, the `int` conversion of `size - 1` in the loop for buffers over 2^31 bytes, and the 32-bit `DWORD` sizes of BCrypt.
- The `memcpy_s` failure path (secret longer than the buffer) is not modelled. `Cng.NormalizeKey` proves it is never taken.
- Everything under `winrt_thread/` is out of scope: thread-pool creation, events, join, sleep and the priority mapping. It is concurrency and OS handles, with no data link to the cipher layer.

## Findings

`Cng.DoDecrypt`, `WinRt.Encrypt` and `WinRt.Decrypt` use the as-written definitions, because they model the code. Each corrected member carries its intended property in its own contract, and `WinRt.CorrectedRoundTrip` proves the two WinRT corrections together.

| source | as written | input that shows it | evidently intended | confidence | as-written member | corrected member |
|---|---|---|---|---|---|---|
| 3des_winrt/des_test/des.cc:169 | `output[i] > 0` reads a signed `char`, so NOPKCS unpadding strips bytes 0x80..0xFF like zeros | the 8-byte block "abcdefg" followed by 0xE9, NOPKCS mode: decrypts to "abcdefg" | compare unsigned bytes, as the CNG backend does at 3des_cng/des.cc:203, so only zero bytes are stripped | high that it differs from the CNG twin; not executed | `WinRt.SignedCharStripsHighByte` | `WinRt.UnpadUnsigned` |
| 3des_cng/des.cc:196-205 | the NOPKCS strip count is a `uint8_t` that wraps at 256, so a zero run of 256 bytes is not stripped at all | eight 0x01 bytes followed by 256 zero bytes (264 bytes, block-aligned), NOPKCS mode: returned unchanged (same code at 3des_winrt/des_test/des.cc:162-171) | strip the whole trailing zero run | medium; not executed | `Unpadding.WrapKeepsZeroRun` | `Unpadding.StripZeroRun` |
| 3des_winrt/des_test/des.cc:139-150 | NOPKCS `Encrypt` computes `buffer_size` with the zero-fill length but never uses it, so unaligned plaintext reaches a DES_ECB engine | the 5-byte plaintext "hello", NOPKCS mode: the engine receives 5 bytes | zero-fill to the block boundary, as the CNG backend does at 3des_cng/des.cc:96-103 | medium; not executed | `WinRt.NoPaddingLeavesUnaligned` | `WinRt.PadAligned` |
