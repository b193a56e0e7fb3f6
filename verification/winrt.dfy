/** The WinRT backend (`CryptoWinRT`): the padding in `Encrypt` and the
    unpadding in `Decrypt`. The key reaches the engine as given, and the
    decrypted bytes are read back through a `std::string`, whose `char` is
    signed. */
module WinRt {
  import opened Bytes
  import opened Optional
  import opened Des
  import opened Engine
  import Pkcs5
  import Unpadding
  import Cng

  /** The engine input `Encrypt` builds: a copy of the plaintext, followed in
      PKCS5 mode by one pad byte per position up to `buffer_size`. In NOPKCS
      mode `buffer_size` is computed but never used, so nothing is added. */
  function Pad(mode: Padding, plaintext: seq<Byte>): (input: seq<Byte>)
    ensures |plaintext| <= |input|
    ensures input[..|plaintext|] == plaintext
    ensures mode == NOPKCS ==> input == plaintext
    ensures mode == PKCS5 ==> |input| % BlockSize == 0 && |plaintext| < |input| <= |plaintext| + BlockSize
    ensures mode == PKCS5 ==> forall i :: |plaintext| <= i < |input| ==> input[i] == |input| - |plaintext|
  {
    var pad := |plaintext| % BlockSize;
    var bufferSize := if mode == PKCS5 || pad > 0 then |plaintext| + (BlockSize - pad) else |plaintext|;
    if mode == PKCS5 then plaintext + Repeat(Pkcs5PadByte(|plaintext|), bufferSize - |plaintext|)
    else plaintext
  }

  /** In PKCS5 mode the padding is that of RFC 8018, the same as the CNG
      backend's; in NOPKCS mode the two backends disagree on unaligned input. */
  lemma PadMatchesReference(plaintext: seq<Byte>)
    ensures Pad(PKCS5, plaintext) == Pkcs5.Encode(plaintext)
    ensures Pad(PKCS5, plaintext) == Cng.Pad(PKCS5, plaintext)
    ensures Pad(NOPKCS, plaintext) == Cng.Pad(NOPKCS, plaintext) <==> |plaintext| % BlockSize == 0
  {
    Cng.PadMatchesReference(plaintext);
  }

  /** The plaintext `Decrypt` appends, read through signed `char` elements:
      in NOPKCS mode every byte from 0x80 up is stripped like a zero. */
  function Unpad(mode: Padding, output: seq<Byte>): (plaintext: seq<Byte>)
    requires mode == PKCS5 ==> |output| > 0
    ensures |plaintext| <= |output|
    ensures plaintext == output[..|plaintext|]
    ensures mode == PKCS5 && output[|output| - 1] > |output| ==> plaintext == output
    ensures mode == PKCS5 && output[|output| - 1] <= |output| ==> |plaintext| == |output| - output[|output| - 1]
    ensures mode == NOPKCS && |output| > 0 ==> |plaintext| > 0
    ensures mode == NOPKCS ==> forall j :: |plaintext| <= j < |output| ==> output[j] == 0 || output[j] >= 0x80
    ensures mode == NOPKCS ==> |output| - |plaintext| == Unpadding.ZeroRun(output, Unpadding.Signed) % 256
  {
    Unpadding.Unpad(mode, Unpadding.Signed, output)
  }

  /** Unpadding undoes padding: always in PKCS5 mode, and in NOPKCS mode when
      the plaintext ends in a byte from 0x01 to 0x7F. */
  lemma PadUnpadRoundTrip(mode: Padding, plaintext: seq<Byte>)
    requires mode == NOPKCS ==> |plaintext| > 0 && 1 <= plaintext[|plaintext| - 1] <= 0x7F
    ensures Unpad(mode, Pad(mode, plaintext)) == plaintext
  {
    PadMatchesReference(plaintext);
    if mode == PKCS5 {
      Unpadding.Pkcs5RoundTrip(plaintext, Unpadding.Signed);
    } else {
      Unpadding.ZeroFillRoundTrip(plaintext, 0, Unpadding.Signed);
      assert plaintext + Zeros(0) == plaintext;
    }
  }

  /** For NOPKCS plaintext of 2 to 256 bytes, the round trip gives the
      plaintext back exactly when its last byte lies in 0x01..0x7F. */
  lemma NoPaddingRoundTripIff(plaintext: seq<Byte>)
    requires 2 <= |plaintext| <= 256
    ensures Unpad(NOPKCS, Pad(NOPKCS, plaintext)) == plaintext <==> 1 <= plaintext[|plaintext| - 1] <= 0x7F
  {
    Unpadding.NoPaddingIdentityIff(plaintext, Unpadding.Signed);
  }

  /** `Encrypt`: pad and hand the key, as given, to the engine. */
  function Encrypt(e: CipherEngine, mode: Padding, key: seq<Byte>, plaintext: seq<Byte>): (ciphertext: Option<seq<Byte>>)
    ensures ciphertext.Some? <==> e.encrypt(key, Pad(mode, plaintext)).Some?
    ensures Inverts(e) && ciphertext.Some? ==> e.decrypt(key, ciphertext.value) == Some(Pad(mode, plaintext))
  {
    e.encrypt(key, Pad(mode, plaintext))
  }

  /** `Decrypt`: decrypt with the engine, then unpad. */
  function Decrypt(e: CipherEngine, mode: Padding, key: seq<Byte>, ciphertext: seq<Byte>): (plaintext: Option<seq<Byte>>)
    requires PreservesLength(e)
    requires mode == PKCS5 ==> |ciphertext| > 0
    ensures plaintext.Some? <==> e.decrypt(key, ciphertext).Some?
    ensures plaintext.Some? ==> |plaintext.value| <= |ciphertext|
    ensures plaintext.Some? ==>
      |plaintext.value| == |ciphertext| - Unpadding.UnpadCount(mode, Unpadding.Signed, e.decrypt(key, ciphertext).value)
    ensures plaintext.Some? ==> plaintext.value == e.decrypt(key, ciphertext).value[..|plaintext.value|]
  {
    match e.decrypt(key, ciphertext)
    case None => None
    case Some(output) => Some(Unpad(mode, output))
  }

  /** Whatever `Encrypt` produces, `Decrypt` with the same key turns back into
      the plaintext (in NOPKCS mode, for plaintext ending in 0x01..0x7F). */
  lemma EncryptDecryptRoundTrip(e: CipherEngine, mode: Padding, key: seq<Byte>, plaintext: seq<Byte>)
    requires PreservesLength(e) && Inverts(e)
    requires mode == NOPKCS ==> |plaintext| > 0 && 1 <= plaintext[|plaintext| - 1] <= 0x7F
    requires Encrypt(e, mode, key, plaintext).Some?
    ensures mode == PKCS5 ==> |Encrypt(e, mode, key, plaintext).value| > 0
    ensures Decrypt(e, mode, key, Encrypt(e, mode, key, plaintext).value) == Some(plaintext)
  {
    PadUnpadRoundTrip(mode, plaintext);
  }

  /** The code as written: NOPKCS `Encrypt` hands unaligned plaintext such as
      "hello" to a DES_ECB engine that accepts whole blocks only. */
  lemma NoPaddingLeavesUnaligned()
    ensures |Pad(NOPKCS, Ascii("hello"))| % BlockSize != 0
  {
  }

  /** Padding with `buffer_size` put to use: NOPKCS input is zero-filled to
      the block boundary, as the CNG backend does. */
  function PadAligned(mode: Padding, plaintext: seq<Byte>): (input: seq<Byte>)
    ensures |input| % BlockSize == 0
    ensures |plaintext| <= |input| <= |plaintext| + BlockSize
    ensures input[..|plaintext|] == plaintext
    ensures mode == NOPKCS ==> |input| < |plaintext| + BlockSize
    ensures mode == NOPKCS ==> forall i :: |plaintext| <= i < |input| ==> input[i] == 0
    ensures mode == PKCS5 ==> input == Pad(PKCS5, plaintext)
  {
    PadMatchesReference(plaintext);
    Cng.Pad(mode, plaintext)
  }

  /** The code as written: a block ending in 0xE9 loses that byte in NOPKCS
      mode, while the CNG backend keeps it. */
  lemma SignedCharStripsHighByte()
    ensures Unpad(NOPKCS, [0x61, 0x62, 0x63, 0x64, 0x65, 0x66, 0x67, 0xE9]) == [0x61, 0x62, 0x63, 0x64, 0x65, 0x66, 0x67]
    ensures Cng.Unpad(NOPKCS, [0x61, 0x62, 0x63, 0x64, 0x65, 0x66, 0x67, 0xE9]) == [0x61, 0x62, 0x63, 0x64, 0x65, 0x66, 0x67, 0xE9]
  {
    var s: seq<Byte> := [0x61, 0x62, 0x63, 0x64, 0x65, 0x66, 0x67, 0xE9];
    Unpadding.ZeroRunExact(s, Unpadding.Signed, 1);
    Unpadding.ZeroRunExact(s, Unpadding.Unsigned, 0);
    assert s[..7] == [0x61, 0x62, 0x63, 0x64, 0x65, 0x66, 0x67];
  }

  /** Unpadding with the bytes compared as unsigned, as the CNG backend
      does. Only zero bytes are stripped, a last byte that is not zero keeps
      the buffer whole, and zero-filled padding comes off again. */
  function UnpadUnsigned(mode: Padding, output: seq<Byte>): (plaintext: seq<Byte>)
    requires mode == PKCS5 ==> |output| > 0
    ensures |plaintext| <= |output|
    ensures plaintext == output[..|plaintext|]
    ensures mode == NOPKCS ==> forall j :: |plaintext| <= j < |output| ==> output[j] == 0
    ensures mode == NOPKCS ==> |output| - |plaintext| == Unpadding.ZeroRun(output, Unpadding.Unsigned) % 256
    ensures mode == NOPKCS && |output| > 0 && output[|output| - 1] != 0 ==> plaintext == output
    ensures mode == PKCS5 ==> plaintext == Unpad(PKCS5, output)
  {
    Cng.Unpad(mode, output)
  }

  /** With both corrections, NOPKCS round trips keep every plaintext that ends
      in a non-zero byte, high bytes included. */
  lemma CorrectedRoundTrip(plaintext: seq<Byte>)
    requires |plaintext| > 0 && plaintext[|plaintext| - 1] != 0
    ensures UnpadUnsigned(NOPKCS, PadAligned(NOPKCS, plaintext)) == plaintext
  {
    Cng.PadUnpadRoundTrip(NOPKCS, plaintext);
  }
}
