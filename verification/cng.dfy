/** The CNG backend (`Crypto3DesCNG`): key sizing in `CreateKeyHandle`, the
    padding half of `DoEncrypt` and the unpadding half of `DoDecrypt`, with
    the BCrypt calls standing behind an abstract engine. */
module Cng {
  import opened Bytes
  import opened Optional
  import opened Des
  import opened Engine
  import Pkcs5
  import Unpadding

  /** `key_count`: the number of 8-byte blocks of the key buffer, the secret's
      length rounded up to whole blocks and raised to at least three. It is
      the least count of at least three whose blocks hold the whole secret. */
  function KeyBlockCount(n: nat): (count: nat)
    ensures count >= 3
    ensures count * BlockSize >= n
    ensures count == 3 || (count - 1) * BlockSize < n
  {
    var count := n / BlockSize + (if n % BlockSize != 0 then 1 else 0);
    if count < 3 then 3 else count
  }

  /** The key bytes `CreateKeyHandle` hands to `BCryptGenerateSymmetricKey`:
      a value-initialised buffer of `key_count * 8` bytes, its first
      `key_count` bytes cleared again by `memset`, then the secret copied in
      front by `memcpy_s`. */
  function NormalizeKey(secret: seq<Byte>): (key: seq<Byte>)
    ensures |key| == KeyBlockCount(|secret|) * BlockSize
    ensures |key| % BlockSize == 0 && |key| >= 3 * BlockSize
    ensures |key| >= |secret|
    ensures |key| < |secret| + BlockSize || |key| == 3 * BlockSize
    ensures key[..|secret|] == secret
    ensures forall i :: |secret| <= i < |key| ==> key[i] == 0
  {
    var count := KeyBlockCount(|secret|);
    var size := count * BlockSize;
    var deskey := MemSet(Zeros(size), 0, count);
    MemCopy(deskey, secret)
  }

  /** The normalised key is the secret followed by zeros: the partial
      `memset` does no harm because the buffer starts out all zero. */
  lemma NormalizeKeyIsZeroExtension(secret: seq<Byte>)
    ensures NormalizeKey(secret) == secret + Zeros(|NormalizeKey(secret)| - |secret|)
  {
    var key := NormalizeKey(secret);
    assert key == key[..|secret|] + key[|secret|..];
  }

  /** The engine input `DoEncrypt` builds: a zeroed buffer of `buffer_size`
      bytes with the plaintext copied in front; in PKCS5 mode the bytes after
      the plaintext are then overwritten with the pad value. */
  function Pad(mode: Padding, plaintext: seq<Byte>): (source: seq<Byte>)
    ensures |source| % BlockSize == 0
    ensures mode == NOPKCS ==> |plaintext| <= |source| < |plaintext| + BlockSize
    ensures mode == PKCS5 ==> |plaintext| < |source| <= |plaintext| + BlockSize
    ensures source[..|plaintext|] == plaintext
    ensures mode == PKCS5 ==> forall i :: |plaintext| <= i < |source| ==> source[i] == |source| - |plaintext|
    ensures mode == NOPKCS ==> forall i :: |plaintext| <= i < |source| ==> source[i] == 0
  {
    var pad := |plaintext| % BlockSize;
    var size := if mode == PKCS5 || pad > 0 then |plaintext| + (BlockSize - pad) else |plaintext|;
    var source := MemCopy(Zeros(size), plaintext);
    if mode == PKCS5 then Fill(source, |plaintext|, size, Pkcs5PadByte(|plaintext|)) else source
  }

  /** In PKCS5 mode the padding is exactly that of RFC 8018; in NOPKCS mode it
      is a zero fill to the next block boundary, and nothing when aligned. */
  lemma PadMatchesReference(plaintext: seq<Byte>)
    ensures Pad(PKCS5, plaintext) == Pkcs5.Encode(plaintext)
    ensures Pad(NOPKCS, plaintext) ==
      plaintext + Zeros(if |plaintext| % BlockSize == 0 then 0 else BlockSize - |plaintext| % BlockSize)
  {
    var p := Pad(PKCS5, plaintext);
    assert p == p[..|plaintext|] + p[|plaintext|..];
    var z := Pad(NOPKCS, plaintext);
    assert z == z[..|plaintext|] + z[|plaintext|..];
  }

  /** The plaintext `DoDecrypt` appends, read through `UCHAR` elements. */
  function Unpad(mode: Padding, output: seq<Byte>): (plaintext: seq<Byte>)
    requires mode == PKCS5 ==> |output| > 0
    ensures |plaintext| <= |output|
    ensures plaintext == output[..|plaintext|]
    ensures mode == PKCS5 && output[|output| - 1] > |output| ==> plaintext == output
    ensures mode == PKCS5 && output[|output| - 1] <= |output| ==> |plaintext| == |output| - output[|output| - 1]
    ensures mode == NOPKCS && |output| > 0 ==> |plaintext| > 0
    ensures mode == NOPKCS ==> forall j :: |plaintext| <= j < |output| ==> output[j] == 0
    ensures mode == NOPKCS ==> |output| - |plaintext| == Unpadding.ZeroRun(output, Unpadding.Unsigned) % 256
  {
    Unpadding.Unpad(mode, Unpadding.Unsigned, output)
  }

  /** Unpadding undoes padding: always in PKCS5 mode, and in NOPKCS mode when
      the plaintext ends in a non-zero byte. */
  lemma PadUnpadRoundTrip(mode: Padding, plaintext: seq<Byte>)
    requires mode == NOPKCS ==> |plaintext| > 0 && plaintext[|plaintext| - 1] != 0
    ensures Unpad(mode, Pad(mode, plaintext)) == plaintext
  {
    PadMatchesReference(plaintext);
    if mode == PKCS5 {
      Unpadding.Pkcs5RoundTrip(plaintext, Unpadding.Unsigned);
    } else {
      var k := if |plaintext| % BlockSize == 0 then 0 else BlockSize - |plaintext| % BlockSize;
      Unpadding.ZeroFillRoundTrip(plaintext, k, Unpadding.Unsigned);
    }
  }

  /** NOPKCS round trips lose trailing zeros of the plaintext itself: "abc"
      followed by two zero bytes comes back as "abc". */
  lemma NoPaddingDropsTrailingZeros()
    ensures Unpad(NOPKCS, Pad(NOPKCS, [0x61, 0x62, 0x63, 0, 0])) == [0x61, 0x62, 0x63]
  {
    var p: seq<Byte> := [0x61, 0x62, 0x63];
    PadMatchesReference([0x61, 0x62, 0x63, 0, 0]);
    assert [0x61, 0x62, 0x63, 0, 0] + Zeros(3) == p + Zeros(5);
    Unpadding.ZeroFillRoundTrip(p, 5, Unpadding.Unsigned);
  }

  /** `DoEncrypt`: normalise the key, pad, and hand both to the engine. */
  function DoEncrypt(e: CipherEngine, mode: Padding, key: seq<Byte>, plaintext: seq<Byte>): (ciphertext: Option<seq<Byte>>)
    ensures ciphertext.Some? <==> e.encrypt(NormalizeKey(key), Pad(mode, plaintext)).Some?
    ensures Inverts(e) && ciphertext.Some? ==>
      e.decrypt(NormalizeKey(key), ciphertext.value) == Some(Pad(mode, plaintext))
    ensures Inverts(e) && PreservesLength(e) && ciphertext.Some? ==>
      |ciphertext.value| % BlockSize == 0 && |ciphertext.value| >= |plaintext|
  {
    e.encrypt(NormalizeKey(key), Pad(mode, plaintext))
  }

  /** `DoDecrypt`: normalise the key, decrypt with the engine, and unpad. */
  function DoDecrypt(e: CipherEngine, mode: Padding, key: seq<Byte>, ciphertext: seq<Byte>): (plaintext: Option<seq<Byte>>)
    requires PreservesLength(e)
    requires mode == PKCS5 ==> |ciphertext| > 0
    ensures plaintext.Some? <==> e.decrypt(NormalizeKey(key), ciphertext).Some?
    ensures plaintext.Some? ==> |plaintext.value| <= |ciphertext|
    ensures plaintext.Some? ==>
      |plaintext.value| == |ciphertext| - Unpadding.UnpadCount(mode, Unpadding.Unsigned, e.decrypt(NormalizeKey(key), ciphertext).value)
    ensures plaintext.Some? ==> plaintext.value == e.decrypt(NormalizeKey(key), ciphertext).value[..|plaintext.value|]
  {
    match e.decrypt(NormalizeKey(key), ciphertext)
    case None => None
    case Some(output) => Some(Unpad(mode, output))
  }

  /** Whatever `DoEncrypt` produces, `DoDecrypt` with the same secret turns
      back into the plaintext (in NOPKCS mode, for plaintext ending in a
      non-zero byte). */
  lemma EncryptDecryptRoundTrip(e: CipherEngine, mode: Padding, key: seq<Byte>, plaintext: seq<Byte>)
    requires PreservesLength(e) && Inverts(e)
    requires mode == NOPKCS ==> |plaintext| > 0 && plaintext[|plaintext| - 1] != 0
    requires DoEncrypt(e, mode, key, plaintext).Some?
    ensures mode == PKCS5 ==> |DoEncrypt(e, mode, key, plaintext).value| > 0
    ensures DoDecrypt(e, mode, key, DoEncrypt(e, mode, key, plaintext).value) == Some(plaintext)
  {
    PadUnpadRoundTrip(mode, plaintext);
  }

  /** The demonstration program: secret "12345678" is stretched to 24 bytes,
      "this is a test!" gains one padding byte of value 1, and decryption
      gives the text back. */
  lemma DemoRoundTrip(e: CipherEngine)
    requires PreservesLength(e) && Inverts(e)
    ensures NormalizeKey(Ascii("12345678")) == Ascii("12345678") + Zeros(16)
    ensures Pad(PKCS5, Ascii("this is a test!")) == Ascii("this is a test!") + [1]
    ensures DoEncrypt(e, PKCS5, Ascii("12345678"), Ascii("this is a test!")).Some? ==>
      DoDecrypt(e, PKCS5, Ascii("12345678"),
                DoEncrypt(e, PKCS5, Ascii("12345678"), Ascii("this is a test!")).value)
        == Some(Ascii("this is a test!"))
  {
    NormalizeKeyIsZeroExtension(Ascii("12345678"));
    PadMatchesReference(Ascii("this is a test!"));
    if DoEncrypt(e, PKCS5, Ascii("12345678"), Ascii("this is a test!")).Some? {
      EncryptDecryptRoundTrip(e, PKCS5, Ascii("12345678"), Ascii("this is a test!"));
    }
  }
}
