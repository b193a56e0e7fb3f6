/** The platform cipher service the backends hand their buffers to
    (`BCryptEncrypt`/`BCryptDecrypt` in the CNG backend, the WinRT
    `CryptographicEngine` in the other). Its algorithm is not modelled: it
    is a pair of functions from a key and input bytes to output bytes, or to
    a failure when the platform call does not succeed. */
module Engine {
  import opened Bytes
  import opened Optional

  datatype CipherEngine = CipherEngine(
    encrypt: (seq<Byte>, seq<Byte>) -> Option<seq<Byte>>,
    decrypt: (seq<Byte>, seq<Byte>) -> Option<seq<Byte>>)

  /** Decrypting with the same key gives back what was encrypted. */
  ghost predicate Inverts(e: CipherEngine)
  {
    forall key, data :: e.encrypt(key, data).Some? ==>
      e.decrypt(key, e.encrypt(key, data).value) == Some(data)
  }

  /** Decryption output is as long as the ciphertext, as ECB without padding
      gives. The WinRT decrypt path indexes the output with the ciphertext
      length; the CNG path indexes it with the engine's output length and
      compares the pad byte with the ciphertext length. Output longer than
      the ciphertext is read in bounds, shorter output can be read out of
      bounds. */
  ghost predicate PreservesLength(e: CipherEngine)
  {
    forall key, data :: e.decrypt(key, data).Some? ==>
      |e.decrypt(key, data).value| == |data|
  }
}
