/** What the two backends share: the DES block size and the padding mode
    selected when a backend object is constructed. */
module Des {
  import opened Bytes

  /** `DES_BLOCK_SIZE`: the block length of DES and triple DES, in bytes. */
  const BlockSize: nat := 8

  /** The `Padding` enumeration of both backends. */
  datatype Padding = NOPKCS | PKCS5

  /** The value written into each padding byte in PKCS5 mode for a plaintext of
      `n` bytes: `pad ? (block_size - pad) : 0x08` with `pad = n % block_size`.
      It is the one value in 1..8 that brings `n` to a block boundary. */
  function Pkcs5PadByte(n: nat): (v: Byte)
    ensures 1 <= v <= BlockSize
    ensures (n + v) % BlockSize == 0
  {
    var pad := n % BlockSize;
    if pad != 0 then BlockSize - pad else 0x08
  }
}
