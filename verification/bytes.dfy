/** Byte buffers as the two backends handle them (`uint8_t`/`UCHAR` arrays and
    the contents of `std::string`), together with the C library buffer
    primitives the key and padding code calls. */
module Bytes {

  /** An unsigned 8-bit value. */
  type Byte = b: int | 0 <= b < 256

  /** `n` copies of `v`. */
  function Repeat(v: Byte, n: nat): (r: seq<Byte>)
    ensures |r| == n
    ensures forall i :: 0 <= i < n ==> r[i] == v
  {
    seq(n, _ => v)
  }

  /** A buffer of `n` zero bytes; this is also what `std::make_unique<uint8_t[]>(n)`
      yields, since it value-initialises every element. */
  function Zeros(n: nat): (r: seq<Byte>)
    ensures |r| == n
    ensures forall i :: 0 <= i < n ==> r[i] == 0
  {
    Repeat(0, n)
  }

  /** `memset(buf, v, count)`: the first `count` bytes become `v`. */
  function MemSet(buf: seq<Byte>, v: Byte, count: nat): (r: seq<Byte>)
    requires count <= |buf|
    ensures |r| == |buf|
    ensures forall i :: 0 <= i < count ==> r[i] == v
    ensures r[count..] == buf[count..]
  {
    Repeat(v, count) + buf[count..]
  }

  /** `memcpy_s(dest, |dest|, src, |src|)`; the caller must keep `src` within
      the destination, otherwise `memcpy_s` refuses the copy. */
  function MemCopy(dest: seq<Byte>, src: seq<Byte>): (r: seq<Byte>)
    requires |src| <= |dest|
    ensures |r| == |dest|
    ensures r[..|src|] == src
    ensures r[|src|..] == dest[|src|..]
  {
    src + dest[|src|..]
  }

  /** The loop `for (i = from; i < to; i++) buf[i] = v;`. */
  function Fill(buf: seq<Byte>, from: nat, to: nat, v: Byte): (r: seq<Byte>)
    requires from <= to <= |buf|
    ensures |r| == |buf|
    ensures r[..from] == buf[..from]
    ensures forall i :: from <= i < to ==> r[i] == v
    ensures r[to..] == buf[to..]
  {
    buf[..from] + Repeat(v, to - from) + buf[to..]
  }

  /** The bytes of an 8-bit string literal. */
  function Ascii(s: string): (r: seq<Byte>)
    requires forall i :: 0 <= i < |s| ==> s[i] as int < 256
    ensures |r| == |s|
    ensures forall i :: 0 <= i < |s| ==> r[i] == s[i] as int
  {
    seq(|s|, i requires 0 <= i < |s| => s[i] as int)
  }
}
