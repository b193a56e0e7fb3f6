/** The unpadding half of decryption, which both backends implement with the
    same logic: read a `uint8_t unpad` from the decrypted buffer, then keep
    its first `size - unpad` bytes. Besides the element type they read bytes
    through, which `CharSign` records, the backends differ in the length they
    index by, which `Engine.PreservesLength` makes equal. */
module Unpadding {
  import opened Bytes
  import opened Des
  import Pkcs5

  /** How the decrypted buffer's elements read: the CNG backend reads an
      `UCHAR` array (Unsigned), the WinRT backend a `std::string`, whose
      `char` is signed under the compiler's default (Signed). */
  datatype CharSign = Unsigned | Signed

  /** The value a byte has when read through the element type. */
  function AsChar(b: Byte, sign: CharSign): (c: int)
    ensures c % 256 == b
    ensures sign == Unsigned ==> c == b
    ensures sign == Signed ==> -128 <= c < 128
  {
    if sign == Signed && b >= 128 then b - 256 else b
  }

  /** The test `output[i] > 0` that ends the NOPKCS stripping loop: through
      `UCHAR` only zero fails it, through signed `char` every byte from 0x80
      up fails it as well. */
  predicate IsPositive(b: Byte, sign: CharSign)
    ensures IsPositive(b, sign) <==> b != 0 && (sign == Unsigned || b < 0x80)
  {
    AsChar(b, sign) > 0
  }

  /** The number of bytes the NOPKCS loop steps over, counted without
      wrap-around: the run of bytes failing the test at indices `|s|-1`
      down to 1. Index 0 is never examined, so it never belongs to the run. */
  function ZeroRun(s: seq<Byte>, sign: CharSign): (n: nat)
    ensures |s| == 0 ==> n == 0
    ensures |s| > 0 ==> n < |s|
    ensures forall j :: |s| - n <= j < |s| ==> !IsPositive(s[j], sign)
    ensures n < |s| - 1 ==> IsPositive(s[|s| - 1 - n], sign)
  {
    if |s| <= 1 then 0
    else if IsPositive(s[|s| - 1], sign) then 0
    else 1 + ZeroRun(s[..|s| - 1], sign)
  }

  /** The run is determined by its two defining facts: a suffix of `k` failing
      bytes that is either as long as possible or preceded by a passing byte. */
  lemma ZeroRunExact(s: seq<Byte>, sign: CharSign, k: nat)
    requires |s| == 0 ==> k == 0
    requires |s| > 0 ==> k < |s|
    requires forall j :: |s| - k <= j < |s| ==> !IsPositive(s[j], sign)
    requires k < |s| - 1 ==> IsPositive(s[|s| - 1 - k], sign)
    ensures ZeroRun(s, sign) == k
  {
  }

  /** Appending `k` zero bytes behind a byte that passes the test gives a run
      of exactly `k`. */
  lemma ZeroRunOfZeroFill(p: seq<Byte>, k: nat, sign: CharSign)
    requires |p| > 0 && IsPositive(p[|p| - 1], sign)
    ensures ZeroRun(p + Zeros(k), sign) == k
  {
    var s := p + Zeros(k);
    assert s[|s| - 1 - k] == p[|p| - 1];
    forall j | |s| - k <= j < |s| ensures !IsPositive(s[j], sign) {
      assert s[j] == 0;
    }
    ZeroRunExact(s, sign, k);
  }

  /** The NOPKCS loop `for (int i = size - 1; i > 0; i--) { if (output[i] > 0)
      break; ++unpad; }` with its `uint8_t` counter, which wraps at 256. */
  method CountZeroRun(output: seq<Byte>, sign: CharSign) returns (unpad: Byte)
    ensures unpad == ZeroRun(output, sign) % 256
  {
    unpad := 0;
    var i := |output| - 1;
    while i > 0 && !IsPositive(output[i], sign)
      invariant |output| == 0 ==> i == -1
      invariant |output| > 0 ==> 0 <= i < |output|
      invariant unpad == (|output| - 1 - i) % 256
      invariant forall j :: i < j < |output| ==> !IsPositive(output[j], sign)
      decreases i
    {
      unpad := (unpad + 1) % 256;
      i := i - 1;
    }
    ZeroRunExact(output, sign, |output| - 1 - i);
  }

  /** The `uint8_t unpad` value the decrypt paths compute from the decrypted
      buffer. PKCS5 reads only the last byte and drops it when it exceeds the
      buffer; NOPKCS counts the stripped run modulo 256. */
  function UnpadCount(mode: Padding, sign: CharSign, output: seq<Byte>): (unpad: Byte)
    requires mode == PKCS5 ==> |output| > 0
    ensures unpad <= |output|
    ensures mode == NOPKCS && |output| > 0 ==> unpad < |output|
    ensures mode == PKCS5 && output[|output| - 1] > |output| ==> unpad == 0
    ensures mode == PKCS5 && output[|output| - 1] <= |output| ==> unpad == output[|output| - 1]
    ensures mode == NOPKCS ==> unpad == ZeroRun(output, sign) % 256
  {
    match mode
    case PKCS5 =>
      var p := output[|output| - 1];
      if p > |output| then 0 else p
    case NOPKCS =>
      ZeroRun(output, sign) % 256
  }

  /** `plaintext->append(output, output + size - unpad)`. */
  function Unpad(mode: Padding, sign: CharSign, output: seq<Byte>): (plaintext: seq<Byte>)
    requires mode == PKCS5 ==> |output| > 0
    ensures |plaintext| <= |output|
    ensures plaintext == output[..|plaintext|]
    ensures |output| - |plaintext| == UnpadCount(mode, sign, output)
    ensures mode == NOPKCS && |output| > 0 ==> |plaintext| > 0
    ensures mode == NOPKCS ==> forall j :: |plaintext| <= j < |output| ==> !IsPositive(output[j], sign)
  {
    output[..|output| - UnpadCount(mode, sign, output)]
  }

  /** PKCS5 unpadding looks at nothing but the length and the last byte: the
      other padding bytes are never checked. */
  lemma Pkcs5UnpadReadsLastByteOnly(a: seq<Byte>, b: seq<Byte>, sign: CharSign)
    requires |a| == |b| > 0
    requires a[|a| - 1] == b[|b| - 1]
    ensures |Unpad(PKCS5, sign, a)| == |Unpad(PKCS5, sign, b)|
  {
  }

  /** PKCS5 unpadding undoes the encoding of RFC 8018 for every message. */
  lemma Pkcs5RoundTrip(m: seq<Byte>, sign: CharSign)
    ensures Unpad(PKCS5, sign, Pkcs5.Encode(m)) == m
  {
    Pkcs5.EncodeWellPadded(m);
    var em := Pkcs5.Encode(m);
    assert em[|em| - 1] == 8 - |m| % 8;
  }

  /** On every input the strict decoder of RFC 8018 accepts, the lax unpadding
      returns the same message. */
  lemma Pkcs5AgreesWithStrictDecoder(em: seq<Byte>, sign: CharSign)
    requires Pkcs5.Decode(em).Some?
    ensures Unpad(PKCS5, sign, em) == Pkcs5.Decode(em).value
  {
  }

  /** The lax unpadding accepts inputs the strict decoder rejects: a last byte
      of 0 strips nothing, one above 8 strips more than a block, and wrong
      bytes in front of the last one go unnoticed. */
  lemma Pkcs5UnpadIsLax(sign: CharSign)
    ensures Pkcs5.Decode([1, 2, 3, 4, 5, 6, 7, 0]).None?
    ensures Unpad(PKCS5, sign, [1, 2, 3, 4, 5, 6, 7, 0]) == [1, 2, 3, 4, 5, 6, 7, 0]
    ensures Pkcs5.Decode([1, 2, 3, 4, 5, 6, 7, 8, 9, 10, 11, 12, 13, 14, 15, 9]).None?
    ensures Unpad(PKCS5, sign, [1, 2, 3, 4, 5, 6, 7, 8, 9, 10, 11, 12, 13, 14, 15, 9]) == [1, 2, 3, 4, 5, 6, 7]
    ensures Pkcs5.Decode([1, 2, 3, 4, 5, 6, 7, 2]).None?
    ensures Unpad(PKCS5, sign, [1, 2, 3, 4, 5, 6, 7, 2]) == [1, 2, 3, 4, 5, 6]
  {
    assert [1, 2, 3, 4, 5, 6, 7, 8, 9, 10, 11, 12, 13, 14, 15, 9][..7] == [1, 2, 3, 4, 5, 6, 7];
    assert [1, 2, 3, 4, 5, 6, 7, 2][..6] == [1, 2, 3, 4, 5, 6];
    assert !Pkcs5.WellPadded([1, 2, 3, 4, 5, 6, 7, 2]) by {
      assert [1, 2, 3, 4, 5, 6, 7, 2][6] != 2;
    }
  }

  /** NOPKCS unpadding undoes a zero fill of fewer than 256 bytes whenever the
      data ends in a byte that passes the test. */
  lemma ZeroFillRoundTrip(p: seq<Byte>, k: nat, sign: CharSign)
    requires |p| > 0 && IsPositive(p[|p| - 1], sign)
    requires k < 256
    ensures Unpad(NOPKCS, sign, p + Zeros(k)) == p
  {
    ZeroRunOfZeroFill(p, k, sign);
    assert (p + Zeros(k))[..|p|] == p;
  }

  /** NOPKCS unpadding returns its input unchanged exactly when the stripped
      run vanishes modulo 256; for inputs of 2..256 bytes, exactly when the
      last byte passes the test. */
  lemma NoPaddingIdentityIff(s: seq<Byte>, sign: CharSign)
    ensures Unpad(NOPKCS, sign, s) == s <==> ZeroRun(s, sign) % 256 == 0
    ensures 2 <= |s| <= 256 ==> (Unpad(NOPKCS, sign, s) == s <==> IsPositive(s[|s| - 1], sign))
  {
    if 2 <= |s| <= 256 && !IsPositive(s[|s| - 1], sign) {
      assert 0 < ZeroRun(s, sign) < 256;
    }
  }

  /** The code as written counts in a `uint8_t` that wraps, so a block of
      non-zero bytes followed by 256 zero bytes comes back with none of the
      zeros stripped. */
  lemma WrapKeepsZeroRun(sign: CharSign)
    ensures Unpad(NOPKCS, sign, Repeat(1, 8) + Zeros(256)) == Repeat(1, 8) + Zeros(256)
  {
    ZeroRunOfZeroFill(Repeat(1, 8), 256, sign);
  }

  /** With the counter widened to `size_t`, the whole run is stripped. The
      result keeps byte 0, ends in a passing byte unless only byte 0 is left,
      and the input is the result followed by failing bytes only. */
  function StripZeroRun(output: seq<Byte>, sign: CharSign): (plaintext: seq<Byte>)
    ensures |plaintext| <= |output|
    ensures plaintext == output[..|plaintext|]
    ensures |output| > 0 ==> |plaintext| > 0
    ensures |plaintext| > 1 ==> IsPositive(plaintext[|plaintext| - 1], sign)
    ensures forall j :: |plaintext| <= j < |output| ==> !IsPositive(output[j], sign)
  {
    output[..|output| - ZeroRun(output, sign)]
  }

  /** The corrected stripping undoes a zero fill of any length. */
  lemma StripZeroRunRoundTrip(p: seq<Byte>, k: nat, sign: CharSign)
    requires |p| > 0 && IsPositive(p[|p| - 1], sign)
    ensures StripZeroRun(p + Zeros(k), sign) == p
  {
    ZeroRunOfZeroFill(p, k, sign);
    assert (p + Zeros(k))[..|p|] == p;
  }
}
