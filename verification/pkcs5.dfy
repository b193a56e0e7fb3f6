/** The padding of PKCS #5 v2.1 (RFC 8018) for an 8-octet block cipher:
    section 6.1.1 step 4 builds the padded message, section 6.1.2 step 5
    separates it again and rejects anything that is not of that shape. This
    is the reference the backends' own padding is compared with. */
module Pkcs5 {
  import opened Bytes
  import opened Optional

  /** Section 6.1.1 step 4: EM = M || PS, where PS is 8 - (||M|| mod 8)
      octets, each holding 8 - (||M|| mod 8). */
  function Encode(m: seq<Byte>): (em: seq<Byte>)
  {
    var k := 8 - |m| % 8;
    m + Repeat(k, k)
  }

  /** The shape of an encoded message: a prefix followed by psLen octets of
      value psLen, with psLen between 1 and 8, the whole a multiple of 8. */
  predicate WellPadded(em: seq<Byte>)
  {
    && |em| > 0
    && |em| % 8 == 0
    && 1 <= em[|em| - 1] <= 8
    && forall i :: |em| - em[|em| - 1] <= i < |em| ==> em[i] == em[|em| - 1]
  }

  /** Section 6.1.2 step 5: split EM into M and PS, or report a decryption
      error when that is impossible. */
  function Decode(em: seq<Byte>): (r: Option<seq<Byte>>)
    ensures r.Some? ==> Encode(r.value) == em
    ensures r.Some? <==> WellPadded(em)
  {
    if WellPadded(em) then
      var p := em[|em| - 1];
      var m := em[..|em| - p];
      assert Encode(m) == em by {
        assert |m| % 8 == 8 - p;
        assert em == m + em[|em| - p..];
      }
      Some(m)
    else
      None
  }

  /** Encoding always yields a well-padded message of the next block length. */
  lemma EncodeWellPadded(m: seq<Byte>)
    ensures |m| < |Encode(m)| <= |m| + 8
    ensures |Encode(m)| % 8 == 0
    ensures Encode(m)[..|m|] == m
    ensures WellPadded(Encode(m))
  {
    var em := Encode(m);
    var k := 8 - |m| % 8;
    assert em[|em| - 1] == k;
  }

  /** Decoding inverts encoding for every message. */
  lemma DecodeEncode(m: seq<Byte>)
    ensures Decode(Encode(m)) == Some(m)
  {
    var em := Encode(m);
    EncodeWellPadded(m);
    var k := 8 - |m| % 8;
    assert em[|em| - 1] == k;
    assert em[..|em| - k] == m;
  }

  /** Decoding fails exactly on the byte strings that no message encodes to. */
  lemma DecodeRejectsOnlyNonEncodings(em: seq<Byte>)
    ensures Decode(em).None? <==> forall m :: Encode(m) != em
  {
    if Decode(em).None? {
      forall m ensures Encode(m) != em {
        DecodeEncode(m);
      }
    } else {
      assert Encode(Decode(em).value) == em;
    }
  }
}
