/** The encodings the decoder accepts but the encoder never writes: each is
    read into the same term the encoder's own form gives back, so a decode
    followed by an encode widens the bytes without changing the term. */
module Lossy {
  import opened Bytes
  import opened Results
  import opened Terms
  import opened Encoder
  import opened Decoder
  import opened RoundTrip

  /** SMALL_INTEGER_EXT (97) is read as an integer and written back as
      INTEGER_EXT (98), which reads as the same integer. */
  lemma {:induction false} SmallIntegerWidened(b: byte, rest: bytes)
    ensures DecodeTerm([97, b] + rest) == Success(Parsed(Int(b), rest))
    ensures EncodeTerm(Int(b)) == [98] + U32(b)
    ensures DecodeTerm(EncodeTerm(Int(b)) + rest) == Success(Parsed(Int(b), rest))
  {
    assert [97, b] + rest == [97] + ([b] + rest);
    DecodeTermLeaf(97, ReadSmallInteger, [b] + rest);
    LeafNumber(ReadSmallInteger, [b] + rest);
    ReadByteOf(b, rest);
    IntRoundTrip(b, rest);
  }

  /** SMALL_ATOM_EXT (115) is read as the atom of its text and written back
      under ATOM_EXT (100), which reads as the same atom. */
  lemma {:induction false} SmallAtomWidened(text: bytes, rest: bytes)
    requires |text| < 256
    ensures DecodeTerm([115, |text|] + (text + rest)) == Success(Parsed(Atom(AtomFromText(text)), rest))
    ensures EncodeTerm(Atom(AtomFromText(text)))[0] == 100
    ensures DecodeTerm(EncodeTerm(Atom(AtomFromText(text))) + rest) == Success(Parsed(Atom(AtomFromText(text)), rest))
  {
    assert [115, |text|] + (text + rest) == [115] + ([|text|] + (text + rest));
    DecodeTermLeaf(115, ReadSmallAtom, [|text|] + (text + rest));
    ReadByteOf(|text|, text + rest);
    ReadOf(text, rest);
    assert CanonicalAtom(AtomFromText(text));
    AtomRoundTrip(AtomFromText(text), rest);
  }

  /** STRING_EXT (107) is read as the list of its bytes as small integers and
      written back as LIST_EXT (108) of INTEGER_EXT elements and a NIL tail,
      which reads as the same list. */
  lemma {:induction false} StringWidened(bs: bytes, rest: bytes)
    requires |bs| < TWO32
    ensures DecodeTerm([107] + (U32(|bs|) + (bs + rest))) == Success(Parsed(List(Ints(bs)), rest))
    ensures EncodeTerm(List(Ints(bs)))[0] == 108
    ensures DecodeTerm(EncodeTerm(List(Ints(bs))) + rest) == Success(Parsed(List(Ints(bs)), rest))
  {
    DecodeTermLeaf(107, ReadString, U32(|bs|) + (bs + rest));
    LeafData(ReadString, U32(|bs|) + (bs + rest));
    ReadLenOf(|bs|, bs + rest);
    ReadOf(bs, rest);
    assert Canonical(List(Ints(bs)));
    TermRoundTrip(List(Ints(bs)), rest);
  }

  /** SMALL_TUPLE_EXT (104) is read as the tuple of its elements and written
      back as LARGE_TUPLE_EXT (105), which reads as the same tuple. */
  lemma {:induction false} SmallTupleWidened(es: seq<Term>, rest: bytes)
    requires |es| < 256
    requires forall i :: 0 <= i < |es| ==> Canonical(es[i])
    ensures DecodeTerm([104, |es|] + (EncodeTerms(es) + rest)) == Success(Parsed(Tuple(es), rest))
    ensures EncodeTerm(Tuple(es))[0] == 105
    ensures DecodeTerm(EncodeTerm(Tuple(es)) + rest) == Success(Parsed(Tuple(es), rest))
  {
    var body := [|es| as byte] + (EncodeTerms(es) + rest);
    assert [104, |es|] + (EncodeTerms(es) + rest) == [104] + body;
    DecodeTermOf(104, body);
    assert DecodeTagged(104, body) == DecodeTuple(ReadSmallTuple, body);
    SmallTupleBody(es, rest);
    TermRoundTrip(Tuple(es), rest);
  }

  lemma {:induction false} SmallTupleBody(es: seq<Term>, rest: bytes)
    requires |es| < 256
    requires forall i :: 0 <= i < |es| ==> Canonical(es[i])
    ensures DecodeTuple(ReadSmallTuple, [|es| as byte] + (EncodeTerms(es) + rest)) == Success(Parsed(Tuple(es), rest))
  {
    ReadByteOf(|es| as byte, EncodeTerms(es) + rest);
    TermsRoundTrip(es, rest);
  }

  /** SMALL_BIG_EXT (110) is read as the signed value of its magnitude and
      written back as LARGE_BIG_EXT (111), which reads as the same value. */
  lemma {:induction false} SmallBigWidened(v: int, rest: bytes)
    requires ByteLen(Abs(v)) < 256
    ensures DecodeTerm([110, ByteLen(Abs(v))] + ([if v < 0 then 1 else 0] + (LEBytes(Abs(v), ByteLen(Abs(v))) + rest)))
            == Success(Parsed(BigInt(v), rest))
    ensures EncodeTerm(BigInt(v))[0] == 111
    ensures DecodeTerm(EncodeTerm(BigInt(v)) + rest) == Success(Parsed(BigInt(v), rest))
  {
    SmallBigRead(v, rest);
    FirstByte(BigInt(v));
    BigRoundTrip(v, rest);
  }

  lemma {:induction false} SmallBigRead(v: int, rest: bytes)
    requires ByteLen(Abs(v)) < 256
    ensures DecodeTerm([110, ByteLen(Abs(v))] + ([if v < 0 then 1 else 0] + (LEBytes(Abs(v), ByteLen(Abs(v))) + rest)))
            == Success(Parsed(BigInt(v), rest))
  {
    var n := ByteLen(Abs(v));
    var body := [if v < 0 then 1 else 0] + (LEBytes(Abs(v), n) + rest);
    var field := [n as byte] + body;
    assert [110, n] + body == [110] + field;
    DecodeTermLeaf(110, ReadSmallBig, field);
    LeafNumber(ReadSmallBig, field);
    assert DecodeNumber(ReadSmallBig, field) == DecodeBigTerm(ReadSmallBig, field);
    SmallBigBody(v, rest);
  }

  lemma {:induction false} SmallBigBody(v: int, rest: bytes)
    requires ByteLen(Abs(v)) < 256
    ensures DecodeBigTerm(ReadSmallBig, [ByteLen(Abs(v)) as byte] + ([if v < 0 then 1 else 0] + (LEBytes(Abs(v), ByteLen(Abs(v))) + rest)))
            == Success(Parsed(BigInt(v), rest))
  {
    var n := ByteLen(Abs(v));
    var body := [if v < 0 then 1 else 0] + (LEBytes(Abs(v), n) + rest);
    ReadByteOf(n as byte, body);
    assert ReadBigLength(ReadSmallBig, [n as byte] + body) == Success(Parsed(n, body));
    BigMagnitudeRoundTrip(v, rest);
  }
}
