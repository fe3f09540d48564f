/** lib/exrb/encoder.rb as it stands, where it differs from the encoder the
    rest of the model uses (module Encoder): write_large_big and
    write_string. Each defect is shown on a concrete input, next to the
    corrected behaviour. */
module EncoderAsWritten {
  import opened Bytes
  import opened Results
  import opened Terms
  import opened Encoder
  import opened Decoder
  import opened RoundTrip

  /** What a writer left in the output, and whether it then raised. */
  datatype Written = Written(out: bytes, raised: bool)

  // ---- write_large_big ----

  /** The byte count write_large_big puts in the length field: Ruby's
      bit_length, which for a negative value is the bit length of -big - 1,
      rounded up to whole bytes. */
  function LargeBigLen(big: int): (n: nat)
    ensures big >= 0 ==> n == ByteLen(big)
    ensures big < 0 ==> n == ByteLen(-big - 1)
  {
    ByteLen(if big >= 0 then big else -big - 1)
  }

  /** write_large_big exactly as written: the tag and the length are out when
      the undefined local `bit` raises NameError. */
  function WriteLargeBigAsWritten(big: int): (r: Written)
    ensures r.raised && |r.out| == 5 && r.out[0] == 111
    ensures BE(r.out[1..]) == LargeBigLen(big) % TWO32
  {
    Written([111] + U32(LargeBigLen(big)), true)
  }

  /** The five bytes left behind never form a whole term. */
  lemma {:induction false} LargeBigPrefixUnreadable(big: int)
    ensures DecodeTerm(WriteLargeBigAsWritten(big).out).Failure?
  {
    var n := LargeBigLen(big);
    var s := WriteLargeBigAsWritten(big).out;
    assert s == [111] + (U32(n) + []);
    DecodeTermLeaf(111, ReadLargeBig, U32(n) + []);
    LeafNumber(ReadLargeBig, U32(n) + []);
    if n < TWO32 {
      ReadLenOf(n, []);
    }
  }

  /** write_large_big with `bit` read as `big`: the sign byte is computed,
      then `(0..len)` writes len + 1 bytes of the two's-complement value
      rather than len bytes of the magnitude. */
  function EncodeLargeBigAsWritten(big: int): (r: bytes)
    ensures |r| == 7 + LargeBigLen(big) && r[0] == 111
    ensures BE(r[1..5]) == LargeBigLen(big) % TWO32
    ensures r[5] == (if big < 0 then 1 else 0)
  {
    var len := LargeBigLen(big);
    var r := [111] + U32(len) + [if big < 0 then 1 else 0] + LowBytes(big, len + 1);
    assert r[1..5] == U32(len);
    r
  }

  /** A magnitude below 256^len has a zero byte at position len. */
  lemma {:induction false} LEBytesPad(m: nat, len: nat)
    requires m < Pow256(len)
    ensures LEBytes(m, len + 1) == LEBytes(m, len) + [0]
  {
    if len > 0 {
      LEBytesPad(m / 256, len - 1);
    }
  }

  /** For a non-negative value the loop writes one zero byte past the
      magnitude the length announces. */
  lemma {:induction false} LargeBigAsWrittenPadded(v: nat)
    ensures EncodeLargeBigAsWritten(v) == EncodeBig(v) + [0]
  {
    var n := ByteLen(v);
    LEBytesPad(v, n);
    assert LowBytes(v, n + 1) == LEBytes(v, n) + [0];
  }

  /** The stray zero byte is left over after the big integer and is read as
      the start of whatever comes next. */
  lemma {:induction false} LargeBigAsWrittenStrayByte(v: nat, rest: bytes)
    requires ByteLen(v) < TWO32
    ensures DecodeTerm(EncodeLargeBigAsWritten(v) + rest) == Success(Parsed(BigInt(v), [0] + rest))
  {
    LargeBigAsWrittenPadded(v);
    assert EncodeLargeBigAsWritten(v) + rest == EncodeTerm(BigInt(v)) + ([0] + rest);
    BigRoundTrip(v, [0] + rest);
  }

  /** -1 is written with a zero length and the byte 255, and is read back as
      0 followed by a stray 255; the intended form has length 1 and magnitude 1. */
  lemma {:induction false} LargeBigAsWrittenMinusOne()
    ensures EncodeLargeBigAsWritten(-1) == [111, 0, 0, 0, 0, 1, 255]
    ensures EncodeBig(-1) == [111, 0, 0, 0, 1, 1, 1]
    ensures DecodeTerm(EncodeLargeBigAsWritten(-1)) == Success(Parsed(BigInt(0), [255]))
  {
    MinusOneWritten();
    MinusOneIntended();
    MinusOneRead();
  }

  lemma MinusOneWritten()
    ensures EncodeLargeBigAsWritten(-1) == [111, 0, 0, 0, 0, 1, 255]
  {
    assert LargeBigLen(-1) == 0;
    assert U32(0) == [0, 0, 0, 0] by { Pow256Facts(); }
    assert LowBytes(-1, 1) == [255];
  }

  lemma MinusOneIntended()
    ensures EncodeBig(-1) == [111, 0, 0, 0, 1, 1, 1]
  {
    assert ByteLen(Abs(-1)) == 1 by { assert ByteLen(0) == 0; }
    assert U32(1) == [0, 0, 0, 1] by { Pow256Facts(); }
    assert LEBytes(1, 1) == [1];
  }

  lemma MinusOneRead()
    ensures DecodeTerm([111, 0, 0, 0, 0, 1, 255]) == Success(Parsed(BigInt(0), [255]))
  {
    var body: bytes := [0, 0, 0, 0, 1, 255];
    assert [111, 0, 0, 0, 0, 1, 255] == [111] + body;
    DecodeTermLeaf(111, ReadLargeBig, body);
    LeafNumber(ReadLargeBig, body);
    assert DecodeNumber(ReadLargeBig, body) == DecodeBigTerm(ReadLargeBig, body);
    MinusOneBody(body);
  }

  lemma MinusOneBody(body: bytes)
    requires body == [0, 0, 0, 0, 1, 255]
    ensures DecodeBigTerm(ReadLargeBig, body) == Success(Parsed(BigInt(0), [255]))
  {
    assert BE(body[..4]) == 0 by { Pow256Facts(); assert body[..4] == U32(0); }
    assert BigLengthWidth(ReadLargeBig) == 4;
    assert body[4] == 1 && body[5..5] == [] && body[5..] == [255];
    assert BigValue(1, []) == 0;
  }

  // ---- write_string ----

  /** A UTF-8 continuation byte, 0b10xxxxxx. */
  predicate Continuation(b: byte) {
    0x80 <= b < 0xC0
  }

  /** String#size of a valid UTF-8 string: the number of characters, which
      is the number of bytes that are not continuation bytes. */
  function Utf8CharCount(data: bytes): (n: nat)
    ensures n <= |data|
  {
    if data == [] then 0
    else (if Continuation(data[0]) then 0 else 1) + Utf8CharCount(data[1..])
  }

  /** The character count equals the byte count exactly when no byte is a
      continuation byte. */
  lemma {:induction false} CharCountIsLength(data: bytes)
    ensures Utf8CharCount(data) == |data| <==> forall i :: 0 <= i < |data| ==> !Continuation(data[i])
  {
    if data != [] {
      CharCountIsLength(data[1..]);
      assert forall i :: 1 <= i < |data| ==> data[i] == data[1..][i - 1];
      if forall i :: 0 <= i < |data| ==> !Continuation(data[i]) {
        assert forall i :: 0 <= i < |data| - 1 ==> !Continuation(data[1..][i]) by {
          forall i | 0 <= i < |data| - 1 ensures !Continuation(data[1..][i]) {
            assert data[1..][i] == data[i + 1];
          }
        }
      }
    }
  }

  /** write_string for a decoded binary (a UTF-8 String): the length field is
      String#size, a character count; write(string) then emits every byte and
      raises IOError "data truncated" when it wrote more bytes than the
      string has characters. */
  function EncodeBinaryAsWritten(data: bytes): (r: Written)
    ensures |r.out| == 5 + |data| && r.out[0] == 109
    ensures BE(r.out[1..5]) == Utf8CharCount(data) % TWO32
    ensures r.out[5..] == data
  {
    var out := [109] + U32(Utf8CharCount(data)) + data;
    assert out[1..5] == U32(Utf8CharCount(data));
    Written(out, Utf8CharCount(data) < |data|)
  }

  /** write_string agrees with the intended BINARY_EXT exactly on the
      binaries without a continuation byte; on every other binary it raises
      after writing a length field that is too small. */
  lemma {:induction false} BinaryAsWrittenAgreement(data: bytes)
    requires |data| < TWO32
    ensures !EncodeBinaryAsWritten(data).raised <==> forall i :: 0 <= i < |data| ==> !Continuation(data[i])
    ensures !EncodeBinaryAsWritten(data).raised <==> EncodeBinaryAsWritten(data).out == EncodeTerm(Binary(data))
  {
    CharCountIsLength(data);
    var r := EncodeBinaryAsWritten(data);
    var good := EncodeTerm(Binary(data));
    if r.out == good {
      assert r.out[1..5] == good[1..5];
      assert good[1..5] == U32(|data|);
    }
  }

  /** "é" (C3 A9) gets the length 1: the decoder reads the binary C3 and
      leaves A9 as the start of the next term. */
  lemma {:induction false} BinaryAsWrittenTwoByteChar()
    ensures EncodeBinaryAsWritten([0xC3, 0xA9]) == Written([109, 0, 0, 0, 1, 0xC3, 0xA9], true)
    ensures DecodeTerm(EncodeBinaryAsWritten([0xC3, 0xA9]).out) == Success(Parsed(Binary([0xC3]), [0xA9]))
  {
    var data: bytes := [0xC3, 0xA9];
    assert Utf8CharCount(data) == 1 by {
      assert data[1..] == [0xA9];
      assert Utf8CharCount([0xA9]) == 0 by { assert [0xA9][1..] == []; }
    }
    assert U32(1) == [0, 0, 0, 1] by { Pow256Facts(); }
    TwoByteCharRead();
  }

  lemma TwoByteCharRead()
    ensures DecodeTerm([109, 0, 0, 0, 1, 0xC3, 0xA9]) == Success(Parsed(Binary([0xC3]), [0xA9]))
  {
    var body: bytes := [0, 0, 0, 1, 0xC3, 0xA9];
    assert [109, 0, 0, 0, 1, 0xC3, 0xA9] == [109] + body;
    DecodeTermLeaf(109, ReadBinary, body);
    LeafData(ReadBinary, body);
    assert DecodeData(ReadBinary, body) == DecodeBinary(ReadBinary, body);
    TwoByteCharBody(body);
  }

  lemma TwoByteCharBody(body: bytes)
    requires body == [0, 0, 0, 1, 0xC3, 0xA9]
    ensures DecodeBinary(ReadBinary, body) == Success(Parsed(Binary([0xC3]), [0xA9]))
  {
    assert BE(body[..4]) == 1 by { Pow256Facts(); assert body[..4] == U32(1); }
    assert body[4..5] == [0xC3] && body[5..] == [0xA9];
  }
}
