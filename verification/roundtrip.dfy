/** The decoder undoes the encoder: for every term in normal form,
    decoding its encoding followed by any further bytes gives back the term
    and exactly those further bytes. The encodings the encoder never emits
    are the subject of module Lossy. */
module RoundTrip {
  import opened Bytes
  import opened Results
  import opened Terms
  import opened Encoder
  import opened Decoder

  lemma {:induction false} Assoc4(a: bytes, b: bytes, c: bytes, d: bytes, e: bytes)
    ensures a + b + c + d + e == a + (b + (c + (d + e)))
  {
  }

  // ---- Fixed-width fields ----

  lemma {:induction false} ReadByteOf(b: byte, rest: bytes)
    ensures ReadByte([b] + rest) == Success(Parsed(b, rest))
  {
    assert ([b] + rest)[1..] == rest;
  }

  lemma {:induction false} ReadOf(a: bytes, rest: bytes)
    ensures Read(a + rest, |a|) == Success(Parsed(a, rest))
  {
    assert (a + rest)[..|a|] == a;
    assert (a + rest)[|a|..] == rest;
  }

  lemma {:induction false} ReadLenOf(n: nat, rest: bytes)
    requires n < TWO32
    ensures ReadLen(U32(n) + rest) == Success(Parsed(n, rest))
  {
    ReadOf(U32(n), rest);
  }

  lemma {:induction false} ReadU16Of(n: nat, rest: bytes)
    requires n < TWO16
    ensures ReadU16(U16(n) + rest) == Success(Parsed(n, rest))
  {
    ReadOf(U16(n), rest);
  }

  lemma {:induction false} ReadI32Of(i: int, rest: bytes)
    requires IsInt32(i)
    ensures ReadI32(U32(i) + rest) == Success(Parsed(i, rest))
  {
    ReadOf(U32(i), rest);
    Signed32OfU32(i);
  }

  // ---- Atom and integer fields ----

  lemma {:induction false} AtomTextRoundTrip(a: AtomValue)
    requires CanonicalAtom(a)
    ensures AtomFromText(AtomText(a)) == a
  {
  }

  /** The atom text written by write_atom is read back by read_atom. */
  lemma {:induction false} AtomTextOf(a: AtomValue, rest: bytes)
    requires CanonicalAtom(a)
    ensures ReadAtomText(ReadAtom, EncodeAtom(a)[1..] + rest) == Success(Parsed(AtomText(a), rest))
  {
    var text := AtomText(a);
    assert EncodeAtom(a)[1..] + rest == U16(|text|) + (text + rest);
    ReadU16Of(|text|, text + rest);
    ReadOf(text, rest);
  }

  lemma {:induction false} AtomFieldRoundTrip(a: AtomValue, rest: bytes)
    requires CanonicalAtom(a)
    ensures DecodeAtomField(EncodeAtom(a) + rest) == Success(Parsed(a, rest))
  {
    var e := EncodeAtom(a);
    assert e == [100] + e[1..];
    assert e + rest == [100] + (e[1..] + rest);
    ReadByteOf(100, e[1..] + rest);
    AtomTextOf(a, rest);
    AtomTextRoundTrip(a);
  }

  lemma {:induction false} IntegerFieldRoundTrip(i: int, rest: bytes)
    requires IsInt32(i)
    ensures DecodeIntegerField(EncodeInt(i) + rest) == Success(Parsed(i, rest))
  {
    assert EncodeInt(i) + rest == [98] + (U32(i) + rest);
    ReadByteOf(98, U32(i) + rest);
    ReadI32Of(i, rest);
  }

  lemma {:induction false} OpaqueRoundTrip(o: Opaque, rest: bytes)
    requires CanonicalAtom(o.node)
    ensures DecodeOpaque(EncodeAtom(o.node) + o.id + rest, |o.id|) == Success(Parsed(o, rest))
  {
    assert EncodeAtom(o.node) + o.id + rest == EncodeAtom(o.node) + (o.id + rest);
    AtomFieldRoundTrip(o.node, o.id + rest);
    ReadOf(o.id, rest);
  }

  // ---- Dispatch on the tag ----

  lemma {:induction false} DecodeTermOf(tag: byte, body: bytes)
    ensures DecodeTerm([tag] + body) == DecodeTagged(tag, body)
  {
    ReadByteOf(tag, body);
  }

  /** A tag whose reader reads no nested term hands the bytes after it to
      that reader. */
  lemma {:induction false} DecodeTermLeaf(tag: byte, rd: Reader, body: bytes)
    requires TermReader(tag) == Some(rd) && !rd.ReadsTerms()
    ensures DecodeTerm([tag] + body) == DecodeLeaf(rd, body)
  {
    DecodeTermOf(tag, body);
  }

  lemma {:induction false} LeafNumber(rd: Reader, s: bytes)
    requires rd.ReadsNumber()
    ensures DecodeLeaf(rd, s) == DecodeNumber(rd, s)
  {
  }

  lemma {:induction false} LeafIdentity(rd: Reader, s: bytes)
    requires rd.ReadsIdentity()
    ensures DecodeLeaf(rd, s) == DecodeIdentity(rd, s)
  {
  }

  lemma {:induction false} LeafData(rd: Reader, s: bytes)
    requires rd.ReadNil? || rd.ReadString? || rd.ReadBinary? || rd.ReadBitBinary?
             || rd.ReadNewFun? || rd.ReadExport?
    ensures DecodeLeaf(rd, s) == DecodeData(rd, s)
  {
    assert !rd.ReadsNumber() && !rd.ReadsAtom() && !rd.ReadsIdentity();
  }

  lemma {:induction false} DecodeTermTuple(body: bytes)
    ensures DecodeTerm([105] + body) == DecodeTuple(ReadLargeTuple, body)
  {
    DecodeTermOf(105, body);
    assert DecodeTagged(105, body) == DecodeTuple(ReadLargeTuple, body);
  }

  lemma {:induction false} DecodeTermList(body: bytes)
    ensures DecodeTerm([108] + body) == DecodeList(body)
  {
    DecodeTermOf(108, body);
    assert DecodeTagged(108, body) == DecodeList(body);
  }

  lemma {:induction false} DecodeTermMap(body: bytes)
    ensures DecodeTerm([116] + body) == DecodeMap(body)
  {
    DecodeTermOf(116, body);
    assert DecodeTagged(116, body) == DecodeMap(body);
  }

  lemma {:induction false} DecodeTermFun(body: bytes)
    ensures DecodeTerm([117] + body) == DecodeFun(body)
  {
    DecodeTermOf(117, body);
    assert DecodeTagged(117, body) == DecodeFun(body);
  }

  // ---- Terms that hold no nested term: layout, then the reader ----

  lemma {:induction false} IntRoundTrip(i: int, rest: bytes)
    requires IsInt32(i)
    ensures DecodeTerm(EncodeTerm(Int(i)) + rest) == Success(Parsed(Int(i), rest))
  {
    assert EncodeTerm(Int(i)) + rest == [98] + (U32(i) + rest);
    DecodeTermLeaf(98, ReadInteger, U32(i) + rest);
    ReadI32Of(i, rest);
  }

  /** The sign byte and the magnitude written by write_large_big are read
      back by read_big as the same value. */
  lemma {:induction false} BigMagnitudeRoundTrip(v: int, rest: bytes)
    requires ByteLen(Abs(v)) < TWO32
    ensures DecodeBig([if v < 0 then 1 else 0] + (LEBytes(Abs(v), ByteLen(Abs(v))) + rest), ByteLen(Abs(v)))
            == Success(Parsed(v, rest))
  {
    var n := ByteLen(Abs(v));
    var sign: byte := if v < 0 then 1 else 0;
    var mag := LEBytes(Abs(v), n);
    ReadOf([sign], mag + rest);
    ReadOf(mag, rest);
    LEBytesInverse(Abs(v), n);
    assert BigValue(sign, mag) == v;
  }

  lemma {:induction false} BigLayout(v: int, rest: bytes)
    ensures EncodeTerm(BigInt(v)) + rest
            == [111] + (U32(ByteLen(Abs(v))) + ([if v < 0 then 1 else 0] + (LEBytes(Abs(v), ByteLen(Abs(v))) + rest)))
  {
    var n := ByteLen(Abs(v));
    var sign: byte := if v < 0 then 1 else 0;
    var mag := LEBytes(Abs(v), n);
    assert EncodeTerm(BigInt(v)) == [111] + U32(n) + [sign] + mag;
    Assoc4([111], U32(n), [sign], mag, rest);
  }

  lemma {:induction false} BigBody(v: int, rest: bytes)
    requires ByteLen(Abs(v)) < TWO32
    ensures DecodeLeaf(ReadLargeBig, U32(ByteLen(Abs(v))) + ([if v < 0 then 1 else 0] + (LEBytes(Abs(v), ByteLen(Abs(v))) + rest)))
            == Success(Parsed(BigInt(v), rest))
  {
    var n := ByteLen(Abs(v));
    ReadLenOf(n, [if v < 0 then 1 else 0] + (LEBytes(Abs(v), n) + rest));
    BigMagnitudeRoundTrip(v, rest);
  }

  lemma {:induction false} BigRoundTrip(v: int, rest: bytes)
    requires ByteLen(Abs(v)) < TWO32
    ensures DecodeTerm(EncodeTerm(BigInt(v)) + rest) == Success(Parsed(BigInt(v), rest))
  {
    var n := ByteLen(Abs(v));
    BigLayout(v, rest);
    DecodeTermLeaf(111, ReadLargeBig, U32(n) + ([if v < 0 then 1 else 0] + (LEBytes(Abs(v), n) + rest)));
    BigBody(v, rest);
  }

  lemma {:induction false} FloatRoundTrip(pattern: bytes, rest: bytes)
    requires |pattern| == 8
    ensures DecodeTerm(EncodeTerm(Float(pattern)) + rest) == Success(Parsed(Float(pattern), rest))
  {
    assert EncodeTerm(Float(pattern)) + rest == [70] + (pattern + rest);
    DecodeTermLeaf(70, ReadNewFloat, pattern + rest);
    ReadOf(pattern, rest);
  }

  lemma {:induction false} TextFloatRoundTrip(text: bytes, rest: bytes)
    requires |text| == 31
    ensures DecodeTerm(EncodeTerm(TextFloat(text)) + rest) == Success(Parsed(TextFloat(text), rest))
  {
    assert EncodeTerm(TextFloat(text)) + rest == [99] + (text + rest);
    DecodeTermLeaf(99, ReadFloat, text + rest);
    ReadOf(text, rest);
  }

  lemma {:induction false} AtomRoundTrip(a: AtomValue, rest: bytes)
    requires CanonicalAtom(a)
    ensures DecodeTerm(EncodeTerm(Atom(a)) + rest) == Success(Parsed(Atom(a), rest))
  {
    var e := EncodeAtom(a);
    assert e == [100] + e[1..];
    assert EncodeTerm(Atom(a)) + rest == [100] + (e[1..] + rest);
    DecodeTermLeaf(100, ReadAtom, e[1..] + rest);
    AtomTextOf(a, rest);
    AtomTextRoundTrip(a);
  }

  /** The reader DECODERS names for the tag the encoder writes for a pid, a
      port or a reference. */
  function IdentityReader(t: Term): (rd: Reader)
    requires t.Pid? || t.Port? || t.Reference?
    ensures TermReader(EncoderTag(t)) == Some(rd) && !rd.ReadsTerms()
  {
    if t.Pid? then ReadPid else if t.Port? then ReadPort else ReadReference
  }

  lemma {:induction false} IdentityLayout(t: Term, rest: bytes)
    requires t.Pid? || t.Port? || t.Reference?
    ensures EncodeTerm(t) + rest == [EncoderTag(t)] + (EncodeAtom(t.o.node) + t.o.id + rest)
  {
    OpaqueBytes(EncoderTag(t), t.o);
  }

  lemma {:induction false} IdentityBody(t: Term, rest: bytes)
    requires t.Pid? || t.Port? || t.Reference?
    requires Canonical(t)
    ensures DecodeIdentity(IdentityReader(t), EncodeAtom(t.o.node) + t.o.id + rest) == Success(Parsed(t, rest))
  {
    OpaqueRoundTrip(t.o, rest);
  }

  lemma {:induction false} IdentityRoundTrip(t: Term, rest: bytes)
    requires t.Pid? || t.Port? || t.Reference?
    requires Canonical(t)
    ensures DecodeTerm(EncodeTerm(t) + rest) == Success(Parsed(t, rest))
  {
    IdentityLayout(t, rest);
    DecodeTermLeaf(EncoderTag(t), IdentityReader(t), EncodeAtom(t.o.node) + t.o.id + rest);
    LeafIdentity(IdentityReader(t), EncodeAtom(t.o.node) + t.o.id + rest);
    IdentityBody(t, rest);
  }

  lemma {:induction false} NewReferenceBodyRoundTrip(o: Opaque, rest: bytes)
    requires Canonical(NewReference(o))
    ensures DecodeNewReferenceBody(U16(|o.id| / 4) + (EncodeAtom(o.node) + (o.id + rest))) == Success(Parsed(o, rest))
  {
    var words := |o.id| / 4;
    var tail := EncodeAtom(o.node) + (o.id + rest);
    ReadU16Of(words, tail);
    AtomFieldRoundTrip(o.node, o.id + rest);
    assert 4 * words + 1 == |o.id|;
    ReadOf(o.id, rest);
  }

  lemma {:induction false} NewReferenceLayout(o: Opaque, rest: bytes)
    ensures EncodeTerm(NewReference(o)) + rest == [114] + (U16(|o.id| / 4) + (EncodeAtom(o.node) + (o.id + rest)))
  {
    assert EncodeTerm(NewReference(o)) == [114] + U16(|o.id| / 4) + EncodeAtom(o.node) + o.id;
    Assoc4([114], U16(|o.id| / 4), EncodeAtom(o.node), o.id, rest);
  }

  lemma {:induction false} NewReferenceBody(o: Opaque, rest: bytes)
    requires Canonical(NewReference(o))
    ensures DecodeLeaf(ReadNewReference, U16(|o.id| / 4) + (EncodeAtom(o.node) + (o.id + rest)))
            == Success(Parsed(NewReference(o), rest))
  {
    NewReferenceBodyRoundTrip(o, rest);
  }

  lemma {:induction false} NewReferenceRoundTrip(o: Opaque, rest: bytes)
    requires Canonical(NewReference(o))
    ensures DecodeTerm(EncodeTerm(NewReference(o)) + rest) == Success(Parsed(NewReference(o), rest))
  {
    NewReferenceLayout(o, rest);
    DecodeTermLeaf(114, ReadNewReference, U16(|o.id| / 4) + (EncodeAtom(o.node) + (o.id + rest)));
    NewReferenceBody(o, rest);
  }

  lemma {:induction false} BinaryBody(data: bytes, rest: bytes)
    requires |data| < TWO32
    ensures DecodeLeaf(ReadBinary, U32(|data|) + (data + rest)) == Success(Parsed(Binary(data), rest))
  {
    ReadLenOf(|data|, data + rest);
    ReadOf(data, rest);
  }

  lemma {:induction false} BinaryRoundTrip(data: bytes, rest: bytes)
    requires |data| < TWO32
    ensures DecodeTerm(EncodeTerm(Binary(data)) + rest) == Success(Parsed(Binary(data), rest))
  {
    assert EncodeTerm(Binary(data)) + rest == [109] + (U32(|data|) + (data + rest));
    DecodeTermLeaf(109, ReadBinary, U32(|data|) + (data + rest));
    BinaryBody(data, rest);
  }

  lemma {:induction false} BitBinaryBody(bits: byte, data: bytes, rest: bytes)
    requires |data| < TWO32
    ensures DecodeLeaf(ReadBitBinary, U32(|data|) + ([bits] + (data + rest))) == Success(Parsed(BitBinary(bits, data), rest))
  {
    ReadLenOf(|data|, [bits] + (data + rest));
    ReadByteOf(bits, data + rest);
    ReadOf(data, rest);
  }

  lemma {:induction false} BitBinaryLayout(bits: byte, data: bytes, rest: bytes)
    ensures EncodeTerm(BitBinary(bits, data)) + rest == [77] + (U32(|data|) + ([bits] + (data + rest)))
  {
    assert EncodeTerm(BitBinary(bits, data)) == [77] + U32(|data|) + [bits] + data;
    Assoc4([77], U32(|data|), [bits], data, rest);
  }

  lemma {:induction false} BitBinaryRoundTrip(bits: byte, data: bytes, rest: bytes)
    requires |data| < TWO32
    ensures DecodeTerm(EncodeTerm(BitBinary(bits, data)) + rest) == Success(Parsed(BitBinary(bits, data), rest))
  {
    BitBinaryLayout(bits, data, rest);
    DecodeTermLeaf(77, ReadBitBinary, U32(|data|) + ([bits] + (data + rest)));
    BitBinaryBody(bits, data, rest);
  }

  lemma {:induction false} NewFunBody(size: nat, data: bytes, rest: bytes)
    requires Canonical(NewFun(size, data))
    ensures DecodeNewFun(ReadNewFun, U32(size) + (data + rest)) == Success(Parsed(NewFun(size, data), rest))
  {
    ReadLenOf(size, data + rest);
    ReadOf(data, rest);
  }

  lemma {:induction false} NewFunRoundTrip(size: nat, data: bytes, rest: bytes)
    requires Canonical(NewFun(size, data))
    ensures DecodeTerm(EncodeTerm(NewFun(size, data)) + rest) == Success(Parsed(NewFun(size, data), rest))
  {
    assert EncodeTerm(NewFun(size, data)) + rest == [112] + (U32(size) + (data + rest));
    DecodeTermLeaf(112, ReadNewFun, U32(size) + (data + rest));
    LeafData(ReadNewFun, U32(size) + (data + rest));
    NewFunBody(size, data, rest);
  }

  lemma {:induction false} ExportLayout(mod: AtomValue, fun: AtomValue, arity: int, rest: bytes)
    ensures EncodeTerm(Export(mod, fun, arity)) + rest
            == [113] + (EncodeAtom(mod) + (EncodeAtom(fun) + (EncodeInt(arity) + rest)))
  {
    assert EncodeTerm(Export(mod, fun, arity)) == [113] + EncodeAtom(mod) + EncodeAtom(fun) + EncodeInt(arity);
    Assoc4([113], EncodeAtom(mod), EncodeAtom(fun), EncodeInt(arity), rest);
  }

  lemma {:induction false} ExportBody(mod: AtomValue, fun: AtomValue, arity: int, rest: bytes)
    requires Canonical(Export(mod, fun, arity))
    ensures DecodeExport(ReadExport, EncodeAtom(mod) + (EncodeAtom(fun) + (EncodeInt(arity) + rest)))
            == Success(Parsed(Export(mod, fun, arity), rest))
  {
    var afterFun := EncodeInt(arity) + rest;
    var afterMod := EncodeAtom(fun) + afterFun;
    AtomFieldRoundTrip(mod, afterMod);
    AtomFieldRoundTrip(fun, afterFun);
    IntegerFieldRoundTrip(arity, rest);
    ExportFields(EncodeAtom(mod) + afterMod, mod, afterMod, fun, afterFun, arity, rest);
  }

  /** read_export succeeds exactly when its three fields do, one after another. */
  lemma {:induction false} ExportFields(s: bytes, mod: AtomValue, s1: bytes, fun: AtomValue, s2: bytes,
                                        arity: int, s3: bytes)
    requires DecodeAtomField(s) == Success(Parsed(mod, s1))
    requires DecodeAtomField(s1) == Success(Parsed(fun, s2))
    requires DecodeIntegerField(s2) == Success(Parsed(arity, s3))
    ensures DecodeExport(ReadExport, s) == Success(Parsed(Export(mod, fun, arity), s3))
  {
  }

  lemma {:induction false} ExportRoundTrip(mod: AtomValue, fun: AtomValue, arity: int, rest: bytes)
    requires Canonical(Export(mod, fun, arity))
    ensures DecodeTerm(EncodeTerm(Export(mod, fun, arity)) + rest) == Success(Parsed(Export(mod, fun, arity), rest))
  {
    ExportLayout(mod, fun, arity, rest);
    var body := EncodeAtom(mod) + (EncodeAtom(fun) + (EncodeInt(arity) + rest));
    DecodeTermLeaf(113, ReadExport, body);
    LeafData(ReadExport, body);
    ExportBody(mod, fun, arity, rest);
  }

  lemma {:induction false} NilRoundTrip(rest: bytes)
    ensures DecodeTerm([106] + rest) == Success(Parsed(ErlangNil, rest))
  {
    DecodeTermLeaf(106, ReadNil, rest);
  }

  // ---- Terms that hold nested terms ----

  lemma {:induction false} TupleRoundTrip(es: seq<Term>, rest: bytes)
    requires |es| < TWO32
    requires DecodeTerms(EncodeTerms(es) + rest, |es|) == Success(Parsed(es, rest))
    ensures DecodeTerm(EncodeTerm(Tuple(es)) + rest) == Success(Parsed(Tuple(es), rest))
  {
    var body := U32(|es|) + (EncodeTerms(es) + rest);
    TupleLayout(es, rest);
    DecodeTermTuple(body);
    TupleBody(es, rest);
  }

  lemma {:induction false} TupleLayout(es: seq<Term>, rest: bytes)
    ensures EncodeTerm(Tuple(es)) + rest == [105] + (U32(|es|) + (EncodeTerms(es) + rest))
  {
    assert EncodeTerm(Tuple(es)) == [105] + U32(|es|) + EncodeTerms(es);
    Assoc3([105] + U32(|es|), EncodeTerms(es), rest);
    Assoc3([105], U32(|es|), EncodeTerms(es) + rest);
  }

  lemma {:induction false} TupleBody(es: seq<Term>, rest: bytes)
    requires |es| < TWO32
    requires DecodeTerms(EncodeTerms(es) + rest, |es|) == Success(Parsed(es, rest))
    ensures DecodeTuple(ReadLargeTuple, U32(|es|) + (EncodeTerms(es) + rest)) == Success(Parsed(Tuple(es), rest))
  {
    ReadLenOf(|es|, EncodeTerms(es) + rest);
  }

  lemma {:induction false} MapBodyRoundTrip(ps: seq<Pair>, rest: bytes)
    requires |ps| < TWO32
    requires DecodePairs(EncodePairs(ps) + rest, |ps|) == Success(Parsed(ps, rest))
    ensures DecodeMap(U32(|ps|) + (EncodePairs(ps) + rest)) == Success(Parsed(Map(ps), rest))
  {
    ReadLenOf(|ps|, EncodePairs(ps) + rest);
  }

  lemma {:induction false} MapLayout(ps: seq<Pair>, rest: bytes)
    ensures EncodeTerm(Map(ps)) + rest == [116] + (U32(|ps|) + (EncodePairs(ps) + rest))
  {
    assert EncodeTerm(Map(ps)) == [116] + U32(|ps|) + EncodePairs(ps);
    Assoc3([116] + U32(|ps|), EncodePairs(ps), rest);
    Assoc3([116], U32(|ps|), EncodePairs(ps) + rest);
  }

  lemma {:induction false} MapRoundTrip(ps: seq<Pair>, rest: bytes)
    requires |ps| < TWO32
    requires DecodePairs(EncodePairs(ps) + rest, |ps|) == Success(Parsed(ps, rest))
    ensures DecodeTerm(EncodeTerm(Map(ps)) + rest) == Success(Parsed(Map(ps), rest))
  {
    MapLayout(ps, rest);
    DecodeTermMap(U32(|ps|) + (EncodePairs(ps) + rest));
    MapBodyRoundTrip(ps, rest);
  }

  lemma {:induction false} ListLayout(es: seq<Term>, rest: bytes)
    ensures EncodeTerm(List(es)) + rest == [108] + (U32(|es|) + (EncodeTerms(es) + ([106] + rest)))
  {
    assert EncodeTerm(List(es)) == [108] + U32(|es|) + EncodeTerms(es) + [106];
    Assoc4([108], U32(|es|), EncodeTerms(es), [106], rest);
  }

  lemma {:induction false} ListBodyRoundTrip(es: seq<Term>, rest: bytes)
    requires |es| < TWO32
    requires DecodeTerms(EncodeTerms(es) + ([106] + rest), |es|) == Success(Parsed(es, [106] + rest))
    ensures DecodeList(U32(|es|) + (EncodeTerms(es) + ([106] + rest))) == Success(Parsed(List(es), rest))
  {
    ReadLenOf(|es|, EncodeTerms(es) + ([106] + rest));
    NilRoundTrip(rest);
  }

  lemma {:induction false} ListRoundTrip(es: seq<Term>, rest: bytes)
    requires |es| < TWO32
    requires DecodeTerms(EncodeTerms(es) + ([106] + rest), |es|) == Success(Parsed(es, [106] + rest))
    ensures DecodeTerm(EncodeTerm(List(es)) + rest) == Success(Parsed(List(es), rest))
  {
    ListLayout(es, rest);
    DecodeTermList(U32(|es|) + (EncodeTerms(es) + ([106] + rest)));
    ListBodyRoundTrip(es, rest);
  }

  lemma {:induction false} ImproperListLayout(es: seq<Term>, tail: Term, rest: bytes)
    ensures EncodeTerm(ImproperList(es, tail)) + rest
            == [108] + (U32(|es|) + (EncodeTerms(es) + (EncodeTerm(tail) + rest)))
  {
    assert EncodeTerm(ImproperList(es, tail)) == [108] + U32(|es|) + EncodeTerms(es) + EncodeTerm(tail);
    Assoc4([108], U32(|es|), EncodeTerms(es), EncodeTerm(tail), rest);
  }

  lemma {:induction false} ImproperListBodyRoundTrip(es: seq<Term>, tail: Term, rest: bytes)
    requires |es| < TWO32 && tail != ErlangNil
    requires DecodeTerms(EncodeTerms(es) + (EncodeTerm(tail) + rest), |es|)
             == Success(Parsed(es, EncodeTerm(tail) + rest))
    requires DecodeTerm(EncodeTerm(tail) + rest) == Success(Parsed(tail, rest))
    ensures DecodeList(U32(|es|) + (EncodeTerms(es) + (EncodeTerm(tail) + rest)))
            == Success(Parsed(ImproperList(es, tail), rest))
  {
    ReadLenOf(|es|, EncodeTerms(es) + (EncodeTerm(tail) + rest));
  }

  lemma {:induction false} ImproperListRoundTrip(es: seq<Term>, tail: Term, rest: bytes)
    requires |es| < TWO32 && tail != ErlangNil
    requires DecodeTerms(EncodeTerms(es) + (EncodeTerm(tail) + rest), |es|)
             == Success(Parsed(es, EncodeTerm(tail) + rest))
    requires DecodeTerm(EncodeTerm(tail) + rest) == Success(Parsed(tail, rest))
    ensures DecodeTerm(EncodeTerm(ImproperList(es, tail)) + rest) == Success(Parsed(ImproperList(es, tail), rest))
  {
    ImproperListLayout(es, tail, rest);
    DecodeTermList(U32(|es|) + (EncodeTerms(es) + (EncodeTerm(tail) + rest)));
    ImproperListBodyRoundTrip(es, tail, rest);
  }

  lemma {:induction false} FunHeaderRoundTrip(pid: Opaque, mod: AtomValue, index: int, uniq: int, rest: bytes)
    requires CanonicalOpaque(pid, 9) && CanonicalAtom(mod) && IsInt32(index) && IsInt32(uniq)
    ensures DecodeFunHeader(EncodeOpaque(103, pid) + (EncodeAtom(mod) + (EncodeInt(index) + (EncodeInt(uniq) + rest))))
            == Success(Parsed((pid, mod, index, uniq), rest))
  {
    var afterUniq := EncodeInt(uniq) + rest;
    var afterIndex := EncodeInt(index) + afterUniq;
    var afterMod := EncodeAtom(mod) + afterIndex;
    var afterPid := EncodeAtom(pid.node) + pid.id + afterMod;
    assert EncodeOpaque(103, pid) + afterMod == [103] + afterPid;
    ReadByteOf(103, afterPid);
    OpaqueRoundTrip(pid, afterMod);
    AtomFieldRoundTrip(mod, afterIndex);
    IntegerFieldRoundTrip(index, afterUniq);
    IntegerFieldRoundTrip(uniq, rest);
  }

  lemma {:induction false} FunLayout(pid: Opaque, mod: AtomValue, index: int, uniq: int, free: seq<Term>, rest: bytes)
    ensures EncodeTerm(Fun(pid, mod, index, uniq, free)) + rest
            == [117] + (U32(|free|) + (EncodeOpaque(103, pid) + (EncodeAtom(mod)
               + (EncodeInt(index) + (EncodeInt(uniq) + (EncodeTerms(free) + rest))))))
  {
  }

  lemma {:induction false} FunBodyRoundTrip(pid: Opaque, mod: AtomValue, index: int, uniq: int, free: seq<Term>, rest: bytes)
    requires CanonicalOpaque(pid, 9) && CanonicalAtom(mod) && IsInt32(index) && IsInt32(uniq)
    requires |free| < TWO32
    requires DecodeTerms(EncodeTerms(free) + rest, |free|) == Success(Parsed(free, rest))
    ensures DecodeFun(U32(|free|) + (EncodeOpaque(103, pid) + (EncodeAtom(mod)
               + (EncodeInt(index) + (EncodeInt(uniq) + (EncodeTerms(free) + rest))))))
            == Success(Parsed(Fun(pid, mod, index, uniq, free), rest))
  {
    var afterHeader := EncodeTerms(free) + rest;
    var header := EncodeOpaque(103, pid) + (EncodeAtom(mod) + (EncodeInt(index) + (EncodeInt(uniq) + afterHeader)));
    ReadLenOf(|free|, header);
    FunHeaderRoundTrip(pid, mod, index, uniq, afterHeader);
  }

  lemma {:induction false} FunRoundTrip(pid: Opaque, mod: AtomValue, index: int, uniq: int, free: seq<Term>, rest: bytes)
    requires CanonicalOpaque(pid, 9) && CanonicalAtom(mod) && IsInt32(index) && IsInt32(uniq)
    requires |free| < TWO32
    requires DecodeTerms(EncodeTerms(free) + rest, |free|) == Success(Parsed(free, rest))
    ensures DecodeTerm(EncodeTerm(Fun(pid, mod, index, uniq, free)) + rest)
            == Success(Parsed(Fun(pid, mod, index, uniq, free), rest))
  {
    FunLayout(pid, mod, index, uniq, free, rest);
    DecodeTermFun(U32(|free|) + (EncodeOpaque(103, pid) + (EncodeAtom(mod)
               + (EncodeInt(index) + (EncodeInt(uniq) + (EncodeTerms(free) + rest))))));
    FunBodyRoundTrip(pid, mod, index, uniq, free, rest);
  }

  // ---- Sequences of terms ----

  lemma {:induction false} DecodeTermsCons(s: bytes, n: nat, head: Term, mid: bytes, tail: seq<Term>, rest: bytes)
    requires n >= 1
    requires DecodeTerm(s) == Success(Parsed(head, mid))
    requires DecodeTerms(mid, n - 1) == Success(Parsed(tail, rest))
    ensures DecodeTerms(s, n) == Success(Parsed([head] + tail, rest))
  {
  }

  lemma {:induction false} DecodePairsCons(s: bytes, n: nat, p: Pair, mid: bytes, tail: seq<Pair>, rest: bytes)
    requires n >= 1
    requires DecodeTerm(s) == Success(Parsed(p.key, EncodeTerm(p.value) + mid))
    requires DecodeTerm(EncodeTerm(p.value) + mid) == Success(Parsed(p.value, mid))
    requires DecodePairs(mid, n - 1) == Success(Parsed(tail, rest))
    ensures DecodePairs(s, n) == Success(Parsed([p] + tail, rest))
  {
  }

  // ---- The round trip ----

  /** Prefix-free round trip of one term in normal form. */
  lemma {:induction false} TermRoundTrip(t: Term, rest: bytes)
    requires Canonical(t)
    ensures DecodeTerm(EncodeTerm(t) + rest) == Success(Parsed(t, rest))
    decreases t
  {
    match t
    case Int(i) => IntRoundTrip(i, rest);
    case BigInt(v) => BigRoundTrip(v, rest);
    case Float(pattern) => FloatRoundTrip(pattern, rest);
    case TextFloat(text) => TextFloatRoundTrip(text, rest);
    case Atom(a) => AtomRoundTrip(a, rest);
    case Pid(_) => IdentityRoundTrip(t, rest);
    case Port(_) => IdentityRoundTrip(t, rest);
    case Reference(_) => IdentityRoundTrip(t, rest);
    case NewReference(o) => NewReferenceRoundTrip(o, rest);
    case Tuple(es) =>
      TermsRoundTrip(es, rest);
      TupleRoundTrip(es, rest);
    case Map(ps) =>
      PairsRoundTrip(ps, rest);
      MapRoundTrip(ps, rest);
    case ErlangNil =>
      assert EncodeTerm(t) == [106];
      NilRoundTrip(rest);
    case List(es) =>
      TermsRoundTrip(es, [106] + rest);
      ListRoundTrip(es, rest);
    case ImproperList(es, tail) =>
      TermsRoundTrip(es, EncodeTerm(tail) + rest);
      TermRoundTrip(tail, rest);
      ImproperListRoundTrip(es, tail, rest);
    case Binary(data) => BinaryRoundTrip(data, rest);
    case BitBinary(bits, data) => BitBinaryRoundTrip(bits, data, rest);
    case Fun(pid, mod, index, uniq, free) =>
      TermsRoundTrip(free, rest);
      FunRoundTrip(pid, mod, index, uniq, free, rest);
    case NewFun(size, data) => NewFunRoundTrip(size, data, rest);
    case Export(mod, fun, arity) => ExportRoundTrip(mod, fun, arity, rest);
  }

  lemma {:induction false} TermsRoundTrip(es: seq<Term>, rest: bytes)
    requires forall i :: 0 <= i < |es| ==> Canonical(es[i])
    ensures DecodeTerms(EncodeTerms(es) + rest, |es|) == Success(Parsed(es, rest))
    decreases es
  {
    if es != [] {
      var after := EncodeTerms(es[1..]) + rest;
      assert EncodeTerms(es) + rest == EncodeTerm(es[0]) + after;
      TermRoundTrip(es[0], after);
      TermsRoundTrip(es[1..], rest);
      DecodeTermsCons(EncodeTerms(es) + rest, |es|, es[0], after, es[1..], rest);
      assert [es[0]] + es[1..] == es;
    } else {
      assert EncodeTerms(es) + rest == rest;
    }
  }

  lemma {:induction false} PairRoundTrip(p: Pair, rest: bytes)
    requires CanonicalPair(p)
    ensures DecodeTerm(EncodePair(p) + rest) == Success(Parsed(p.key, EncodeTerm(p.value) + rest))
    ensures DecodeTerm(EncodeTerm(p.value) + rest) == Success(Parsed(p.value, rest))
    decreases p
  {
    assert EncodePair(p) + rest == EncodeTerm(p.key) + (EncodeTerm(p.value) + rest);
    TermRoundTrip(p.key, EncodeTerm(p.value) + rest);
    TermRoundTrip(p.value, rest);
  }

  lemma {:induction false} PairsRoundTrip(ps: seq<Pair>, rest: bytes)
    requires forall i :: 0 <= i < |ps| ==> CanonicalPair(ps[i])
    ensures DecodePairs(EncodePairs(ps) + rest, |ps|) == Success(Parsed(ps, rest))
    decreases ps
  {
    if ps != [] {
      var after := EncodePairs(ps[1..]) + rest;
      assert EncodePairs(ps) + rest == EncodePair(ps[0]) + after;
      PairRoundTrip(ps[0], after);
      PairsRoundTrip(ps[1..], rest);
      DecodePairsCons(EncodePairs(ps) + rest, |ps|, ps[0], after, ps[1..], rest);
      assert [ps[0]] + ps[1..] == ps;
    } else {
      assert EncodePairs(ps) + rest == rest;
    }
  }

  /** Decoder#call undoes Encoder#call on every term in normal form, and the
      bytes after the encoding are left unread. */
  lemma {:induction false} RoundTrip(t: Term, rest: bytes)
    requires Canonical(t)
    ensures Decode(Encode(t) + rest) == Success(Parsed(t, rest))
  {
    assert Encode(t) + rest == [ProtocolVersion] + (EncodeTerm(t) + rest);
    ReadByteOf(ProtocolVersion, EncodeTerm(t) + rest);
    TermRoundTrip(t, rest);
  }

  /** Re-encoding a decoded term is stable: whatever form the input used, the
      encoder's form of the decoded term decodes to that same term. */
  lemma {:induction false} ReencodeIsStable(s: bytes)
    requires Decode(s).Success?
    ensures Decode(Encode(Decode(s).value.value)) == Success(Parsed(Decode(s).value.value, []))
  {
    var t := Decode(s).value.value;
    RoundTrip(t, []);
    assert Encode(t) + [] == Encode(t);
  }
}
