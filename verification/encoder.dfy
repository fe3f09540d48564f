/** lib/exrb/encoder.rb: the canonicalising writer. Every term is written in
    one fixed form per kind (integers as INTEGER_EXT, tuples as
    LARGE_TUPLE_EXT, floats as NEW_FLOAT_EXT, true/false/nil as atoms). */
module Encoder {
  import opened Bytes
  import opened Terms

  const Version: byte := 131

  /** The ENCODERS table: the tag written for each kind of term. */
  function EncoderTag(t: Term): (r: byte)
    ensures r == 105 <==> t.Tuple?
    ensures r == 108 <==> t.List? || t.ImproperList?
    ensures r == 100 <==> t.Atom?
    ensures r !in {97, 104, 107, 110, 115, 118, 119}
  {
    match t
    case Int(_) => 98
    case BigInt(_) => 111
    case Float(_) => 70
    case TextFloat(_) => 99
    case Atom(_) => 100
    case Pid(_) => 103
    case Port(_) => 102
    case Reference(_) => 101
    case NewReference(_) => 114
    case Tuple(_) => 105
    case Map(_) => 116
    case ErlangNil => 106
    case List(_) => 108
    case ImproperList(_, _) => 108
    case Binary(_) => 109
    case BitBinary(_, _) => 77
    case Fun(_, _, _, _, _) => 117
    case NewFun(_, _) => 112
    case Export(_, _, _) => 113
  }

  /** write_integer: tag 98 and the value as a 4-byte two's-complement field
      (pack("l>") keeps the low 32 bits of a wider value). */
  function EncodeInt(i: int): (r: bytes)
    ensures |r| == 5 && r[0] == 98
    ensures BE(r[1..]) == i % TWO32
    ensures IsInt32(i) ==> Signed32(r[1..]) == i
  {
    Signed32OfU32Wrap(i);
    [98] + U32(i)
  }

  lemma Signed32OfU32Wrap(i: int)
    ensures IsInt32(i) ==> Signed32(U32(i)) == i
  {
    if IsInt32(i) {
      Signed32OfU32(i);
    }
  }

  /** write_atom: tag 100, a 2-byte length equal to the text's byte count, the
      text; true, false and nil are written as the atoms of that text. */
  function EncodeAtom(a: AtomValue): (r: bytes)
    ensures |r| == 3 + |AtomText(a)| && r[0] == 100
    ensures BE(r[1..3]) == |AtomText(a)| % TWO16
    ensures r[3..] == AtomText(a)
    ensures a == Boolean(true) ==> r[3..] == TrueText
    ensures a == Boolean(false) ==> r[3..] == FalseText
    ensures a == Nil ==> r[3..] == NilText
  {
    var text := AtomText(a);
    var r := [100] + U16(|text|) + text;
    assert r[1..3] == U16(|text|);
    r
  }

  /** write_pid, write_port, write_reference: the tag, the node atom, then the
      identity bytes verbatim. */
  function EncodeOpaque(tag: byte, o: Opaque): (r: bytes)
    ensures |r| == 4 + |AtomText(o.node)| + |o.id| && r[0] == tag && r[1] == 100
    ensures BE(r[2..4]) == |AtomText(o.node)| % TWO16
    ensures r[4..4 + |AtomText(o.node)|] == AtomText(o.node)
    ensures r[4 + |AtomText(o.node)|..] == o.id
  {
    var a := EncodeAtom(o.node);
    var r := [tag] + a + o.id;
    assert r[2..4] == a[1..3];
    assert r[4..4 + |AtomText(o.node)|] == a[3..];
    r
  }

  /** write_large_big with the defects of the source removed: tag 111, the
      4-byte byte count n = ceil(bit_length(|v|) / 8), the sign byte (1 for a
      negative value), then the n bytes of |v| least significant first. */
  /** EncodeOpaque as a concatenation, for proofs that split the encoding
      into its fields. */
  lemma OpaqueBytes(tag: byte, o: Opaque)
    ensures EncodeOpaque(tag, o) == [tag] + EncodeAtom(o.node) + o.id
  {
  }

  function EncodeBig(v: int): (r: bytes)
    ensures |r| == 6 + ByteLen(Abs(v)) && r[0] == 111
    ensures BE(r[1..5]) == ByteLen(Abs(v)) % TWO32
    ensures r[5] == (if v < 0 then 1 else 0)
    ensures LE(r[6..]) == Abs(v)
  {
    var n := ByteLen(Abs(v));
    LEBytesInverse(Abs(v), n);
    var r := [111] + U32(n) + [if v < 0 then 1 else 0] + LEBytes(Abs(v), n);
    assert r[1..5] == U32(n);
    assert r[6..] == LEBytes(Abs(v), n);
    r
  }

  /** Encoder#term: one term in the form its kind is always written in. */
  function EncodeTerm(t: Term): (r: bytes)
    decreases t
  {
    match t
    case Int(i) => EncodeInt(i)
    case BigInt(v) => EncodeBig(v)
    case Float(pattern) => [70] + pattern
    case TextFloat(text) => [99] + text
    case Atom(a) => EncodeAtom(a)
    case Pid(o) => EncodeOpaque(103, o)
    case Port(o) => EncodeOpaque(102, o)
    case Reference(o) => EncodeOpaque(101, o)
    case NewReference(o) => [114] + U16(|o.id| / 4) + EncodeAtom(o.node) + o.id
    case Tuple(es) => [105] + U32(|es|) + EncodeTerms(es)
    case Map(ps) => [116] + U32(|ps|) + EncodePairs(ps)
    case ErlangNil => [106]
    case List(es) => [108] + U32(|es|) + EncodeTerms(es) + [106]
    case ImproperList(es, tail) => [108] + U32(|es|) + EncodeTerms(es) + EncodeTerm(tail)
    case Binary(data) => [109] + U32(|data|) + data
    case BitBinary(bits, data) => [77] + U32(|data|) + [bits] + data
    case Fun(pid, mod, index, uniq, free) =>
      [117] + U32(|free|) + EncodeOpaque(103, pid) + EncodeAtom(mod)
      + EncodeInt(index) + EncodeInt(uniq) + EncodeTerms(free)
    case NewFun(size, data) => [112] + U32(size) + data
    case Export(mod, fun, arity) => [113] + EncodeAtom(mod) + EncodeAtom(fun) + EncodeInt(arity)
  }

  /** write_terms: the terms one after another, in order. */
  function EncodeTerms(es: seq<Term>): (r: bytes)
    decreases es
    ensures |r| >= |es|
  {
    if es == [] then [] else EncodeTerm(es[0]) + EncodeTerms(es[1..])
  }

  function EncodePair(p: Pair): (r: bytes)
    decreases p
    ensures |r| >= 2
  {
    EncodeTerm(p.key) + EncodeTerm(p.value)
  }

  /** write_map's `entries.flatten(1)`: key1 value1 key2 value2 ... */
  function EncodePairs(ps: seq<Pair>): (r: bytes)
    decreases ps
    ensures |r| >= 2 * |ps|
  {
    if ps == [] then [] else EncodePair(ps[0]) + EncodePairs(ps[1..])
  }

  /** write_terms over a concatenation writes the two parts one after the
      other: the encoding of a sequence is the encodings of its elements,
      nothing between them. */
  lemma {:induction false} EncodeTermsAppend(a: seq<Term>, b: seq<Term>)
    ensures EncodeTerms(a + b) == EncodeTerms(a) + EncodeTerms(b)
    decreases |a|
  {
    if a == [] {
      assert a + b == b;
    } else {
      assert (a + b)[0] == a[0] && (a + b)[1..] == a[1..] + b;
      EncodeTermsAppend(a[1..], b);
      Assoc3(EncodeTerm(a[0]), EncodeTerms(a[1..]), EncodeTerms(b));
    }
  }

  /** The same for the key-value list of a map. */
  lemma {:induction false} EncodePairsAppend(a: seq<Pair>, b: seq<Pair>)
    ensures EncodePairs(a + b) == EncodePairs(a) + EncodePairs(b)
    decreases |a|
  {
    if a == [] {
      assert a + b == b;
    } else {
      assert (a + b)[0] == a[0] && (a + b)[1..] == a[1..] + b;
      EncodePairsAppend(a[1..], b);
      Assoc3(EncodePair(a[0]), EncodePairs(a[1..]), EncodePairs(b));
    }
  }

  /** Encoder#call: the version byte 131 and then exactly one term. */
  function Encode(t: Term): (r: bytes)
    ensures |r| >= 2 && r[0] == Version && r[1] == EncoderTag(t)
    ensures r[1..] == EncodeTerm(t)
  {
    FirstByte(t);
    [Version] + EncodeTerm(t)
  }

  /** Every encoding starts with the tag EncoderTag names. */
  lemma FirstByte(t: Term)
    ensures |EncodeTerm(t)| >= 1 && EncodeTerm(t)[0] == EncoderTag(t)
  {
    match t
    case Int(_) =>
    case BigInt(_) =>
    case Float(_) =>
    case TextFloat(_) =>
    case Atom(_) =>
    case Pid(_) =>
    case Port(_) =>
    case Reference(_) =>
    case NewReference(_) =>
    case Tuple(_) =>
    case Map(_) =>
    case ErlangNil =>
    case List(_) =>
    case ImproperList(_, _) =>
    case Binary(_) =>
    case BitBinary(_, _) =>
    case Fun(_, _, _, _, _) =>
    case NewFun(_, _) =>
    case Export(_, _, _) =>
  }

  /** write_large_tuple, write_map, write_list and write_improper_list: the
      tag, a 4-byte count of the elements (of the pairs, for a map), then
      the elements in order; a proper list ends with NIL_EXT (106) and an
      improper one with its tail. */
  lemma {:induction false} ContainerLayout(t: Term)
    requires t.Tuple? || t.Map? || t.List? || t.ImproperList?
    ensures |EncodeTerm(t)| >= 5 && EncodeTerm(t)[0] == EncoderTag(t)
    ensures BE(EncodeTerm(t)[1..5]) == (if t.Map? then |t.pairs| else |t.elems|) % TWO32
    ensures t.Map? ==> EncodeTerm(t)[5..] == EncodePairs(t.pairs)
    ensures t.Tuple? ==> EncodeTerm(t)[5..] == EncodeTerms(t.elems)
    ensures t.List? ==> EncodeTerm(t)[5..] == EncodeTerms(t.elems) + [106]
    ensures t.ImproperList? ==> EncodeTerm(t)[5..] == EncodeTerms(t.elems) + EncodeTerm(t.tail)
  {
    var n := if t.Map? then |t.pairs| else |t.elems|;
    var body := if t.Map? then EncodePairs(t.pairs)
                else if t.Tuple? then EncodeTerms(t.elems)
                else if t.List? then EncodeTerms(t.elems) + [106]
                else EncodeTerms(t.elems) + EncodeTerm(t.tail);
    ContainerBytes(t);
    Header(EncoderTag(t), n, body);
  }

  /** The bytes of a container, as a tag, a count and a body. */
  lemma {:induction false} ContainerBytes(t: Term)
    requires t.Tuple? || t.Map? || t.List? || t.ImproperList?
    ensures t.Tuple? ==> EncodeTerm(t) == [105] + U32(|t.elems|) + EncodeTerms(t.elems)
    ensures t.Map? ==> EncodeTerm(t) == [116] + U32(|t.pairs|) + EncodePairs(t.pairs)
    ensures t.List? ==> EncodeTerm(t) == [108] + U32(|t.elems|) + (EncodeTerms(t.elems) + [106])
    ensures t.ImproperList? ==> EncodeTerm(t) == [108] + U32(|t.elems|) + (EncodeTerms(t.elems) + EncodeTerm(t.tail))
  {
    if t.List? {
      Assoc3([108] + U32(|t.elems|), EncodeTerms(t.elems), [106]);
    } else if t.ImproperList? {
      Assoc3([108] + U32(|t.elems|), EncodeTerms(t.elems), EncodeTerm(t.tail));
    }
  }

  lemma {:induction false} Header(tag: byte, n: nat, body: bytes)
    ensures |[tag] + U32(n) + body| >= 5 && ([tag] + U32(n) + body)[0] == tag
    ensures ([tag] + U32(n) + body)[1..5] == U32(n)
    ensures ([tag] + U32(n) + body)[5..] == body
  {
  }
}
