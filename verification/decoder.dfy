/** lib/exrb/decoder.rb: a version byte, then exactly one term read by tag
    dispatch. The main definitions follow the readers as the code intends
    them; module DecoderAsWritten records the code as it stands where the
    two differ. */
module Decoder {
  import opened Bytes
  import opened Results
  import opened Terms

  const ProtocolVersion: byte := 131

  datatype DecodeError =
    | UnsupportedVersion(found: byte)   // "Unsupported version"
    | UnexpectedTag(tag: byte)          // a tag missing from the table: `error`
    | UndefinedReader(tag: byte)        // the table names a method that does not exist
    | EndOfInput                        // EOFError: nothing left to read
    | Truncated                         // IOError: fewer bytes than requested
    | NegativeLength                    // read(len - 4) with len < 4
    | NegatedPair                       // read_big as written: Array * -1

  /** A decoded value and the input left after it. */
  datatype Parsed<+T> = Parsed(value: T, rest: bytes)

  type Decoded<T> = Result<Parsed<T>, DecodeError>

  /** The private reader methods of Decoder. */
  datatype Reader =
    | ReadSmallInteger | ReadInteger | ReadFloat | ReadNewFloat
    | ReadAtom | ReadSmallAtom | ReadAtomUtf8 | ReadSmallAtomUtf8
    | ReadReference | ReadNewReference | ReadPort | ReadPid
    | ReadSmallTuple | ReadLargeTuple | ReadMap | ReadNil | ReadString | ReadList
    | ReadBinary | ReadSmallBig | ReadLargeBig | ReadFun | ReadNewFun | ReadExport
    | ReadBitBinary
  {
    predicate ReadsAtom() {
      ReadAtom? || ReadSmallAtom? || ReadAtomUtf8? || ReadSmallAtomUtf8?
    }

    predicate ReadsInteger() {
      ReadSmallInteger? || ReadInteger?
    }

    predicate ReadsNumber() {
      ReadsInteger() || ReadFloat? || ReadNewFloat? || ReadSmallBig? || ReadLargeBig?
    }

    predicate ReadsIdentity() {
      ReadReference? || ReadNewReference? || ReadPort? || ReadPid?
    }

    /** Readers that read nested terms. */
    predicate ReadsTerms() {
      ReadSmallTuple? || ReadLargeTuple? || ReadMap? || ReadList? || ReadFun?
    }
  }

  // ---- Reading raw bytes ----

  /** IO#readbyte: one byte, or end of input. */
  function ReadByte(s: bytes): (r: Decoded<byte>)
    ensures r.Success? <==> |s| >= 1
    ensures r.Success? ==> [r.value.value] + r.value.rest == s
    ensures r.Failure? ==> r.error == EndOfInput
  {
    if |s| == 0 then Failure(EndOfInput) else Success(Parsed(s[0], s[1..]))
  }

  /** Decoder#read: exactly n bytes, or EOFError when nothing is left, or
      IOError when fewer than n are left; reading 0 bytes always succeeds. */
  function Read(s: bytes, n: nat): (r: Decoded<bytes>)
    ensures r.Success? <==> n == 0 || n <= |s|
    ensures r.Success? ==> |r.value.value| == n && r.value.value + r.value.rest == s
    ensures r.Success? ==> r.value.value == s[..n] && r.value.rest == s[n..]
    ensures r.Failure? ==> r.error == (if |s| == 0 then EndOfInput else Truncated)
  {
    if n == 0 then Success(Parsed([], s))
    else if |s| == 0 then Failure(EndOfInput)
    else if |s| < n then Failure(Truncated)
    else Success(Parsed(s[..n], s[n..]))
  }

  /** read(2).unpack("S>"). */
  function ReadU16(s: bytes): (r: Decoded<nat>)
    ensures r.Success? <==> |s| >= 2
    ensures r.Success? ==> |s| >= 2 && r.value.rest == s[2..] && r.value.value == BE(s[..2])
    ensures r.Success? ==> r.value.value < TWO16
  {
    Pow256Facts();
    var b :- Read(s, 2);
    Success(Parsed(BE(b.value), b.rest))
  }

  /** read_len: read(4).unpack("L>"). */
  function ReadLen(s: bytes): (r: Decoded<nat>)
    ensures r.Success? <==> |s| >= 4
    ensures r.Success? ==> |s| >= 4 && r.value.rest == s[4..] && r.value.value == BE(s[..4])
    ensures r.Success? ==> r.value.value < TWO32
  {
    Pow256Facts();
    var b :- Read(s, 4);
    Success(Parsed(BE(b.value), b.rest))
  }

  /** read(4).unpack("l>"). */
  function ReadI32(s: bytes): (r: Decoded<int>)
    ensures r.Success? <==> |s| >= 4
    ensures r.Success? ==> |s| >= 4 && r.value.rest == s[4..] && r.value.value == Signed32(s[..4])
  {
    var b :- Read(s, 4);
    Success(Parsed(Signed32(b.value), b.rest))
  }

  // ---- Dispatch tables ----

  /** ATOM_DECODERS, including SMALL_ATOM_EXT (115), which the source leaves
      out; see DecoderAsWritten.AtomTableAsWritten. */
  function AtomReader(tag: byte): (r: Option<Reader>)
    ensures r.Some? <==> tag in {100, 115, 118, 119}
    ensures r.Some? ==> r.value.ReadsAtom()
  {
    match tag
    case 100 => Some(ReadAtom)
    case 115 => Some(ReadSmallAtom)
    case 118 => Some(ReadAtomUtf8)
    case 119 => Some(ReadSmallAtomUtf8)
    case _ => None
  }

  /** INTEGER_DECODERS, with 98 naming the method that exists; see
      DecoderAsWritten.IntegerTableAsWritten. */
  function IntegerReader(tag: byte): (r: Option<Reader>)
    ensures r.Some? <==> tag in {97, 98}
    ensures r.Some? ==> r.value.ReadsInteger()
  {
    match tag
    case 97 => Some(ReadSmallInteger)
    case 98 => Some(ReadInteger)
    case _ => None
  }

  /** DECODERS merged with the integer and atom tables. */
  function TermReader(tag: byte): (r: Option<Reader>)
    ensures IntegerReader(tag).Some? ==> r == IntegerReader(tag)
    ensures AtomReader(tag).Some? ==> r == AtomReader(tag)
    ensures r.Some? && r.value.ReadsTerms() <==> tag in {104, 105, 108, 116, 117}
    ensures r.Some? <==> tag in {70, 77, 97, 98, 99, 100, 101, 102, 103, 104, 105, 106, 107, 108,
                                 109, 110, 111, 112, 113, 114, 115, 116, 117, 118, 119}
  {
    match tag
    case 97 => Some(ReadSmallInteger)
    case 98 => Some(ReadInteger)
    case 99 => Some(ReadFloat)
    case 100 => Some(ReadAtom)
    case 101 => Some(ReadReference)
    case 102 => Some(ReadPort)
    case 103 => Some(ReadPid)
    case 104 => Some(ReadSmallTuple)
    case 105 => Some(ReadLargeTuple)
    case 106 => Some(ReadNil)
    case 107 => Some(ReadString)
    case 108 => Some(ReadList)
    case 109 => Some(ReadBinary)
    case 110 => Some(ReadSmallBig)
    case 111 => Some(ReadLargeBig)
    case 112 => Some(ReadNewFun)
    case 113 => Some(ReadExport)
    case 114 => Some(ReadNewReference)
    case 115 => Some(ReadSmallAtom)
    case 116 => Some(ReadMap)
    case 117 => Some(ReadFun)
    case 118 => Some(ReadAtomUtf8)
    case 119 => Some(ReadSmallAtomUtf8)
    case 77 => Some(ReadBitBinary)
    case 70 => Some(ReadNewFloat)
    case _ => None
  }

  // ---- Atom-only and integer-only positions ----

  /** The atom text of read_atom / read_atom_utf8 (2-byte length) and
      read_small_atom / read_small_atom_utf8 (1-byte length). */
  function ReadAtomText(rd: Reader, s: bytes): (r: Decoded<bytes>)
    requires rd.ReadsAtom()
    ensures var w := AtomLengthWidth(rd);
      r.Success? <==> |s| >= w && BE(s[..w]) <= |s| - w
    ensures r.Success? ==> var w := AtomLengthWidth(rd);
      |s| >= w && |r.value.value| == BE(s[..w]) && s[w..] == r.value.value + r.value.rest
    ensures r.Success? ==> |r.value.value| < TWO16 && |r.value.rest| < |s|
  {
    if rd == ReadAtom || rd == ReadAtomUtf8 then
      var n :- ReadU16(s);
      Read(n.rest, n.value)
    else
      var n :- ReadByte(s);
      BEOne(s[0]);
      assert s[..1] == [s[0]];
      Read(n.rest, n.value)
  }

  /** The width of an atom's length field: 2 bytes for ATOM_EXT and
      ATOM_UTF8_EXT, 1 byte for the SMALL_ variants. */
  function AtomLengthWidth(rd: Reader): nat
    requires rd.ReadsAtom()
  {
    if rd == ReadAtom || rd == ReadAtomUtf8 then 2 else 1
  }

  /** Decoder#atom: a term that must be one of the atom encodings. */
  function DecodeAtomField(s: bytes): (r: Decoded<AtomValue>)
    ensures |s| >= 1 && s[0] !in {100, 115, 118, 119} ==> r == Failure(UnexpectedTag(s[0]))
    ensures r.Success? ==> |s| >= 1 && s[0] in {100, 115, 118, 119}
    ensures r.Success? ==> var w := if s[0] in {100, 118} then 2 else 1;
      |s| >= 1 + w && |AtomText(r.value.value)| == BE(s[1..1 + w])
      && s[1 + w..] == AtomText(r.value.value) + r.value.rest
    ensures r.Success? ==> CanonicalAtom(r.value.value) && |r.value.rest| < |s|
  {
    var t :- ReadByte(s);
    match AtomReader(t.value)
    case None => Failure(UnexpectedTag(t.value))
    case Some(rd) =>
      var text :- ReadAtomText(rd, t.rest);
      var w := AtomLengthWidth(rd);
      assert t.rest[..w] == s[1..1 + w] && t.rest[w..] == s[1 + w..];
      Success(Parsed(AtomFromText(text.value), text.rest))
  }

  function ReadIntegerValue(rd: Reader, s: bytes): (r: Decoded<int>)
    requires rd.ReadsInteger()
    ensures r.Success? ==> IsInt32(r.value.value) && |r.value.rest| < |s|
    ensures r.Success? && rd == ReadSmallInteger ==> 0 <= r.value.value < 256
    ensures r.Success? <==> |s| >= (if rd == ReadSmallInteger then 1 else 4)
    ensures r.Success? && rd == ReadSmallInteger ==> r.value == Parsed(s[0] as int, s[1..])
    ensures r.Success? && rd == ReadInteger ==> r.value == Parsed(Signed32(s[..4]), s[4..])
  {
    if rd == ReadSmallInteger then
      var b :- ReadByte(s);
      Success(Parsed(b.value as int, b.rest))
    else
      ReadI32(s)
  }

  /** Decoder#integer: a term that must be SMALL_INTEGER_EXT or INTEGER_EXT. */
  function DecodeIntegerField(s: bytes): (r: Decoded<int>)
    ensures |s| >= 1 && s[0] !in {97, 98} ==> r == Failure(UnexpectedTag(s[0]))
    ensures r.Success? <==> |s| >= 2 && (s[0] == 97 || (s[0] == 98 && |s| >= 5))
    ensures r.Success? && s[0] == 97 ==> r.value == Parsed(s[1] as int, s[2..])
    ensures r.Success? && s[0] == 98 ==> r.value == Parsed(Signed32(s[1..5]), s[5..])
    ensures r.Success? ==> IsInt32(r.value.value) && |r.value.rest| < |s|
  {
    var t :- ReadByte(s);
    match IntegerReader(t.value)
    case None => Failure(UnexpectedTag(t.value))
    case Some(rd) =>
      if |s| >= 5 then
        assert t.rest[..4] == s[1..5] && t.rest[4..] == s[5..];
        ReadIntegerValue(rd, t.rest)
      else ReadIntegerValue(rd, t.rest)
  }

  // ---- Readers that read no nested term ----

  /** read_reference, read_port, read_pid: a node atom, then idLen raw bytes. */
  function DecodeOpaque(s: bytes, idLen: nat): (r: Decoded<Opaque>)
    ensures r.Success? ==> CanonicalOpaque(r.value.value, idLen) && |r.value.rest| < |s|
    ensures r.Success? ==> |s| >= idLen + |r.value.rest|
    ensures r.Success? ==> s[|s| - idLen - |r.value.rest|..] == r.value.value.id + r.value.rest
  {
    var node :- DecodeAtomField(s);
    var id :- Read(node.rest, idLen);
    Success(Parsed(Opaque(node.value, id.value), id.rest))
  }

  /** read_new_reference: a 2-byte word count N, a node atom, then 4N + 1 raw bytes. */
  function DecodeNewReferenceBody(s: bytes): (r: Decoded<Opaque>)
    ensures r.Success? ==> |r.value.rest| < |s|
    ensures r.Success? ==> var o := r.value.value;
      CanonicalAtom(o.node) && |o.id| % 4 == 1 && |o.id| / 4 < TWO16
    ensures r.Success? ==> |s| >= 2 && |r.value.value.id| == 4 * BE(s[..2]) + 1
  {
    var n :- ReadU16(s);
    var node :- DecodeAtomField(n.rest);
    var id :- Read(node.rest, 4 * n.value + 1);
    WordCount(n.value);
    Success(Parsed(Opaque(node.value, id.value), id.rest))
  }

  /** An id of 4N + 1 bytes holds N words and one byte more. */
  lemma WordCount(k: nat)
    ensures (4 * k + 1) % 4 == 1 && (4 * k + 1) / 4 == k
  {
  }

  /** The `reduce` of read_big: a running sum and a running power of 256. */
  function BigFold(bs: bytes, acc: int, exp: int): (int, int)
    decreases |bs|
  {
    if bs == [] then (acc, exp) else BigFold(bs[1..], acc + bs[0] * exp, exp * 256)
  }

  lemma {:induction false} BigFoldIsLE(bs: bytes, acc: int, exp: int)
    ensures BigFold(bs, acc, exp) == (acc + exp * LE(bs), exp * Pow256(|bs|))
    decreases |bs|
  {
    if bs != [] {
      var b, tail := bs[0], bs[1..];
      BigFoldIsLE(tail, acc + b * exp, exp * 256);
      var l := LE(tail);
      var p := Pow256(|tail|);
      assert LE(bs) == b + 256 * l;
      assert Pow256(|bs|) == 256 * p;
      assert exp * (b + 256 * l) == b * exp + (exp * 256) * l by {
        MulDistributes(exp, b, 256 * l);
        MulAssociates(exp, 256, l);
      }
      MulAssociates(exp, 256, p);
    }
  }

  lemma MulDistributes(a: int, b: int, c: int)
    ensures a * (b + c) == a * b + a * c
  {
  }

  lemma MulAssociates(a: int, b: int, c: int)
    ensures a * (b * c) == (a * b) * c
  {
  }

  /** read_big's value as intended: the sum of mag[i] * 256^i, negated when the
      sign byte is not zero. */
  function BigValue(sign: byte, mag: bytes): (v: int)
    ensures sign == 0 ==> v == LE(mag)
    ensures sign != 0 ==> v + LE(mag) == 0
    ensures ByteLen(Abs(v)) <= |mag|
  {
    BigFoldIsLE(mag, 0, 1);
    ByteLenAtMost(LE(mag), |mag|);
    var acc := BigFold(mag, 0, 1).0;
    if sign != 0 then -acc else acc
  }

  /** read_big(len): the sign byte, then len magnitude bytes. */
  function DecodeBig(s: bytes, len: nat): (r: Decoded<int>)
    requires len < TWO32
    ensures r.Success? <==> |s| >= 1 + len
    ensures r.Success? ==> |s| >= 1 + len && r.value == Parsed(BigValue(s[0], s[1..1 + len]), s[1 + len..])
    ensures r.Success? ==> ByteLen(Abs(r.value.value)) < TWO32 && |r.value.rest| < |s|
  {
    var sign :- Read(s, 1);
    SuffixSlice(s, 1, len);
    var mag :- Read(sign.rest, len);
    Success(Parsed(BigValue(sign.value[0], mag.value), mag.rest))
  }

  /** Small integers 0..255, in order: read_string's `unpack("C*")`. */
  function Ints(bs: bytes): (r: seq<Term>)
    ensures |r| == |bs|
    ensures forall i :: 0 <= i < |bs| ==> r[i] == Int(bs[i])
  {
    seq(|bs|, i requires 0 <= i < |bs| => Int(bs[i]))
  }

  /** The readers that read no nested term, applied to the bytes after the tag,
      grouped by the kind of value they read. Every leaf decoder takes the
      reader and requires it to be one of its own. */
  function DecodeLeaf(rd: Reader, s: bytes): (r: Decoded<Term>)
    requires !rd.ReadsTerms()
    ensures r.Success? ==> Canonical(r.value.value) && |r.value.rest| <= |s|
  {
    if rd.ReadsNumber() then DecodeNumber(rd, s)
    else if rd.ReadsAtom() then DecodeAtom(rd, s)
    else if rd.ReadsIdentity() then DecodeIdentity(rd, s)
    else DecodeData(rd, s)
  }

  /** Integers, floats and bignums. */
  function DecodeNumber(rd: Reader, s: bytes): (r: Decoded<Term>)
    requires rd.ReadsNumber()
    ensures r.Success? ==> Canonical(r.value.value) && |r.value.rest| <= |s|
  {
    if rd.ReadsInteger() then DecodeInteger(rd, s)
    else if rd.ReadFloat? || rd.ReadNewFloat? then DecodeFloat(rd, s)
    else DecodeBigTerm(rd, s)
  }

  /** NIL and the readers of raw data behind a length or a fixed layout. */
  function DecodeData(rd: Reader, s: bytes): (r: Decoded<Term>)
    requires rd.ReadNil? || rd.ReadString? || rd.ReadBinary? || rd.ReadBitBinary?
             || rd.ReadNewFun? || rd.ReadExport?
    ensures r.Success? ==> Canonical(r.value.value) && |r.value.rest| <= |s|
  {
    match rd
    case ReadNil => Success(Parsed(ErlangNil, s))
    case ReadString => DecodeString(rd, s)
    case ReadBinary => DecodeBinary(rd, s)
    case ReadBitBinary => DecodeBitBinary(rd, s)
    case ReadNewFun => DecodeNewFun(rd, s)
    case ReadExport => DecodeExport(rd, s)
  }

  /** read_small_integer (an unsigned byte) and read_integer (4 bytes, signed). */
  function DecodeInteger(rd: Reader, s: bytes): (r: Decoded<Term>)
    requires rd.ReadsInteger()
    ensures r.Success? ==> r.value.value.Int? && Canonical(r.value.value) && |r.value.rest| <= |s|
  {
    var i :- ReadIntegerValue(rd, s);
    Success(Parsed(Int(i.value), i.rest))
  }

  /** read_float (31 bytes of text, kept unparsed) and read_new_float (the 8-byte pattern). */
  function DecodeFloat(rd: Reader, s: bytes): (r: Decoded<Term>)
    requires rd == ReadFloat || rd == ReadNewFloat
    ensures r.Success? <==> |s| >= (if rd == ReadFloat then 31 else 8)
    ensures r.Success? && rd == ReadFloat ==> r.value == Parsed(TextFloat(s[..31]), s[31..])
    ensures r.Success? && rd == ReadNewFloat ==> r.value == Parsed(Float(s[..8]), s[8..])
    ensures r.Success? ==> Canonical(r.value.value) && |r.value.rest| <= |s|
  {
    if rd == ReadFloat then
      var text :- Read(s, 31);
      Success(Parsed(TextFloat(text.value), text.rest))
    else
      var pattern :- Read(s, 8);
      Success(Parsed(Float(pattern.value), pattern.rest))
  }

  /** read_atom, read_small_atom, read_atom_utf8, read_small_atom_utf8, each
      through the special-atom mapping of decode_atom. */
  function DecodeAtom(rd: Reader, s: bytes): (r: Decoded<Term>)
    requires rd.ReadsAtom()
    ensures var w := AtomLengthWidth(rd);
      r.Success? <==> |s| >= w && BE(s[..w]) <= |s| - w
    ensures r.Success? ==> var w := AtomLengthWidth(rd);
      |s| >= w && r.value.value.Atom? && |AtomText(r.value.value.a)| == BE(s[..w])
      && s[w..] == AtomText(r.value.value.a) + r.value.rest
    ensures r.Success? ==> Canonical(r.value.value) && |r.value.rest| <= |s|
  {
    var text :- ReadAtomText(rd, s);
    Success(Parsed(Atom(AtomFromText(text.value)), text.rest))
  }

  /** read_reference, read_new_reference, read_port, read_pid. */
  function DecodeIdentity(rd: Reader, s: bytes): (r: Decoded<Term>)
    requires rd.ReadsIdentity()
    ensures r.Success? ==> Canonical(r.value.value) && |r.value.rest| <= |s|
  {
    match rd
    case ReadReference =>
      var o :- DecodeOpaque(s, 5);
      Success(Parsed(Reference(o.value), o.rest))
    case ReadNewReference =>
      var o :- DecodeNewReferenceBody(s);
      Success(Parsed(NewReference(o.value), o.rest))
    case ReadPort =>
      var o :- DecodeOpaque(s, 5);
      Success(Parsed(Port(o.value), o.rest))
    case ReadPid =>
      var o :- DecodeOpaque(s, 9);
      Success(Parsed(Pid(o.value), o.rest))
  }

  /** read_string: a 4-byte count N, then N bytes, each yielded as an integer
      0..255; the result is an ordinary list. */
  function DecodeString(rd: Reader, s: bytes): (r: Decoded<Term>)
    requires rd.ReadString?
    ensures r.Success? <==> |s| >= 4 && BE(s[..4]) <= |s| - 4
    ensures r.Success? ==> var n := BE(s[..4]);
      |s| >= 4 + n && r.value == Parsed(List(Ints(s[4..4 + n])), s[4 + n..])
    ensures r.Success? ==> Canonical(r.value.value) && |r.value.rest| <= |s|
  {
    var n :- ReadLen(s);
    SuffixSlice(s, 4, n.value);
    var bs :- Read(n.rest, n.value);
    Success(Parsed(List(Ints(bs.value)), bs.rest))
  }

  /** read_binary: a 4-byte length N, then N raw bytes. */
  function DecodeBinary(rd: Reader, s: bytes): (r: Decoded<Term>)
    requires rd.ReadBinary?
    ensures r.Success? <==> |s| >= 4 && BE(s[..4]) <= |s| - 4
    ensures r.Success? ==> var n := BE(s[..4]);
      |s| >= 4 + n && r.value == Parsed(Binary(s[4..4 + n]), s[4 + n..])
    ensures r.Success? ==> Canonical(r.value.value) && |r.value.rest| <= |s|
  {
    var n :- ReadLen(s);
    SuffixSlice(s, 4, n.value);
    var data :- Read(n.rest, n.value);
    Success(Parsed(Binary(data.value), data.rest))
  }

  /** read_small_big (1-byte length) and read_large_big (4-byte length). */
  function DecodeBigTerm(rd: Reader, s: bytes): (r: Decoded<Term>)
    requires rd == ReadSmallBig || rd == ReadLargeBig
    ensures var w := BigLengthWidth(rd);
      r.Success? <==> |s| >= w && BE(s[..w]) < |s| - w
    ensures r.Success? ==> var w := BigLengthWidth(rd); var n := BE(s[..w]);
      |s| >= w + 1 + n && r.value == Parsed(BigInt(BigValue(s[w], s[w + 1..w + 1 + n])), s[w + 1 + n..])
    ensures r.Success? ==> Canonical(r.value.value) && |r.value.rest| <= |s|
  {
    var w := BigLengthWidth(rd);
    var n :- ReadBigLength(rd, s);
    BigFields(s, w, n.value);
    var v :- DecodeBig(n.rest, n.value);
    Success(Parsed(BigInt(v.value), v.rest))
  }

  /** The sign byte and the magnitude, seen from after the length field. */
  lemma BigFields(s: bytes, w: nat, n: nat)
    requires w <= |s|
    ensures |s| >= w + 1 + n ==> s[w..][0] == s[w]
    ensures |s| >= w + 1 + n ==> s[w..][1..1 + n] == s[w + 1..w + 1 + n]
    ensures |s| >= w + 1 + n ==> s[w..][1 + n..] == s[w + 1 + n..]
  {
  }

  /** The width of a bignum's length field: 1 byte for SMALL_BIG_EXT, 4 for
      LARGE_BIG_EXT. */
  function BigLengthWidth(rd: Reader): nat
    requires rd == ReadSmallBig || rd == ReadLargeBig
  {
    if rd == ReadSmallBig then 1 else 4
  }

  /** The length field in front of a bignum's sign byte. */
  function ReadBigLength(rd: Reader, s: bytes): (r: Decoded<nat>)
    requires rd == ReadSmallBig || rd == ReadLargeBig
    ensures r.Success? <==> |s| >= BigLengthWidth(rd)
    ensures r.Success? ==> |s| >= BigLengthWidth(rd)
    ensures r.Success? ==> r.value == Parsed(BE(s[..BigLengthWidth(rd)]), s[BigLengthWidth(rd)..])
    ensures r.Success? ==> r.value.value < TWO32
  {
    Pow256Facts();
    if rd == ReadSmallBig then
      var n :- ReadByte(s);
      BEOne(s[0]);
      assert s[..1] == [s[0]];
      Success(Parsed(n.value as nat, n.rest))
    else
      ReadLen(s)
  }

  /** read_new_fun: a 4-byte total size S, then S - 4 bytes kept verbatim. */
  function DecodeNewFun(rd: Reader, s: bytes): (r: Decoded<Term>)
    requires rd.ReadNewFun?
    ensures |s| >= 4 && BE(s[..4]) < 4 ==> r == Failure(NegativeLength)
    ensures r.Success? <==> |s| >= 4 && 4 <= BE(s[..4]) <= |s|
    ensures r.Success? ==> var n := BE(s[..4]);
      4 <= n <= |s| && r.value == Parsed(NewFun(n, s[4..n]), s[n..])
    ensures r.Success? ==> Canonical(r.value.value) && |r.value.rest| <= |s|
  {
    var n :- ReadLen(s);
    if n.value < 4 then Failure(NegativeLength)
    else
      SuffixSlice(s, 4, n.value - 4);
      var data :- Read(n.rest, n.value - 4);
      Success(Parsed(NewFun(n.value, data.value), data.rest))
  }

  /** read_export: a module atom, a function atom, an integer arity. */
  function DecodeExport(rd: Reader, s: bytes): (r: Decoded<Term>)
    requires rd.ReadExport?
    ensures |s| >= 1 && s[0] !in {100, 115, 118, 119} ==> r == Failure(UnexpectedTag(s[0]))
    ensures r.Success? ==> r.value.value.Export? && |s| >= 1 && s[0] in {100, 115, 118, 119}
    ensures r.Success? ==> Canonical(r.value.value) && |r.value.rest| < |s|
  {
    var mod :- DecodeAtomField(s);
    var fun :- DecodeAtomField(mod.rest);
    var arity :- DecodeIntegerField(fun.rest);
    Success(Parsed(Export(mod.value, fun.value, arity.value), arity.rest))
  }

  /** read_bit_binary: a 4-byte length N, the trailing-bit byte, then N bytes. */
  function DecodeBitBinary(rd: Reader, s: bytes): (r: Decoded<Term>)
    requires rd.ReadBitBinary?
    ensures r.Success? <==> |s| >= 5 && BE(s[..4]) <= |s| - 5
    ensures r.Success? ==> var n := BE(s[..4]);
      |s| >= 5 + n && r.value == Parsed(BitBinary(s[4], s[5..5 + n]), s[5 + n..])
    ensures r.Success? ==> Canonical(r.value.value) && |r.value.rest| <= |s|
  {
    var n :- ReadLen(s);
    var bits :- ReadByte(n.rest);
    SuffixSlice(s, 5, n.value);
    assert bits.rest == s[5..];
    var data :- Read(bits.rest, n.value);
    Success(Parsed(BitBinary(bits.value, data.value), data.rest))
  }

  // ---- Readers that read nested terms ----

  /** The pid of read_fun, read with its own PID_EXT tag, which write_fun emits
      through write_pid (the source's read_fun skips the tag; see
      DecoderAsWritten.DecodeFunPidAsWritten). */
  function DecodePidField(s: bytes): (r: Decoded<Opaque>)
    ensures |s| >= 1 && s[0] != 103 ==> r == Failure(UnexpectedTag(s[0]))
    ensures r.Success? ==> |s| >= 1 && s[0] == 103
    ensures r.Success? ==> CanonicalOpaque(r.value.value, 9) && |r.value.rest| < |s|
  {
    var t :- ReadByte(s);
    if t.value != 103 then Failure(UnexpectedTag(t.value))
    else DecodeOpaque(t.rest, 9)
  }

  /** Decoder#term: one tag byte, then the reader DECODERS names for it. */
  function DecodeTerm(s: bytes): (r: Decoded<Term>)
    decreases |s|, 0
    ensures r.Success? ==> |r.value.rest| < |s|
    ensures r.Success? ==> Canonical(r.value.value)
  {
    var t :- ReadByte(s);
    DecodeTagged(t.value, t.rest)
  }

  /** The reader DECODERS names for tag, applied to the bytes after the tag.
      The five readers that read nested terms are picked out by their tags
      first (TermReader names exactly these readers for these tags). */
  function DecodeTagged(tag: byte, s: bytes): (r: Decoded<Term>)
    decreases |s|, 1
    ensures TermReader(tag).None? ==> r == Failure(UnexpectedTag(tag))
    ensures r.Success? ==> TermReader(tag).Some?
    ensures r.Success? && tag in {104, 105} ==> r.value.value.Tuple?
    ensures r.Success? && tag == 116 ==> r.value.value.Map?
    ensures r.Success? && tag == 108 ==> r.value.value.List? || r.value.value.ImproperList?
    ensures r.Success? && tag == 117 ==> r.value.value.Fun?
    ensures r.Success? ==> |r.value.rest| <= |s|
    ensures r.Success? ==> Canonical(r.value.value)
  {
    match tag
    case 104 => DecodeTuple(ReadSmallTuple, s)
    case 105 => DecodeTuple(ReadLargeTuple, s)
    case 108 => DecodeList(s)
    case 116 => DecodeMap(s)
    case 117 => DecodeFun(s)
    case _ =>
      match TermReader(tag)
      case None => Failure(UnexpectedTag(tag))
      case Some(rd) => DecodeLeaf(rd, s)
  }

  /** read_small_tuple (1-byte arity) and read_large_tuple (4-byte arity),
      then exactly that many terms. */
  function DecodeTuple(rd: Reader, s: bytes): (r: Decoded<Term>)
    requires rd.ReadSmallTuple? || rd.ReadLargeTuple?
    decreases |s|, 0
    ensures r.Success? ==> r.value.value.Tuple?
    ensures r.Success? && rd.ReadSmallTuple? ==> |s| >= 1 && |r.value.value.elems| == s[0] as int
    ensures r.Success? && rd.ReadLargeTuple? ==> |s| >= 4 && |r.value.value.elems| == BE(s[..4])
    ensures r.Success? ==> |r.value.rest| <= |s| && Canonical(r.value.value)
  {
    Pow256Facts();
    var n :- if rd.ReadSmallTuple? then var b :- ReadByte(s); Success(Parsed(b.value as nat, b.rest))
             else ReadLen(s);
    var es :- DecodeTerms(n.rest, n.value);
    Success(Parsed(Tuple(es.value), es.rest))
  }

  /** read_map: a 4-byte pair count, then the pairs. */
  function DecodeMap(s: bytes): (r: Decoded<Term>)
    decreases |s|, 0
    ensures r.Success? ==> r.value.value.Map? && |s| >= 4 && |r.value.value.pairs| == BE(s[..4])
    ensures r.Success? ==> |r.value.rest| <= |s| && Canonical(r.value.value)
  {
    var n :- ReadLen(s);
    var ps :- DecodePairs(n.rest, n.value);
    Success(Parsed(Map(ps.value), ps.rest))
  }

  /** read_list: a 4-byte count, that many terms, then one tail term; a NIL
      tail gives a proper list, any other tail an ImproperList. */
  function DecodeList(s: bytes): (r: Decoded<Term>)
    decreases |s|, 0
    ensures r.Success? ==> r.value.value.List? || r.value.value.ImproperList?
    ensures r.Success? ==> |s| >= 4 && |r.value.value.elems| == BE(s[..4])
    ensures r.Success? ==> |r.value.rest| <= |s| && Canonical(r.value.value)
  {
    var n :- ReadLen(s);
    var es :- DecodeTerms(n.rest, n.value);
    var tail :- DecodeTerm(es.rest);
    if tail.value == ErlangNil then Success(Parsed(List(es.value), tail.rest))
    else Success(Parsed(ImproperList(es.value, tail.value), tail.rest))
  }

  /** The fixed part of read_fun: the pid, the module atom, then the index
      and uniq integers. */
  function DecodeFunHeader(s: bytes): (r: Decoded<(Opaque, AtomValue, int, int)>)
    ensures r.Success? ==> |r.value.rest| <= |s|
    ensures r.Success? ==> var (pid, mod, index, uniq) := r.value.value;
      CanonicalOpaque(pid, 9) && CanonicalAtom(mod) && IsInt32(index) && IsInt32(uniq)
  {
    var pid :- DecodePidField(s);
    var mod :- DecodeAtomField(pid.rest);
    var index :- DecodeIntegerField(mod.rest);
    var uniq :- DecodeIntegerField(index.rest);
    Success(Parsed((pid.value, mod.value, index.value, uniq.value), uniq.rest))
  }

  /** read_fun: a 4-byte free-variable count N, the fixed part, then N terms. */
  function DecodeFun(s: bytes): (r: Decoded<Term>)
    decreases |s|, 0
    ensures r.Success? ==> r.value.value.Fun?
    ensures r.Success? ==> |s| >= 5 && s[4] == 103 && |r.value.value.free| == BE(s[..4])
    ensures r.Success? ==> |r.value.rest| <= |s| && Canonical(r.value.value)
  {
    var n :- ReadLen(s);
    var h :- DecodeFunHeader(n.rest);
    var (pid, mod, index, uniq) := h.value;
    var free :- DecodeTerms(h.rest, n.value);
    Success(Parsed(Fun(pid, mod, index, uniq, free.value), free.rest))
  }

  /** read_terms(n): exactly n terms, in order. */
  function DecodeTerms(s: bytes, n: nat): (r: Decoded<seq<Term>>)
    decreases |s|, 1
    ensures r.Success? ==> |r.value.value| == n && |r.value.rest| <= |s|
    ensures r.Success? ==> forall i :: 0 <= i < n ==> Canonical(r.value.value[i])
  {
    if n == 0 then Success(Parsed([], s))
    else
      var head :- DecodeTerm(s);
      var tail :- DecodeTerms(head.rest, n - 1);
      Success(Parsed([head.value] + tail.value, tail.rest))
  }

  /** read_map's loop: n (key, value) pairs, in order, each key read before
      its value. Every pair is kept, duplicates included (see
      DecoderAsWritten.MapFromPairsAsWritten for the Ruby Hash the source
      builds). */
  function DecodePairs(s: bytes, n: nat): (r: Decoded<seq<Pair>>)
    decreases |s|, 1
    ensures r.Success? ==> |r.value.value| == n && |r.value.rest| <= |s|
    ensures r.Success? ==> forall i :: 0 <= i < n ==> CanonicalPair(r.value.value[i])
  {
    if n == 0 then Success(Parsed([], s))
    else
      var key :- DecodeTerm(s);
      var value :- DecodeTerm(key.rest);
      var tail :- DecodePairs(value.rest, n - 1);
      Success(Parsed([Pair(key.value, value.value)] + tail.value, tail.rest))
  }

  /** Decoder#call: the version byte must be 131; then exactly one term. Bytes
      after that term are left unread. */
  function Decode(s: bytes): (r: Decoded<Term>)
    ensures |s| >= 1 && s[0] != ProtocolVersion ==> r == Failure(UnsupportedVersion(s[0]))
    ensures r.Success? ==> |s| >= 2 && s[0] == ProtocolVersion && Canonical(r.value.value)
    ensures r.Success? ==> |r.value.rest| < |s| - 1
  {
    var v :- ReadByte(s);
    if v.value != ProtocolVersion then Failure(UnsupportedVersion(v.value))
    else DecodeTerm(v.rest)
  }

  // ---- Rejections ----

  /** A tag DECODERS has no entry for is rejected as an unexpected
      expression before anything after it is read. */
  lemma {:induction false} UnknownTagRejected(tag: byte, s: bytes)
    requires TermReader(tag).None?
    ensures DecodeTerm([tag] + s) == Failure(UnexpectedTag(tag))
  {
    assert ([tag] + s)[0] == tag && ([tag] + s)[1..] == s;
  }

  /** In an atom-only position (a node, module or function name) every tag
      but the four atom tags is rejected. */
  lemma {:induction false} NonAtomTagRejected(tag: byte, s: bytes)
    requires tag !in {100, 115, 118, 119}
    ensures DecodeAtomField([tag] + s) == Failure(UnexpectedTag(tag))
  {
    assert ([tag] + s)[0] == tag && ([tag] + s)[1..] == s;
  }

  /** In an integer-only position (a fun's index and uniq, an export's
      arity) every tag but 97 and 98 is rejected. */
  lemma {:induction false} NonIntegerTagRejected(tag: byte, s: bytes)
    requires tag !in {97, 98}
    ensures DecodeIntegerField([tag] + s) == Failure(UnexpectedTag(tag))
  {
    assert ([tag] + s)[0] == tag && ([tag] + s)[1..] == s;
  }

  /** An input with no term after the version byte ends in EOFError. */
  lemma {:induction false} VersionOnlyIsEndOfInput()
    ensures Decode([ProtocolVersion]) == Failure(EndOfInput)
    ensures Decode([]) == Failure(EndOfInput)
  {
    assert [ProtocolVersion][1..] == [];
  }
}
