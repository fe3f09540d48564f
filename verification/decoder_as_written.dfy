/** lib/exrb/decoder.rb as it stands, where it differs from the decoder of
    module Decoder: the dispatch tables hold method names (one misspelt and
    one missing), the special-atom table is keyed by Strings and read with
    `||`, read_big negates an Array, read_new_reference builds a Reference,
    read_fun reads the pid without its tag, and read_map builds a Hash. Each
    member here is paired with a lemma showing an input on which it and the
    intended definition part ways. */
module DecoderAsWritten {
  import opened Bytes
  import opened Results
  import opened Terms
  import opened Encoder
  import opened Decoder
  import opened RoundTrip

  // ---- Dispatch through method names ----

  /** The private methods Decoder defines, by name. */
  function MethodReader(name: string): (r: Option<Reader>)
    ensures name == "read_integer" ==> r == Some(ReadInteger)
    ensures name == "read_small_atom" ==> r == Some(ReadSmallAtom)
    ensures name == "read_ineteger" ==> r == None
  {
    match name
    case "read_small_integer" => Some(ReadSmallInteger)
    case "read_integer" => Some(ReadInteger)
    case "read_float" => Some(ReadFloat)
    case "read_new_float" => Some(ReadNewFloat)
    case "read_atom" => Some(ReadAtom)
    case "read_small_atom" => Some(ReadSmallAtom)
    case "read_atom_utf8" => Some(ReadAtomUtf8)
    case "read_small_atom_utf8" => Some(ReadSmallAtomUtf8)
    case "read_reference" => Some(ReadReference)
    case "read_new_reference" => Some(ReadNewReference)
    case "read_port" => Some(ReadPort)
    case "read_pid" => Some(ReadPid)
    case "read_small_tuple" => Some(ReadSmallTuple)
    case "read_large_tuple" => Some(ReadLargeTuple)
    case "read_map" => Some(ReadMap)
    case "read_nil" => Some(ReadNil)
    case "read_string" => Some(ReadString)
    case "read_list" => Some(ReadList)
    case "read_binary" => Some(ReadBinary)
    case "read_small_big" => Some(ReadSmallBig)
    case "read_large_big" => Some(ReadLargeBig)
    case "read_fun" => Some(ReadFun)
    case "read_new_fun" => Some(ReadNewFun)
    case "read_export" => Some(ReadExport)
    case "read_bit_binary" => Some(ReadBitBinary)
    case _ => None
  }

  /** INTEGER_DECODERS as written: 98 names `read_ineteger`. */
  function IntegerTableAsWritten(tag: byte): (r: Option<string>)
    ensures r.Some? <==> IntegerReader(tag).Some?
    ensures r.Some? && tag != 98 ==> MethodReader(r.value) == IntegerReader(tag)
    ensures tag == 98 ==> r.Some? && MethodReader(r.value).None?
  {
    match tag
    case 97 => Some("read_small_integer")
    case 98 => Some("read_ineteger")
    case _ => None
  }

  /** ATOM_DECODERS as written: SMALL_ATOM_EXT (115) is not there. */
  function AtomTableAsWritten(tag: byte): (r: Option<string>)
    ensures r.Some? <==> AtomReader(tag).Some? && tag != 115
    ensures r.Some? ==> MethodReader(r.value) == AtomReader(tag)
  {
    match tag
    case 100 => Some("read_atom")
    case 118 => Some("read_atom_utf8")
    case 119 => Some("read_small_atom_utf8")
    case _ => None
  }

  /** The DECODERS literal before its two merges. */
  function BaseTableAsWritten(tag: byte): Option<string> {
    match tag
    case 99 => Some("read_float")
    case 101 => Some("read_reference")
    case 102 => Some("read_port")
    case 103 => Some("read_pid")
    case 104 => Some("read_small_tuple")
    case 105 => Some("read_large_tuple")
    case 116 => Some("read_map")
    case 106 => Some("read_nil")
    case 107 => Some("read_string")
    case 108 => Some("read_list")
    case 109 => Some("read_binary")
    case 110 => Some("read_small_big")
    case 111 => Some("read_large_big")
    case 114 => Some("read_new_reference")
    case 115 => Some("read_small_atom")
    case 117 => Some("read_fun")
    case 112 => Some("read_new_fun")
    case 113 => Some("read_export")
    case 77 => Some("read_bit_binary")
    case 70 => Some("read_new_float")
    case _ => None
  }

  /** DECODERS: the literal merged with INTEGER_DECODERS, then ATOM_DECODERS
      (a later table wins on a shared tag; the three share none). */
  function TermTableAsWritten(tag: byte): (r: Option<string>)
    ensures r.Some? <==> TermReader(tag).Some?
    ensures r.Some? && tag != 98 ==> MethodReader(r.value) == TermReader(tag)
  {
    if AtomTableAsWritten(tag).Some? then AtomTableAsWritten(tag)
    else if IntegerTableAsWritten(tag).Some? then IntegerTableAsWritten(tag)
    else BaseTableAsWritten(tag)
  }

  /** `send(TABLE[tag] || :error)`: no entry calls `error` ("Unexpected
      expression"); an entry naming no method raises NoMethodError. */
  function Send(entry: Option<string>, tag: byte): (r: Result<Reader, DecodeError>)
    ensures entry.None? ==> r == Failure(UnexpectedTag(tag))
    ensures entry.Some? && MethodReader(entry.value).None? ==> r == Failure(UndefinedReader(tag))
    ensures r.Success? <==> entry.Some? && MethodReader(entry.value).Some?
  {
    match entry
    case None => Failure(UnexpectedTag(tag))
    case Some(name) =>
      match MethodReader(name)
      case None => Failure(UndefinedReader(tag))
      case Some(rd) => Success(rd)
  }

  /** The intended dispatch, for comparison: a reader or UnexpectedTag. */
  function Intended(reader: Option<Reader>, tag: byte): Result<Reader, DecodeError> {
    match reader
    case None => Failure(UnexpectedTag(tag))
    case Some(rd) => Success(rd)
  }

  /** Decoder#term as written picks the intended reader for every tag but 98,
      where the misspelt name raises NoMethodError. */
  lemma {:induction false} TermDispatchAsWritten(tag: byte)
    ensures tag != 98 ==> Send(TermTableAsWritten(tag), tag) == Intended(TermReader(tag), tag)
    ensures tag == 98 ==> Send(TermTableAsWritten(tag), tag) == Failure(UndefinedReader(98))
                          && TermReader(tag) == Some(ReadInteger)
  {
  }

  /** Decoder#integer as written: 97 reads, 98 raises NoMethodError. */
  lemma {:induction false} IntegerDispatchAsWritten(tag: byte)
    ensures tag != 98 ==> Send(IntegerTableAsWritten(tag), tag) == Intended(IntegerReader(tag), tag)
    ensures Send(IntegerTableAsWritten(98), 98) == Failure(UndefinedReader(98))
    ensures IntegerReader(98) == Some(ReadInteger)
  {
  }

  /** Every integer the encoder writes starts with tag 98, so the decoder as
      written cannot read one back, in a term or in an integer-only field. */
  lemma {:induction false} EncodedIntegerUnreadableAsWritten(i: int)
    ensures EncodeTerm(Int(i))[0] == 98
    ensures Send(TermTableAsWritten(EncodeTerm(Int(i))[0]), 98) == Failure(UndefinedReader(98))
    ensures Send(IntegerTableAsWritten(EncodeTerm(Int(i))[0]), 98) == Failure(UndefinedReader(98))
  {
  }

  /** Decoder#atom as written: the intended reader for every tag but 115,
      which is rejected as an unexpected expression. */
  lemma {:induction false} AtomDispatchAsWritten(tag: byte)
    ensures tag != 115 ==> Send(AtomTableAsWritten(tag), tag) == Intended(AtomReader(tag), tag)
    ensures Send(AtomTableAsWritten(115), 115) == Failure(UnexpectedTag(115))
    ensures AtomReader(115) == Some(ReadSmallAtom)
  {
  }

  // ---- decode_atom ----

  /** What the readers hand to decode_atom: read_atom passes the String it
      read, the other three pass `to_sym` of it. */
  datatype AtomKey = Text(text: bytes) | Symbol(name: bytes)

  function AtomKeyAsWritten(rd: Reader, text: bytes): (k: AtomKey)
    requires rd.ReadsAtom()
    ensures k.Text? <==> rd == ReadAtom
  {
    if rd == ReadAtom then Text(text) else Symbol(text)
  }

  /** SPECIAL_ATOMS[key]: the table is keyed by Strings, so a Symbol finds
      nothing. */
  function SpecialAtomsLookup(key: AtomKey): (r: Option<AtomValue>)
    ensures r.Some? <==> key.Text? && (key.text == TrueText || key.text == FalseText || key.text == NilText)
  {
    match key
    case Symbol(_) => None
    case Text(text) =>
      if text == TrueText then Some(Boolean(true))
      else if text == FalseText then Some(Boolean(false))
      else if text == NilText then Some(Nil)
      else None
  }

  /** Ruby truthiness: every value but false and nil. */
  predicate Truthy(a: AtomValue) {
    a != Boolean(false) && a != Nil
  }

  /** decode_atom as written: `SPECIAL_ATOMS[string] || string.to_sym`. A
      missing key and the stored values false and nil all fall through to
      the symbol of the text. */
  function DecodeAtomAsWritten(key: AtomKey): (a: AtomValue)
    ensures a != Boolean(false) && a != Nil
    ensures a == Boolean(true) <==> key == Text(TrueText)
    ensures a != Boolean(true) ==> a == Named(if key.Text? then key.text else key.name)
  {
    var found := SpecialAtomsLookup(key);
    if found.Some? && Truthy(found.value) then found.value
    else Named(match key case Text(t) => t case Symbol(t) => t)
  }

  /** What the readers produce as written: true only for the text "true"
      under ATOM_EXT (100), a plain symbol for everything else. */
  lemma {:induction false} AtomAsWrittenCharacterised(rd: Reader, text: bytes)
    requires rd.ReadsAtom()
    ensures DecodeAtomAsWritten(AtomKeyAsWritten(rd, text))
            == (if rd == ReadAtom && text == TrueText then Boolean(true) else Named(text))
  {
  }

  /** The readers as written agree with the intended mapping exactly when the
      text is not special or it is "true" under tag 100. */
  lemma {:induction false} AtomAsWrittenAgreement(rd: Reader, text: bytes)
    requires rd.ReadsAtom()
    ensures DecodeAtomAsWritten(AtomKeyAsWritten(rd, text)) == AtomFromText(text)
            <==> (text != TrueText && text != FalseText && text != NilText)
                 || (rd == ReadAtom && text == TrueText)
  {
    AtomAsWrittenCharacterised(rd, text);
  }

  /** `false || :false`: under tag 100 the text "false" becomes the symbol
      :false, and "nil" the symbol :nil. */
  lemma FalseAndNilFallThroughAsWritten()
    ensures DecodeAtomAsWritten(AtomKeyAsWritten(ReadAtom, FalseText)) == Named(FalseText)
    ensures AtomFromText(FalseText) == Boolean(false)
    ensures DecodeAtomAsWritten(AtomKeyAsWritten(ReadAtom, NilText)) == Named(NilText)
    ensures AtomFromText(NilText) == Nil
  {
  }

  /** Under SMALL_ATOM_UTF8_EXT (119) the text "true" misses the String-keyed
      table and stays the symbol :true. */
  lemma SymbolKeyMissesAsWritten()
    ensures DecodeAtomAsWritten(AtomKeyAsWritten(ReadSmallAtomUtf8, TrueText)) == Named(TrueText)
    ensures AtomFromText(TrueText) == Boolean(true)
  {
  }

  // ---- read_big ----

  /** read_big as written: the sign byte and the magnitude are read, then
      `raw *= -1` runs whenever the one-byte sign String is truthy, which is
      always, and raw is the [acc, exp] pair of the reduce: Array#* with a
      negative count raises ArgumentError. */
  function DecodeBigAsWritten(s: bytes, len: nat): (r: Decoded<int>)
    ensures r.Failure?
    ensures |s| > len ==> r == Failure(NegatedPair)
  {
    var sign :- Read(s, 1);
    var mag :- Read(sign.rest, len);
    Failure(NegatedPair)
  }

  /** The smallest input: SMALL_BIG_EXT holding 5. */
  lemma SmallBigAsWritten()
    ensures DecodeBigAsWritten([0, 5], 1) == Failure(NegatedPair)
    ensures DecodeTerm([110, 1, 0, 5]) == Success(Parsed(BigInt(5), []))
  {
    ReadOf([0], [5]);
    ReadOf([5], []);
    assert [0] + [5] == [0, 5] && [5] + [] == [5];
    assert LE([5]) == 5;
    var body: bytes := [1, 0, 5];
    assert [110, 1, 0, 5] == [110] + body;
    DecodeTermLeaf(110, ReadSmallBig, body);
    LeafNumber(ReadSmallBig, body);
    assert DecodeNumber(ReadSmallBig, body) == DecodeBigTerm(ReadSmallBig, body);
    SmallBigBody(body);
  }

  lemma SmallBigBody(body: bytes)
    requires body == [1, 0, 5]
    ensures DecodeBigTerm(ReadSmallBig, body) == Success(Parsed(BigInt(5), []))
  {
    BEOne(1);
    assert BigLengthWidth(ReadSmallBig) == 1;
    assert body[..1] == [1] && body[1] == 0 && body[2..3] == [5] && body[3..] == [];
    assert BigValue(0, [5]) == 5;
  }

  // ---- read_new_reference ----

  /** read_new_reference as written: the fields are read as intended but the
      result is a Reference, which the encoder writes back under tag 101. */
  function DecodeNewReferenceAsWritten(s: bytes): (r: Decoded<Term>)
    ensures r.Success? ==> r.value.value.Reference? && EncoderTag(r.value.value) == 101
    ensures r.Success? <==> DecodeNewReferenceBody(s).Success?
  {
    var body := DecodeNewReferenceBody(s);
    if body.Failure? then Failure(body.error)
    else
      ReferenceTag(body.value.value);
      Success(Parsed(Reference(body.value.value), body.value.rest))
  }

  lemma ReferenceTag(o: Opaque)
    ensures EncoderTag(Reference(o)) == 101
  {
  }

  /** A new reference read as written is not the term that was written. */
  lemma {:induction false} NewReferenceAsWritten(o: Opaque, rest: bytes)
    requires Canonical(NewReference(o))
    ensures DecodeNewReferenceAsWritten(U16(|o.id| / 4) + (EncodeAtom(o.node) + (o.id + rest)))
            == Success(Parsed(Reference(o), rest))
    ensures Reference(o) != NewReference(o)
  {
    NewReferenceBodyRoundTrip(o, rest);
  }

  // ---- read_fun ----

  /** The pid of read_fun as written: read_pid reads the node atom at once,
      without the PID_EXT tag in front of it. */
  function DecodeFunPidAsWritten(s: bytes): (r: Decoded<Opaque>)
    ensures r.Success? ==> CanonicalOpaque(r.value.value, 9)
  {
    DecodeOpaque(s, 9)
  }

  /** write_fun writes the pid through write_pid, tag 103 first; read as
      written, that tag is taken for the node atom's tag and rejected. The
      intended reader takes the pid back. */
  lemma {:induction false} FunPidAsWritten(pid: Opaque, rest: bytes)
    ensures DecodeFunPidAsWritten(EncodeOpaque(103, pid) + rest) == Failure(UnexpectedTag(103))
  {
    var s := EncodeOpaque(103, pid) + rest;
    assert s[0] == 103;
    assert ReadByte(s) == Success(Parsed(103, s[1..]));
    assert AtomReader(103) == None;
  }

  // ---- read_map ----

  /** `hash[key] = value` on a Ruby Hash kept as its entries in insertion
      order: an existing key keeps its place and takes the new value, a new
      key goes last. */
  function HashStore(entries: seq<Pair>, key: Term, value: Term): (r: seq<Pair>)
    ensures |r| == |entries| || |r| == |entries| + 1
  {
    if entries == [] then [Pair(key, value)]
    else if entries[0].key == key then [Pair(key, value)] + entries[1..]
    else [entries[0]] + HashStore(entries[1..], key, value)
  }

  /** read_map as written: the pairs read, stored one by one into a Hash. */
  function MapFromPairsAsWritten(ps: seq<Pair>): (r: seq<Pair>)
    ensures |r| <= |ps|
    decreases |ps|
  {
    if ps == [] then []
    else HashStore(MapFromPairsAsWritten(ps[..|ps| - 1]), ps[|ps| - 1].key, ps[|ps| - 1].value)
  }

  predicate DistinctKeys(ps: seq<Pair>) {
    forall i, j :: 0 <= i < j < |ps| ==> ps[i].key != ps[j].key
  }

  lemma {:induction false} HashStoreNewKey(entries: seq<Pair>, key: Term, value: Term)
    requires forall i :: 0 <= i < |entries| ==> entries[i].key != key
    ensures HashStore(entries, key, value) == entries + [Pair(key, value)]
    decreases |entries|
  {
    if entries != [] {
      HashStoreNewKey(entries[1..], key, value);
      assert [entries[0]] + (entries[1..] + [Pair(key, value)]) == entries + [Pair(key, value)];
    }
  }

  /** On pairs with distinct keys the Hash keeps every pair, in order: the
      maps Erlang writes decode as intended. */
  lemma {:induction false} DistinctKeysKept(ps: seq<Pair>)
    requires DistinctKeys(ps)
    ensures MapFromPairsAsWritten(ps) == ps
    decreases |ps|
  {
    if ps != [] {
      var init := ps[..|ps| - 1];
      assert DistinctKeys(init);
      DistinctKeysKept(init);
      var last := ps[|ps| - 1];
      assert forall i :: 0 <= i < |init| ==> init[i].key != last.key by {
        forall i | 0 <= i < |init| ensures init[i].key != last.key {
          assert init[i] == ps[i];
        }
      }
      HashStoreNewKey(init, last.key, last.value);
      assert init + [last] == ps;
    }
  }

  /** A repeated key: the later value replaces the earlier one in place, so
      the map holds one pair where two were written. */
  lemma DuplicateKeyMergedAsWritten(k: Term, v1: Term, v2: Term)
    ensures MapFromPairsAsWritten([Pair(k, v1), Pair(k, v2)]) == [Pair(k, v2)]
  {
    var ps := [Pair(k, v1), Pair(k, v2)];
    assert ps[..1] == [Pair(k, v1)];
    assert [Pair(k, v1)][..0] == [];
    assert MapFromPairsAsWritten([Pair(k, v1)]) == [Pair(k, v1)];
  }
}
