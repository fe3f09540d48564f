# exrb codec and port loop in Dafny

This project models exrb, a Ruby library that lets a Ruby program act as an
Erlang port. It covers three pieces:

- the decoder and encoder for the Erlang External Term Format (ETF):
  `lib/exrb/decoder.rb` and `lib/exrb/encoder.rb`;
- the carrier values of `lib/exrb/types.rb`, including `Tuple#elem` and
  `Tuple#put_elem`;
- the `{packet, 4}` request loop of `lib/exrb/port_connection.rb`.

Modules:

- `Bytes`: big-endian and little-endian byte fields, and the 32-bit integer
  field.
- `Results`: `Option` and `Result`.
- `Terms`: one `Term` constructor per kind of value the codec exchanges,
  plus the normal form `Canonical`. That is the set of terms the decoder
  produces and the encoder writes without loss.
- `Decoder`: `Decoder#call`, the tag dispatch and every reader, as the code
  evidently intends them.
- `Encoder`: `Encoder#call` and every writer, as intended. Every kind of
  term is written in one fixed form.
- `RoundTrip`: decoding undoes encoding for every term in normal form, with
  the bytes after the term left unread.
- `Lossy`: the forms the decoder accepts but the encoder never writes
  (small integer, small atom, string, small tuple, small big). Each is read
  into a term whose own encoding is wider and reads back to the same term.
- `DecoderAsWritten` and `EncoderAsWritten`: the code as it stands, wherever
  it differs from the intended definitions. Each difference comes with the
  input that shows it; see "Findings".
- `Port`: the request loop.
  - The input stream is a byte sequence, and the output is the byte
    sequence written.
  - The handler block is a function parameter.
  - `Run` is the loop that writes the handler's reply. `RunAsWritten`
    echoes each request frame.

## Model

| member | source | states |
|---|---|---|
| Decoder.Read | exrb_ruby/lib/exrb/decoder.rb:211-216 | exactly the first n bytes come back with the rest of the input after them; with nothing left it is end of file, with fewer than n left it is a truncation, and reading 0 bytes always succeeds |
| Decoder.ReadByte | exrb_ruby/lib/exrb/decoder.rb:207-209 | one byte is taken off the front, and an empty input is end of file |
| Decoder.ReadLen | exrb_ruby/lib/exrb/decoder.rb:203-205 | the 4-byte unsigned big-endian length succeeds exactly when four bytes remain, is the value of those bytes, is below 2^32, and leaves the rest |
| Decoder.ReadI32 | exrb_ruby/lib/exrb/decoder.rb:78-80 | INTEGER_EXT's field succeeds exactly when four bytes remain and reads as their two's-complement value |
| Decoder.ReadU16 | exrb_ruby/lib/exrb/decoder.rb:86-89 | the 2-byte atom length succeeds exactly when two bytes remain, and is their big-endian value, below 2^16 |
| Decoder.AtomReader | exrb_ruby/lib/exrb/decoder.rb:16-20 | an atom-only field accepts exactly tags 100, 115, 118 and 119, and each names an atom reader |
| Decoder.IntegerReader | exrb_ruby/lib/exrb/decoder.rb:11-14 | an integer-only field accepts exactly tags 97 and 98 |
| Decoder.TermReader | exrb_ruby/lib/exrb/decoder.rb:22-43 | DECODERS is the base table merged with both field tables: it agrees with each on that table's tags, has a reader for exactly the 25 tags of the format, and names a reader of nested terms exactly for 104, 105, 108, 116 and 117 |
| Decoder.DecodeOpaque | exrb_ruby/lib/exrb/decoder.rb:91-101 | a reference, port or pid is a node atom in normal form followed by exactly the fixed number of identity bytes, which sit directly in front of the unread rest |
| Decoder.DecodeNewReferenceBody | exrb_ruby/lib/exrb/decoder.rb:145-148 | a new reference carries exactly 4N+1 identity bytes, where N is the big-endian value of its first two bytes, and a node atom in normal form |
| Decoder.ReadAtomText | exrb_ruby/lib/exrb/decoder.rb:177-184 | the atom text is exactly as long as its length field says (2 bytes for tags 100 and 118, 1 byte for 115 and 119) and is the bytes right after that field; it succeeds exactly when the field and that many bytes are present |
| Decoder.DecodeAtomField | exrb_ruby/lib/exrb/decoder.rb:66-68 | an atom-only field succeeds only on tags 100, 115, 118 and 119 and rejects any other tag as unexpected; the atom's text is the announced number of bytes after the length field |
| Decoder.DecodeIntegerField | exrb_ruby/lib/exrb/decoder.rb:70-72 | an integer-only field rejects every tag but 97 and 98; 97 yields the next byte, 98 the two's-complement value of the next four, and it succeeds exactly when those bytes are present |
| Decoder.DecodePidField | exrb_ruby/lib/exrb/decoder.rb:99-101 | the pid inside a fun starts with PID_EXT (103); any other first byte is rejected |
| Decoder.DecodeAtom | exrb_ruby/lib/exrb/decoder.rb:86-89 | an atom term succeeds exactly when its length field and text are present, and its text is those bytes |
| Decoder.DecodeFloat | exrb_ruby/lib/exrb/decoder.rb:173-175 | NEW_FLOAT_EXT takes exactly the next 8 bytes, FLOAT_EXT the next 31, kept verbatim; each succeeds exactly when that many bytes remain |
| Decoder.DecodeString | exrb_ruby/lib/exrb/decoder.rb:119-121 | STRING_EXT succeeds exactly when its 4-byte count and that many bytes are present, and yields the list of those bytes as integers |
| Decoder.DecodeBinary | exrb_ruby/lib/exrb/decoder.rb:133-135 | BINARY_EXT succeeds exactly when its 4-byte length and that many bytes are present, and yields those bytes |
| Decoder.DecodeBigTerm | exrb_ruby/lib/exrb/decoder.rb:137-143 | SMALL_BIG_EXT (1-byte length) and LARGE_BIG_EXT (4-byte length) succeed exactly when the sign byte and the announced magnitude bytes are present, and yield the signed value of those bytes |
| Decoder.DecodeBig | exrb_ruby/lib/exrb/decoder.rb:190-197 | read_big succeeds exactly when the sign byte and len magnitude bytes are present and yields the value of the sign byte applied to those bytes |
| Decoder.DecodeTuple | exrb_ruby/lib/exrb/decoder.rb:103-109 | a tuple has exactly as many elements as its 1-byte (tag 104) or 4-byte (tag 105) arity field says |
| Decoder.DecodeMap | exrb_ruby/lib/exrb/decoder.rb:111-113 | a map has exactly as many pairs as its 4-byte count says |
| Decoder.DecodeList | exrb_ruby/lib/exrb/decoder.rb:123-131 | a list, proper or improper, has exactly as many elements before its tail as its 4-byte count says |
| Decoder.DecodeFun | exrb_ruby/lib/exrb/decoder.rb:154-157 | a fun has as many free variables as its 4-byte count says, and its pid starts with PID_EXT right after that count |
| Decoder.DecodeNewFun | exrb_ruby/lib/exrb/decoder.rb:159-162 | NEW_FUN_EXT takes its 4-byte total size S and the next S - 4 bytes; a size below 4 is an error, and it succeeds exactly when S - 4 bytes follow |
| Decoder.DecodeExport | exrb_ruby/lib/exrb/decoder.rb:164-166 | an export starts with an atom tag, any other first byte being rejected, and yields an export |
| Decoder.DecodeBitBinary | exrb_ruby/lib/exrb/decoder.rb:168-171 | BIT_BINARY_EXT takes its 4-byte length N, the trailing-bit byte and the next N bytes, and succeeds exactly when all are present |
| Decoder.DecodeTagged | exrb_ruby/lib/exrb/decoder.rb:62-64 | a tag with no DECODERS entry is rejected; tags 104 and 105 yield tuples, 116 a map, 108 a list and 117 a fun |
| Decoder.BigFoldIsLE | exrb_ruby/lib/exrb/decoder.rb:192-194 | the reduce over the magnitude bytes computes their little-endian value and 256 to the power of their count |
| Decoder.BigValue | exrb_ruby/lib/exrb/decoder.rb:190-197 | the magnitude is taken as is when the sign byte is 0 and negated otherwise, and it fits in the number of bytes read |
| Decoder.DecodeTerm | exrb_ruby/lib/exrb/decoder.rb:62-64 | every term read is in normal form and consumes at least one byte |
| Decoder.DecodeTerms | exrb_ruby/lib/exrb/decoder.rb:199-201 | read_terms(n) yields exactly n terms in normal form |
| Decoder.DecodePairs | exrb_ruby/lib/exrb/decoder.rb:111-113 | read_map's loop yields exactly n key/value pairs, each in normal form |
| Decoder.DecodeFunHeader | exrb_ruby/lib/exrb/decoder.rb:154-157 | read_fun's fixed part is a pid with 9 identity bytes, a module atom and two 32-bit integers |
| Decoder.Decode | exrb_ruby/lib/exrb/decoder.rb:55-58 | a first byte other than 131 is an unsupported version; a success starts with 131, yields a term in normal form and consumes the version byte and at least one more |
| Decoder.UnknownTagRejected | exrb_ruby/lib/exrb/decoder.rb:62-64 | a tag with no DECODERS entry is rejected as an unexpected expression |
| Decoder.NonAtomTagRejected | exrb_ruby/lib/exrb/decoder.rb:66-68 | in an atom-only position every tag except 100, 115, 118 and 119 is rejected |
| Decoder.NonIntegerTagRejected | exrb_ruby/lib/exrb/decoder.rb:70-72 | in an integer-only position every tag except 97 and 98 is rejected |
| Decoder.VersionOnlyIsEndOfInput | exrb_ruby/lib/exrb/decoder.rb:207-209 | an empty input, or a version byte with nothing after it, ends in end of file |
| Encoder.EncoderTag | exrb_ruby/lib/exrb/encoder.rb:6-29 | ENCODERS writes tuples under 105, lists proper and improper under 108 and atoms under 100, and never writes the small, string or UTF-8 atom forms (97, 104, 107, 110, 115, 118, 119) |
| Encoder.FirstByte | exrb_ruby/lib/exrb/encoder.rb:48-57 | every encoding starts with the tag ENCODERS gives its kind |
| Encoder.EncodeTermsAppend | exrb_ruby/lib/exrb/encoder.rb:197-199 | write_terms writes a sequence as its parts one after the other, with nothing between them |
| Encoder.EncodePairsAppend | exrb_ruby/lib/exrb/encoder.rb:107-111 | the flattened pairs of a map are written as its parts one after the other |
| Encoder.EncodeInt | exrb_ruby/lib/exrb/encoder.rb:59-62 | tag 98, then four bytes whose unsigned value is the integer modulo 2^32; these read back as the integer whenever it fits 32 bits |
| Encoder.EncodeAtom | exrb_ruby/lib/exrb/encoder.rb:64-69 | tag 100, the 2-byte length of the atom's text, then the text; true, false and nil are written as the texts `true`, `false` and `nil` |
| Encoder.EncodeOpaque | exrb_ruby/lib/exrb/encoder.rb:83-99 | the tag, then ATOM_EXT (100) of the node: the 2-byte length of its text and the text, then the identity bytes verbatim as the last bytes; nothing else is written |
| Encoder.EncodeBig | exrb_ruby/lib/exrb/encoder.rb:143-152 | tag 111, the byte count of the magnitude, the sign byte (1 exactly for negatives), then bytes whose little-endian value is the magnitude |
| Encoder.ContainerLayout | exrb_ruby/lib/exrb/encoder.rb:101-129 | a tuple, map or list is its tag, then a 4-byte big-endian count of its elements (of its pairs, for a map), then the elements in order; a proper list ends with NIL_EXT (106) and an improper one with its tail |
| Encoder.Encode | exrb_ruby/lib/exrb/encoder.rb:41-44 | version byte 131, then the term under the tag ENCODERS gives its kind |
| Terms.PutElem | exrb_ruby/lib/exrb/types.rb:21-28 | the new tuple holds the value at idx and every other element unchanged; its length is unchanged, or grows to idx + 1 with nil padding when idx is past the end |
| Terms.AtomFromText | exrb_ruby/lib/exrb/decoder.rb:45-49 | the texts `true`, `false` and `nil` become the special values and nothing else does; the encoder's text of the result is the text read |
| RoundTrip.AtomTextRoundTrip | exrb_ruby/lib/exrb/decoder.rb:186-188 | decode_atom inverts the encoder's atom text on every atom in normal form |
| RoundTrip.AtomFieldRoundTrip | exrb_ruby/lib/exrb/decoder.rb:66-68 | an atom-only field reads back the atom the encoder wrote |
| RoundTrip.IntegerFieldRoundTrip | exrb_ruby/lib/exrb/decoder.rb:70-72 | an integer-only field reads back every 32-bit integer the encoder wrote |
| RoundTrip.OpaqueRoundTrip | exrb_ruby/lib/exrb/decoder.rb:91-101 | the node atom and identity bytes read back as written |
| RoundTrip.IntRoundTrip | exrb_ruby/lib/exrb/encoder.rb:59-62 | a 32-bit integer written under tag 98 reads back as itself |
| RoundTrip.BigRoundTrip | exrb_ruby/lib/exrb/decoder.rb:141-143 | every big integer whose magnitude fits 2^32 bytes reads back as itself after LARGE_BIG_EXT |
| RoundTrip.FloatRoundTrip | exrb_ruby/lib/exrb/decoder.rb:173-175 | the 8-byte IEEE pattern of NEW_FLOAT_EXT reads back unchanged |
| RoundTrip.TextFloatRoundTrip | exrb_ruby/lib/exrb/decoder.rb:82-84 | the 31 text bytes of FLOAT_EXT read back unchanged |
| RoundTrip.AtomRoundTrip | exrb_ruby/lib/exrb/encoder.rb:185-195 | every atom in normal form, true, false and nil included, reads back as itself |
| RoundTrip.IdentityRoundTrip | exrb_ruby/lib/exrb/encoder.rb:83-99 | a reference, port or pid reads back with its node and identity bytes |
| RoundTrip.NewReferenceRoundTrip | exrb_ruby/lib/exrb/encoder.rb:76-81 | a new reference reads back as a new reference with its node and identity bytes |
| RoundTrip.BinaryRoundTrip | exrb_ruby/lib/exrb/decoder.rb:133-135 | a binary reads back byte for byte |
| RoundTrip.BitBinaryRoundTrip | exrb_ruby/lib/exrb/decoder.rb:168-171 | a bit binary reads back with its trailing-bit count and bytes |
| RoundTrip.NewFunRoundTrip | exrb_ruby/lib/exrb/decoder.rb:159-162 | a new fun reads back with its total size and the size - 4 data bytes |
| RoundTrip.ExportRoundTrip | exrb_ruby/lib/exrb/decoder.rb:164-166 | an export reads back with its module, function and arity |
| RoundTrip.NilRoundTrip | exrb_ruby/lib/exrb/decoder.rb:115-117 | tag 106 alone reads as the empty list |
| RoundTrip.TupleRoundTrip | exrb_ruby/lib/exrb/decoder.rb:107-109 | LARGE_TUPLE_EXT reads back as the tuple whenever its elements read back |
| RoundTrip.MapRoundTrip | exrb_ruby/lib/exrb/encoder.rb:107-111 | a map reads back with its pairs in order whenever the flattened pairs read back |
| RoundTrip.ListRoundTrip | exrb_ruby/lib/exrb/decoder.rb:123-131 | a proper list reads back as a list: the nil tail ends it and is not kept |
| RoundTrip.ImproperListRoundTrip | exrb_ruby/lib/exrb/decoder.rb:123-131 | a list with a tail other than nil reads back as an improper list with that tail |
| RoundTrip.FunRoundTrip | exrb_ruby/lib/exrb/encoder.rb:154-162 | a fun reads back with its pid, module, index, uniq and free variables |
| RoundTrip.TermRoundTrip | exrb_ruby/lib/exrb/decoder.rb:62-64 | every term in normal form reads back as itself, and the bytes after it are left unread |
| RoundTrip.TermsRoundTrip | exrb_ruby/lib/exrb/encoder.rb:197-199 | read_terms inverts write_terms on every sequence of terms in normal form |
| RoundTrip.PairsRoundTrip | exrb_ruby/lib/exrb/decoder.rb:111-113 | read_map's loop inverts the flattened pairs, keeping every pair in order |
| RoundTrip.RoundTrip | exrb_ruby/lib/exrb/decoder.rb:55-58 | Decoder#call inverts Encoder#call on every term in normal form, leaving later bytes unread |
| RoundTrip.ReencodeIsStable | exrb_ruby/lib/exrb/encoder.rb:41-44 | whatever form a successfully decoded input used, the encoding of the decoded term decodes to that same term |
| Lossy.SmallIntegerWidened | exrb_ruby/lib/exrb/decoder.rb:74-76 | SMALL_INTEGER_EXT reads as an integer whose encoding is the wider INTEGER_EXT, which reads back to the same integer |
| Lossy.SmallAtomWidened | exrb_ruby/lib/exrb/decoder.rb:150-152 | SMALL_ATOM_EXT reads as the atom of its text, which is written back under tag 100 and reads back to the same atom |
| Lossy.StringWidened | exrb_ruby/lib/exrb/decoder.rb:119-121 | STRING_EXT reads as the list of its bytes, which is written back as LIST_EXT and reads back to the same list |
| Lossy.SmallTupleWidened | exrb_ruby/lib/exrb/decoder.rb:103-105 | SMALL_TUPLE_EXT reads as the tuple, which is written back as LARGE_TUPLE_EXT and reads back to the same tuple |
| Lossy.SmallBigWidened | exrb_ruby/lib/exrb/decoder.rb:137-139 | SMALL_BIG_EXT reads as the signed value, which is written back as LARGE_BIG_EXT and reads back to the same value |
| DecoderAsWritten.MethodReader | exrb_ruby/lib/exrb/decoder.rb:74-80 | `read_integer` and `read_small_atom` are methods of the decoder, and `read_ineteger` is not |
| DecoderAsWritten.Send | exrb_ruby/lib/exrb/decoder.rb:62-72 | a missing table entry is an unexpected expression, an entry naming no method raises, and a reader runs exactly when the entry names a method |
| DecoderAsWritten.TermDispatchAsWritten | exrb_ruby/lib/exrb/decoder.rb:11-14 | Decoder#term as written picks the intended reader for every tag except 98, where the misspelt name raises |
| DecoderAsWritten.IntegerDispatchAsWritten | exrb_ruby/lib/exrb/decoder.rb:70-72 | Decoder#integer as written agrees with the intended table except on 98, which raises |
| DecoderAsWritten.EncodedIntegerUnreadableAsWritten | exrb_ruby/lib/exrb/encoder.rb:59-62 | every integer the encoder writes starts with tag 98, which the decoder as written cannot read, neither as a term nor as an integer field |
| DecoderAsWritten.AtomDispatchAsWritten | exrb_ruby/lib/exrb/decoder.rb:16-20 | Decoder#atom as written agrees with the intended table except on 115, which it rejects |
| DecoderAsWritten.IntegerTableAsWritten | exrb_ruby/lib/exrb/decoder.rb:11-14 | INTEGER_DECODERS has entries exactly for 97 and 98; 97 names the intended reader, and 98 names no method |
| DecoderAsWritten.AtomTableAsWritten | exrb_ruby/lib/exrb/decoder.rb:16-20 | ATOM_DECODERS has entries exactly for the intended atom tags except 115, each naming the intended reader |
| DecoderAsWritten.TermTableAsWritten | exrb_ruby/lib/exrb/decoder.rb:22-43 | the merged DECODERS has an entry for exactly the tags the intended table has, naming the intended reader for every tag but 98 |
| DecoderAsWritten.AtomKeyAsWritten | exrb_ruby/lib/exrb/decoder.rb:86-89 | only read_atom passes decode_atom a String; the other atom readers pass a Symbol |
| DecoderAsWritten.SpecialAtomsLookup | exrb_ruby/lib/exrb/decoder.rb:45-49 | the String-keyed table finds a value exactly for the Strings `true`, `false` and `nil` |
| DecoderAsWritten.DecodeAtomAsWritten | exrb_ruby/lib/exrb/decoder.rb:186-188 | decode_atom as written never yields false or nil; it yields true exactly for the String `true`, and otherwise the symbol of the key's text |
| DecoderAsWritten.AtomAsWrittenCharacterised | exrb_ruby/lib/exrb/decoder.rb:186-188 | as written, the only special value the atom readers produce is true, for the text `true` under tag 100; everything else is a plain symbol |
| DecoderAsWritten.AtomAsWrittenAgreement | exrb_ruby/lib/exrb/decoder.rb:177-188 | the atom readers as written agree with the intended mapping if and only if the text is not special, or is `true` under tag 100 |
| DecoderAsWritten.FalseAndNilFallThroughAsWritten | exrb_ruby/lib/exrb/decoder.rb:186-188 | `false` and `nil` under tag 100 fall through `||` to the symbols :false and :nil, where the intended values are false and nil |
| DecoderAsWritten.SymbolKeyMissesAsWritten | exrb_ruby/lib/exrb/decoder.rb:182-184 | `true` under tag 119 misses the String-keyed table and stays the symbol :true |
| DecoderAsWritten.DecodeBigAsWritten | exrb_ruby/lib/exrb/decoder.rb:190-197 | read_big as written never yields a value: once the sign byte and the magnitude are read, negating the pair raises |
| DecoderAsWritten.SmallBigAsWritten | exrb_ruby/lib/exrb/decoder.rb:137-139 | SMALL_BIG_EXT holding 5 fails as written and reads as 5 as intended |
| DecoderAsWritten.DecodeNewReferenceAsWritten | exrb_ruby/lib/exrb/decoder.rb:145-148 | read_new_reference as written succeeds on the same inputs as intended, but yields a Reference, which is written back under tag 101 |
| DecoderAsWritten.NewReferenceAsWritten | exrb_ruby/lib/exrb/encoder.rb:76-81 | a new reference read as written comes back as a Reference, a different term from the one written |
| DecoderAsWritten.DecodeFunPidAsWritten | exrb_ruby/lib/exrb/decoder.rb:154-157 | read_fun's pid as written is a node atom and 9 bytes, read with no PID_EXT tag in front |
| DecoderAsWritten.FunPidAsWritten | exrb_ruby/lib/exrb/encoder.rb:154-157 | the pid as write_fun writes it, tag 103 first, is rejected as written: 103 is not an atom tag |
| DecoderAsWritten.HashStore | exrb_ruby/lib/exrb/decoder.rb:112 | storing into a Hash keeps its size or grows it by one |
| DecoderAsWritten.MapFromPairsAsWritten | exrb_ruby/lib/exrb/decoder.rb:111-113 | the Hash read_map builds never has more entries than pairs were read |
| DecoderAsWritten.HashStoreNewKey | exrb_ruby/lib/exrb/decoder.rb:112 | storing a new key appends the pair last |
| DecoderAsWritten.DistinctKeysKept | exrb_ruby/lib/exrb/decoder.rb:111-113 | with distinct keys the Hash keeps every pair in order, so the map reads as intended |
| DecoderAsWritten.DuplicateKeyMergedAsWritten | exrb_ruby/lib/exrb/decoder.rb:111-113 | a repeated key leaves one pair holding the later value where two pairs were written |
| EncoderAsWritten.LargeBigLen | exrb_ruby/lib/exrb/encoder.rb:145 | the length field uses Ruby's bit_length: the magnitude's byte count for non-negative values, and the byte count of -v - 1 for negative ones |
| EncoderAsWritten.WriteLargeBigAsWritten | exrb_ruby/lib/exrb/encoder.rb:143-147 | write_large_big as written leaves only the tag and the 4-byte length, then raises on the undefined `bit` |
| EncoderAsWritten.LargeBigPrefixUnreadable | exrb_ruby/lib/exrb/encoder.rb:143-147 | those five bytes never decode to a term |
| EncoderAsWritten.EncodeLargeBigAsWritten | exrb_ruby/lib/exrb/encoder.rb:143-152 | with `bit` read as `big`, the output has length + 7 bytes: the tag, the bit_length byte count, the sign byte, then len + 1 value bytes |
| EncoderAsWritten.LEBytesPad | exrb_ruby/lib/exrb/encoder.rb:148-151 | one extra loop turn past a value that fits len bytes writes a single 0 |
| EncoderAsWritten.LargeBigAsWrittenPadded | exrb_ruby/lib/exrb/encoder.rb:148-151 | for every non-negative value the output is the intended encoding followed by one stray 0 |
| EncoderAsWritten.LargeBigAsWrittenStrayByte | exrb_ruby/lib/exrb/decoder.rb:141-143 | that output reads back as the value and leaves the stray 0 in front of whatever follows |
| EncoderAsWritten.LargeBigAsWrittenMinusOne | exrb_ruby/lib/exrb/encoder.rb:143-152 | on Ruby 2.4 to 3.1, where every Integer reaches write_large_big, and with `bit` read as `big`: -1 is written with length 0 and the byte 255, and reads back as 0 followed by a stray 255; the intended form has length 1 and magnitude 1 |
| EncoderAsWritten.Utf8CharCount | exrb_ruby/lib/exrb/encoder.rb:133 | String#size of a UTF-8 string counts characters, never more than its bytes |
| EncoderAsWritten.CharCountIsLength | exrb_ruby/lib/exrb/encoder.rb:133 | the character count equals the byte count if and only if no byte is a UTF-8 continuation byte |
| EncoderAsWritten.EncodeBinaryAsWritten | exrb_ruby/lib/exrb/encoder.rb:131-135 | write_string writes tag 109, the character count as the length, then every byte |
| EncoderAsWritten.BinaryAsWrittenAgreement | exrb_ruby/lib/exrb/encoder.rb:213-216 | write_string raises if and only if some byte is a continuation byte, and it matches the intended BINARY_EXT if and only if it does not raise |
| EncoderAsWritten.BinaryAsWrittenTwoByteChar | exrb_ruby/lib/exrb/encoder.rb:131-135 | "é" (C3 A9) is written with length 1; it reads back as the binary C3 and leaves A9 as the start of the next term |
| Port.Frame | exrb_ruby/lib/exrb/port_connection.rb:19-21 | a frame is a 4-byte big-endian length equal to the payload's size, followed by the payload |
| Port.HandleMessage | exrb_ruby/lib/exrb/port_connection.rb:29-33 | only a tuple is handled, anything else fails; element 1 of the reply is the handler's result for element 1 of the message, every other element is unchanged, and the reply keeps the message's arity, or has 2 elements when the message had fewer |
| Port.Reply | exrb_ruby/lib/exrb/port_connection.rb:29-33 | the reply to a tuple holds the handler's result at element 1, keeps every other element, and has the message's arity, or 2 when it had fewer elements |
| Port.Run | exrb_ruby/lib/exrb/port_connection.rb:18-27 | every handled frame consumed at least 6 input bytes and added at least 6 output bytes |
| Port.RunAsWritten | exrb_ruby/lib/exrb/port_connection.rb:18-27 | as written, the loop never writes more bytes than it read |
| Port.HandlerInputs | exrb_ruby/lib/exrb/port_connection.rb:31 | the handler sees element 1 of each envelope, one call per envelope, in order |
| Port.FrameHeader | exrb_ruby/lib/exrb/port_connection.rb:19-21 | the header of a frame unpacks to its payload's length, and the payload and later bytes follow it |
| Port.RunFrame | exrb_ruby/lib/exrb/port_connection.rb:18-27 | a whole frame carrying an envelope yields one handler call and one reply frame, and the loop then goes on with the later bytes |
| Port.RunFrames | exrb_ruby/lib/exrb/port_connection.rb:18-27 | whole frames are handled in order, one handler call and one reply frame each; after them the loop behaves exactly as on the remaining bytes alone |
| Port.FramesCons | exrb_ruby/lib/exrb/port_connection.rb:18-27 | the request frames, reply frames and handler inputs of a stream split into its first envelope and the rest |
| Port.CleanEnd | exrb_ruby/lib/exrb/port_connection.rb:45-50 | when fewer than 4 bytes follow the whole frames, the loop ends cleanly, having made every handler call and written every reply |
| Port.ShortPayloadStops | exrb_ruby/lib/exrb/port_connection.rb:45-50 | a payload shorter than its header announces stops the loop with an error and writes nothing |
| Port.TruncatedPayload | exrb_ruby/lib/exrb/port_connection.rb:21-22 | after whole frames, a short payload keeps every earlier reply and then fails |
| Port.RunFrameAsWritten | exrb_ruby/lib/exrb/port_connection.rb:24-25 | as written, a whole frame calls the handler and writes back the received header and payload |
| Port.EchoAsWritten | exrb_ruby/lib/exrb/port_connection.rb:18-27 | as written, a stream of whole frames makes every handler call and echoes the request stream unchanged |
| Port.EchoIsNotReply | exrb_ruby/lib/exrb/port_connection.rb:23-25 | whenever the handler changes element 1, the echoed output differs from the reply the loop computed |

## Left out

- Floating point is not interpreted. Tag 70 is carried as its 8-byte IEEE
  pattern. Tag 99 is carried as its 31 text bytes and written back under 99.
  In Ruby, `String#scanf("%f")` returns an Array, so tag 99 decodes to a
  one-element Array holding the Float, and that Array is written back as a
  one-element LIST_EXT: `[108, 0, 0, 0, 1, 70, <8 bytes>, 106]`. The model
  does not parse the text, so `TextFloat` round-trips where Ruby would turn
  it into a list.
- `Encoder.EncodeTerm` has no postcondition of its own. What it promises is
  stated by the `RoundTrip` lemmas and by the contracts of the field
  writers.
- `Encoder.EncodeInt` states the low 32 bits only. `pack("l>")` truncates a
  wider Integer. The choice between `Int` and `BigInt` follows Ruby before
  2.4: a Fixnum goes to write_integer and a Bignum to write_large_big. In
  the model that choice is made by the term's kind, not by its size. On
  Ruby 2.4 to 3.1 both constants are Integer, the later `Bignum` key wins,
  and every Integer reaches write_large_big. From Ruby 3.2 `Fixnum` is
  undefined and loading the encoder fails. Neither of those is modelled.
- `Encoder.EncodeAtom` writes the atom's text bytes as they are. In Ruby,
  `encode("ASCII")` raises for text with characters outside ASCII; that
  error is not modelled.
- The custom encoder registry (`register_encoder`, `@@custom_encoders`), the
  "Unexpected term" error for a value of no known class, `prepare` (sync and
  binmode), the `$stderr` trace in `write_new_fun` and the `inspect` methods
  are left out. They are I/O or diagnostics.
- The carrier classes of `types.rb` define no readers. The encoder calls
  `size`, `values`, `node`, `value`, `list`, `tail` and `bits` on them.
  ENCODERS also names `NewReference` and `Binary`, which no file defines.
  The encoder is modelled as if each carrier exposed the fields the decoder
  gives it; those Ruby load and lookup errors are not modelled.
- `Terms.Elem` and `Terms.PutElem` take a natural-number index. Ruby's
  Array also accepts negative indices, counting from the end, and
  `put_elem` raises IndexError below -size. The code only uses indices 0
  and 1, so negative indices are not modelled.
- `Terms.Elem` has no contract of its own; its properties are stated
  through `Terms.PutElem` and `Port.HandleMessage`. `Tuple#to_a` is the
  `elems` field itself, and the other carrier classes are the constructors
  of `Term`, whose fields hold the constructor arguments verbatim.
- `DecoderAsWritten.HashStore`: keys are compared by structural equality.
  Ruby's Hash uses `eql?`, which for the carrier objects (which define no
  equality) is identity.
- `EncoderAsWritten.Utf8CharCount` counts characters of valid UTF-8 only.
  Ruby's count for invalid byte sequences is not modelled.
- The port's handler is a total function. A handler that raises, or a
  stream that fails, is not modelled.
- `Port.Run` and `Port.RunAsWritten` decode payloads with the intended
  `Decoder.Decode`, not with `DecoderAsWritten`. As written, the decoder
  cannot read the integers the encoder writes (see Findings). Bytes after
  the decoded term inside a payload are ignored, as in the source.
- `Port.Reply` requires a tuple. `Port.HandleMessage` covers the other
  case, where Ruby's `elem` is undefined and the call fails.
- `Port.Run`: the `ShortPayload` outcome stands for the error that
  `StringIO.new(nil)` raises after a short `read(len)`.

## Findings

| source | as written | input that shows it | evidently intended | confidence | as-written member | corrected member |
|---|---|---|---|---|---|---|
| exrb_ruby/lib/exrb/decoder.rb:13 | tag 98 maps to `read_ineteger`, which does not exist | any INTEGER_EXT, e.g. `[98, 0, 0, 0, 5]` | tag 98 reads with `read_integer` | high, not executed | DecoderAsWritten.EncodedIntegerUnreadableAsWritten | RoundTrip.IntRoundTrip |
| exrb_ruby/lib/exrb/decoder.rb:16-20 | ATOM_DECODERS lacks SMALL_ATOM_EXT (115), so atom-only fields reject it | a pid whose node is `[115, 1, 97]` | 115 is accepted wherever an atom is | medium, not executed | DecoderAsWritten.AtomDispatchAsWritten | RoundTrip.AtomFieldRoundTrip |
| exrb_ruby/lib/exrb/decoder.rb:179-187 | SPECIAL_ATOMS is keyed by Strings but three readers pass Symbols | `[119, 4] + "true"` reads as :true | the text `true` reads as true under every atom tag | high, not executed | DecoderAsWritten.SymbolKeyMissesAsWritten | RoundTrip.AtomRoundTrip |
| exrb_ruby/lib/exrb/decoder.rb:187 | the fallback to `string.to_sym` also catches the stored values false and nil, which are falsy | `[100, 0, 5] + "false"` reads as :false | the texts `false` and `nil` read as false and nil | high, not executed | DecoderAsWritten.FalseAndNilFallThroughAsWritten | RoundTrip.AtomRoundTrip |
| exrb_ruby/lib/exrb/decoder.rb:191-196 | the sign String is always truthy, and `raw` is the [acc, exp] pair, so `raw *= -1` raises | `[110, 1, 0, 5]` | sign byte 0 gives +5; the value is the accumulated sum | high, not executed | DecoderAsWritten.SmallBigAsWritten | RoundTrip.BigRoundTrip |
| exrb_ruby/lib/exrb/decoder.rb:147 | NEW_REFERENCE_EXT builds a Reference | any new reference written under tag 114 | a NewReference, written back under 114 | medium, not executed | DecoderAsWritten.NewReferenceAsWritten | RoundTrip.NewReferenceRoundTrip |
| exrb_ruby/lib/exrb/decoder.rb:156 | read_fun reads the pid with `read_pid`, which skips the PID_EXT tag that write_fun writes | any fun written by `write_fun` | the pid is read with its tag | high, not executed | DecoderAsWritten.FunPidAsWritten | RoundTrip.FunRoundTrip |
| exrb_ruby/lib/exrb/decoder.rb:112 | read_map stores the pairs into a Hash, so a repeated key keeps one pair | a map with two pairs of the same key | every pair that was written is kept | low, not executed | DecoderAsWritten.DuplicateKeyMergedAsWritten | RoundTrip.MapRoundTrip |
| exrb_ruby/lib/exrb/encoder.rb:147 | `bit` is undefined, so write_large_big raises after the tag and length | any Bignum | the sign of `big` | high, not executed | EncoderAsWritten.LargeBigPrefixUnreadable | RoundTrip.BigRoundTrip |
| exrb_ruby/lib/exrb/encoder.rb:145-151 | `(0..len)` writes len + 1 bytes of the two's-complement value, and negative lengths come from bit_length of -v - 1 | 2^64 (a Bignum on every Ruby before 3.2) gains a stray 0; on Ruby 2.4 to 3.1, where the `Bignum` key replaces `Fixnum` and every Integer reaches write_large_big, -1 is written as length 0 and byte 255 | len bytes of the magnitude | high, not executed | EncoderAsWritten.LargeBigAsWrittenMinusOne | RoundTrip.BigRoundTrip |
| exrb_ruby/lib/exrb/encoder.rb:133 | write_string writes String#size, a character count, as the byte length, and `write` then raises "data truncated" | the binary C3 A9 ("é") | the byte count | high, not executed | EncoderAsWritten.BinaryAsWrittenTwoByteChar | RoundTrip.BinaryRoundTrip |
| exrb_ruby/lib/exrb/port_connection.rb:23-25 | the loop computes the response, then writes back the request header and payload | any handler that changes element 1 | the encoded response in a new frame | high, not executed | Port.EchoIsNotReply | Port.RunFrames |
