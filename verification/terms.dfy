/** The values the codec produces and consumes (lib/exrb/types.rb plus the Ruby
    built-ins the decoder returns): one constructor per kind of external term. */
module Terms {
  import opened Bytes

  /** A Ruby Symbol, or one of the three values the atoms `true`, `false` and
      `nil` stand for. */
  datatype AtomValue = Named(text: bytes) | Boolean(b: bool) | Nil

  /** The payload of a Pid, Port or Reference: a node atom and identity bytes
      that are carried and never interpreted. */
  datatype Opaque = Opaque(node: AtomValue, id: bytes)

  datatype Term =
    | Int(i: int)                          // Ruby Integer from tag 97 or 98
    | BigInt(v: int)                       // tags 110 and 111
    | Float(pattern: bytes)                // tag 70: the 8-byte IEEE-754 pattern
    | TextFloat(text: bytes)               // tag 99: the 31 bytes of text, unparsed
    | Atom(a: AtomValue)
    | Pid(o: Opaque)
    | Port(o: Opaque)
    | Reference(o: Opaque)
    | NewReference(o: Opaque)
    | Tuple(elems: seq<Term>)
    | Map(pairs: seq<Pair>)                // insertion order
    | ErlangNil                            // tag 106 outside a list
    | List(elems: seq<Term>)               // Ruby Array, nil-terminated on the wire
    | ImproperList(elems: seq<Term>, tail: Term)
    | Binary(data: bytes)
    | BitBinary(bits: byte, data: bytes)
    | Fun(pid: Opaque, mod: AtomValue, index: int, uniq: int, free: seq<Term>)
    | NewFun(size: nat, data: bytes)
    | Export(mod: AtomValue, fun: AtomValue, arity: int)

  datatype Pair = Pair(key: Term, value: Term)

  const TrueText: bytes := [116, 114, 117, 101]
  const FalseText: bytes := [102, 97, 108, 115, 101]
  const NilText: bytes := [110, 105, 108]

  /** Tuple#elem: the stored value at idx, or nil past the end (Ruby Array#[]). */
  function Elem(t: Term, idx: nat): Term
    requires t.Tuple?
  {
    if idx < |t.elems| then t.elems[idx] else Atom(Nil)
  }

  /** Tuple#put_elem: a new tuple whose element idx is v. Past the end, Ruby's
      Array#[]= pads the gap with nil. The argument is a value, so it is
      left as it was. */
  function PutElem(t: Term, idx: nat, v: Term): (r: Term)
    requires t.Tuple?
    ensures r.Tuple?
    ensures Elem(r, idx) == v
    ensures forall j: nat :: j != idx ==> Elem(r, j) == Elem(t, j)
    ensures idx < |t.elems| ==> |r.elems| == |t.elems|
    ensures idx >= |t.elems| ==> |r.elems| == idx + 1
  {
    var es := t.elems;
    if idx < |es| then Tuple(es[idx := v])
    else Tuple(es + seq(idx - |es|, _ => Atom(Nil)) + [v])
  }

  /** Atom text as written back by the encoder: `true`, `false` and `nil` for
      the special values, the symbol's own text otherwise. */
  function AtomText(a: AtomValue): bytes {
    match a
    case Named(text) => text
    case Boolean(b) => if b then TrueText else FalseText
    case Nil => NilText
  }

  /** decode_atom: the special-atom mapping of SPECIAL_ATOMS. */
  function AtomFromText(text: bytes): (a: AtomValue)
    ensures AtomText(a) == text
    ensures a.Boolean? <==> text == TrueText || text == FalseText
    ensures a.Nil? <==> text == NilText
  {
    if text == TrueText then Boolean(true)
    else if text == FalseText then Boolean(false)
    else if text == NilText then Nil
    else Named(text)
  }

  /** Atoms whose text fits ATOM_EXT's 2-byte length and that are not spelled
      like one of the special values. */
  predicate CanonicalAtom(a: AtomValue) {
    match a
    case Named(text) => |text| < TWO16 && text != TrueText && text != FalseText && text != NilText
    case _ => true
  }

  predicate CanonicalOpaque(o: Opaque, idLen: nat) {
    CanonicalAtom(o.node) && |o.id| == idLen
  }

  /** The normal form: the terms the decoder produces, which are exactly the
      terms the encoder writes without loss (every length fits its field,
      integers fit 32 bits, an improper tail is not nil, ...). */
  predicate Canonical(t: Term)
    decreases t
  {
    match t
    case Int(i) => IsInt32(i)
    case BigInt(v) => ByteLen(Abs(v)) < TWO32
    case Float(pattern) => |pattern| == 8
    case TextFloat(text) => |text| == 31
    case Atom(a) => CanonicalAtom(a)
    case Pid(o) => CanonicalOpaque(o, 9)
    case Port(o) => CanonicalOpaque(o, 5)
    case Reference(o) => CanonicalOpaque(o, 5)
    case NewReference(o) => CanonicalAtom(o.node) && |o.id| % 4 == 1 && |o.id| / 4 < TWO16
    case Tuple(es) => |es| < TWO32 && forall i :: 0 <= i < |es| ==> Canonical(es[i])
    case Map(ps) => |ps| < TWO32 && forall i :: 0 <= i < |ps| ==> CanonicalPair(ps[i])
    case ErlangNil => true
    case List(es) => |es| < TWO32 && forall i :: 0 <= i < |es| ==> Canonical(es[i])
    case ImproperList(es, tail) =>
      && |es| < TWO32 && (forall i :: 0 <= i < |es| ==> Canonical(es[i]))
      && Canonical(tail) && tail != ErlangNil
    case Binary(data) => |data| < TWO32
    case BitBinary(_, data) => |data| < TWO32
    case Fun(pid, mod, index, uniq, free) =>
      && CanonicalOpaque(pid, 9) && CanonicalAtom(mod) && IsInt32(index) && IsInt32(uniq)
      && |free| < TWO32 && forall i :: 0 <= i < |free| ==> Canonical(free[i])
    case NewFun(size, data) => 4 <= size < TWO32 && |data| == size - 4
    case Export(mod, fun, arity) => CanonicalAtom(mod) && CanonicalAtom(fun) && IsInt32(arity)
  }

  predicate CanonicalPair(p: Pair)
    decreases p
  {
    Canonical(p.key) && Canonical(p.value)
  }
}
