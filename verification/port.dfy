/** lib/exrb/port_connection.rb: Erlang's {packet, 4} port protocol. Each
    frame is a 4-byte big-endian length and that many payload bytes; the
    payload is one encoded envelope tuple, whose element 1 goes to the
    handler and is replaced by the handler's result. The input stream is a
    byte sequence, the output an appended byte sequence, and the handler a
    function the caller supplies. */
module Port {
  import opened Bytes
  import opened Results
  import opened Terms
  import opened Encoder
  import opened Decoder
  import opened RoundTrip

  /** Why a run stopped before the input ran out. */
  datatype FrameError =
    | ShortPayload(announced: nat, available: nat)   // read(len) came back short: StringIO.new(nil) raises
    | BadPayload(cause: DecodeError)                  // the decoder raised
    | NotATuple(message: Term)                        // message.elem is undefined

  datatype Outcome = Closed | Failed(error: FrameError)

  /** What a run did: the handler's inputs in call order, every byte written,
      and how the loop ended. */
  datatype Session = Session(inputs: seq<Term>, output: bytes, outcome: Outcome)

  /** One {packet, 4} frame. */
  function Frame(payload: bytes): (r: bytes)
    ensures |r| == 4 + |payload|
    ensures BE(r[..4]) == |payload| % TWO32
    ensures r[4..] == payload
  {
    var r := U32(|payload|) + payload;
    assert r[..4] == U32(|payload|);
    r
  }

  /** handle_message: the envelope with element 1 replaced by the handler's
      result for it; Tuple#elem past the end is nil. Anything but a tuple
      has no elem, so the call fails. */
  function HandleMessage(handler: Term -> Term, message: Term): (r: Result<Term, FrameError>)
    ensures r.Success? <==> message.Tuple?
    ensures r.Failure? ==> r.error == NotATuple(message)
    ensures r.Success? ==> r.value.Tuple? && Elem(r.value, 1) == handler(Elem(message, 1))
    ensures r.Success? ==> forall j: nat :: j != 1 ==> Elem(r.value, j) == Elem(message, j)
    ensures r.Success? ==> |r.value.elems| == if |message.elems| >= 2 then |message.elems| else 2
  {
    if message.Tuple? then Success(Reply(handler, message))
    else Failure(NotATuple(message))
  }

  /** The envelope handle_message answers a tuple with: the handler's result
      in place of element 1, every other element kept, and a 0- or
      1-element tuple padded to two. */
  function Reply(handler: Term -> Term, message: Term): (r: Term)
    requires message.Tuple?
    ensures r.Tuple? && Elem(r, 1) == handler(Elem(message, 1))
    ensures forall j: nat :: j != 1 ==> Elem(r, j) == Elem(message, j)
    ensures |r.elems| == if |message.elems| >= 2 then |message.elems| else 2
  {
    PutElem(message, 1, handler(Elem(message, 1)))
  }

  /** The loop with the response written back, which the code evidently
      intends: a header shorter than 4 bytes ends the run cleanly; a payload
      shorter than its header announces, a payload that does not decode and
      a message that is not a tuple end it with an error, keeping whatever
      earlier frames wrote. Bytes after the decoded term inside a payload
      are ignored, as the decoder leaves them unread. */
  function Run(handler: Term -> Term, input: bytes): (r: Session)
    decreases |input|
    ensures 6 * |r.inputs| <= |input|
    ensures |r.output| >= 6 * |r.inputs|
  {
    if |input| < 4 then Session([], [], Closed)
    else
      var len := BE(input[..4]);
      var body := input[4..];
      if |body| < len then Session([], [], Failed(ShortPayload(len, |body|)))
      else
        match Decode(body[..len])
        case Failure(e) => Session([], [], Failed(BadPayload(e)))
        case Success(p) =>
          match HandleMessage(handler, p.value)
          case Failure(e) => Session([], [], Failed(e))
          case Success(response) =>
            var next := Run(handler, body[len..]);
            Session([Elem(p.value, 1)] + next.inputs, Frame(Encode(response)) + next.output, next.outcome)
  }

  /** PortConnection#loop as written: the same steps, but the received
      header and payload are written back verbatim and the response is
      dropped. */
  function RunAsWritten(handler: Term -> Term, input: bytes): (r: Session)
    decreases |input|
    ensures 6 * |r.inputs| <= |input|
    ensures |r.output| <= |input|
  {
    if |input| < 4 then Session([], [], Closed)
    else
      var len := BE(input[..4]);
      var body := input[4..];
      if |body| < len then Session([], [], Failed(ShortPayload(len, |body|)))
      else
        match Decode(body[..len])
        case Failure(e) => Session([], [], Failed(BadPayload(e)))
        case Success(p) =>
          match HandleMessage(handler, p.value)
          case Failure(e) => Session([], [], Failed(e))
          case Success(_) =>
            var next := RunAsWritten(handler, body[len..]);
            Session([Elem(p.value, 1)] + next.inputs, input[..4] + body[..len] + next.output, next.outcome)
  }

  // ---- Streams of whole frames ----

  /** The elements of an envelope tuple that travels in one frame: the tuple
      is in normal form and its encoding fits the 4-byte length. */
  predicate Envelope(es: seq<Term>) {
    Canonical(Tuple(es)) && |Encode(Tuple(es))| < TWO32
  }

  /** The frames carrying the envelopes, one after another. */
  function RequestFrames(ms: seq<seq<Term>>): bytes {
    if ms == [] then [] else Frame(Encode(Tuple(ms[0]))) + RequestFrames(ms[1..])
  }

  /** The frames carrying the replies to the envelopes, in order. */
  function ReplyFrames(handler: Term -> Term, ms: seq<seq<Term>>): bytes {
    if ms == [] then [] else Frame(Encode(Reply(handler, Tuple(ms[0])))) + ReplyFrames(handler, ms[1..])
  }

  /** Element 1 of each envelope, in order. */
  function HandlerInputs(ms: seq<seq<Term>>): (r: seq<Term>)
    ensures |r| == |ms|
    ensures forall i :: 0 <= i < |ms| ==> r[i] == Elem(Tuple(ms[i]), 1)
  {
    if ms == [] then [] else [Elem(Tuple(ms[0]), 1)] + HandlerInputs(ms[1..])
  }

  /** The length field of a frame reads back as the payload's length. */
  lemma {:induction false} FrameHeader(payload: bytes, after: bytes)
    requires |payload| < TWO32
    ensures (Frame(payload) + after)[..4] == U32(|payload|)
    ensures BE((Frame(payload) + after)[..4]) == |payload|
    ensures (Frame(payload) + after)[4..] == payload + after
  {
    assert (Frame(payload) + after)[..4] == Frame(payload)[..4];
  }

  /** One frame carrying an envelope: the handler sees element 1, the reply
      goes out in one frame, and the run goes on with the bytes after it. */
  lemma {:induction false} RunFrame(handler: Term -> Term, es: seq<Term>, after: bytes)
    requires Envelope(es)
    ensures Run(handler, Frame(Encode(Tuple(es))) + after)
            == var next := Run(handler, after);
               Session([Elem(Tuple(es), 1)] + next.inputs, Frame(Encode(Reply(handler, Tuple(es)))) + next.output, next.outcome)
  {
    var p := Encode(Tuple(es));
    var s := Frame(p) + after;
    FrameHeader(p, after);
    var body := s[4..];
    assert body[..|p|] == p;
    assert body[|p|..] == after;
    RoundTrip.RoundTrip(Tuple(es), []);
    assert p + [] == p;
  }

  /** Whole frames followed by any further bytes: the frames are handled in
      order, one handler call and one reply frame each, and then the run
      continues exactly as it would on the further bytes alone. */
  lemma {:induction false} RunFrames(handler: Term -> Term, ms: seq<seq<Term>>, tail: bytes)
    requires forall i :: 0 <= i < |ms| ==> Envelope(ms[i])
    ensures Run(handler, RequestFrames(ms) + tail)
            == var next := Run(handler, tail);
               Session(HandlerInputs(ms) + next.inputs, ReplyFrames(handler, ms) + next.output, next.outcome)
    decreases ms
  {
    if ms == [] {
      EmptyConcat(tail);
      EmptyConcat(Run(handler, tail).inputs);
      EmptyConcat(Run(handler, tail).output);
    } else {
      RunFrames(handler, ms[1..], tail);
      Uncons(ms);
      RunFramesCons(handler, ms[0], ms[1..], tail);
    }
  }

  // Sequence algebra the solver does not find unaided in these contexts.

  lemma {:induction false} EmptyConcat<T>(a: seq<T>)
    ensures [] + a == a
  {
  }

  lemma {:induction false} Uncons<T>(a: seq<T>)
    requires a != []
    ensures a == [a[0]] + a[1..]
  {
  }

  /** Each stream of a run grows by one frame at the front. */
  lemma {:induction false} FramesCons(handler: Term -> Term, m: seq<Term>, rest: seq<seq<Term>>)
    ensures RequestFrames([m] + rest) == Frame(Encode(Tuple(m))) + RequestFrames(rest)
    ensures HandlerInputs([m] + rest) == [Elem(Tuple(m), 1)] + HandlerInputs(rest)
    ensures ReplyFrames(handler, [m] + rest) == Frame(Encode(Reply(handler, Tuple(m)))) + ReplyFrames(handler, rest)
  {
    assert ([m] + rest)[0] == m;
    assert ([m] + rest)[1..] == rest;
  }

  /** The inductive step of RunFrames: the first frame, then the rest. */
  lemma {:induction false} RunFramesCons(handler: Term -> Term, m: seq<Term>, rest: seq<seq<Term>>, tail: bytes)
    requires Envelope(m)
    requires Run(handler, RequestFrames(rest) + tail)
             == var next := Run(handler, tail);
                Session(HandlerInputs(rest) + next.inputs, ReplyFrames(handler, rest) + next.output, next.outcome)
    ensures Run(handler, RequestFrames([m] + rest) + tail)
            == var next := Run(handler, tail);
               Session(HandlerInputs([m] + rest) + next.inputs, ReplyFrames(handler, [m] + rest) + next.output, next.outcome)
  {
    FramesCons(handler, m, rest);
    var after := RequestFrames(rest) + tail;
    Assoc3(Frame(Encode(Tuple(m))), RequestFrames(rest), tail);
    RunFrame(handler, m, after);
    SessionPrepend(Elem(Tuple(m), 1), Frame(Encode(Reply(handler, Tuple(m)))), HandlerInputs(rest), ReplyFrames(handler, rest),
                   Run(handler, after), Run(handler, tail), Run(handler, RequestFrames([m] + rest) + tail));
  }

  /** One more frame in front of a run whose output is known. */
  lemma {:induction false} SessionPrepend(e: Term, f: bytes, ins: seq<Term>, outs: bytes, inner: Session, next: Session, whole: Session)
    requires inner == Session(ins + next.inputs, outs + next.output, next.outcome)
    requires whole == Session([e] + inner.inputs, f + inner.output, inner.outcome)
    ensures whole == Session(([e] + ins) + next.inputs, (f + outs) + next.output, next.outcome)
  {
    assert [e] + (ins + next.inputs) == ([e] + ins) + next.inputs;
    assert f + (outs + next.output) == (f + outs) + next.output;
  }

  /** The short-read rule: whole frames followed by fewer than four bytes
      end the run cleanly, the leftover bytes unread. */
  lemma {:induction false} CleanEnd(handler: Term -> Term, ms: seq<seq<Term>>, tail: bytes)
    requires forall i :: 0 <= i < |ms| ==> Envelope(ms[i])
    requires |tail| < 4
    ensures Run(handler, RequestFrames(ms) + tail) == Session(HandlerInputs(ms), ReplyFrames(handler, ms), Closed)
  {
    RunFrames(handler, ms, tail);
    assert HandlerInputs(ms) + [] == HandlerInputs(ms);
    assert ReplyFrames(handler, ms) + [] == ReplyFrames(handler, ms);
  }

  /** A header that announces more bytes than remain ends the run with
      ShortPayload and nothing written. */
  lemma {:induction false} ShortPayloadStops(handler: Term -> Term, n: nat, partial: bytes)
    requires |partial| < n < TWO32
    ensures Run(handler, U32(n) + partial) == Session([], [], Failed(ShortPayload(n, |partial|)))
  {
    var s := U32(n) + partial;
    assert s[..4] == U32(n);
    assert s[4..] == partial;
  }

  /** Frames before a truncated one are answered, then the run fails. */
  lemma {:induction false} TruncatedPayload(handler: Term -> Term, ms: seq<seq<Term>>, n: nat, partial: bytes)
    requires forall i :: 0 <= i < |ms| ==> Envelope(ms[i])
    requires |partial| < n < TWO32
    ensures Run(handler, RequestFrames(ms) + (U32(n) + partial))
            == Session(HandlerInputs(ms), ReplyFrames(handler, ms), Failed(ShortPayload(n, |partial|)))
  {
    RunFrames(handler, ms, U32(n) + partial);
    ShortPayloadStops(handler, n, partial);
    assert HandlerInputs(ms) + [] == HandlerInputs(ms);
    assert ReplyFrames(handler, ms) + [] == ReplyFrames(handler, ms);
  }

  // ---- The loop as written echoes its input ----

  lemma {:induction false} RunFrameAsWritten(handler: Term -> Term, es: seq<Term>, after: bytes)
    requires Envelope(es)
    ensures RunAsWritten(handler, Frame(Encode(Tuple(es))) + after)
            == var next := RunAsWritten(handler, after);
               Session([Elem(Tuple(es), 1)] + next.inputs, Frame(Encode(Tuple(es))) + next.output, next.outcome)
  {
    var p := Encode(Tuple(es));
    var s := Frame(p) + after;
    FrameHeader(p, after);
    var body := s[4..];
    assert body[..|p|] == p;
    assert body[|p|..] == after;
    assert s[..4] + body[..|p|] == Frame(p);
    RoundTrip.RoundTrip(Tuple(es), []);
    assert p + [] == p;
  }

  /** As written, a stream of whole frames is copied to the output byte for
      byte, whatever the handler returns. */
  lemma {:induction false} EchoAsWritten(handler: Term -> Term, ms: seq<seq<Term>>, tail: bytes)
    requires forall i :: 0 <= i < |ms| ==> Envelope(ms[i])
    requires |tail| < 4
    ensures RunAsWritten(handler, RequestFrames(ms) + tail) == Session(HandlerInputs(ms), RequestFrames(ms), Closed)
    decreases ms
  {
    if ms == [] {
      assert RequestFrames(ms) + tail == tail;
    } else {
      var after := RequestFrames(ms[1..]) + tail;
      assert RequestFrames(ms) + tail == Frame(Encode(Tuple(ms[0]))) + after;
      RunFrameAsWritten(handler, ms[0], after);
      EchoAsWritten(handler, ms[1..], tail);
    }
  }

  /** Whenever the handler changes element 1, the echo is not the reply:
      the as-written output differs from the intended one. */
  lemma {:induction false} EchoIsNotReply(handler: Term -> Term, es: seq<Term>)
    requires Envelope(es) && Canonical(Reply(handler, Tuple(es)))
    requires handler(Elem(Tuple(es), 1)) != Elem(Tuple(es), 1)
    ensures RunAsWritten(handler, Frame(Encode(Tuple(es)))).output != Run(handler, Frame(Encode(Tuple(es)))).output
  {
    var m := Tuple(es);
    var reply := Reply(handler, m);
    RunFrameAsWritten(handler, es, []);
    RunFrame(handler, es, []);
    assert Frame(Encode(m)) + [] == Frame(Encode(m));
    assert Frame(Encode(m)) + RunAsWritten(handler, []).output == Frame(Encode(m));
    assert Frame(Encode(reply)) + Run(handler, []).output == Frame(Encode(reply));
    if Frame(Encode(m)) == Frame(Encode(reply)) {
      assert Encode(m) == Encode(reply) by {
        assert Encode(m) == Frame(Encode(m))[4..];
        assert Encode(reply) == Frame(Encode(reply))[4..];
      }
      RoundTrip.RoundTrip(m, []);
      RoundTrip.RoundTrip(reply, []);
      assert false;
    }
  }
}
