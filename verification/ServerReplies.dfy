// The acknowledgements one incoming event produces (server/socket.go).
module ServerReplies {
  import opened Bytes
  import opened SchemaTypes
  import opened Frame
  import opened SchemaSync
  import opened Middleware

  // What the handler with a given number acknowledges with, given the payload it receives.
  type Answers = (nat, Val) -> seq<Val>

  // A frame whose payload uses the default codec; nothing is sent if the payload cannot be packed.
  ghost function DefaultFrame(p: Platform, header: Header, payload: Val): seq<seq<byte>> {
    match PayloadBytes(p, map[], header.event, payload)
    case Some(b) => [PrintFrame(Packet(header, b))]
    case None => []
  }

  function Message(text: GoString): Val {
    Map(map[Ascii("message") := Str(text)])
  }

  function ErrorHeader(nsp: GoString, ackID: nat): Header {
    Header(FRAME_ACK, nsp, Ascii("error"), ackID)
  }

  // An error goes out as a map that holds its text, if it can be packed.
  lemma ErrorFrame(p: Platform, nsp: GoString, ackID: nat, text: GoString)
    ensures var packed := p.marshal(Map(map[Ascii("message") := Str(text)]));
            DefaultFrame(p, ErrorHeader(nsp, ackID), Message(text)) == if packed.None? then [] else
              [PrintFrame(Packet(Header(FRAME_ACK, nsp, Ascii("error"), ackID), p.deflate(packed.value)))]
  {}

  // The handler may acknowledge any number of times.
  ghost function Answered(p: Platform, header: Header, responses: seq<Val>): seq<seq<byte>> {
    if responses == [] then [] else
      Answered(p, header, responses[..|responses| - 1]) + DefaultFrame(p, header, responses[|responses| - 1])
  }

  // One frame for each answer, in order, if all of them can be packed: nothing for nil, and for any
  // other deflated MessagePack, which no schema of the event changes.
  lemma {:induction false} AnswersAre(p: Platform, header: Header, responses: seq<Val>, i: nat)
    requires i < |responses| && forall r <- responses :: r == Nil || p.marshal(r).Some?
    ensures |Answered(p, header, responses)| == |responses|
    ensures var r := responses[i];
            Answered(p, header, responses)[i] ==
              PrintFrame(Packet(header, if r == Nil then [] else p.deflate(p.marshal(r).value)))
  {
    var n := |responses| - 1;
    hide PrintFrame, PayloadBytes;
    AnswerIs(p, header, responses[n]);
    if n > 0 { AnswersAre(p, header, responses[..n], if i < n then i else 0); }
  }

  lemma AnswerIs(p: Platform, header: Header, r: Val)
    requires r == Nil || p.marshal(r).Some?
    ensures DefaultFrame(p, header, r) == [PrintFrame(Packet(header, if r == Nil then [] else p.deflate(p.marshal(r).value)))]
  {
    hide PrintFrame;
  }

  // What a request under an id is sent back: the answers of the handler of its name, under that id.
  lemma ReplyIs(p: Platform, q: Request, e: Event)
    requires q.ackID > 0
    ensures Replies(p, q, [Completed(e)]) ==
              if e.name in q.listeners
              then Answered(p, Header(FRAME_ACK, q.nsp, e.name, q.ackID), q.answers(q.listeners[e.name], e.payload)) else []
  {
    ReplyOne(p, q, Completed(e));
  }

  // Who is asking: the namespace of the socket, its handlers, and the id the request carries.
  datatype Request = Request(nsp: GoString, listeners: map<GoString, nat>, answers: Answers, ackID: nat)

  ghost function Reply(p: Platform, q: Request, o: Outcome<Event>): seq<seq<byte>> {
    if q.ackID == 0 then [] else
      match o
      case Completed(e) =>
        if e.name in q.listeners then
          Answered(p, Header(FRAME_ACK, q.nsp, e.name, q.ackID), q.answers(q.listeners[e.name], e.payload))
        else []
      case Refused(m) => DefaultFrame(p, ErrorHeader(q.nsp, q.ackID), Message(m))
      case Held => []
  }

  ghost function Replies(p: Platform, q: Request, outcomes: seq<Outcome<Event>>): seq<seq<byte>> {
    if outcomes == [] then [] else
      Replies(p, q, outcomes[..|outcomes| - 1]) + Reply(p, q, outcomes[|outcomes| - 1])
  }

  lemma {:induction false} RepliesConcat(p: Platform, q: Request, a: seq<Outcome<Event>>, b: seq<Outcome<Event>>)
    ensures Replies(p, q, a + b) == Replies(p, q, a) + Replies(p, q, b)
  {
    if b == [] {
      assert a + b == a;
    } else {
      assert (a + b)[..|a + b| - 1] == a + b[..|b| - 1];
      RepliesConcat(p, q, a, b[..|b| - 1]);
      Assoc(Replies(p, q, a), Replies(p, q, b[..|b| - 1]), Reply(p, q, b[|b| - 1]));
    }
  }

  lemma NothingSent(p: Platform, listeners: map<GoString, nat>, q: Request)
    ensures Deliveries(listeners, []) == [] && Replies(p, q, []) == []
  {}

  lemma ReplyOne(p: Platform, q: Request, o: Outcome<Event>)
    ensures Replies(p, q, [o]) == Reply(p, q, o)
  {
    assert [o][..0] == [];
  }

  // What one call of next causes to be sent.
  ghost function CallReplies(p: Platform, q: Request, rest: seq<Link<Event>>, call: Call<Event>): seq<seq<byte>> {
    if call.err.Some? then Reply(p, q, Refused(call.err.value)) else Replies(p, q, Outcomes(rest, call.packet))
  }

  lemma NextReplies(p: Platform, q: Request, rest: seq<Link<Event>>, calls: seq<Call<Event>>, k: nat)
    requires k < |calls|
    ensures Replies(p, q, OfCalls(rest, calls[..k + 1])) ==
              Replies(p, q, OfCalls(rest, calls[..k])) +
              CallReplies(p, q, rest, calls[k])
  {
    var before := OfCalls(rest, calls[..k]);
    assert calls[..k + 1][..k] == calls[..k];
    if calls[k].err.Some? {
      var o: Outcome<Event> := Refused(calls[k].err.value);
      RepliesConcat(p, q, before, [o]);
      ReplyOne(p, q, o);
    } else {
      RepliesConcat(p, q, before, Outcomes(rest, calls[k].packet));
    }
  }

  // ---------------------------------------------------------------- what is sent back

  // A rejected event is answered by one error frame exactly when it asked for an acknowledgement
  // and its message can be packed, and that frame carries the id of the request.
  lemma RejectedOnce(p: Platform, q: Request, links: seq<Link<Event>>, e: Event)
    requires ExactlyOnce(links) && Fold(links, Completed(e)).Refused?
    ensures var o := Fold(links, Completed(e));
            var sent := Replies(p, q, Outcomes(links, e));
            && |sent| <= 1
            && var packed := p.marshal(Map(map[Ascii("message") := Str(o.message)]));
            && (|sent| == 1 <==> q.ackID > 0 && packed.Some?)
            && (|sent| == 1 && q.nsp != [] && |q.nsp| <= 0xFF && q.ackID < TWO_32 ==>
                  ParseFrame(sent[0]) ==
                    Some(Packet(Header(FRAME_ACK, q.nsp, Ascii("error"), q.ackID), p.deflate(packed.value))))
  {
    OneOutcome(links, e);
    var o := Fold(links, Completed(e));
    ReplyOne(p, q, o);
    ErrorFrame(p, q.nsp, q.ackID, o.message);
    hide Fold, Outcomes, Replies, PrintFrame, ParseFrame, DefaultFrame, Message, ErrorHeader;
    var packed := p.marshal(Map(map[Ascii("message") := Str(o.message)]));
    if q.ackID > 0 && packed.Some? {
      var f := Packet(Header(FRAME_ACK, q.nsp, Ascii("error"), q.ackID), p.deflate(packed.value));
      assert Replies(p, q, Outcomes(links, e)) == [PrintFrame(f)];
      if q.ackID < TWO_32 { FrameRoundTrip(f); }
    }
  }

  // Every frame sent back is an acknowledgement on the socket's namespace with the request's id.
  ghost predicate Echoes(q: Request, sent: seq<seq<byte>>) {
    forall raw <- sent :: Echo(q, raw)
  }

  ghost predicate Echo(q: Request, raw: seq<byte>) {
    var f := ParseFrame(raw);
    f.Some? && f.value.header.typ == FRAME_ACK && f.value.header.nsp == q.nsp && f.value.header.ackID == q.ackID > 0
  }

  ghost predicate Sized(q: Request) {
    q.nsp != [] && |q.nsp| <= 0xFF && 0 < q.ackID < TWO_32 && forall n <- q.listeners :: |n| <= 0xFF
  }

  lemma DefaultEchoes(p: Platform, q: Request, event: GoString, payload: Val)
    requires Sized(q) && |event| <= 0xFF
    ensures Echoes(q, DefaultFrame(p, Header(FRAME_ACK, q.nsp, event, q.ackID), payload))
  {
    var header := Header(FRAME_ACK, q.nsp, event, q.ackID);
    match PayloadBytes(p, map[], event, payload)
    case Some(b) => FrameRoundTrip(Packet(header, b));
    case None =>
  }

  lemma EchoesConcat(q: Request, a: seq<seq<byte>>, b: seq<seq<byte>>)
    requires Echoes(q, a) && Echoes(q, b)
    ensures Echoes(q, a + b)
  {}

  lemma {:induction false} AnswersEcho(p: Platform, q: Request, event: GoString, responses: seq<Val>)
    requires Sized(q) && |event| <= 0xFF
    ensures Echoes(q, Answered(p, Header(FRAME_ACK, q.nsp, event, q.ackID), responses))
  {
    if responses != [] {
      var n := |responses| - 1;
      var header := Header(FRAME_ACK, q.nsp, event, q.ackID);
      AnswersEcho(p, q, event, responses[..n]);
      DefaultEchoes(p, q, event, responses[n]);
      EchoesConcat(q, Answered(p, header, responses[..n]), DefaultFrame(p, header, responses[n]));
    }
  }

  lemma ReplyEchoes(p: Platform, q: Request, o: Outcome<Event>)
    requires Sized(q)
    ensures Echoes(q, Reply(p, q, o))
  {
    match o
    case Completed(e) =>
      if e.name in q.listeners { AnswersEcho(p, q, e.name, q.answers(q.listeners[e.name], e.payload)); }
    case Refused(m) => DefaultEchoes(p, q, Ascii("error"), Message(m));
    case Held =>
  }

  lemma {:induction false} RepliesEcho(p: Platform, q: Request, outcomes: seq<Outcome<Event>>)
    requires Sized(q)
    ensures Echoes(q, Replies(p, q, outcomes))
  {
    if outcomes != [] {
      var n := |outcomes| - 1;
      RepliesEcho(p, q, outcomes[..n]);
      ReplyEchoes(p, q, outcomes[n]);
      EchoesConcat(q, Replies(p, q, outcomes[..n]), Reply(p, q, outcomes[n]));
    }
  }

  // Nothing at all is sent back for an event that did not ask.
  lemma {:induction false} SilentWithoutId(p: Platform, q: Request, outcomes: seq<Outcome<Event>>)
    requires q.ackID == 0
    ensures Replies(p, q, outcomes) == []
  {
    if outcomes != [] { SilentWithoutId(p, q, outcomes[..|outcomes| - 1]); }
  }
}
