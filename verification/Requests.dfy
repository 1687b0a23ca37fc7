// A request and its answer: a client emits with a callback, the server's middleware and handler
// deal with the event, and what they send back finds the callback that waits for it.
module Requests {
  import opened Bytes
  import opened SchemaTypes
  import Positional
  import opened PositionalLaws
  import opened Frame
  import opened SchemaTables
  import opened SchemaSync
  import opened Middleware
  import opened ServerReplies
  import opened ServerObjects
  import opened EndToEnd
  import A = AckTable

  // What the server reads of a payload the client emits, if the client can pack it.
  ghost function Transfer(p: Platform, known: Known, schemas: Bucket, nsp: GoString, event: GoString, v: Val, spare: seq<byte>): Option<Positional.Outcome<Val>> {
    match PayloadBytes(p, BucketOf(known, SchemaKey(nsp)), event, v)
    case Some(b) => Some(PayloadValue(p, schemas, event, b, spare))
    case None => None
  }

  // With one definition for the event on both sides that is the canonical form.
  lemma TransferBySchema(p: Platform, known: Known, schemas: Bucket, nsp: GoString, event: GoString, v: Val, spare: seq<byte>)
    requires Unpacks(p) && event in schemas && Knows(known, nsp, event, schemas[event].definition)
    requires Sendable(p, schemas[event].definition, v)
    ensures var r := Transfer(p, known, schemas, nsp, event, v, spare);
            r.Some? && r.value.Done? && r.value.value == Seen(p, schemas[event].definition, v)
  {
    PayloadDelivered(p, BucketOf(known, SchemaKey(nsp)), schemas, event, v, spare);
  }

  // Without a schema on either side it is what generic MessagePack gives back.
  lemma TransferByDefault(p: Platform, known: Known, schemas: Bucket, nsp: GoString, event: GoString, v: Val, spare: seq<byte>)
    requires Inflates(p) && event !in schemas && event !in BucketOf(known, SchemaKey(nsp)) && Preserved(p, v)
    ensures var r := Transfer(p, known, schemas, nsp, event, v, spare);
            r.Some? && r.value.Done? && r.value.value == v
  {
    if v != Nil { DeflateNotEmpty(p, p.marshal(v).value); }
  }

  // ---------------------------------------------------------------- the answers

  // How the client takes a frame: as an answer that decodes or does not.
  ghost function Taken(p: Platform, known: Known, raw: seq<byte>, spare: seq<byte>): A.Action {
    A.Incoming(raw, EventValue(p, known, raw, spare).Done?)
  }

  // What arrives under the request's id is what was sent for the request, all of it, in any order
  // and among anything else. A frame that makes the decoder panic ends the client instead.
  ghost predicate Arrived(p: Platform, known: Known, sent: seq<seq<byte>>, id: nat, rest: seq<A.Action>, spare: seq<byte>) {
    && (forall a <- rest :: a.Answer? && a.id == id ==> exists raw :: raw in sent && a == Taken(p, known, raw, spare))
    && forall raw <- sent :: EventValue(p, known, raw, spare).Panicked? || Taken(p, known, raw, spare) in rest
  }

  // Then the callback of the request is called exactly when one of the frames decodes.
  lemma AnsweredExactly(p: Platform, known: Known, q: Request, outcomes: seq<Outcome<Event>>, run: seq<A.Action>,
                        rest: seq<A.Action>, spare: seq<byte>)
    requires Sized(q) && q.ackID == A.After(run).counter
    requires |A.From(A.After(run + [A.Emit(true)]), rest).issued| < TWO_32
    requires Arrived(p, known, Replies(p, q, outcomes), q.ackID, rest, spare)
    ensures A.Called(A.From(A.After(run + [A.Emit(true)]), rest), |A.After(run).issued|) <==>
              exists raw :: raw in Replies(p, q, outcomes) && EventValue(p, known, raw, spare).Done?
  {
    var sent := Replies(p, q, outcomes);
    RepliesEcho(p, q, outcomes);
    A.CalledExactly(run, rest);
    hide Replies, EventValue, A.After, A.From, A.Called;
    if raw :| raw in sent && EventValue(p, known, raw, spare).Done? {
      assert Echo(q, raw);
      assert Taken(p, known, raw, spare) == A.Answer(q.ackID, true);
    }
    if A.Answer(q.ackID, true) in rest {
      var raw :| raw in sent && A.Answer(q.ackID, true) == Taken(p, known, raw, spare);
      assert Echo(q, raw);
    }
  }

  // The usual case: middleware lets the event through, once, to a handler that answers once. What
  // was emitted reaches that handler, and its answer reaches the callback of the emit exactly when
  // the client reads the answer's frame.
  lemma OneAnswer(p: Platform, q: Request, links: seq<Link<Event>>, e: Event, resp: Val)
    requires ExactlyOnce(links) && q.ackID > 0
    requires Fold(links, Completed(e)).Completed?
    requires var final := Fold(links, Completed(e)).packet;
             final.name in q.listeners && q.answers(q.listeners[final.name], final.payload) == [resp]
    ensures var final := Fold(links, Completed(e)).packet;
            Replies(p, q, Outcomes(links, e)) == DefaultFrame(p, Header(FRAME_ACK, q.nsp, final.name, q.ackID), resp)
  {
    OneOutcome(links, e);
    var o := Fold(links, Completed(e));
    ReplyOne(p, q, o);
    var header := Header(FRAME_ACK, q.nsp, o.packet.name, q.ackID);
    assert [resp][..0] == [];
    assert Answered(p, header, [resp]) == [] + DefaultFrame(p, header, resp);
  }

  lemma AnswerReturned(p: Platform, known: Known, q: Request, links: seq<Link<Event>>, e: Event, resp: Val,
                       run: seq<A.Action>, rest: seq<A.Action>, spare: seq<byte>)
    requires ExactlyOnce(links) && Fold(links, Completed(e)).Completed?
    requires var final := Fold(links, Completed(e)).packet;
             final.name in q.listeners && q.answers(q.listeners[final.name], final.payload) == [resp]
    requires Sized(q) && q.ackID == A.After(run).counter
    requires |A.From(A.After(run + [A.Emit(true)]), rest).issued| < TWO_32
    requires Arrived(p, known, Replies(p, q, Outcomes(links, e)), q.ackID, rest, spare)
    ensures var header := Header(FRAME_ACK, q.nsp, Fold(links, Completed(e)).packet.name, q.ackID);
            var seen := AckSeen(p, known, header, resp, spare);
            A.Called(A.From(A.After(run + [A.Emit(true)]), rest), |A.After(run).issued|) <==> seen.Some? && seen.value.Done?
  {
    AnsweredExactly(p, known, q, Outcomes(links, e), run, rest, spare);
    OneAnswer(p, q, links, e, resp);
    hide Replies, Outcomes, Fold, EventValue, A.After, A.From, A.Called, Sized, Arrived;
  }

  // ---------------------------------------------------------------- a request, executed

  // The value of the first frame that decodes, unless one before it ends the client.
  datatype Hearing = Waiting | Heard(value: Val) | Ended

  ghost function Hear(p: Platform, known: Known, sent: seq<seq<byte>>, spare: seq<byte>): Hearing {
    if sent == [] then Waiting else
      var before := Hear(p, known, sent[..|sent| - 1], spare);
      if before != Waiting then before else
        match EventValue(p, known, sent[|sent| - 1], spare)
        case Done(v, _) => Heard(v)
        case Panicked => Ended
        case Failed => Waiting
  }

  ghost predicate AnyEnds(p: Platform, known: Known, sent: seq<seq<byte>>, spare: seq<byte>) {
    exists raw :: raw in sent && EventValue(p, known, raw, spare).Panicked?
  }

  // The callback waits under the id exactly until something was heard.
  ghost predicate Listening(acks: A.Acks, id: nat, cb: nat, hearing: Hearing)
    reads acks
  {
    && acks.Valid()
    && (id in A.After(acks.run).pending <==> hearing == Waiting)
    && (hearing == Waiting ==> acks.callbacks[A.After(acks.run).pending[id]] == cb)
  }

  // One frame of the answer reaches the client.
  method HearOne(p: Platform, known: Known, acks: A.Acks, raw: seq<byte>, ghost id: nat, ghost cb: nat, ghost hearing: Hearing,
                 spare: seq<byte>) returns (crashed: bool, called: Option<(nat, Val)>)
    requires Listening(acks, id, cb, hearing) && !hearing.Ended?
    requires ParseFrame(raw).Some? && ParseFrame(raw).value.header.ackID == id
    modifies acks
    ensures var v := EventValue(p, known, raw, spare);
            && (crashed <==> v.Panicked?)
            && called == (if hearing == Waiting && v.Done? then Some((cb, v.value)) else None)
            && (!crashed ==> Listening(acks, id, cb, if hearing == Waiting && v.Done? then Heard(v.value) else hearing))
  {
    var f := DecodeFrameHeader(raw);
    crashed, called := acks.HandleAck(p, known, f.value, spare);
  }

  lemma {:induction false} HearStays(p: Platform, known: Known, sent: seq<seq<byte>>, k: nat, spare: seq<byte>)
    requires k <= |sent| && Hear(p, known, sent[..k], spare) != Waiting
    ensures Hear(p, known, sent, spare) == Hear(p, known, sent[..k], spare)
  {
    if k < |sent| {
      var init := sent[..|sent| - 1];
      assert init[..k] == sent[..k];
      HearStays(p, known, init, k, spare);
    } else {
      assert sent[..k] == sent;
    }
  }

  lemma HearNext(p: Platform, known: Known, sent: seq<seq<byte>>, k: nat, spare: seq<byte>)
    requires k < |sent|
    ensures Hear(p, known, sent[..k + 1], spare) ==
              var before, v := Hear(p, known, sent[..k], spare), EventValue(p, known, sent[k], spare);
              if before != Waiting then before
              else if v.Done? then Heard(v.value)
              else if v.Panicked? then Ended else Waiting
    ensures AnyEnds(p, known, sent[..k + 1], spare) <==>
              AnyEnds(p, known, sent[..k], spare) || EventValue(p, known, sent[k], spare).Panicked?
  {
    assert sent[..k + 1][..k] == sent[..k] && sent[..k + 1] == sent[..k] + [sent[k]];
  }

  ghost function CallOf(cb: nat, hearing: Hearing): Option<(nat, Val)> {
    if hearing.Heard? then Some((cb, hearing.value)) else None
  }

  method HearAll(p: Platform, known: Known, acks: A.Acks, sent: seq<seq<byte>>, ghost q: Request, ghost cb: nat, spare: seq<byte>)
    returns (crashed: bool, called: Option<(nat, Val)>)
    requires Listening(acks, q.ackID, cb, Waiting) && Echoes(q, sent)
    modifies acks
    ensures called == CallOf(cb, Hear(p, known, sent, spare))
    ensures crashed <==> AnyEnds(p, known, sent, spare)
  {
    crashed, called := false, None;
    var k := 0;
    ghost var hearing := Waiting;
    while k < |sent| && !crashed
      invariant 0 <= k <= |sent| && hearing == Hear(p, known, sent[..k], spare)
      invariant !crashed ==> Listening(acks, q.ackID, cb, hearing) && !hearing.Ended?
      invariant crashed ==> hearing != Waiting
      invariant called == CallOf(cb, hearing)
      invariant crashed <==> AnyEnds(p, known, sent[..k], spare)
    {
      assert Echo(q, sent[k]);
      HearNext(p, known, sent, k, spare);
      hide Hear, AnyEnds, Listening, EventValue;
      var now;
      crashed, now := HearOne(p, known, acks, sent[k], q.ackID, cb, hearing, spare);
      if now.Some? { called := now; }
      k := k + 1;
      hearing := Hear(p, known, sent[..k], spare);
    }
    if crashed { HearStays(p, known, sent, k, spare); } else { assert sent[..k] == sent; }
  }

  lemma EmitListens(acks: A.Acks, before: seq<A.Action>, callbacks: seq<nat>, cb: nat)
    requires acks.Valid() && acks.run == before + [A.Emit(true)] && acks.callbacks == callbacks + [cb]
    requires |callbacks| == |A.After(before).issued|
    ensures Listening(acks, A.After(before).counter, cb, Waiting)
  {
    assert (before + [A.Emit(true)])[..|before|] == before;
  }

  // Nothing is sent for a request whose id came out as 0.
  lemma AnswersEchoed(p: Platform, q: Request, outcomes: seq<Outcome<Event>>)
    requires Sized(q.(ackID := 1)) && q.ackID < TWO_32
    ensures Echoes(q, Replies(p, q, outcomes))
  {
    if q.ackID == 0 { SilentWithoutId(p, q, outcomes); } else { RepliesEcho(p, q, outcomes); }
  }

  // The client's half of emit with a callback.
  method SendRequest(p: Platform, store: SchemaStore, acks: A.Acks, nsp: GoString, event: GoString, v: Val, cb: nat)
    returns (raw: Option<seq<byte>>, ghost id: nat)
    requires acks.Valid()
    modifies acks
    ensures id == A.After(old(acks.run)).counter < TWO_32 && Listening(acks, id, cb, Waiting)
    ensures raw == match PayloadBytes(p, BucketOf(store.schemas, SchemaKey(nsp)), event, v)
                   case Some(b) => Some(PrintFrame(Packet(Header(FRAME_EVENT, nsp, event, id), b)))
                   case None => None
  {
    id := acks.ackCounter;
    raw := acks.DoEmit(p, store.schemas, nsp, event, v, Some(cb));
    EmitListens(acks, old(acks.run), old(acks.callbacks), cb);
  }

  lemma NothingHeard(p: Platform, known: Known, spare: seq<byte>)
    ensures Hear(p, known, [], spare) == Waiting && !AnyEnds(p, known, [], spare)
  {}

  // The server's half: a frame that decodes is dispatched, and what it makes the socket send is what
  // the middleware's outcomes and the handler's answers say.
  method ServeRequest(p: Platform, schemas: Bucket, s: Socket, raw: seq<byte>, ghost f: Packet, spare: seq<byte>)
    returns (ended: bool, sent: seq<seq<byte>>)
    requires ParseFrame(raw) == Some(f) && f.header.typ == FRAME_EVENT && f.header.nsp == s.nsp && f.header.ackID < TWO_32
    requires !s.closed
    modifies s`handled, s`rooms, s.hub`writes
    ensures var r := PayloadValue(p, schemas, f.header.event, f.payload, spare);
            var out := if r.Done? then Outcomes(s.middlewares, Event(f.header.event, r.value)) else [];
            && (ended <==> r.Panicked?)
            && s.handled == old(s.handled) + Deliveries(s.listeners, out)
            && sent == Replies(p, s.Asking(f.header.ackID), out)
            && s.hub.writes == old(s.hub.writes) + sent && s.rooms == old(s.rooms)
  {
    NothingSent(p, s.listeners, s.Asking(f.header.ackID));
    hide *;
    var g := DecodeFrameHeader(raw);
    var r := DecodeEventPayload(p, schemas, g.value.header.event, g.value.payload, spare);
    if !r.Done? { return r.Panicked?, []; }
    ended := false;
    sent := RaiseEvent(p, s, g.value.header, r.value);
  }

  method RaiseEvent(p: Platform, s: Socket, header: Header, w: Val) returns (sent: seq<seq<byte>>)
    requires header.typ == FRAME_EVENT && header.nsp == s.nsp && header.ackID < TWO_32 && !s.closed
    modifies s`handled, s`rooms, s.hub`writes
    ensures var out := Outcomes(s.middlewares, Event(header.event, w));
            && s.handled == old(s.handled) + Deliveries(s.listeners, out)
            && sent == Replies(p, s.Asking(header.ackID), out)
            && s.hub.writes == old(s.hub.writes) + sent && s.rooms == old(s.rooms)
  {
    hide Replies, Outcomes, Deliveries;
    var n := |s.hub.writes|;
    s.Dispatch(p, header, w);
    sent := s.hub.writes[n..];
    assert Pongs(s.nsp, header) == [];
  }

  // What comes out of the server's middleware for an emit: nothing if it does not get that far.
  ghost function Reached(links: seq<Link<Event>>, event: GoString, r: Option<Positional.Outcome<Val>>): seq<Outcome<Event>> {
    if r.Some? && r.value.Done? then Outcomes(links, Event(event, r.value.value)) else []
  }

  lemma ReachedAsIs(listeners: map<GoString, nat>, links: seq<Link<Event>>, event: GoString, r: Option<Positional.Outcome<Val>>)
    ensures links == [] && r.Some? && r.value.Done? ==>
              Deliveries(listeners, Reached(links, event, r)) ==
                if event in listeners then [Invocation(listeners[event], r.value.value)] else []
  {
    if r.Some? && r.value.Done? { DeliveredAsIs(listeners, Event(event, r.value.value)); }
  }

  // The whole exchange: the handlers see what the server reads of the payload, once for each
  // completion of the middleware, and the callback of the emit is called with the first answer the
  // client reads. `ended` says whether either side was ended by a panic.
  method Ask(p: Platform, store: SchemaStore, acks: A.Acks, schemas: Bucket, s: Socket, event: GoString, v: Val, cb: nat,
             spare: seq<byte>) returns (ended: bool, called: Option<(nat, Val)>)
    requires acks.Valid() && !s.closed && Addressable(s.nsp, event) && forall n <- s.listeners :: |n| <= 0xFF
    modifies acks, s`handled, s`rooms, s.hub`writes
    ensures var r := Transfer(p, store.schemas, schemas, s.nsp, event, v, spare);
            var out := Reached(s.middlewares, event, r);
            var sent := Replies(p, s.Asking(A.After(old(acks.run)).counter), out);
            && s.handled == old(s.handled) + Deliveries(s.listeners, out)
            && s.hub.writes == old(s.hub.writes) + sent && s.rooms == old(s.rooms)
            && called == CallOf(cb, Hear(p, store.schemas, sent, spare))
            && (ended <==> (r.Some? && r.value.Panicked?) || AnyEnds(p, store.schemas, sent, spare))
  {
    hide Listening, Replies, Outcomes, Deliveries, PayloadValue, ParseFrame, PayloadBytes, EventValue, Hear, AnyEnds, PrintFrame;
    var raw;
    ghost var id;
    raw, id := SendRequest(p, store, acks, s.nsp, event, v, cb);
    ghost var q := s.Asking(id);
    NothingSent(p, s.listeners, q);
    NothingHeard(p, store.schemas, spare);
    if raw.None? { return false, None; }
    ghost var f := Packet(Header(FRAME_EVENT, s.nsp, event, id), PayloadBytes(p, BucketOf(store.schemas, SchemaKey(s.nsp)), event, v).value);
    FrameRoundTrip(f);
    var sent;
    ended, sent := ServeRequest(p, schemas, s, raw.value, f, spare);
    if ended { return true, None; }
    AnswersEchoed(p, q, Reached(s.middlewares, event, Transfer(p, store.schemas, schemas, s.nsp, event, v, spare)));
    ended, called := HearAll(p, store.schemas, acks, sent, q, cb, spare);
  }

  // Where the server has no middleware, its handler for the event is called once, with exactly the value
  // the server reads; under one schema that is the canonical form.
  method AskPlainly(p: Platform, store: SchemaStore, acks: A.Acks, schemas: Bucket, s: Socket, event: GoString, v: Val, cb: nat,
                    spare: seq<byte>) returns (ended: bool, called: Option<(nat, Val)>)
    requires acks.Valid() && !s.closed && Addressable(s.nsp, event) && forall n <- s.listeners :: |n| <= 0xFF
    requires s.middlewares == [] && event in s.listeners && Unpacks(p)
    requires event in schemas && Knows(store.schemas, s.nsp, event, schemas[event].definition)
    requires Sendable(p, schemas[event].definition, v) && v != Nil && Positional.Enc(p, schemas[event].definition, v) != []
    modifies acks, s`handled, s`rooms, s.hub`writes
    ensures s.handled == old(s.handled) + [Invocation(s.listeners[event], Positional.Canon(p, schemas[event].definition, v))]
  {
    TransferBySchema(p, store.schemas, schemas, s.nsp, event, v, spare);
    assert Seen(p, schemas[event].definition, v) == Positional.Canon(p, schemas[event].definition, v);
    ReachedAsIs(s.listeners, s.middlewares, event, Transfer(p, store.schemas, schemas, s.nsp, event, v, spare));
    hide *;
    ended, called := Ask(p, store, acks, schemas, s, event, v, cb, spare);
  }
}
