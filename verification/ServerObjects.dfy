// The server's objects and their methods (server/socket.go, server/namespace.go, server/hub.go,
// server/server.go).
module ServerObjects {
  import opened Bytes
  import opened SchemaTypes
  import opened Frame
  import opened SchemaSync
  import opened Middleware
  import opened ServerReplies
  import EndToEnd
  import R = Registration

  // What a closed socket would have sent is dropped.
  function Unless(closed: bool, frames: seq<seq<byte>>): seq<seq<byte>> {
    if closed then [] else frames
  }

  lemma NothingUnless(closed: bool)
    ensures Unless(closed, []) == []
  {}

  // The room named by a JOIN or LEAVE payload.
  function RoomFromPayload(payload: Val): Option<GoString> {
    if payload.Map? && Ascii("room") in payload.entries && payload.entries[Ascii("room")].Str? then
      Some(payload.entries[Ascii("room")].s)
    else None
  }

  // What a frame addressed to a socket of namespace nsp makes its middleware chain produce.
  ghost function Raised(nsp: GoString, links: seq<Link<Event>>, header: Header, payload: Val): seq<Outcome<Event>> {
    if header.nsp == nsp && header.typ == FRAME_EVENT then Outcomes(links, Event(header.event, payload)) else []
  }

  function Pongs(nsp: GoString, header: Header): seq<seq<byte>> {
    if header.nsp == nsp && header.typ == FRAME_PING then [PrintFrame(Packet(Header(FRAME_PONG, nsp, [], 0), []))] else []
  }

  // The rooms of the socket afterwards.
  function RoomsAfter(rooms: set<GoString>, nsp: GoString, header: Header, payload: Val): set<GoString> {
    var room := RoomFromPayload(payload);
    if header.nsp != nsp || room.None? then rooms
    else if header.typ == FRAME_JOIN then rooms + {room.value}
    else if header.typ == FRAME_LEAVE then rooms - {room.value}
    else rooms
  }

  // Who a socket belongs to, as connection middleware sees it and may change it: the socket's name
  // and the handshake of its connection.
  datatype Handshake = Handshake(url: GoString, headers: map<GoString, seq<GoString>>)
  datatype Visitor = Visitor(name: GoString, handshake: Handshake)

  // One physical connection.
  class Hub {
    ghost const num: nat
    var sockets: map<GoString, Socket>
    var writes: seq<seq<byte>>  // the messages handed to the connection so far

    constructor (ghost num: nat)
      ensures this.num == num && sockets == map[] && writes == []
    {
      this.num := num;
      sockets, writes := map[], [];
    }

    method Send(buf: seq<byte>)
      modifies this`writes
      ensures writes == old(writes) + [buf]
    {
      writes := writes + [buf];
    }
  }

  // The k-th call of next extends both logs of a chain by its own part.
  lemma LoggedStep(p: Platform, q: Request, rest: seq<Link<Event>>, calls: seq<Call<Event>>, k: nat,
                   handled: seq<Invocation>, writes: seq<seq<byte>>, closed: bool)
    requires k < |calls|
    ensures handled + Deliveries(q.listeners, OfCalls(rest, calls[..k])) + CallDeliveries(q.listeners, rest, calls[k])
            == handled + Deliveries(q.listeners, OfCalls(rest, calls[..k + 1]))
    ensures writes + Unless(closed, Replies(p, q, OfCalls(rest, calls[..k]))) + Unless(closed, CallReplies(p, q, rest, calls[k]))
            == writes + Unless(closed, Replies(p, q, OfCalls(rest, calls[..k + 1])))
  {
    NextStep(q.listeners, rest, calls, k);
    NextReplies(p, q, rest, calls, k);
    Assoc(handled, Deliveries(q.listeners, OfCalls(rest, calls[..k])), CallDeliveries(q.listeners, rest, calls[k]));
    Assoc(writes, Replies(p, q, OfCalls(rest, calls[..k])), CallReplies(p, q, rest, calls[k]));
  }

  // One connection's presence in one namespace.
  class Socket {
    const nsp: GoString
    const hub: Hub
    const answers: Answers
    ghost const id: R.Sock
    var visitor: Visitor
    var closed: bool
    var rooms: set<GoString>
    var listeners: map<GoString, nat>
    var middlewares: seq<Link<Event>>
    var handled: seq<Invocation>  // the handler calls made so far

    // A socket starts out in the room of its own name.
    constructor (nsp: GoString, hub: Hub, visitor: Visitor, answers: Answers, ghost serial: nat)
      ensures this.nsp == nsp && this.hub == hub && this.answers == answers && id == R.Sock(hub.num, nsp, serial)
      ensures this.visitor == visitor && rooms == {visitor.name}
      ensures !closed && listeners == map[] && middlewares == [] && handled == []
    {
      this.nsp, this.hub, this.answers, this.visitor := nsp, hub, answers, visitor;
      id := R.Sock(hub.num, nsp, serial);
      closed, rooms, listeners, middlewares, handled := false, {visitor.name}, map[], [], [];
    }

    method Send(buf: seq<byte>)
      modifies hub`writes
      ensures hub.writes == old(hub.writes) + Unless(closed, [buf])
      ensures hub.writes == if closed then old(hub.writes) else old(hub.writes) + [buf]
    {
      if closed { return; }
      hub.Send(buf);
    }

    method SendDefault(p: Platform, header: Header, payload: Val)
      requires header.ackID < TWO_32
      modifies hub`writes
      ensures hub.writes == old(hub.writes) + Unless(closed, DefaultFrame(p, header, payload))
    {
      var bytes := EncodeEventPayload(p, map[], header.event, payload);
      if bytes.None? { return; }
      var buf := EncodeFrame(header, bytes.value);
      Send(buf[..]);
    }

    // ---------------------------------------------------------------- rooms

    method Join(room: GoString)
      modifies this`rooms
      ensures rooms == old(rooms) + {room}
    {
      rooms := rooms + {room};
    }

    method Leave(room: GoString)
      modifies this`rooms
      ensures rooms == old(rooms) - {room}
    {
      rooms := rooms - {room};
    }

    predicate HasRoom(room: GoString)
      reads this`rooms
    {
      room in rooms
    }

    // ---------------------------------------------------------------- events

    function Asking(ackID: nat): Request
      reads this`listeners
    {
      Request(nsp, listeners, answers, ackID)
    }

    // The ack function given to a handler, called for each of its responses.
    method Acknowledge(p: Platform, event: GoString, ackID: nat, responses: seq<Val>)
      requires ackID < TWO_32
      modifies hub`writes
      ensures hub.writes == old(hub.writes) + Unless(closed, Answered(p, Header(FRAME_ACK, nsp, event, ackID), responses))
    {
      var header := Header(FRAME_ACK, nsp, event, ackID);
      var k := 0;
      while k < |responses|
        invariant 0 <= k <= |responses|
        invariant hub.writes == old(hub.writes) + Unless(closed, Answered(p, header, responses[..k]))
      {
        assert responses[..k + 1][..k] == responses[..k];
        Assoc(old(hub.writes), Answered(p, header, responses[..k]), DefaultFrame(p, header, responses[k]));
        SendDefault(p, header, responses[k]);
        k := k + 1;
      }
      assert responses[..k] == responses;
    }

    method InvokeHandler(p: Platform, packet: Event, ackID: nat)
      requires ackID < TWO_32
      modifies this`handled, hub`writes
      ensures handled == old(handled) + Deliver(listeners, Completed(packet))
      ensures packet.name in listeners ==> handled == old(handled) + [Invocation(listeners[packet.name], packet.payload)]
      ensures packet.name !in listeners ==> handled == old(handled)
      ensures hub.writes == old(hub.writes) + Unless(closed, Reply(p, Asking(ackID), Completed(packet)))
      ensures ackID > 0 && packet.name in listeners && !closed ==>
                hub.writes == old(hub.writes) +
                  Answered(p, Header(FRAME_ACK, nsp, packet.name, ackID), answers(listeners[packet.name], packet.payload))
      ensures ackID == 0 || packet.name !in listeners || closed ==> hub.writes == old(hub.writes)
    {
      if packet.name !in listeners { return; }
      handled := handled + [Invocation(listeners[packet.name], packet.payload)];
      if ackID > 0 {
        Acknowledge(p, packet.name, ackID, answers(listeners[packet.name], packet.payload));
      }
    }

    method Run(p: Platform, links: seq<Link<Event>>, idx: nat, packet: EventPacket, ackID: nat)
      requires idx <= |links| && ackID < TWO_32
      modifies this`handled, hub`writes, packet
      ensures handled == old(handled) + Deliveries(listeners, Outcomes(links[idx..], old(packet.Value())))
      ensures hub.writes == old(hub.writes) + Unless(closed, Replies(p, Asking(ackID), Outcomes(links[idx..], old(packet.Value()))))
      decreases |links| - idx
    {
      if idx >= |links| {
        DeliverOne(listeners, Completed(packet.Value()));
        ReplyOne(p, Asking(ackID), Completed(packet.Value()));
        ChainEnd(links[idx..], packet.Value());
        hide *;
        InvokeHandler(p, packet.Value(), ackID);
        return;
      }
      ghost var rest, q := links[idx + 1..], Asking(ackID);
      var calls := links[idx](packet.Value());
      ChainStep(links, idx, packet.Value());
      NoCalls(rest, calls[..0]);
      NothingSent(p, listeners, q);
      NothingUnless(closed);
      hide *;
      var k := 0;
      while k < |calls|
        invariant 0 <= k <= |calls|
        invariant handled == old(handled) + Deliveries(listeners, OfCalls(rest, calls[..k]))
        invariant hub.writes == old(hub.writes) + Unless(closed, Replies(p, q, OfCalls(rest, calls[..k])))
      {
        LoggedStep(p, q, rest, calls, k, old(handled), old(hub.writes), closed);
        Next(p, links, idx, packet, calls[k], ackID);
        k := k + 1;
      }
      assert calls[..k] == calls;
    }

    // The closure handed to the middleware at idx.
    method Next(p: Platform, links: seq<Link<Event>>, idx: nat, packet: EventPacket, call: Call<Event>, ackID: nat)
      requires idx < |links| && ackID < TWO_32
      modifies this`handled, hub`writes, packet
      ensures handled == old(handled) + CallDeliveries(listeners, links[idx + 1..], call)
      ensures hub.writes == old(hub.writes) + Unless(closed, CallReplies(p, Asking(ackID), links[idx + 1..], call))
      decreases |links| - idx, 0
    {
      packet.Set(call.packet);
      if call.err.Some? {
        if ackID > 0 {
          SendDefault(p, ErrorHeader(nsp, ackID), Message(call.err.value));
        }
      } else {
        Run(p, links, idx + 1, packet, ackID);
      }
    }

    method ProcessEvent(p: Platform, header: Header, payload: Val)
      requires header.ackID < TWO_32
      modifies this`handled, hub`writes
      ensures var out := Outcomes(middlewares, Event(header.event, payload));
              && handled == old(handled) + Deliveries(listeners, out)
              && hub.writes == old(hub.writes) + Unless(closed, Replies(p, Asking(header.ackID), out))
      ensures middlewares == [] ==>
                handled == old(handled) + if header.event in listeners then [Invocation(listeners[header.event], payload)] else []
      ensures var o := Fold(middlewares, Completed(Event(header.event, payload)));
              ExactlyOnce(middlewares) ==>
                handled == old(handled) +
                  if o.Completed? && o.packet.name in listeners then [Invocation(listeners[o.packet.name], o.packet.payload)] else []
    {
      DeliveredAsIs(listeners, Event(header.event, payload));
      if ExactlyOnce(middlewares) { DeliveredByFinalName(listeners, middlewares, Event(header.event, payload)); }
      hide Fold, ExactlyOnce, Outcomes, Deliveries, Replies;
      var packet := new EventPacket(header.event, payload);
      assert middlewares[0..] == middlewares;
      Run(p, middlewares, 0, packet, header.ackID);
    }

    // A frame for another namespace is ignored, and so is a frame of any other type.
    method Dispatch(p: Platform, header: Header, payload: Val)
      requires header.ackID < TWO_32
      modifies this`handled, this`rooms, hub`writes
      ensures handled == old(handled) + Deliveries(listeners, Raised(nsp, middlewares, header, payload))
      ensures hub.writes == old(hub.writes) +
                Unless(closed, Replies(p, Asking(header.ackID), Raised(nsp, middlewares, header, payload)) + Pongs(nsp, header))
      ensures rooms == RoomsAfter(old(rooms), nsp, header, payload)
      ensures header.typ == FRAME_EVENT && header.nsp == nsp && middlewares == [] ==>
                handled == old(handled) + if header.event in listeners then [Invocation(listeners[header.event], payload)] else []
      ensures header.nsp != nsp || header.typ != FRAME_EVENT ==> handled == old(handled)
      ensures forall m, r :: payload == Map(m) && Ascii("room") in m && m[Ascii("room")] == Str(r) && header.nsp == nsp ==>
                rooms == if header.typ == FRAME_JOIN then old(rooms) + {r}
                         else if header.typ == FRAME_LEAVE then old(rooms) - {r} else old(rooms)
      ensures header.nsp != nsp || !payload.Map? || Ascii("room") !in payload.entries || !payload.entries[Ascii("room")].Str? ==>
                rooms == old(rooms)
      ensures header.nsp == nsp && header.typ == FRAME_PING && !closed ==>
                hub.writes == old(hub.writes) + [PrintFrame(Packet(Header(FRAME_PONG, nsp, [], 0), []))]
      ensures header.nsp != nsp || closed || header.typ !in {FRAME_EVENT, FRAME_PING} ==> hub.writes == old(hub.writes)
    {
      NothingSent(p, listeners, Asking(header.ackID));
      hide Outcomes, Deliveries, Replies, PrintFrame;
      if header.nsp != nsp { return; }
      var room := RoomFromPayload(payload);
      if header.typ == FRAME_EVENT {
        ProcessEvent(p, header, payload);
      } else if header.typ == FRAME_JOIN {
        if room.Some? { Join(room.value); }
      } else if header.typ == FRAME_LEAVE {
        if room.Some? { Leave(room.value); }
      } else if header.typ == FRAME_PING {
        SendDefault(p, Header(FRAME_PONG, nsp, [], 0), Nil);
      }
    }
  }

  // ---------------------------------------------------------------- broadcasting

  function Copies(buf: seq<byte>, n: nat): seq<seq<byte>> {
    if n == 0 then [] else Copies(buf, n - 1) + [buf]
  }

  lemma AllCopies(before: seq<seq<byte>>, now: seq<seq<byte>>, buf: seq<byte>, n: nat)
    requires now == before + Copies(buf, n)
    ensures |now| == |before| + n
    ensures forall i | |before| <= i < |now| :: now[i] == buf
  {
    CopiesAre(buf, n);
    forall i | |before| <= i < |now|
      ensures now[i] == buf
    {
      var c := Copies(buf, n)[i - |before|];
      assert c in Copies(buf, n) && now[i] == c;
    }
  }

  lemma {:induction false} CopiesAre(buf: seq<byte>, n: nat)
    ensures |Copies(buf, n)| == n && forall c <- Copies(buf, n) :: c == buf
  {
    if n > 0 { CopiesAre(buf, n - 1); }
  }

  predicate InRoom(s: Socket, room: Option<GoString>)
    reads s
  {
    room.None? || s.HasRoom(room.value)
  }

  // The open sockets that a broadcast is meant for.
  ghost function Wanted(sockets: set<Socket>, room: Option<GoString>, exclude: Socket?): set<Socket>
    reads sockets
  {
    set s | s in sockets && s != exclude && !s.closed && InRoom(s, room)
  }

  ghost function OnHub(sockets: set<Socket>, hub: Hub): set<Socket> {
    set s | s in sockets && s.hub == hub
  }

  ghost function Targets(sockets: set<Socket>, room: Option<GoString>, exclude: Socket?, hub: Hub): set<Socket>
    reads sockets
  {
    OnHub(Wanted(sockets, room, exclude), hub)
  }

  lemma OnHubStep(sockets: set<Socket>, hub: Hub, s: Socket)
    requires s !in sockets
    ensures |OnHub(sockets + {s}, hub)| == |OnHub(sockets, hub)| + if s.hub == hub then 1 else 0
  {
    if s.hub == hub {
      assert OnHub(sockets + {s}, hub) == OnHub(sockets, hub) + {s};
    } else {
      assert OnHub(sockets + {s}, hub) == OnHub(sockets, hub);
    }
  }

  lemma OneFewer(wanted: set<Socket>, rest: set<Socket>, s: Socket)
    requires s in rest
    ensures wanted - (rest - {s}) == if s in wanted then wanted - rest + {s} else wanted - rest
  {}

  // The sockets in `done` have been sent one copy each.
  ghost predicate SentTo(before: seq<seq<byte>>, now: seq<seq<byte>>, buf: seq<byte>, done: set<Socket>, hub: Hub) {
    now == before + Copies(buf, |OnHub(done, hub)|)
  }

  lemma NobodyYet(now: seq<seq<byte>>, buf: seq<byte>, wanted: set<Socket>, rest: set<Socket>, hub: Hub)
    requires wanted <= rest
    ensures SentTo(now, now, buf, wanted - rest, hub)
  {
    assert OnHub(wanted - rest, hub) == {};
  }

  lemma SentOne(before: seq<seq<byte>>, now: seq<seq<byte>>, buf: seq<byte>, done: set<Socket>, hub: Hub, s: Socket)
    requires SentTo(before, now, buf, done, hub) && s !in done
    ensures SentTo(before, if s.hub == hub then now + [buf] else now, buf, done + {s}, hub)
  {
    OnHubStep(done, hub, s);
    Assoc(before, Copies(buf, |OnHub(done, hub)|), [buf]);
  }

  class Namespace {
    const name: GoString
    var sockets: set<Socket>
    var schemas: Bucket
    var middlewares: seq<Link<Visitor>>

    constructor (name: GoString)
      ensures this.name == name && sockets == {} && schemas == map[] && middlewares == []
    {
      this.name := name;
      sockets, schemas, middlewares := {}, map[], [];
    }

    method AddSocket(s: Socket)
      modifies this`sockets
      ensures sockets == old(sockets) + {s}
    {
      sockets := sockets + {s};
    }

    method RemoveSocket(s: Socket)
      modifies this`sockets
      ensures sockets == old(sockets) - {s}
    {
      sockets := sockets - {s};
    }

    ghost function Hubs(): set<Hub>
      reads this
    {
      set s | s in sockets :: s.hub
    }

    method SendIfMeant(s: Socket, buf: seq<byte>, room: Option<GoString>, exclude: Socket?)
      modifies s.hub`writes
      ensures s.hub.writes == if s in Wanted({s}, room, exclude) then old(s.hub.writes) + [buf] else old(s.hub.writes)
    {
      if s == exclude { return; }
      if room.None? || s.HasRoom(room.value) {
        s.Send(buf);
      }
    }

    // The loop under the namespace's lock. Each connection is written to once for each of its
    // sockets that the broadcast is meant for.
    method SendToAll(buf: seq<byte>, room: Option<GoString>, exclude: Socket?)
      modifies Hubs()`writes
      ensures forall h <- Hubs() :: h.writes == old(h.writes) + Copies(buf, |Targets(sockets, room, exclude, h)|)
    {
      ghost var wanted, hubs := Wanted(sockets, room, exclude), Hubs();
      var rest := sockets;
      forall h <- hubs { NobodyYet(h.writes, buf, wanted, rest, h); }
      while rest != {}
        invariant rest <= sockets
        invariant forall h <- hubs :: SentTo(old(h.writes), h.writes, buf, wanted - rest, h)
        decreases |rest|
      {
        var s :| s in rest;
        ghost var done := wanted - rest;
        OneFewer(wanted, rest, s);
        label before:
        SendIfMeant(s, buf, room, exclude);
        forall h <- hubs ensures SentTo(old(h.writes), h.writes, buf, wanted - (rest - {s}), h) {
          if s in wanted { SentOne(old(h.writes), old@before(h.writes), buf, done, h, s); }
        }
        rest := rest - {s};
      }
      assert wanted - rest == wanted;
    }

    method SendSome(buf: Option<seq<byte>>, room: Option<GoString>, exclude: Socket?)
      modifies Hubs()`writes
      ensures forall h <- Hubs() :: h.writes == old(h.writes) +
                if buf.None? then [] else Copies(buf.value, |Targets(sockets, room, exclude, h)|)
      ensures forall h <- Hubs(), i | |old(h.writes)| <= i < |h.writes| :: buf == Some(h.writes[i])
    {
      if buf.None? { return; }
      hide Targets, Copies;
      SendToAll(buf.value, room, exclude);
      forall h <- Hubs(), i | |old(h.writes)| <= i < |h.writes|
        ensures buf == Some(h.writes[i])
      {
        AllCopies(old(h.writes), h.writes, buf.value, |Targets(sockets, room, exclude, h)|);
      }
    }

    lemma EmitIsEvent(p: Platform, event: GoString, payload: Val)
      requires EndToEnd.Addressable(name, event)
      ensures var raw := EndToEnd.EventFrame(p, schemas, name, event, payload);
              raw.Some? ==>
                && ParseFrame(raw.value).Some? && ParseFrame(raw.value).value.header == Header(FRAME_EVENT, name, event, 0)
                && EndToEnd.Announces(p, schemas, name, event, payload, raw.value)
    {
      EndToEnd.EmitAnnounces(p, schemas, name, event, payload);
    }

    // An event whose payload cannot be encoded is sent to nobody.
    method ToExcluding(p: Platform, room: GoString, event: GoString, payload: Val, exclude: Socket?)
      modifies Hubs()`writes
      ensures var raw := EndToEnd.EventFrame(p, schemas, name, event, payload);
              forall h <- Hubs() :: h.writes == old(h.writes) +
                if raw.None? then [] else Copies(raw.value, |Targets(sockets, Some(room), exclude, h)|)
      ensures EndToEnd.Addressable(name, event) ==>
                forall h <- Hubs(), i | |old(h.writes)| <= i < |h.writes| ::
                  && ParseFrame(h.writes[i]).Some?
                  && ParseFrame(h.writes[i]).value.header == Header(FRAME_EVENT, name, event, 0)
                  && EndToEnd.Announces(p, schemas, name, event, payload, h.writes[i])
    {
      if EndToEnd.Addressable(name, event) { EmitIsEvent(p, event, payload); }
      hide *;
      var buf := EndToEnd.EmitEvent(p, schemas, name, event, payload);
      SendSome(buf, Some(room), exclude);
    }

    method EmitExcluding(p: Platform, event: GoString, payload: Val, exclude: Socket?)
      modifies Hubs()`writes
      ensures var raw := EndToEnd.EventFrame(p, schemas, name, event, payload);
              forall h <- Hubs() :: h.writes == old(h.writes) +
                if raw.None? then [] else Copies(raw.value, |Targets(sockets, None, exclude, h)|)
      ensures EndToEnd.Addressable(name, event) ==>
                forall h <- Hubs(), i | |old(h.writes)| <= i < |h.writes| ::
                  && ParseFrame(h.writes[i]).Some?
                  && ParseFrame(h.writes[i]).value.header == Header(FRAME_EVENT, name, event, 0)
                  && EndToEnd.Announces(p, schemas, name, event, payload, h.writes[i])
    {
      if EndToEnd.Addressable(name, event) { EmitIsEvent(p, event, payload); }
      hide *;
      var buf := EndToEnd.EmitEvent(p, schemas, name, event, payload);
      SendSome(buf, None, exclude);
    }
  }
}
