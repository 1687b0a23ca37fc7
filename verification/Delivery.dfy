// Messages from one program to the other: what the server broadcasts and what a client emits, through
// the receiver's handleMessage to the handler that hears it.
module Delivery {
  import opened Bytes
  import opened SchemaTypes
  import opened Frame
  import Positional
  import opened PositionalLaws
  import opened SchemaTables
  import opened TableCodec
  import opened SchemaSync
  import opened Middleware
  import opened ServerReplies
  import opened EndToEnd
  import opened ServerObjects
  import A = AckTable
  import H = Heartbeat
  import N = ClientNamespace
  import C = ClientObjects
  import V = ServerRegistry
  import R = Registration

  // What the receiver of an event with payload v hears: nothing but nil for a payload without bytes,
  // the canonical form under the event's schema, and without one the payload itself.
  ghost function Hears(p: Platform, schemas: Bucket, event: GoString, v: Val): Val {
    if event !in schemas then v
    else if v == Nil || Positional.Enc(p, schemas[event].definition, v) == [] then Nil
    else Positional.Canon(p, schemas[event].definition, v)
  }

  // Sender and receiver use one schema for the event, which the payload fits, or none, and then
  // generic MessagePack preserves the payload.
  ghost predicate OneCodec(p: Platform, known: Known, schemas: Bucket, nsp: GoString, event: GoString, v: Val) {
    if event in schemas
    then Knows(known, nsp, event, schemas[event].definition) && Sendable(p, schemas[event].definition, v)
    else event !in BucketOf(known, SchemaKey(nsp)) && Preserved(p, v)
  }

  lemma AnnouncedRead(p: Platform, known: Known, schemas: Bucket, nsp: GoString, event: GoString, v: Val, raw: seq<byte>, spare: seq<byte>)
    requires Unpacks(p) && Inflates(p) && OneCodec(p, known, schemas, nsp, event, v)
    requires Announces(p, schemas, nsp, event, v, raw)
    ensures var r := EventValue(p, known, raw, spare); r.Done? && r.value == Hears(p, schemas, event, v)
  {
    var b := ParseFrame(raw).value.payload;
    var bucket := BucketOf(known, SchemaKey(nsp));
    if event in schemas {
      PayloadDelivered(p, schemas, bucket, event, v, spare);
      assert PayloadBytes(p, schemas, event, v) == Some(b);
    } else if v != Nil {
      DeflateNotEmpty(p, p.marshal(v).value);
    }
  }

  // ---------------------------------------------------------------- from the server to a handler of a client

  // One event message reaches a client that has the namespace.
  method HearEvent(c: C.Client, raw: seq<byte>, spare: seq<byte>, ghost nsp: GoString, ghost e: Event)
    requires c.Valid() && nsp in c.namespaces
    requires ParseFrame(raw).Some? && ParseFrame(raw).value.header == Header(FRAME_EVENT, nsp, e.name, 0)
    requires var r := EventValue(c.p, c.store.schemas, raw, spare); r.Done? && r.value == e.payload
    modifies c.store, c.acks, c.namespaces.Values`handled
    modifies c.heart, c.heart.tickers`running, c.heart.channels`closed, c.heart.timers`pending
    ensures c.Valid() && c.store.schemas == old(c.store.schemas)
    ensures c.heart.timers == old(c.heart.timers)
    ensures fresh(c.heart.tickers - old(c.heart.tickers)) && fresh(c.heart.channels - old(c.heart.channels))
    ensures C.LogsOf(c.namespaces) ==
              old(C.LogsOf(c.namespaces))[nsp := old(C.LogsOf(c.namespaces)[nsp]) + C.Raised(c.namespaces[nsp], e)]
  {
    hide ParseFrame, PayloadValue, C.Raised, C.Client.Valid, C.LogsOf;
    var crashed, called := c.HandleMessage(raw, spare);
    assert !crashed && Event(e.name, e.payload) == e;
  }

  ghost function Repeated<T>(one: seq<T>, n: nat): seq<T> {
    if n == 0 then [] else Repeated(one, n - 1) + one
  }

  lemma RepeatedNone<T>(one: seq<T>)
    ensures Repeated(one, 0) == []
  {}

  lemma RepeatedOnce<T>(before: seq<T>, one: seq<T>, n: nat)
    ensures before + Repeated(one, n) + one == before + Repeated(one, n + 1)
  {
    Assoc(before, Repeated(one, n), one);
  }

  lemma OneCodecEncodes(p: Platform, known: Known, schemas: Bucket, nsp: GoString, event: GoString, v: Val)
    requires OneCodec(p, known, schemas, nsp, event, v) && Addressable(nsp, event)
    ensures EventFrame(p, schemas, nsp, event, v).Some?
  {
    EmitAnnounces(p, schemas, nsp, event, v);
  }

  // The messages of one broadcast that reach a connection.
  method HearAll(c: C.Client, sent: seq<seq<byte>>, ghost schemas: Bucket, nsp: GoString, event: GoString, ghost v: Val, spare: seq<byte>)
    requires c.Valid() && nsp in c.namespaces
    requires Unpacks(c.p) && Inflates(c.p) && OneCodec(c.p, c.store.schemas, schemas, nsp, event, v)
    requires forall raw <- sent :: ParseFrame(raw).Some? && ParseFrame(raw).value.header == Header(FRAME_EVENT, nsp, event, 0)
    requires forall raw <- sent :: Announces(c.p, schemas, nsp, event, v, raw)
    modifies c.store, c.acks, c.namespaces.Values`handled
    modifies c.heart, c.heart.tickers`running, c.heart.channels`closed, c.heart.timers`pending
    ensures c.Valid()
    ensures var e := Event(event, Hears(c.p, schemas, event, v));
            C.LogsOf(c.namespaces) == old(C.LogsOf(c.namespaces))[nsp := old(C.LogsOf(c.namespaces)[nsp]) +
              Repeated(C.Raised(c.namespaces[nsp], e), |sent|)]
  {
    hide *;
    ghost var logs := C.LogsOf(c.namespaces);
    ghost var e := Event(event, Hears(c.p, schemas, event, v));
    ghost var one := C.Raised(c.namespaces[nsp], e);
    C.LogIs(c.namespaces, nsp);
    RepeatedNone(one);
    assert logs[nsp] + [] == logs[nsp];
    assert logs == logs[nsp := logs[nsp]];
    var k := 0;
    while k < |sent|
      invariant 0 <= k <= |sent| && c.Valid() && c.heart.timers == old(c.heart.timers)
      invariant fresh(c.heart.tickers - old(c.heart.tickers)) && fresh(c.heart.channels - old(c.heart.channels))
      invariant OneCodec(c.p, c.store.schemas, schemas, nsp, event, v) && C.Raised(c.namespaces[nsp], e) == one
      invariant nsp in logs && C.LogsOf(c.namespaces) == logs[nsp := logs[nsp] + Repeated(one, k)]
    {
      assert sent[k] in sent;
      AnnouncedRead(c.p, c.store.schemas, schemas, nsp, event, v, sent[k], spare);
      HearEvent(c, sent[k], spare, nsp, e);
      RepeatedOnce(logs[nsp], one, k);
      k := k + 1;
    }
  }

  // The server broadcasts, and the connection's messages reach its client: the namespace's middleware
  // and handlers there see the event once for each socket of the connection that is meant.
  method Broadcast(ns: Namespace, event: GoString, v: Val, exclude: Socket?, hub: Hub, c: C.Client, spare: seq<byte>)
    requires c.Valid() && ns.name in c.namespaces && Addressable(ns.name, event) && hub in ns.Hubs()
    requires Unpacks(c.p) && Inflates(c.p) && OneCodec(c.p, c.store.schemas, ns.schemas, ns.name, event, v)
    modifies ns.Hubs()`writes, c.store, c.acks, c.namespaces.Values`handled
    modifies c.heart, c.heart.tickers`running, c.heart.channels`closed, c.heart.timers`pending
    ensures c.Valid()
    ensures var e := Event(event, Hears(c.p, ns.schemas, event, v));
            C.LogsOf(c.namespaces) == old(C.LogsOf(c.namespaces))[ns.name := old(C.LogsOf(c.namespaces)[ns.name]) +
              Repeated(C.Raised(c.namespaces[ns.name], e), |Targets(ns.sockets, None, exclude, hub)|)]
  {
    hide *;
    var sent := BroadcastTo(ns, c.p, c.store, event, v, exclude, hub);
    HearAll(c, sent, ns.schemas, ns.name, event, v, spare);
  }

  method BroadcastTo(ns: Namespace, p: Platform, ghost store: SchemaStore, event: GoString, v: Val, exclude: Socket?, hub: Hub)
    returns (sent: seq<seq<byte>>)
    requires Addressable(ns.name, event) && hub in ns.Hubs() && OneCodec(p, store.schemas, ns.schemas, ns.name, event, v)
    modifies ns.Hubs()`writes
    ensures hub.writes == old(hub.writes) + sent && |sent| == |Targets(ns.sockets, None, exclude, hub)|
    ensures forall raw <- sent :: ParseFrame(raw).Some? && ParseFrame(raw).value.header == Header(FRAME_EVENT, ns.name, event, 0)
    ensures forall raw <- sent :: Announces(p, ns.schemas, ns.name, event, v, raw)
  {
    OneCodecEncodes(p, store.schemas, ns.schemas, ns.name, event, v);
    hide *;
    ghost var count := |Targets(ns.sockets, None, exclude, hub)|;
    var n := |hub.writes|;
    ns.EmitExcluding(p, event, v, exclude);
    AllCopies(old(hub.writes), hub.writes, EventFrame(p, ns.schemas, ns.name, event, v).value, count);
    sent := hub.writes[n..];
    forall raw <- sent
      ensures ParseFrame(raw).Some? && ParseFrame(raw).value.header == Header(FRAME_EVENT, ns.name, event, 0)
      ensures Announces(p, ns.schemas, ns.name, event, v, raw)
    {
      var i :| 0 <= i < |sent| && sent[i] == raw;
      assert hub.writes[n + i] == raw;
    }
  }

  // Where one socket of the connection is meant and the client has no middleware there, its handler for
  // the event hears it once, and no other handler hears anything.
  method BroadcastHeard(ns: Namespace, event: GoString, v: Val, exclude: Socket?, hub: Hub, c: C.Client, spare: seq<byte>)
    requires c.Valid() && ns.name in c.namespaces && Addressable(ns.name, event) && hub in ns.Hubs()
    requires Unpacks(c.p) && Inflates(c.p) && OneCodec(c.p, c.store.schemas, ns.schemas, ns.name, event, v)
    requires |Targets(ns.sockets, None, exclude, hub)| == 1 && c.namespaces[ns.name].middlewares == []
    modifies ns.Hubs()`writes, c.store, c.acks, c.namespaces.Values`handled
    modifies c.heart, c.heart.tickers`running, c.heart.channels`closed, c.heart.timers`pending
    ensures c.Valid() && ns.name in c.namespaces
    ensures var mine := c.namespaces[ns.name];
            mine.handled == old(mine.handled) +
              if event in mine.listeners then [Invocation(mine.listeners[event], Hears(c.p, ns.schemas, event, v))] else []
    ensures forall n <- c.namespaces :: n != ns.name ==> c.namespaces[n].handled == old(c.namespaces[n].handled)
  {
    hide *;
    ghost var logs := C.LogsOf(c.namespaces);
    LogsAre(c.namespaces);
    Broadcast(ns, event, v, exclude, hub, c, spare);
    HeardOnce(c.namespaces, logs, ns.name, Event(event, Hears(c.p, ns.schemas, event, v)));
  }

  lemma HeardOnce(spaces: map<GoString, N.Namespace>, logs: C.Logs, n: GoString, e: Event)
    requires n in spaces && n in logs && spaces[n].middlewares == []
    requires C.LogsOf(spaces) == logs[n := logs[n] + Repeated(C.Raised(spaces[n], e), 1)]
    ensures spaces[n].handled == logs[n] + if e.name in spaces[n].listeners then [Invocation(spaces[n].listeners[e.name], e.payload)] else []
    ensures forall m <- spaces :: m != n ==> m in logs && spaces[m].handled == logs[m]
  {
    RepeatedJustOnce(C.Raised(spaces[n], e));
    hide *;
    Heard(spaces, logs, n, e);
  }

  lemma Heard(spaces: map<GoString, N.Namespace>, logs: C.Logs, n: GoString, e: Event)
    requires n in spaces && n in logs && spaces[n].middlewares == []
    requires C.LogsOf(spaces) == logs[n := logs[n] + C.Raised(spaces[n], e)]
    ensures spaces[n].handled == logs[n] + if e.name in spaces[n].listeners then [Invocation(spaces[n].listeners[e.name], e.payload)] else []
    ensures forall m <- spaces :: m != n ==> m in logs && spaces[m].handled == logs[m]
  {
    LogsAre(spaces);
    RaisedAsIs(spaces[n], e);
    hide *;
  }

  lemma LogsAre(spaces: map<GoString, N.Namespace>)
    ensures C.LogsOf(spaces).Keys == spaces.Keys
    ensures forall n <- spaces :: C.LogsOf(spaces)[n] == spaces[n].handled
  {}

  lemma RepeatedJustOnce<T>(one: seq<T>)
    ensures Repeated(one, 1) == one
  {
    assert Repeated(one, 0) == [];
  }

  lemma RaisedAsIs(ns: N.Namespace, e: Event)
    requires ns.middlewares == []
    ensures C.Raised(ns, e) == if e.name in ns.listeners then [Invocation(ns.listeners[e.name], e.payload)] else []
  {
    DeliveredAsIs(ns.listeners, e);
  }

  // ---------------------------------------------------------------- from a client to a handler of the server

  // The frame of an emit with its payload, as the server reads it.
  lemma EmittedRead(srv: V.Server, known: Known, header: Header, v: Val, spare: seq<byte>)
    requires Unpacks(srv.p) && Inflates(srv.p) && Addressable(header.nsp, header.event) && header.ackID < TWO_32
    requires header.nsp in srv.namespaces
    requires OneCodec(srv.p, known, srv.namespaces[header.nsp].schemas, header.nsp, header.event, v)
    ensures var raw := EmitFrame(srv.p, known, header, v);
            raw.Some? && srv.Decoded(raw.value, spare) ==
                           V.Read(header, Hears(srv.p, srv.namespaces[header.nsp].schemas, header.event, v))
  {
    var bucket, schemas := BucketOf(known, SchemaKey(header.nsp)), srv.namespaces[header.nsp].schemas;
    var b := PayloadBytes(srv.p, bucket, header.event, v);
    if header.event in schemas {
      PayloadDelivered(srv.p, bucket, schemas, header.event, v, spare);
    } else if v != Nil {
      DeflateNotEmpty(srv.p, srv.p.marshal(v).value);
    }
    FrameRoundTrip(Packet(header, b.value));
  }

  // An event message that the server reads, for a namespace in which the connection has a socket.
  method ServeEvent(srv: V.Server, hub: Hub, raw: seq<byte>, spare: seq<byte>, visitor: Visitor, answers: Answers,
                    ghost serial: nat, ghost header: Header, ghost w: Val)
    requires srv.Valid() && hub.num in srv.hubs && hub == srv.hubs[hub.num] && hub.num !in srv.image.st.closed
    requires forall id <- srv.image.objs :: id.hub == hub.num ==> id.serial != serial
    requires srv.Decoded(raw, spare) == V.Read(header, w) && header.typ == FRAME_EVENT && header.nsp in hub.sockets
    modifies srv`run, srv`image, srv.namespaces.Values`sockets, hub, hub.sockets.Values`handled, hub.sockets.Values`rooms
    ensures srv.Valid() && srv.run == old(srv.run) && hub.sockets == old(hub.sockets)
    ensures var s := hub.sockets[header.nsp]; var out := Outcomes(s.middlewares, Event(header.event, w));
            && s.handled == old(s.handled) + Deliveries(s.listeners, out)
            && hub.writes == old(hub.writes) + if s.closed then [] else Replies(srv.p, s.Asking(header.ackID), out)
  {
    srv.Routes(hub, header.nsp);
    hide *;
    ghost var socks := hub.sockets;
    ServedLog(socks, header.nsp);
    ghost var logs, writes := V.Logs(socks), hub.writes;
    var crashed, closed;
    ghost var notes;
    crashed, closed, notes := srv.HandleMessage(hub, raw, spare, visitor, answers, serial);
    ServedLog(socks, header.nsp);
    Served(srv.p, socks, header, w, logs, writes, V.Logs(socks), hub.writes);
  }

  lemma ServedLog(socks: map<GoString, Socket>, n: GoString)
    ensures n in socks ==> n in V.Logs(socks) && V.Logs(socks)[n] == V.Log(socks[n].handled, socks[n].rooms)
  {}

  lemma Served(p: Platform, socks: map<GoString, Socket>, header: Header, w: Val, logs: map<GoString, V.Log>, writes: seq<seq<byte>>,
               logsAfter: map<GoString, V.Log>, writesAfter: seq<seq<byte>>)
    requires V.Delivered(p, socks, header, w, logs, writes, logsAfter, writesAfter)
    requires header.typ == FRAME_EVENT && header.nsp in socks && header.nsp in logs && socks[header.nsp].nsp == header.nsp
    ensures var s := socks[header.nsp]; var out := Outcomes(s.middlewares, Event(header.event, w));
            && header.nsp in logsAfter && logsAfter[header.nsp].handled == logs[header.nsp].handled + Deliveries(s.listeners, out)
            && writesAfter == writes + if s.closed then [] else Replies(p, s.Asking(header.ackID), out)
  {
    hide Outcomes, Deliveries, Replies, PrintFrame;
    assert Pongs(header.nsp, header) == [];
  }

  // A client's emit goes out on its connection.
  method Send(c: C.Client, nsp: GoString, event: GoString, v: Val, cb: Option<nat>) returns (raw: seq<byte>, ghost id: nat)
    requires c.Valid() && c.life.connected && EmitFrame(c.p, c.store.schemas, Header(FRAME_EVENT, nsp, event, 0), v).Some?
    modifies c.acks, c.life`writes
    ensures c.Valid() && c.acks.run == old(c.acks.run) + [A.Emit(cb.Some?)]
    ensures c.acks.callbacks == if cb.Some? then old(c.acks.callbacks) + [cb.value] else old(c.acks.callbacks)
    ensures id == (if cb.Some? then A.After(old(c.acks.run)).counter else 0) < TWO_32
    ensures c.life.writes == old(c.life.writes) + [raw]
    ensures EmitFrame(c.p, c.store.schemas, Header(FRAME_EVENT, nsp, event, id), v) == Some(raw)
  {
    A.Always(c.acks.run);
    id := if cb.Some? then A.After(c.acks.run).counter else 0;
    EmitFrameIs(c.p, c.store.schemas, Header(FRAME_EVENT, nsp, event, 0), v);
    EmitFrameIs(c.p, c.store.schemas, Header(FRAME_EVENT, nsp, event, id), v);
    hide *;
    c.Emit(nsp, event, v, cb);
    raw := c.life.writes[|c.life.writes| - 1];
  }

  // The server's handler for the event hears it once, with the value, where no middleware is registered;
  // what it answers goes back under the id of the emit.
  method EmitHeard(srv: V.Server, hub: Hub, raw: seq<byte>, spare: seq<byte>, visitor: Visitor, answers: Answers, ghost serial: nat,
                   ghost known: Known, ghost header: Header, ghost v: Val)
    requires srv.Valid() && hub.num in srv.hubs && hub == srv.hubs[hub.num] && hub.num !in srv.image.st.closed
    requires forall id <- srv.image.objs :: id.hub == hub.num ==> id.serial != serial
    requires header.typ == FRAME_EVENT && header.nsp in hub.sockets && header.nsp in srv.namespaces
    requires hub.sockets[header.nsp].middlewares == [] && Addressable(header.nsp, header.event) && header.ackID < TWO_32
    requires Unpacks(srv.p) && Inflates(srv.p)
    requires OneCodec(srv.p, known, srv.namespaces[header.nsp].schemas, header.nsp, header.event, v)
    requires Some(raw) == EmitFrame(srv.p, known, header, v)
    modifies srv`run, srv`image, srv.namespaces.Values`sockets, hub, hub.sockets.Values`handled, hub.sockets.Values`rooms
    ensures srv.Valid() && hub.sockets == old(hub.sockets)
    ensures var s, w := hub.sockets[header.nsp], old(Hears(srv.p, srv.namespaces[header.nsp].schemas, header.event, v));
            && s.handled == old(s.handled) + (if header.event in s.listeners then [Invocation(s.listeners[header.event], w)] else [])
            && hub.writes == old(hub.writes) +
                 if s.closed || header.ackID == 0 || header.event !in s.listeners then []
                 else Answered(srv.p, Header(FRAME_ACK, header.nsp, header.event, header.ackID), s.answers(s.listeners[header.event], w))
  {
    hide *;
    ghost var s, w := hub.sockets[header.nsp], Hears(srv.p, srv.namespaces[header.nsp].schemas, header.event, v);
    srv.Routes(hub, header.nsp);
    EmittedRead(srv, known, header, v, spare);
    DeliveredAsIs(s.listeners, Event(header.event, w));
    NoLinks(Event(header.event, w));
    RepliesTo(srv.p, s, header.nsp, header.ackID, Event(header.event, w));
    ServeEvent(srv, hub, raw, spare, visitor, answers, serial, header, w);
  }

  // The message of a client's emit, if the payload can be packed.
  ghost function EmitFrame(p: Platform, known: Known, header: Header, v: Val): Option<seq<byte>> {
    match PayloadBytes(p, BucketOf(known, SchemaKey(header.nsp)), header.event, v)
    case Some(b) => Some(PrintFrame(Packet(header, b)))
    case None => None
  }

  lemma EmitFrameIs(p: Platform, known: Known, header: Header, v: Val)
    ensures var b := PayloadBytes(p, BucketOf(known, SchemaKey(header.nsp)), header.event, v);
            EmitFrame(p, known, header, v) == if b.None? then None else Some(PrintFrame(Packet(header, b.value)))
  {}

  lemma RepliesTo(p: Platform, s: Socket, nsp: GoString, ackID: nat, e: Event)
    requires s.nsp == nsp
    ensures Replies(p, s.Asking(ackID), [Completed(e)]) ==
              if ackID == 0 || e.name !in s.listeners then []
              else Answered(p, Header(FRAME_ACK, nsp, e.name, ackID), s.answers(s.listeners[e.name], e.payload))
  {
    if ackID == 0 { SilentWithoutId(p, s.Asking(ackID), [Completed(e)]); } else { ReplyIs(p, s.Asking(ackID), e); }
  }

  lemma NoLinks(e: Event)
    ensures Outcomes([], e) == [Completed(e)]
  {}

  // ---------------------------------------------------------------- the server's CONNECT

  // A connection that root middleware does not hold up: its root socket is in the root namespace and in
  // the connection's table, and the first message is the CONNECT with the exported schemas.
  method Accept(srv: V.Server, visitor: Visitor, answers: Answers, ghost num: nat, ghost serial: nat)
    returns (hub: Hub, sock: Socket, ghost note: V.Note)
    requires srv.Valid() && num !in srv.hubs && R.ROOT in srv.namespaces && srv.namespaces[R.ROOT].middlewares == []
    modifies srv`run, srv`image, srv`hubs, srv`namespaces, srv.namespaces.Values`sockets
    ensures srv.Valid() && srv.namespaces == old(srv.namespaces) && sock.hub == hub
    ensures R.ROOT in hub.sockets && hub.sockets[R.ROOT] == sock && sock in srv.namespaces[R.ROOT].sockets
    ensures srv.Exported(R.ROOT, note.payload, note.order)
    ensures hub.writes == if note.payload.None? then [] else
                            [PrintFrame(Packet(Header(FRAME_CONNECT, R.ROOT, [], 0), note.payload.value))]
  {
    hide *;
    Opens(srv, num, serial);
    ghost var notes;
    hub, sock, notes := srv.HandleConnection(visitor, answers, num, serial);
    NumberIs(srv, sock);
    AcceptedOnce(srv.p, R.ROOT, sock.id, visitor, notes, V.Trail(old(srv.run) + [R.Open(num, serial)], false, []), srv.Now(sock));
    note := notes[0];
    srv.NowIs(sock);
    ExportedFirst(srv, R.ROOT, visitor, notes);
    Registered(srv, hub, sock, old(srv.run) + [R.Open(num, serial)]);
  }

  lemma AcceptedOnce(p: Platform, nsp: GoString, id: R.Sock, v: Visitor, notes: seq<V.Note>, a: V.Trail, b: V.Trail)
    requires V.Leads(p, nsp, id, Outcomes([], v), notes, a, b) && !a.closed
    ensures |notes| == 1 && b.run == a.run + ([R.Admit(id)] + [R.Register(id)]) && !b.closed
    ensures b.writes == a.writes + if notes[0].payload.None? then [] else
                          [PrintFrame(Packet(Header(FRAME_CONNECT, nsp, [], 0), notes[0].payload.value))]
  {
    assert Fold([], Completed(v)) == Completed(v);
    V.OneDecision(p, nsp, id, [], v, notes, a, b);
  }

  lemma ExportedFirst(srv: V.Server, nsp: GoString, v: Visitor, notes: seq<V.Note>)
    requires srv.Exporting(nsp, Outcomes([], v), notes) && |notes| == 1
    ensures srv.Exported(nsp, notes[0].payload, notes[0].order)
  {
    hide V.Server.Exported;
    assert Outcomes([], v)[0] == Completed(v);
  }

  lemma Opens(srv: V.Server, num: nat, serial: nat)
    requires srv.Valid() && num !in srv.hubs
    ensures R.Sock(num, R.ROOT, serial) in R.After(srv.run + [R.Open(num, serial)]).pending
  {
    assert srv.image.tables.Keys == srv.hubs.Keys == srv.image.st.hubs;
    R.CreatedNow(srv.run, R.Open(num, serial));
  }

  lemma NumberIs(srv: V.Server, sock: Socket)
    requires srv.Valid() && V.Identified(srv.image.objs, sock)
    ensures sock.hub.num == sock.id.hub && sock.nsp == sock.id.nsp
  {}

  lemma Registered(srv: V.Server, hub: Hub, sock: Socket, before: seq<R.Action>)
    requires srv.Valid() && hub.num in srv.hubs && hub == srv.hubs[hub.num] && V.Identified(srv.image.objs, sock) && sock.id.hub == hub.num
    requires srv.run == before + ([R.Admit(sock.id)] + [R.Register(sock.id)]) && sock.id in R.After(before).pending
    ensures sock.id.nsp in hub.sockets && hub.sockets[sock.id.nsp] == sock
    ensures sock.id.nsp in srv.namespaces && sock in srv.namespaces[sock.id.nsp].sockets
  {
    assert srv.run == (before + [R.Admit(sock.id)]) + [R.Register(sock.id)];
    R.AdmittedNow(before, sock.id);
    R.RegisteredNow(before + [R.Admit(sock.id)], sock.id);
    srv.NoOthers(hub, sock.id);
    srv.TableRows(hub, sock.id.nsp);
    srv.Routes(hub, sock.id.nsp);
  }

  // What the client learns from the payload of a CONNECT.
  lemma RootPayloadTeaches(p: Platform, spaces: map<GoString, Bucket>, order: seq<GoString>, payload: seq<byte>, known: Known)
    requires Inflates(p) && SpacesFit(spaces) && KeysDetermineTables(AllDefinitions(spaces)) && Enumerates(order, spaces.Keys)
    requires var all := ExportAll(AllDefinitions(spaces), order);
             RootPayload(p, payload) == Some(all) <==> RootPrintable(all)
    ensures payload != []
    ensures forall nsp <- spaces, event <- spaces[nsp] :: EventName(event) ==>
              Knows(C.Taught(p, known, Ascii("/"), payload), nsp, event, spaces[nsp][event].definition)
  {
    ExportFits(spaces, order);
    hide ExportAll, AllDefinitions, Knows, RootPrintable, RootWritable, SpacesFit, KeysDetermineTables, Enumerates, ParseRoot, AbsorbRoot;
    forall nsp <- spaces, event <- spaces[nsp] | EventName(event)
      ensures Knows(C.Taught(p, known, Ascii("/"), payload), nsp, event, spaces[nsp][event].definition)
    {
      RootTeaches(spaces, order, known, nsp, event);
    }
  }

  lemma NamespacePayloadTeaches(p: Platform, schemas: Bucket, payload: seq<byte>, known: Known, nsp: GoString)
    requires Inflates(p) && nsp != Ascii("/") && TablePrintable(Definitions(schemas))
    requires NamespacePayload(p, payload) == Some(Definitions(schemas)) <==> TablePrintable(Definitions(schemas))
    ensures payload != []
    ensures forall event <- schemas :: EventName(event) ==>
              Knows(C.Taught(p, known, nsp, payload), nsp, event, schemas[event].definition)
  {
    hide Knows, TablePrintable, ParseTable;
    forall event <- schemas | EventName(event)
      ensures Knows(C.Taught(p, known, nsp, payload), nsp, event, schemas[event].definition)
    {
      NamespaceTeaches(schemas, known, nsp, event);
    }
  }

  // So with schemas switched on, and definitions that fit, every CONNECT the server sends teaches the
  // client every acceptable schema it is meant to: of all namespaces, or of the one it joins.
  lemma ExportedTeaches(srv: V.Server, nsp: GoString, payload: Option<seq<byte>>, order: seq<GoString>, known: Known)
    requires srv.useSchemas && srv.Exported(nsp, payload, order) && Inflates(srv.p)
    requires SpacesFit(V.SchemasIn(srv.namespaces)) && KeysDetermineTables(AllDefinitions(V.SchemasIn(srv.namespaces)))
    ensures payload.Some? && payload.value != []
    ensures forall n <- srv.namespaces, event <- srv.namespaces[n].schemas :: EventName(event) && (nsp == R.ROOT || n == nsp) ==>
              Knows(C.Taught(srv.p, known, nsp, payload.value), n, event, srv.namespaces[n].schemas[event].definition)
  {
    hide *;
    SchemasAre(srv.namespaces);
    if nsp == R.ROOT {
      ExportedRoot(srv, payload, order);
      RootPayloadTeaches(srv.p, V.SchemasIn(srv.namespaces), order, payload.value, known);
    } else {
      ExportedOwn(srv, nsp, payload, order);
      NamespacePayloadTeaches(srv.p, srv.namespaces[nsp].schemas, payload.value, known, nsp);
    }
  }

  lemma SchemasAre(namespaces: map<GoString, Namespace>)
    ensures V.SchemasIn(namespaces).Keys == namespaces.Keys && R.ROOT == Ascii("/")
    ensures forall n <- namespaces :: V.SchemasIn(namespaces)[n] == namespaces[n].schemas
  {}

  lemma ExportedRoot(srv: V.Server, payload: Option<seq<byte>>, order: seq<GoString>)
    requires srv.useSchemas && srv.Exported(R.ROOT, payload, order) && Inflates(srv.p) && SpacesFit(V.SchemasIn(srv.namespaces))
    ensures var spaces := V.SchemasIn(srv.namespaces);
            var all := ExportAll(AllDefinitions(spaces), order);
            && payload.Some? && Enumerates(order, spaces.Keys)
            && (RootPayload(srv.p, payload.value) == Some(all) <==> RootPrintable(all))
  {
    var spaces := V.SchemasIn(srv.namespaces);
    assert spaces.Keys == srv.namespaces.Keys;
    hide Enumerates, ExportAll, AllDefinitions, RootPayload, RootPrintable, RootWritable, SpacesFit;
    ExportFits(spaces, order);
  }

  lemma ExportedOwn(srv: V.Server, nsp: GoString, payload: Option<seq<byte>>, order: seq<GoString>)
    requires srv.useSchemas && srv.Exported(nsp, payload, order) && nsp != R.ROOT && Inflates(srv.p) && SpacesFit(V.SchemasIn(srv.namespaces))
    ensures nsp in srv.namespaces
    ensures var defs := Definitions(srv.namespaces[nsp].schemas);
            payload.Some? && TablePrintable(defs) && (NamespacePayload(srv.p, payload.value) == Some(defs) <==> TablePrintable(defs))
  {
    var defs := Definitions(srv.namespaces[nsp].schemas);
    assert nsp in V.SchemasIn(srv.namespaces);
    assert TablePrintable(defs);
    TablePrintableWritable(defs);
    hide Enumerates, NamespacePayload, TablePrintable, TableWritable, SpacesFit;
  }

  // Without schemas the CONNECT is empty.
  lemma NothingExported(srv: V.Server, nsp: GoString, payload: Option<seq<byte>>, order: seq<GoString>)
    requires !srv.useSchemas && srv.Exported(nsp, payload, order)
    ensures payload == Some([])
  {}

  // A CONNECT reaches the client: it learns what the payload teaches, its "connect" handler in that
  // namespace is called, and in the client's own namespace the heartbeat starts.
  method Welcomed(c: C.Client, raw: seq<byte>, spare: seq<byte>, ghost nsp: GoString, ghost payload: seq<byte>)
    requires c.Valid() && c.useSchemas && nsp in c.namespaces && nsp != [] && |nsp| <= 0xFF && payload != []
    requires raw == PrintFrame(Packet(Header(FRAME_CONNECT, nsp, [], 0), payload))
    modifies c.store, c.acks, c.namespaces.Values`handled
    modifies c.heart, c.heart.tickers`running, c.heart.channels`closed, c.heart.timers`pending
    ensures c.Valid() && c.store.schemas == C.Taught(c.p, old(c.store.schemas), nsp, payload)
    ensures nsp == c.nsp ==> c.heart.pingTicker != null && c.heart.pingTicker.running
    ensures var mine := c.namespaces[nsp]; mine.middlewares == [] ==>
              mine.handled == old(mine.handled) +
                if Ascii("connect") in mine.listeners then [Invocation(mine.listeners[Ascii("connect")], Nil)] else []
  {
    hide *;
    ghost var logs := C.LogsOf(c.namespaces);
    LogsAre(c.namespaces);
    HearConnect(c, raw, spare, nsp, payload);
    if c.namespaces[nsp].middlewares == [] { Heard(c.namespaces, logs, nsp, Event(Ascii("connect"), Nil)); }
  }

  method HearConnect(c: C.Client, raw: seq<byte>, spare: seq<byte>, ghost nsp: GoString, ghost payload: seq<byte>)
    requires c.Valid() && c.useSchemas && nsp in c.namespaces && nsp != [] && |nsp| <= 0xFF && payload != []
    requires raw == PrintFrame(Packet(Header(FRAME_CONNECT, nsp, [], 0), payload))
    modifies c.store, c.acks, c.namespaces.Values`handled
    modifies c.heart, c.heart.tickers`running, c.heart.channels`closed, c.heart.timers`pending
    ensures c.Valid() && c.store.schemas == C.Taught(c.p, old(c.store.schemas), nsp, payload)
    ensures nsp == c.nsp ==> c.heart.pingTicker != null && c.heart.pingTicker.running
    ensures C.LogsOf(c.namespaces) == old(C.LogsOf(c.namespaces))[nsp := old(C.LogsOf(c.namespaces)[nsp]) +
              C.Raised(c.namespaces[nsp], Event(Ascii("connect"), Nil))]
  {
    FrameRoundTrip(Packet(Header(FRAME_CONNECT, nsp, [], 0), payload));
    hide ParseFrame, PrintFrame, PayloadValue, C.Raised, C.Client.Valid, C.LogsOf, C.Taught;
    var crashed, called := c.HandleMessage(raw, spare);
  }

  // ---------------------------------------------------------------- a client's CONNECT and answers

  // A CONNECT frame for a namespace that exists and has no middleware: the connection gets a new socket,
  // in the namespace and in the table, and the CONNECT that answers it.
  method Rejoined(srv: V.Server, hub: Hub, raw: seq<byte>, spare: seq<byte>, visitor: Visitor, answers: Answers, ghost serial: nat,
                  ghost nsp: GoString) returns (ghost note: V.Note)
    requires srv.Valid() && hub.num in srv.hubs && hub == srv.hubs[hub.num] && hub.num !in srv.image.st.closed
    requires forall id <- srv.image.objs :: id.hub == hub.num ==> id.serial != serial
    requires nsp != R.ROOT && nsp in srv.namespaces && srv.namespaces[nsp].middlewares == []
    requires ParseFrame(raw) == Some(Packet(Header(FRAME_CONNECT, nsp, [], 0), []))
    modifies srv`run, srv`image, srv.namespaces.Values`sockets, hub, hub.sockets.Values`handled, hub.sockets.Values`rooms
    ensures srv.Valid() && srv.namespaces == old(srv.namespaces)
    ensures nsp in hub.sockets && hub.sockets[nsp].id.serial == serial && hub.sockets[nsp] in srv.namespaces[nsp].sockets
    ensures srv.Exported(nsp, note.payload, note.order)
    ensures hub.writes == old(hub.writes) + if note.payload.None? then [] else
                            [PrintFrame(Packet(Header(FRAME_CONNECT, nsp, [], 0), note.payload.value))]
  {
    hide *;
    Creates(srv, hub, nsp, serial);
    ghost var run, writes := srv.run, hub.writes;
    ghost var closed, notes := AskToJoin(srv, hub, raw, spare, visitor, answers, serial, nsp);
    note := notes[0];
    RegisteredFor(srv, hub, R.Sock(hub.num, nsp, serial), run + [R.Create(hub.num, nsp, serial)]);
  }

  method AskToJoin(srv: V.Server, hub: Hub, raw: seq<byte>, spare: seq<byte>, visitor: Visitor, answers: Answers, ghost serial: nat,
                   ghost nsp: GoString) returns (ghost closed: bool, ghost notes: seq<V.Note>)
    requires srv.Valid() && hub.num in srv.hubs && hub == srv.hubs[hub.num] && hub.num !in srv.image.st.closed
    requires forall id <- srv.image.objs :: id.hub == hub.num ==> id.serial != serial
    requires nsp != R.ROOT && nsp in srv.namespaces && srv.namespaces[nsp].middlewares == []
    requires ParseFrame(raw) == Some(Packet(Header(FRAME_CONNECT, nsp, [], 0), []))
    modifies srv`run, srv`image, srv.namespaces.Values`sockets, hub, hub.sockets.Values`handled, hub.sockets.Values`rooms
    ensures srv.Valid() && |notes| == 1 && srv.Exported(nsp, notes[0].payload, notes[0].order)
    ensures srv.run == old(srv.run) + [R.Create(hub.num, nsp, serial)] +
                         ([R.Admit(R.Sock(hub.num, nsp, serial))] + [R.Register(R.Sock(hub.num, nsp, serial))])
    ensures hub.writes == old(hub.writes) + if notes[0].payload.None? then [] else
                            [PrintFrame(Packet(Header(FRAME_CONNECT, nsp, [], 0), notes[0].payload.value))]
  {
    srv.OtherEventRead(raw, Packet(Header(FRAME_CONNECT, nsp, [], 0), []), spare);
    hide *;
    ghost var run, writes := srv.run, hub.writes;
    var crashed, over;
    crashed, over, notes := srv.HandleMessage(hub, raw, spare, visitor, answers, serial);
    closed := over;
    Connects(srv, nsp, visitor, R.Sock(hub.num, nsp, serial), notes, V.Trail(run, false, writes), V.Trail(srv.run, over, hub.writes));
  }

  lemma Creates(srv: V.Server, hub: Hub, nsp: GoString, serial: nat)
    requires srv.Valid() && hub.num in srv.hubs && hub == srv.hubs[hub.num] && hub.num !in srv.image.st.closed
    requires nsp != R.ROOT && nsp in srv.namespaces && R.Sock(hub.num, nsp, serial) !in srv.image.objs
    ensures R.Sock(hub.num, nsp, serial) in R.After(srv.run + [R.Create(hub.num, nsp, serial)]).pending
  {
    srv.CanCreate(hub, nsp, serial);
    R.CreatedNow(srv.run, R.Create(hub.num, nsp, serial));
  }

  lemma Connects(srv: V.Server, nsp: GoString, v: Visitor, id: R.Sock, notes: seq<V.Note>, a: V.Trail, b: V.Trail)
    requires nsp in srv.namespaces && srv.namespaces[nsp].middlewares == [] && srv.Connected(nsp, v, id, notes, a, b) && !a.closed
    ensures |notes| == 1 && srv.Exported(nsp, notes[0].payload, notes[0].order)
    ensures b.run == a.run + [R.Create(id.hub, nsp, id.serial)] + ([R.Admit(id)] + [R.Register(id)])
    ensures b.writes == a.writes + if notes[0].payload.None? then [] else
                          [PrintFrame(Packet(Header(FRAME_CONNECT, nsp, [], 0), notes[0].payload.value))]
  {
    hide V.Server.Exporting, V.Server.Exported, V.Leads, Outcomes;
    AcceptedOnce(srv.p, nsp, id, v, notes, a.(run := a.run + [R.Create(id.hub, nsp, id.serial)]), b);
    ExportedFirst(srv, nsp, v, notes);
  }

  lemma RegisteredFor(srv: V.Server, hub: Hub, id: R.Sock, before: seq<R.Action>)
    requires srv.Valid() && hub.num in srv.hubs && hub == srv.hubs[hub.num] && id.hub == hub.num
    requires srv.run == before + ([R.Admit(id)] + [R.Register(id)]) && id in R.After(before).pending
    ensures id.nsp in hub.sockets && hub.sockets[id.nsp].id == id
    ensures id.nsp in srv.namespaces && hub.sockets[id.nsp] in srv.namespaces[id.nsp].sockets
  {
    assert srv.run == (before + [R.Admit(id)]) + [R.Register(id)];
    R.AdmittedNow(before, id);
    R.RegisteredNow(before + [R.Admit(id)], id);
    srv.NoOthers(hub, id);
    srv.Routes(hub, id.nsp);
  }

  // An answer that generic MessagePack preserves, to an event without a schema on the client: the
  // callback that waits under its id is called with it.
  method AnswerHeard(c: C.Client, raw: seq<byte>, spare: seq<byte>, ghost header: Header, ghost resp: Val)
    returns (called: Option<(nat, Val)>)
    requires c.Valid() && header.nsp in c.namespaces && AckHeader(header) && Inflates(c.p) && Preserved(c.p, resp)
    requires header.event !in BucketOf(c.store.schemas, SchemaKey(header.nsp)) && DefaultFrame(c.p, header, resp) == [raw]
    requires header.ackID in A.After(c.acks.run).pending
    modifies c.store, c.acks, c.namespaces.Values`handled
    modifies c.heart, c.heart.tickers`running, c.heart.channels`closed, c.heart.timers`pending
    ensures c.Valid() && A.After(old(c.acks.run)).pending[header.ackID] < |c.acks.callbacks|
    ensures called == Some((c.acks.callbacks[A.After(old(c.acks.run)).pending[header.ackID]], resp))
    ensures c.acks.run == old(c.acks.run) + [A.Answer(header.ackID, true)]
  {
    hide *;
    ghost var known, logs, acked, beats := c.store.schemas, C.LogsOf(c.namespaces), c.acks.run, c.heart.run;
    AnswerRead(c, header, resp, raw, spare);
    var crashed;
    crashed, called := c.HandleMessage(raw, spare);
    AnswerTaken(c, ParseFrame(raw).value, resp, known, logs, acked, beats, crashed, called);
  }

  lemma AnswerRead(c: C.Client, header: Header, resp: Val, raw: seq<byte>, spare: seq<byte>)
    requires AckHeader(header) && Inflates(c.p) && Preserved(c.p, resp) && DefaultFrame(c.p, header, resp) == [raw]
    requires header.event !in BucketOf(c.store.schemas, SchemaKey(header.nsp))
    ensures ParseFrame(raw).Some? && ParseFrame(raw).value.header == header
    ensures var v := c.Value(ParseFrame(raw).value, spare); v.Done? && v.value == resp && header.typ == FRAME_ACK
  {
    PreservedReadBack(c.p, c.store.schemas, header, resp, spare);
    FrameRoundTrip(Packet(header, PayloadBytes(c.p, map[], header.event, resp).value));
    hide ParseFrame, PrintFrame, PayloadValue;
  }

  // What HandleMessage says of an answer that was read.
  lemma AnswerTaken(c: C.Client, f: Packet, resp: Val, known: Known, logs: C.Logs, acked: seq<A.Action>, beats: seq<H.Action>,
                    crashed: bool, called: Option<(nat, Val)>)
    requires f.header.nsp in c.namespaces && f.header.typ == FRAME_ACK && f.header.ackID in A.After(acked).pending
    requires exists k :: c.Received(f, Positional.Done(resp, k), known, logs, acked, beats, crashed, called)
    ensures A.After(acked).pending[f.header.ackID] < |c.acks.callbacks|
    ensures called == Some((c.acks.callbacks[A.After(acked).pending[f.header.ackID]], resp))
    ensures c.acks.run == acked + [A.Answer(f.header.ackID, true)]
  {
    hide A.After, C.LogsOf, C.RaisedBy, C.Taught;
  }
}
