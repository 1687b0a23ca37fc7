// A client as a whole (client/client.go): its connection, its schemas, its namespaces, its
// acknowledgement table and its heartbeat, and what a message or a close does to each.
module ClientObjects {
  import opened Bytes
  import opened SchemaTypes
  import opened Frame
  import opened SchemaTables
  import opened TableCodec
  import opened PositionalLaws
  import opened SchemaSync
  import opened Middleware
  import opened ClientNamespace
  import Positional
  import A = AckTable
  import H = Heartbeat
  import L = ClientLifecycle

  // The schemas known after a CONNECT payload: one that does not decode teaches nothing.
  ghost function Taught(p: Platform, known: Known, nsp: GoString, payload: seq<byte>): Known {
    if nsp == Ascii("/") then
      match RootPayload(p, payload) case Some(all) => AbsorbRoot(known, all) case None => known
    else
      match NamespacePayload(p, payload) case Some(defs) => AbsorbTable(known, SchemaKey(nsp), defs) case None => known
  }

  // The handler calls made so far, by namespace.
  type Logs = map<GoString, seq<Invocation>>

  ghost function LogsOf(spaces: map<GoString, Namespace>): Logs
    reads spaces.Values`handled
  {
    map n | n in spaces :: spaces[n].handled
  }

  // The handler calls that an event raises in a namespace.
  ghost function Raised(ns: Namespace, e: Event): seq<Invocation>
    reads ns`listeners, ns`middlewares
  {
    Deliveries(ns.listeners, Outcomes(ns.middlewares, e))
  }

  ghost predicate Keyed(spaces: map<GoString, Namespace>) {
    forall n <- spaces :: spaces[n].nsp == n
  }

  // The event has been raised in every namespace outside `rest`, once.
  ghost predicate RaisedIn(spaces: map<GoString, Namespace>, e: Event, rest: set<GoString>, before: Logs, now: Logs)
    reads spaces.Values`listeners, spaces.Values`middlewares
  {
    && before.Keys == now.Keys == spaces.Keys
    && forall n <- spaces :: now[n] == before[n] + if n in rest then [] else Raised(spaces[n], e)
  }

  // What a message raises in the namespace it names, given what was read out of its payload.
  ghost function RaisedBy(ns: Namespace, header: Header, v: Positional.Outcome<Val>): seq<Invocation>
    reads ns`listeners, ns`middlewares
  {
    if header.typ == FRAME_CONNECT then Raised(ns, Event(Ascii("connect"), Nil))
    else if header.typ == FRAME_EVENT && v.Done? then Raised(ns, Event(header.event, v.value))
    else []
  }

  lemma SpacesApart(spaces: map<GoString, Namespace>, n: GoString)
    requires Keyed(spaces) && n in spaces
    ensures forall m <- spaces :: m != n ==> spaces[m] != spaces[n]
  {}

  lemma NothingRaised(spaces: map<GoString, Namespace>, e: Event, logs: Logs)
    requires logs.Keys == spaces.Keys
    ensures RaisedIn(spaces, e, spaces.Keys, logs, logs)
  {}

  lemma LogIs(spaces: map<GoString, Namespace>, n: GoString)
    ensures n in spaces ==> n in LogsOf(spaces) && LogsOf(spaces)[n] == spaces[n].handled
  {}

  lemma RaisedStep(spaces: map<GoString, Namespace>, e: Event, rest: set<GoString>, before: Logs, now: Logs, n: GoString)
    requires RaisedIn(spaces, e, rest, before, now) && n in rest && n in spaces
    ensures RaisedIn(spaces, e, rest - {n}, before, now[n := now[n] + Raised(spaces[n], e)])
  {
    hide Raised;
    assert before[n] + [] == before[n];
  }

  // So every namespace without middleware has called its handler for the event, once.
  lemma AllTold(spaces: map<GoString, Namespace>, e: Event, before: Logs)
    requires RaisedIn(spaces, e, {}, before, LogsOf(spaces))
    ensures forall n <- spaces :: spaces[n].middlewares == [] ==>
              n in before && spaces[n].handled == before[n] +
                if e.name in spaces[n].listeners then [Invocation(spaces[n].listeners[e.name], e.payload)] else []
  {
    forall n <- spaces | spaces[n].middlewares == []
      ensures n in before && spaces[n].handled == before[n] +
                if e.name in spaces[n].listeners then [Invocation(spaces[n].listeners[e.name], e.payload)] else []
    {
      LogIs(spaces, n);
      DeliveredAsIs(spaces[n].listeners, e);
    }
  }

  class Client {
    const p: Platform
    const nsp: GoString
    const useSchemas: bool
    const store: SchemaStore
    const acks: A.Acks
    const heart: H.Heartbeat
    const life: L.Client
    var namespaces: map<GoString, Namespace>

    // A new client has its own namespace, the root if none is named, and starts dialling.
    constructor (p: Platform, nsp: GoString, useSchemas: bool, config: L.Config)
      ensures Valid() && this.p == p && this.useSchemas == useSchemas && life.config == config
      ensures this.nsp == (if nsp == [] then Ascii("/") else nsp) && namespaces.Keys == {this.nsp}
      ensures fresh(store) && fresh(acks) && fresh(heart) && fresh(life) && fresh(namespaces.Values)
      ensures store.schemas == map[SchemaKey(this.nsp) := map[]]
      ensures acks.run == [] && heart.run == [] && life.run == []
      ensures heart.channels == {} && heart.tickers == {} && heart.timers == {}
    {
      this.p, this.useSchemas := p, useSchemas;
      var own := if nsp == [] then Ascii("/") else nsp;
      this.nsp := own;
      var ns := new Namespace(own);
      namespaces := map[own := ns];
      store := new SchemaStore();
      acks := new A.Acks();
      heart := new H.Heartbeat();
      life := new L.Client(config, own);
      new;
      store.schemas := map[SchemaKey(own) := map[]];
    }

    ghost predicate Valid()
      reads this`namespaces, acks, heart, life
      reads heart.channels`closed, heart.tickers`running, heart.timers`pending
    {
      && acks.Valid() && heart.Valid() && life.Valid()
      && Keyed(namespaces) && life.namespaces == namespaces.Keys
    }

    // ---------------------------------------------------------------- messages

    // What the client reads out of a payload.
    ghost function Value(f: Packet, spare: seq<byte>): Positional.Outcome<Val>
      reads store`schemas
    {
      PayloadValue(p, BucketOf(store.schemas, SchemaKey(f.header.nsp)), f.header.event, f.payload, spare)
    }

    method Learn(f: Packet)
      modifies store
      ensures store.schemas == if useSchemas && f.payload != [] then Taught(p, old(store.schemas), f.header.nsp, f.payload)
                               else old(store.schemas)
    {
      if useSchemas && |f.payload| > 0 {
        store.AbsorbSchemaPayload(p, f.header.nsp, f.payload);
      }
    }

    method OnConnect(target: Namespace, f: Packet)
      requires heart.Valid()
      modifies store, target`handled, heart, heart.tickers`running, heart.channels`closed
      ensures heart.Valid()
      ensures store.schemas == if useSchemas && f.payload != [] then Taught(p, old(store.schemas), f.header.nsp, f.payload)
                               else old(store.schemas)
      ensures target.handled == old(target.handled) + Raised(target, Event(Ascii("connect"), Nil))
      ensures heart.run == old(heart.run) + if f.header.nsp == nsp then [H.Setup] else []
      ensures heart.timers == old(heart.timers)
      ensures fresh(heart.tickers - old(heart.tickers)) && fresh(heart.channels - old(heart.channels))
      ensures f.header.nsp == nsp ==> heart.pingTicker != null && heart.pingTicker.running
    {
      hide Taught, Deliveries, Outcomes, H.Heartbeat.Valid;
      Learn(f);
      target.TriggerEvent(Ascii("connect"), Nil);
      if f.header.nsp == nsp {
        heart.SetupHeartbeat();
      }
    }

    method OnEvent(target: Namespace, f: Packet, spare: seq<byte>) returns (crashed: bool)
      modifies target`handled
      ensures var v := Value(f, spare);
              && (crashed <==> v.Panicked?)
              && target.handled == old(target.handled) + if v.Done? then Raised(target, Event(f.header.event, v.value)) else []
    {
      var v := store.DecodeAppPayload(p, f.payload, spare, f.header.event, f.header.nsp);
      hide Deliveries, Outcomes, PayloadValue;
      if v.Panicked? { return true; }
      crashed := false;
      if !v.Done? { return; }
      target.TriggerEvent(f.header.event, v.value);
    }

    // What one message for a namespace the client has may change, by its type. A payload that makes
    // the decoder panic ends the client.
    method Handle(target: Namespace, f: Packet, spare: seq<byte>) returns (crashed: bool, called: Option<(nat, Val)>)
      requires acks.Valid() && heart.Valid()
      modifies store, acks, target`handled, heart, heart.tickers`running, heart.channels`closed, heart.timers`pending
      ensures acks.Valid() && heart.Valid() && acks.callbacks == old(acks.callbacks)
      ensures heart.timers == old(heart.timers)
      ensures fresh(heart.tickers - old(heart.tickers)) && fresh(heart.channels - old(heart.channels))
      ensures f.header.typ == FRAME_PONG ==> forall t <- heart.timers :: !t.pending
      ensures f.header.typ == FRAME_CONNECT && f.header.nsp == nsp ==> heart.pingTicker != null && heart.pingTicker.running
      ensures store.schemas == if f.header.typ == FRAME_CONNECT && useSchemas && f.payload != []
                               then Taught(p, old(store.schemas), f.header.nsp, f.payload)
                               else old(store.schemas)
      ensures target.handled == old(target.handled) + RaisedBy(target, f.header, old(Value(f, spare)))
      ensures crashed <==> f.header.typ in {FRAME_EVENT, FRAME_ACK} && old(Value(f, spare)).Panicked?
      ensures acks.run == old(acks.run) +
                if f.header.typ == FRAME_ACK && !crashed then [A.Answer(f.header.ackID, old(Value(f, spare)).Done?)] else []
      ensures var v := old(Value(f, spare));
              && (called.Some? <==> f.header.typ == FRAME_ACK && v.Done? && f.header.ackID in A.After(old(acks.run)).pending)
              && (called.Some? ==> A.After(old(acks.run)).pending[f.header.ackID] < |acks.callbacks|)
              && (called.Some? ==> called.value == (acks.callbacks[A.After(old(acks.run)).pending[f.header.ackID]], v.value))
      ensures heart.run == old(heart.run) +
                if f.header.typ == FRAME_CONNECT && f.header.nsp == nsp then [H.Setup]
                else if f.header.typ == FRAME_PONG then [H.Clear] else []
    {
      hide Deliveries, Outcomes, PayloadValue, A.After, H.After, Taught, H.Heartbeat.Valid;
      crashed, called := false, None;
      if f.header.typ == FRAME_CONNECT {
        OnConnect(target, f);
      } else if f.header.typ == FRAME_EVENT {
        crashed := OnEvent(target, f, spare);
      } else if f.header.typ == FRAME_ACK {
        crashed, called := acks.HandleAck(p, store.schemas, f, spare);
      } else if f.header.typ == FRAME_PONG {
        heart.ClearPongTimeout();
      }
    }

    // What a message for a namespace the client has does, as Handle states it.
    ghost predicate Received(f: Packet, v: Positional.Outcome<Val>, known: Known, logs: Logs, acked: seq<A.Action>, beats: seq<H.Action>,
                             crashed: bool, called: Option<(nat, Val)>)
      requires f.header.nsp in namespaces
      reads this`namespaces, store`schemas, acks`run, acks`callbacks, heart`run
      reads namespaces.Values`listeners, namespaces.Values`middlewares, namespaces.Values`handled
    {
      var h := f.header;
      && (crashed <==> h.typ in {FRAME_EVENT, FRAME_ACK} && v.Panicked?)
      && store.schemas == (if h.typ == FRAME_CONNECT && useSchemas && f.payload != [] then Taught(p, known, h.nsp, f.payload) else known)
      && h.nsp in logs && LogsOf(namespaces) == logs[h.nsp := logs[h.nsp] + RaisedBy(namespaces[h.nsp], h, v)]
      && acks.run == acked + (if h.typ == FRAME_ACK && !crashed then [A.Answer(h.ackID, v.Done?)] else [])
      && heart.run == beats + (if h.typ == FRAME_CONNECT && h.nsp == nsp then [H.Setup] else if h.typ == FRAME_PONG then [H.Clear] else [])
      && (called.Some? <==> h.typ == FRAME_ACK && v.Done? && h.ackID in A.After(acked).pending)
      && (called.Some? ==> A.After(acked).pending[h.ackID] < |acks.callbacks|)
      && (called.Some? ==> called.value == (acks.callbacks[A.After(acked).pending[h.ackID]], v.value))
    }

    method Receive(f: Packet, spare: seq<byte>) returns (crashed: bool, called: Option<(nat, Val)>)
      requires acks.Valid() && heart.Valid() && Keyed(namespaces) && f.header.nsp in namespaces
      modifies store, acks, namespaces.Values`handled, heart, heart.tickers`running, heart.channels`closed, heart.timers`pending
      ensures acks.Valid() && heart.Valid() && acks.callbacks == old(acks.callbacks)
      ensures heart.timers == old(heart.timers)
      ensures fresh(heart.tickers - old(heart.tickers)) && fresh(heart.channels - old(heart.channels))
      ensures f.header.typ == FRAME_PONG ==> forall t <- heart.timers :: !t.pending
      ensures f.header.typ == FRAME_CONNECT && f.header.nsp == nsp ==> heart.pingTicker != null && heart.pingTicker.running
      ensures crashed <==> f.header.typ in {FRAME_EVENT, FRAME_ACK} && old(Value(f, spare)).Panicked?
      ensures Received(f, old(Value(f, spare)), old(store.schemas), old(LogsOf(namespaces)), old(acks.run), old(heart.run), crashed, called)
    {
      hide PayloadValue, Taught, RaisedBy, A.After, H.After, A.Acks.Valid, H.Heartbeat.Valid;
      ghost var before := LogsOf(namespaces);
      SpacesApart(namespaces, f.header.nsp);
      crashed, called := Handle(namespaces[f.header.nsp], f, spare);
      RowWritten(before, LogsOf(namespaces), f.header.nsp);
    }

    // These messages end the client: an event or an answer, for a namespace it has and an event whose
    // schema it knows, whose payload has bytes and some read by that schema leaves them.
    ghost predicate Fatal(raw: seq<byte>, spare: seq<byte>)
      reads this`namespaces, store`schemas
    {
      match ParseFrame(raw)
      case None => false
      case Some(f) =>
        f.header.nsp in namespaces && f.header.typ in {FRAME_EVENT, FRAME_ACK} && Leaves(f, spare)
    }

    ghost predicate Leaves(f: Packet, spare: seq<byte>)
      reads store`schemas
    {
      var key := SchemaKey(f.header.nsp);
      && f.payload != [] && key in store.schemas && f.header.event in store.schemas[key]
      && Short(p, store.schemas[key][f.header.event].definition, f.payload + spare, |f.payload|, 0)
    }

    lemma CrashesExactly(f: Packet, spare: seq<byte>)
      ensures Value(f, spare).Panicked? <==> Leaves(f, spare)
    {
      PayloadPanicsExactly(p, BucketOf(store.schemas, SchemaKey(f.header.nsp)), f.header.event, f.payload, spare);
    }

    // A message that does not parse changes nothing, nor does one for a namespace the client does
    // not have.
    method HandleMessage(raw: seq<byte>, spare: seq<byte>) returns (crashed: bool, called: Option<(nat, Val)>)
      requires Valid()
      modifies store, acks, namespaces.Values`handled, heart, heart.tickers`running, heart.channels`closed, heart.timers`pending
      ensures Valid() && acks.callbacks == old(acks.callbacks)
      ensures heart.timers == old(heart.timers)
      ensures fresh(heart.tickers - old(heart.tickers)) && fresh(heart.channels - old(heart.channels))
      ensures crashed <==> old(Fatal(raw, spare))
      ensures var f := ParseFrame(raw);
              if f.Some? && f.value.header.nsp in namespaces then
                && Received(f.value, old(Value(f.value, spare)), old(store.schemas), old(LogsOf(namespaces)), old(acks.run), old(heart.run), crashed, called)
                && (f.value.header.typ == FRAME_PONG ==> forall t <- heart.timers :: !t.pending)
                && (f.value.header.typ == FRAME_CONNECT && f.value.header.nsp == nsp ==>
                      heart.pingTicker != null && heart.pingTicker.running)
              else
                && !crashed && called.None? && store.schemas == old(store.schemas) && LogsOf(namespaces) == old(LogsOf(namespaces))
                && acks.run == old(acks.run) && heart.run == old(heart.run)
    {
      hide ParseFrame, Leaves, Received, Value, LogsOf, A.Acks.Valid, H.Heartbeat.Valid, L.Client.Valid;
      var f := DecodeFrameHeader(raw);
      if f.None? || f.value.header.nsp !in namespaces { return false, None; }
      CrashesExactly(f.value, spare);
      crashed, called := Receive(f.value, spare);
    }

    // ---------------------------------------------------------------- lifecycle

    // The same event, raised in every namespace in whatever order the map yields them.
    method RaiseAll(e: Event)
      requires Keyed(namespaces)
      modifies namespaces.Values`handled
      ensures RaisedIn(namespaces, e, {}, old(LogsOf(namespaces)), LogsOf(namespaces))
    {
      ghost var before := LogsOf(namespaces);
      var rest := namespaces.Keys;
      NothingRaised(namespaces, e, before);
      hide *;
      while rest != {}
        invariant rest <= namespaces.Keys
        invariant RaisedIn(namespaces, e, rest, before, LogsOf(namespaces))
        decreases |rest|
      {
        var n :| n in rest;
        ghost var now := LogsOf(namespaces);
        LogIs(namespaces, n);
        RaiseIn(n, e);
        RaisedStep(namespaces, e, rest, before, now, n);
        rest := rest - {n};
      }
    }

    method RaiseIn(n: GoString, e: Event)
      requires Keyed(namespaces) && n in namespaces
      modifies namespaces.Values`handled
      ensures LogsOf(namespaces) == old(LogsOf(namespaces))[n := old(LogsOf(namespaces)[n]) + Raised(namespaces[n], e)]
    {
      hide Outcomes, Deliveries;
      ghost var before := LogsOf(namespaces);
      SpacesApart(namespaces, n);
      namespaces[n].TriggerEvent(e.name, e.payload);
      assert Event(e.name, e.payload) == e;
      RowWritten(before, LogsOf(namespaces), n);
    }

    lemma Parts()
      requires Valid()
      ensures acks.Valid() && heart.Valid() && life.Valid() && Keyed(namespaces) && life.namespaces == namespaces.Keys
    {}

    lemma Whole()
      requires acks.Valid() && heart.Valid() && life.Valid() && Keyed(namespaces) && life.namespaces == namespaces.Keys
      ensures Valid()
    {}

    method LetGo()
      requires life.Valid() && heart.Valid() && life.Now().closing > 0
      modifies life`connected, heart, heart.tickers`running, heart.channels`closed, heart.timers`pending
      ensures life.Valid() && heart.Valid() && !life.connected && Still()
      ensures heart.run == old(heart.run) + [H.Cleanup]
    {
      hide H.Heartbeat.Valid, L.Client.Valid, L.Client.Now;
      life.Detach();
      heart.CleanupHeartbeat();
    }

    // handleClose, with the random number drawn: the connection and the heartbeat go, every namespace
    // is told, and the client retries or stops. Schemas and waiting callbacks stay.
    method HandleClose(jitter: real) returns (delay: Option<real>)
      requires Valid() && life.Now().closing > 0 && 0.0 <= jitter < L.JITTER
      modifies life, heart, heart.tickers`running, heart.channels`closed, heart.timers`pending, namespaces.Values`handled
      ensures Valid() && !life.connected
      ensures heart.run == old(heart.run) + [H.Cleanup] && Still()
      ensures RaisedIn(namespaces, Event(Ascii("disconnect"), Nil), {}, old(LogsOf(namespaces)), LogsOf(namespaces))
      ensures life.run == old(life.run) + [L.CloseHandled(jitter)]
      ensures delay.Some? <==> L.Retries(life.config, old(life.Now()))
      ensures delay.Some? <==>
                life.config.autoReconnect && !life.closedByUser && old(life.reconnectAttempts) < life.config.maxAttempts
      ensures delay.Some? ==> life.Now().waits == old(life.Now()).waits + [delay.value]
    {
      hide *;
      ghost var logs := LogsOf(namespaces);
      ghost var e := Event(Ascii("disconnect"), Nil);
      Disconnect();
      ghost var now := LogsOf(namespaces);
      delay := life.Schedule(jitter);
      assert LogsOf(namespaces) == now && RaisedIn(namespaces, e, {}, logs, now);
      Whole();
    }

    method Disconnect()
      requires Valid() && life.Now().closing > 0
      modifies life`connected, heart, heart.tickers`running, heart.channels`closed, heart.timers`pending, namespaces.Values`handled
      ensures acks.Valid() && heart.Valid() && life.Valid() && Keyed(namespaces) && life.namespaces == namespaces.Keys
      ensures !life.connected && heart.run == old(heart.run) + [H.Cleanup] && Still() && life.Now() == old(life.Now())
      ensures RaisedIn(namespaces, Event(Ascii("disconnect"), Nil), {}, old(LogsOf(namespaces)), LogsOf(namespaces))
    {
      hide *;
      Parts();
      LetGo();
      RaiseAll(Event(Ascii("disconnect"), Nil));
    }

    // No ping is due, no pong is waited for, and every stop channel has been closed.
    ghost predicate Still()
      reads heart, heart.channels`closed, heart.tickers`running, heart.timers`pending
    {
      && (forall c <- heart.channels :: c.closed) && (forall k <- heart.tickers :: !k.running)
      && forall t <- heart.timers :: !t.pending
    }

    // The reconnect timer runs out: every namespace hears of the attempt, and the client dials.
    method Reconnect(dialled: bool) returns (ghost order: seq<GoString>)
      requires Valid() && life.Now().timers > 0
      modifies life, namespaces.Values`handled
      ensures Valid()
      ensures RaisedIn(namespaces, Event(Ascii("reconnecting"), Num(GoInt, old(life.reconnectAttempts))), {},
                       old(LogsOf(namespaces)), LogsOf(namespaces))
      ensures life.run == old(life.run) + [L.TimerFires] + [if dialled then L.DialSucceeds else L.DialFails]
      ensures dialled ==> life.connected && Enumerates(order, namespaces.Keys - {Ascii("/")}) && life.writes == L.Rejoins(order)
    {
      hide *;
      ghost var logs := LogsOf(namespaces);
      ghost var e := Event(Ascii("reconnecting"), Num(GoInt, life.reconnectAttempts));
      TimerFires(e);
      ghost var now := LogsOf(namespaces);
      order := life.Connect(dialled);
      assert LogsOf(namespaces) == now && RaisedIn(namespaces, e, {}, logs, now);
      Whole();
    }

    method TimerFires(ghost e: Event)
      requires Valid() && life.Now().timers > 0 && e == Event(Ascii("reconnecting"), Num(GoInt, life.reconnectAttempts))
      modifies life`run, namespaces.Values`handled
      ensures acks.Valid() && heart.Valid() && life.Valid() && Keyed(namespaces) && life.namespaces == namespaces.Keys
      ensures RaisedIn(namespaces, e, {}, old(LogsOf(namespaces)), LogsOf(namespaces))
      ensures life.run == old(life.run) + [L.TimerFires] && life.Now().dialling > 0
    {
      hide *;
      Parts();
      life.Passes(L.TimerFires);
      RaiseAll(Event(Ascii("reconnecting"), Num(GoInt, life.reconnectAttempts)));
    }

    // EmitAck and Emit: the callback is entered first; without a connection the frame is lost.
    method Emit(space: GoString, event: GoString, payload: Val, cb: Option<nat>)
      requires Valid()
      modifies acks, life`writes
      ensures Valid() && acks.run == old(acks.run) + [A.Emit(cb.Some?)]
      ensures acks.callbacks == if cb.Some? then old(acks.callbacks) + [cb.value] else old(acks.callbacks)
      ensures var id := if cb.Some? then A.After(old(acks.run)).counter else 0;
              var bytes := PayloadBytes(p, BucketOf(store.schemas, SchemaKey(space)), event, payload);
              life.writes == if bytes.Some? && life.connected
                             then old(life.writes) + [PrintFrame(Packet(Header(FRAME_EVENT, space, event, id), bytes.value))]
                             else old(life.writes)
    {
      hide A.Acks.Valid, H.Heartbeat.Valid, A.After, PayloadBytes, PrintFrame;
      var frame := acks.DoEmit(p, store.schemas, space, event, payload, cb);
      if frame.None? { return; }
      life.SafeSend(frame.value);
    }
  }

  // A client made for another namespace never hears the server's PONG, which is for the root: the
  // message parses, but to a namespace the client does not have.
  lemma DeafToPong(spaces: map<GoString, Namespace>)
    requires Ascii("/") !in spaces
    ensures var f := ParseFrame(PrintFrame(Packet(Header(FRAME_PONG, Ascii("/"), [], 0), [])));
            f.Some? && f.value.header.typ == FRAME_PONG && f.value.header.nsp !in spaces
  {
    FrameRoundTrip(Packet(Header(FRAME_PONG, Ascii("/"), [], 0), []));
  }
}
