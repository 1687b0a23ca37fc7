// One multiplexed channel of a client: its listeners and its middleware (client/namespace.go).
module ClientNamespace {
  import opened Bytes
  import opened SchemaTypes
  import opened Middleware

  lemma HandledStep(listeners: map<GoString, nat>, rest: seq<Link<Event>>, calls: seq<Call<Event>>, k: nat,
                    handled: seq<Invocation>)
    requires k < |calls|
    ensures handled + Deliveries(listeners, OfCalls(rest, calls[..k])) + CallDeliveries(listeners, rest, calls[k])
            == handled + Deliveries(listeners, OfCalls(rest, calls[..k + 1]))
  {
    NextStep(listeners, rest, calls, k);
    Assoc(handled, Deliveries(listeners, OfCalls(rest, calls[..k])), CallDeliveries(listeners, rest, calls[k]));
  }

  class Namespace {
    const nsp: GoString
    var listeners: map<GoString, nat>
    var middlewares: seq<Link<Event>>
    var handled: seq<Invocation>  // the handler calls made so far

    constructor (nsp: GoString)
      ensures this.nsp == nsp && listeners == map[] && middlewares == [] && handled == []
    {
      this.nsp := nsp;
      listeners, middlewares, handled := map[], [], [];
    }

    method On(event: GoString, handler: nat)
      modifies this`listeners
      ensures listeners == old(listeners)[event := handler]
    {
      listeners := listeners[event := handler];
    }

    method Use(mw: Link<Event>)
      modifies this`middlewares
      ensures middlewares == old(middlewares) + [mw]
    {
      middlewares := middlewares + [mw];
    }

    method Invoke(packet: Event)
      modifies this`handled
      ensures handled == old(handled) + Deliver(listeners, Completed(packet))
      ensures packet.name in listeners ==> handled == old(handled) + [Invocation(listeners[packet.name], packet.payload)]
      ensures packet.name !in listeners ==> handled == old(handled)
    {
      if packet.name in listeners {
        handled := handled + [Invocation(listeners[packet.name], packet.payload)];
      }
    }

    // run(idx): every link of the chain works on the same packet object.
    method Run(links: seq<Link<Event>>, idx: nat, packet: EventPacket)
      requires idx <= |links|
      modifies this`handled, packet
      ensures handled == old(handled) + Deliveries(listeners, Outcomes(links[idx..], old(packet.Value())))
      decreases |links| - idx, 1
    {
      if idx >= |links| {
        Invoke(packet.Value());
        DeliverOne(listeners, Completed(packet.Value()));
        return;
      }
      ghost var rest := links[idx + 1..];
      var calls := links[idx](packet.Value());
      ChainStep(links, idx, packet.Value());
      assert Deliveries(listeners, OfCalls(rest, calls[..0])) == [];
      hide *;
      var k := 0;
      while k < |calls|
        invariant 0 <= k <= |calls|
        invariant handled == old(handled) + Deliveries(listeners, OfCalls(rest, calls[..k]))
      {
        HandledStep(listeners, rest, calls, k, old(handled));
        Next(links, idx, packet, calls[k]);
        k := k + 1;
      }
      assert calls[..k] == calls;
    }

    // The closure handed to the middleware at idx.
    method Next(links: seq<Link<Event>>, idx: nat, packet: EventPacket, call: Call<Event>)
      requires idx < |links|
      modifies this`handled, packet
      ensures handled == old(handled) + CallDeliveries(listeners, links[idx + 1..], call)
      decreases |links| - idx, 0
    {
      packet.Set(call.packet);
      if call.err.None? {
        Run(links, idx + 1, packet);
      }
    }

    // The shortcut for an empty chain behaves like the chain.
    method TriggerEvent(event: GoString, data: Val)
      modifies this`handled
      ensures handled == old(handled) + Deliveries(listeners, Outcomes(middlewares, Event(event, data)))
      ensures middlewares == [] ==>
                handled == old(handled) + if event in listeners then [Invocation(listeners[event], data)] else []
      ensures var o := Fold(middlewares, Completed(Event(event, data)));
              ExactlyOnce(middlewares) ==>
                handled == old(handled) +
                  if o.Completed? && o.packet.name in listeners then [Invocation(listeners[o.packet.name], o.packet.payload)] else []
    {
      DeliveredAsIs(listeners, Event(event, data));
      if ExactlyOnce(middlewares) { DeliveredByFinalName(listeners, middlewares, Event(event, data)); }
      hide Fold, ExactlyOnce;
      if |middlewares| == 0 {
        Invoke(Event(event, data));
        DeliverOne(listeners, Completed(Event(event, data)));
        return;
      }
      var packet := new EventPacket(event, data);
      Run(middlewares, 0, packet);
      assert middlewares[0..] == middlewares;
    }
  }
}
