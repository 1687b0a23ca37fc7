// Middleware chains: the recursive runner that server namespaces, server sockets and client
// namespaces share (server/namespace.go, server/socket.go, client/namespace.go).
module Middleware {
  import opened Bytes
  import opened SchemaTypes

  // The packet that event middleware sees and may change, as a value and as the object that the
  // chain shares.
  datatype Event = Event(name: GoString, payload: Val)

  class EventPacket {
    var event: GoString
    var payload: Val

    constructor (event: GoString, payload: Val)
      ensures Value() == Event(event, payload)
    {
      this.event := event;
      this.payload := payload;
    }

    function Value(): Event
      reads this
    {
      Event(event, payload)
    }

    method Set(e: Event)
      modifies this
      ensures Value() == e
    {
      event := e.name;
      payload := e.payload;
    }
  }

  // One call of next by a middleware: how it left the packet, and the error it passed, if any.
  datatype Call<T> = Call(packet: T, err: Option<GoString>)

  // A middleware looks at the packet and calls next any number of times. Calling it never holds
  // the packet back for good.
  type Link<!T> = T -> seq<Call<T>>

  datatype Outcome<T> =
    | Completed(packet: T)
    | Refused(message: GoString)
    | Held

  // ---------------------------------------------------------------- the recursive runner

  // Everything that comes out of running the chain, in order: run(idx) completes at the end of
  // the list, and otherwise each next of the middleware at idx either refuses or runs idx + 1.
  function Outcomes<T>(links: seq<Link<T>>, packet: T): seq<Outcome<T>>
    decreases |links|, 0
  {
    if links == [] then [Completed(packet)] else OfCalls(links[1..], links[0](packet))
  }

  function OfCalls<T>(rest: seq<Link<T>>, calls: seq<Call<T>>): seq<Outcome<T>>
    decreases |rest|, |calls|
  {
    if calls == [] then [] else
      var last := calls[|calls| - 1];
      OfCalls(rest, calls[..|calls| - 1]) +
        if last.err.Some? then [Refused(last.err.value)] else Outcomes(rest, last.packet)
  }

  // What one call of next adds, before the rest of the chain.
  function CallOutcomes<T>(rest: seq<Link<T>>, call: Call<T>): seq<Outcome<T>> {
    if call.err.Some? then [Refused(call.err.value)] else Outcomes(rest, call.packet)
  }

  lemma OfCallsStep<T>(rest: seq<Link<T>>, calls: seq<Call<T>>, k: nat)
    requires k < |calls|
    ensures OfCalls(rest, calls[..k + 1]) == OfCalls(rest, calls[..k]) + CallOutcomes(rest, calls[k])
  {
    assert calls[..k + 1][..k] == calls[..k];
  }

  lemma ChainStep<T>(links: seq<Link<T>>, idx: nat, packet: T)
    requires idx < |links|
    ensures Outcomes(links[idx..], packet) == OfCalls(links[idx + 1..], links[idx](packet))
  {
    assert links[idx..][1..] == links[idx + 1..];
  }

  lemma ChainEnd<T>(links: seq<Link<T>>, packet: T)
    requires links == []
    ensures Outcomes(links, packet) == [Completed(packet)]
  {}

  lemma NoCalls<T>(rest: seq<Link<T>>, calls: seq<Call<T>>)
    requires calls == []
    ensures OfCalls(rest, calls) == []
  {}

  // ---------------------------------------------------------------- the left-to-right fold

  function Advance<T>(link: Link<T>, o: Outcome<T>): Outcome<T> {
    if !o.Completed? then o else
      var calls := link(o.packet);
      if calls == [] then Held
      else if calls[0].err.Some? then Refused(calls[0].err.value)
      else Completed(calls[0].packet)
  }

  function Fold<T>(links: seq<Link<T>>, o: Outcome<T>): Outcome<T> {
    if links == [] then o
    else Advance(links[|links| - 1], Fold(links[..|links| - 1], o))
  }

  ghost predicate AtMostOnce<T(!new)>(links: seq<Link<T>>) {
    forall l <- links, packet: T :: |l(packet)| <= 1
  }

  ghost predicate ExactlyOnce<T(!new)>(links: seq<Link<T>>) {
    forall l <- links, packet: T :: |l(packet)| == 1
  }

  lemma {:induction false} FoldCons<T>(link: Link<T>, rest: seq<Link<T>>, o: Outcome<T>)
    ensures Fold([link] + rest, o) == Fold(rest, Advance(link, o))
    decreases |rest|
  {
    var all := [link] + rest;
    if rest == [] {
      assert all[..0] == [];
    } else {
      var n := |rest| - 1;
      assert all[..|all| - 1] == [link] + rest[..n];
      FoldCons(link, rest[..n], o);
    }
  }

  lemma {:induction false} FoldStops<T>(links: seq<Link<T>>, o: Outcome<T>)
    requires !o.Completed?
    ensures Fold(links, o) == o
  {
    if links != [] { FoldStops(links[..|links| - 1], o); }
  }

  // When every middleware calls next at most once, the runner is the fold: it produces the
  // fold's result, once, or nothing if some middleware never called next.
  lemma {:induction false} RunnerIsFold<T(!new)>(links: seq<Link<T>>, packet: T)
    requires AtMostOnce(links)
    ensures var o := Fold(links, Completed(packet));
            Outcomes(links, packet) == if o == Held then [] else [o]
    decreases |links|
  {
    if links != [] {
      var link, rest := links[0], links[1..];
      assert links == [link] + rest;
      FoldCons(link, rest, Completed(packet));
      var calls := link(packet);
      assert link in links;
      if calls == [] {
        FoldStops(rest, Held);
      } else {
        var c := calls[0];
        assert calls == [c] && calls[..0] == [];
        assert OfCalls(rest, calls) == [] + if c.err.Some? then [Refused(c.err.value)] else Outcomes(rest, c.packet);
        if c.err.Some? {
          FoldStops(rest, Refused(c.err.value));
        } else {
          assert forall l <- rest :: l in links;
          RunnerIsFold(rest, c.packet);
        }
      }
    }
  }

  // And if every one of them does call it, exactly one thing comes out.
  lemma {:induction false} OneOutcome<T(!new)>(links: seq<Link<T>>, packet: T)
    requires ExactlyOnce(links)
    ensures Outcomes(links, packet) == [Fold(links, Completed(packet))]
    ensures !Fold(links, Completed(packet)).Held?
  {
    RunnerIsFold(links, packet);
    NeverHeld(links, packet);
  }

  lemma {:induction false} NeverHeld<T(!new)>(links: seq<Link<T>>, packet: T)
    requires ExactlyOnce(links)
    ensures !Fold(links, Completed(packet)).Held?
  {
    if links != [] {
      var before := links[..|links| - 1];
      assert forall l <- before :: l in links;
      NeverHeld(before, packet);
      var o := Fold(before, Completed(packet));
      if o.Completed? { assert |links[|links| - 1](o.packet)| == 1; }
    }
  }

  // ---------------------------------------------------------------- where a chain stops

  // The chain refuses with a message exactly when some middleware passes it to next after all
  // those before it let the packet through.
  lemma {:induction false} RefusedAt<T>(links: seq<Link<T>>, packet: T, message: GoString)
    ensures Fold(links, Completed(packet)) == Refused(message) <==>
              exists i :: 0 <= i < |links| && RefusesAt(links, packet, message, i)
  {
    if links != [] {
      var n := |links| - 1;
      var before := links[..n];
      RefusedAt(before, packet, message);
      forall i | 0 <= i < n
        ensures RefusesAt(before, packet, message, i) <==> RefusesAt(links, packet, message, i)
      {
        assert before[..i] == links[..i];
      }
      if RefusesAt(links, packet, message, n) {
        assert Fold(links, Completed(packet)) == Refused(message);
      }
      if Fold(links, Completed(packet)) == Refused(message) {
        if Fold(before, Completed(packet)) == Refused(message) {
          var i :| 0 <= i < n && RefusesAt(before, packet, message, i);
          assert RefusesAt(links, packet, message, i);
        } else {
          assert RefusesAt(links, packet, message, n);
        }
      }
    }
  }

  predicate RefusesAt<T(==)>(links: seq<Link<T>>, packet: T, message: GoString, i: nat)
    requires i < |links|
  {
    var o := Fold(links[..i], Completed(packet));
    o.Completed? && Advance(links[i], o) == Refused(message)
  }

  // ---------------------------------------------------------------- what a packet becomes

  // A middleware that changes the packet and lets it through, once.
  function Rewriting<T>(f: T -> T): Link<T> {
    packet => [Call(f(packet), None)]
  }

  // A middleware that refuses every packet.
  function Refusing<T>(message: GoString): Link<T> {
    packet => [Call(packet, Some(message))]
  }

  // Each middleware sees what the ones before it made of the packet, and what completes is what the
  // last one made of it.
  lemma {:induction false} ChangesAddUp<T(!new)>(fs: seq<T -> T>, f: T -> T, packet: T)
    ensures Fold([], Completed(packet)) == Completed(packet)
    ensures var links := seq(|fs|, i requires 0 <= i < |fs| => Rewriting(fs[i]));
            && Fold(links, Completed(packet)).Completed?
            && Fold(links + [Rewriting(f)], Completed(packet)) == Completed(f(Fold(links, Completed(packet)).packet))
            && Outcomes(links + [Rewriting(f)], packet) == [Completed(f(Fold(links, Completed(packet)).packet))]
  {
    var links := seq(|fs|, i requires 0 <= i < |fs| => Rewriting(fs[i]));
    if fs != [] {
      var n := |fs| - 1;
      ChangesAddUp(fs[..n], fs[n], packet);
      assert links == seq(n, i requires 0 <= i < n => Rewriting(fs[..n][i])) + [Rewriting(fs[n])];
    }
    assert (links + [Rewriting(f)])[..|links|] == links;
    OneOutcome(links + [Rewriting(f)], packet);
  }

  // Behind a refusal nothing runs, and its message comes out.
  lemma RefusalStops<T(!new)>(fs: seq<T -> T>, f: T -> T, message: GoString, rest: seq<Link<T>>, packet: T)
    ensures Outcomes([Refusing(message)] + rest, packet) == [Refused(message)]
    ensures Outcomes([Rewriting(f)] + rest, packet) == Outcomes(rest, f(packet))
  {
    var calls := Refusing(message)(packet);
    assert ([Refusing(message)] + rest)[1..] == rest && ([Rewriting(f)] + rest)[1..] == rest;
    assert calls[..0] == [];
    var passed := Rewriting(f)(packet);
    assert passed[..0] == [];
    assert OfCalls(rest, passed) == OfCalls(rest, []) + Outcomes(rest, f(packet));
  }

  // ---------------------------------------------------------------- event handlers

  // One call of a registered handler. Handlers are told apart by number.
  datatype Invocation = Invocation(handler: nat, payload: Val)

  // What the handlers see of the outcomes of a chain: the handler of a completed packet is the
  // one registered for the name the packet then has; a refused event goes nowhere.
  function Deliver(listeners: map<GoString, nat>, o: Outcome<Event>): seq<Invocation> {
    if o.Completed? && o.packet.name in listeners then [Invocation(listeners[o.packet.name], o.packet.payload)] else []
  }

  function Deliveries(listeners: map<GoString, nat>, outcomes: seq<Outcome<Event>>): seq<Invocation> {
    if outcomes == [] then [] else
      Deliveries(listeners, outcomes[..|outcomes| - 1]) + Deliver(listeners, outcomes[|outcomes| - 1])
  }

  lemma {:induction false} DeliveriesConcat(listeners: map<GoString, nat>, a: seq<Outcome<Event>>, b: seq<Outcome<Event>>)
    ensures Deliveries(listeners, a + b) == Deliveries(listeners, a) + Deliveries(listeners, b)
  {
    if b == [] {
      assert a + b == a;
    } else {
      assert (a + b)[..|a + b| - 1] == a + b[..|b| - 1];
      DeliveriesConcat(listeners, a, b[..|b| - 1]);
    }
  }

  lemma DeliverOne(listeners: map<GoString, nat>, o: Outcome<Event>)
    ensures Deliveries(listeners, [o]) == Deliver(listeners, o)
  {
    assert [o][..0] == [];
  }

  // A completed event calls one handler, the one registered for its name, with its payload; any
  // other outcome calls none.
  lemma DeliverExactly(listeners: map<GoString, nat>, o: Outcome<Event>)
    ensures Deliveries(listeners, [o]) ==
              if o.Completed? && o.packet.name in listeners then [Invocation(listeners[o.packet.name], o.packet.payload)] else []
  {
    DeliverOne(listeners, o);
  }

  // An event whose middleware each call next once reaches at most one handler, once: the one
  // registered for its final name, with its final payload, and only if no middleware refused it.
  lemma DeliveredByFinalName(listeners: map<GoString, nat>, links: seq<Link<Event>>, e: Event)
    requires ExactlyOnce(links)
    ensures var o := Fold(links, Completed(e));
            Deliveries(listeners, Outcomes(links, e)) ==
              if o.Completed? && o.packet.name in listeners then [Invocation(listeners[o.packet.name], o.packet.payload)] else []
  {
    OneOutcome(links, e);
    DeliverExactly(listeners, Fold(links, Completed(e)));
  }

  // Without middleware it is the event as it came.
  lemma DeliveredAsIs(listeners: map<GoString, nat>, e: Event)
    ensures Deliveries(listeners, Outcomes([], e)) ==
              if e.name in listeners then [Invocation(listeners[e.name], e.payload)] else []
  {
    DeliverExactly(listeners, Completed(e));
  }

  // What one call of next causes the handlers to see.
  function CallDeliveries(listeners: map<GoString, nat>, rest: seq<Link<Event>>, call: Call<Event>): seq<Invocation> {
    if call.err.Some? then [] else Deliveries(listeners, Outcomes(rest, call.packet))
  }

  lemma NextStep(listeners: map<GoString, nat>, rest: seq<Link<Event>>, calls: seq<Call<Event>>, k: nat)
    requires k < |calls|
    ensures Deliveries(listeners, OfCalls(rest, calls[..k + 1])) ==
              Deliveries(listeners, OfCalls(rest, calls[..k])) +
              CallDeliveries(listeners, rest, calls[k])
  {
    var before := OfCalls(rest, calls[..k]);
    assert calls[..k + 1][..k] == calls[..k];
    if calls[k].err.Some? {
      var o: Outcome<Event> := Refused(calls[k].err.value);
      DeliveriesConcat(listeners, before, [o]);
      DeliverOne(listeners, o);
    } else {
      DeliveriesConcat(listeners, before, Outcomes(rest, calls[k].packet));
    }
  }

  // ---------------------------------------------------------------- calling next more than once

  function Product(counts: seq<nat>): nat {
    if counts == [] then 1 else counts[0] * Product(counts[1..])
  }

  // Each middleware lets every packet through, calling next a fixed number of times.
  ghost predicate Repeats<T(!new)>(links: seq<Link<T>>, counts: seq<nat>) {
    && |links| == |counts|
    && forall i, packet: T | 0 <= i < |links| :: |links[i](packet)| == counts[i] && AllPass(links[i](packet))
  }

  ghost predicate AllPass<T>(calls: seq<Call<T>>) {
    forall c <- calls :: c.err.None?
  }

  // Nothing guards against it: the completions multiply.
  lemma {:induction false} CompletionsMultiply<T(!new)>(links: seq<Link<T>>, counts: seq<nat>, packet: T)
    requires Repeats(links, counts)
    ensures |Outcomes(links, packet)| == Product(counts)
    decreases |links|, 0
  {
    if links != [] {
      assert Repeats(links[1..], counts[1..]);
      assert |links[0](packet)| == counts[0] && AllPass(links[0](packet));
      CallsMultiply(links[1..], counts[1..], links[0](packet));
    }
  }

  lemma {:induction false} CallsMultiply<T(!new)>(rest: seq<Link<T>>, counts: seq<nat>, calls: seq<Call<T>>)
    requires Repeats(rest, counts) && AllPass(calls)
    ensures |OfCalls(rest, calls)| == |calls| * Product(counts)
    decreases |rest|, |calls|
  {
    if calls != [] {
      var n := |calls| - 1;
      assert AllPass(calls[..n]) && calls[n].err.None?;
      hide Product, Repeats, Outcomes, AllPass;
      CallsMultiply(rest, counts, calls[..n]);
      CompletionsMultiply(rest, counts, calls[n].packet);
      OneMore(n, Product(counts));
    }
  }

  lemma OneMore(n: nat, k: nat)
    ensures (n + 1) * k == n * k + k
  {}

  // A middleware that calls next twice runs everything behind it twice.
  function Twice<T>(): Link<T> {
    packet => [Call(packet, None), Call(packet, None)]
  }

  lemma Doubled<T>(packet: T)
    ensures Outcomes([Twice()], packet) == [Completed(packet), Completed(packet)]
  {
    var calls := Twice()(packet);
    assert calls == [Call(packet, None), Call(packet, None)];
    OfCallsStep([], calls, 0);
    OfCallsStep([], calls, 1);
    assert calls[..2] == calls && calls[..0] == [];
    assert [Twice<T>()][1..] == [];
  }

  ghost predicate AtLeastOnce<T(!new)>(links: seq<Link<T>>) {
    forall l <- links, packet: T :: |l(packet)| >= 1
  }

  // Every middleware that the packet reaches calls next once.
  ghost predicate OnceWhereReached<T>(links: seq<Link<T>>, packet: T) {
    forall i :: 0 <= i < |links| ==> OnceAt(links, packet, i)
  }

  ghost predicate OnceAt<T>(links: seq<Link<T>>, packet: T, i: nat)
    requires i < |links|
  {
    var o := Fold(links[..i], Completed(packet));
    o.Completed? ==> |links[i](o.packet)| == 1
  }

  // Each call of next comes to something when every middleware behind it calls next.
  lemma {:induction false} SomeOutcome<T(!new)>(links: seq<Link<T>>, packet: T)
    requires AtLeastOnce(links)
    ensures |Outcomes(links, packet)| >= 1
    decreases |links|, 0
  {
    if links != [] {
      assert links[0] in links && forall l <- links[1..] :: l in links;
      AsManyOutcomes(links[1..], links[0](packet));
    }
  }

  lemma {:induction false} AsManyOutcomes<T(!new)>(rest: seq<Link<T>>, calls: seq<Call<T>>)
    requires AtLeastOnce(rest)
    ensures |OfCalls(rest, calls)| >= |calls|
    decreases |rest|, |calls|
  {
    if calls != [] {
      var n := |calls| - 1;
      AsManyOutcomes(rest, calls[..n]);
      if calls[n].err.None? { SomeOutcome(rest, calls[n].packet); }
    }
  }

  lemma OnceBehind<T>(links: seq<Link<T>>, packet: T, i: nat)
    requires links != [] && |links[0](packet)| == 1 && i + 1 < |links|
    ensures var c := links[0](packet)[0];
            OnceAt(links, packet, i + 1) <==> c.err.Some? || OnceAt(links[1..], c.packet, i)
  {
    var link, rest, c := links[0], links[1..], links[0](packet)[0];
    assert links[..i + 1] == [link] + rest[..i];
    FoldCons(link, rest[..i], Completed(packet));
    if c.err.Some? { FoldStops(rest[..i], Advance(link, Completed(packet))); }
  }

  // What the rest of the chain is asked, once its first middleware has called next once.
  lemma ReachedBehind<T>(links: seq<Link<T>>, packet: T)
    requires links != [] && |links[0](packet)| == 1
    ensures var c := links[0](packet)[0];
            OnceWhereReached(links, packet) <==> c.err.Some? || OnceWhereReached(links[1..], c.packet)
  {
    var rest, c := links[1..], links[0](packet)[0];
    assert links[..0] == [] && OnceAt(links, packet, 0);
    hide OnceAt;
    if OnceWhereReached(links, packet) && c.err.None? {
      forall i: nat | i < |rest| ensures OnceAt(rest, c.packet, i) { OnceBehind(links, packet, i); }
    }
    if c.err.Some? || OnceWhereReached(rest, c.packet) {
      forall i: nat | i < |links| ensures OnceAt(links, packet, i) {
        if i > 0 { OnceBehind(links, packet, i - 1); }
      }
    }
  }

  // So when every middleware calls next, with or without an error, exactly one thing comes out of
  // the chain if and only if each of those the packet reaches calls it once.
  lemma {:induction false} OnceOnlyIf<T(!new)>(links: seq<Link<T>>, packet: T)
    requires AtLeastOnce(links)
    ensures |Outcomes(links, packet)| == 1 <==> OnceWhereReached(links, packet)
    decreases |links|
  {
    if links != [] {
      var link, rest := links[0], links[1..];
      var calls := link(packet);
      assert link in links && forall l <- rest :: l in links;
      AsManyOutcomes(rest, calls);
      if |calls| == 1 {
        ReachedBehind(links, packet);
        assert calls[..1] == calls && calls[..0] == [];
        OfCallsStep(rest, calls, 0);
        if calls[0].err.None? { OnceOnlyIf(rest, calls[0].packet); }
      } else {
        assert links[..0] == [] && !OnceAt(links, packet, 0);
      }
    }
  }
}
