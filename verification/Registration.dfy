// Which sockets are in which table, over every interleaving of connecting, admission, dispatch
// and close (server/server.go, server/hub.go, server/namespace.go). Each action is one block of
// code that runs under a single lock.
module Registration {
  import opened Bytes

  // One socket: the connection and namespace it was created for. The serial number tells apart
  // sockets of the same connection and namespace, as their addresses do.
  datatype Sock = Sock(hub: nat, nsp: GoString, serial: nat)

  // A place in some connection's table.
  datatype Slot = Slot(hub: nat, nsp: GoString)

  datatype State = State(
    spaces: map<GoString, set<Sock>>,  // the server's namespaces and their socket sets
    table: map<Slot, Sock>,            // the socket tables of all connections
    pending: set<Sock>,                // created, connection middleware not finished
    admitting: set<Sock>,              // in the namespace set, not yet in the table
    closing: set<Sock>,                // in the snapshot of a close, still in the namespace set
    hubs: set<nat>,                    // connections opened so far
    closed: set<nat>,                  // those past the snapshot of their close
    used: set<Sock>,                   // every socket created so far
    lost: set<Sock>,                   // history: pushed out of the table by a later registration
    late: set<Sock>                    // history: registered after the close of its connection
  )

  datatype Action =
    | Of(name: GoString)                                 // Server.Of
    | Open(hub: nat, serial: nat)                        // a connection and its root socket
    | Create(hub: nat, nsp: GoString, serial: nat)       // a CONNECT frame for an existing namespace
    | Reject(sock: Sock)                                 // middleware calls next with an error
    | Admit(sock: Sock)                                  // Namespace.addSocket
    | Register(sock: Sock)                               // the write to connHub.sockets
    | Snapshot(hub: nat)                                 // the locked part of handleClose
    | Remove(sock: Sock)                                 // Namespace.removeSocket in handleClose

  const ROOT: GoString := [0x2F]

  function SlotOf(s: Sock): Slot {
    Slot(s.hub, s.nsp)
  }

  predicate Registered(st: State, s: Sock) {
    SlotOf(s) in st.table && st.table[SlotOf(s)] == s
  }

  predicate Member(st: State, s: Sock) {
    s.nsp in st.spaces && s in st.spaces[s.nsp]
  }

  function WithSpace(spaces: map<GoString, set<Sock>>, name: GoString): map<GoString, set<Sock>> {
    if name in spaces then spaces else spaces[name := {}]
  }

  // A rejection changes no table, and middleware may still call next again after it. A socket is
  // admitted once: admitting it again while it is registered changes nothing, and again after that is
  // outside the model. A connection's read loop ends once, and it handles no CONNECT afterwards.
  predicate Enabled(st: State, a: Action) {
    match a
    case Of(_) => true
    case Open(h, _) => h !in st.hubs
    case Create(h, n, k) => h in st.hubs - st.closed && n != ROOT && n in st.spaces && Sock(h, n, k) !in st.used
    case Reject(s) => s in st.used
    case Admit(s) => s in st.pending && s.nsp in st.spaces
    case Register(s) => s in st.admitting
    case Snapshot(h) => h in st.hubs - st.closed
    case Remove(s) => s in st.closing && s.nsp in st.spaces
  }

  function Perform(st: State, a: Action): State
    requires Enabled(st, a)
  {
    match a
    case Of(n) => st.(spaces := WithSpace(st.spaces, n))
    case Open(h, k) =>
      st.(spaces := WithSpace(st.spaces, ROOT), hubs := st.hubs + {h},
          pending := st.pending + {Sock(h, ROOT, k)}, used := st.used + {Sock(h, ROOT, k)})
    case Create(h, n, k) => st.(pending := st.pending + {Sock(h, n, k)}, used := st.used + {Sock(h, n, k)})
    case Reject(s) => st
    case Admit(s) =>
      st.(pending := st.pending - {s}, admitting := st.admitting + {s},
          spaces := st.spaces[s.nsp := st.spaces[s.nsp] + {s}])
    case Register(s) =>
      st.(admitting := st.admitting - {s},
          table := st.table[SlotOf(s) := s],
          lost := if SlotOf(s) in st.table then st.lost + {st.table[SlotOf(s)]} else st.lost,
          late := if s.hub in st.closed then st.late + {s} else st.late)
    case Snapshot(h) =>
      st.(closing := st.closing + (set k | k in st.table && k.hub == h :: st.table[k]),
          table := map k | k in st.table && k.hub != h :: st.table[k],
          closed := st.closed + {h})
    case Remove(s) =>
      st.(closing := st.closing - {s}, spaces := st.spaces[s.nsp := st.spaces[s.nsp] - {s}])
  }

  // An action that cannot happen now changes nothing, so every sequence of actions is a run.
  function Step(st: State, a: Action): State {
    if Enabled(st, a) then Perform(st, a) else st
  }

  // New creates the root namespace.
  function Start(): State {
    State(map[ROOT := {}], map[], {}, {}, {}, {}, {}, {}, {}, {})
  }

  function After(run: seq<Action>): State {
    if run == [] then Start() else Step(After(run[..|run| - 1]), run[|run| - 1])
  }

  // ---------------------------------------------------------------- what every run keeps

  // The stages a socket can be in once its middleware has passed.
  predicate InUse(st: State, s: Sock) {
    s in st.admitting || Registered(st, s) || s in st.closing || s in st.lost
  }

  // Every socket is in at most one stage.
  ghost predicate OneStage(st: State, s: Sock) {
    && (s in st.pending ==> !InUse(st, s))
    && (s in st.admitting ==> !Registered(st, s) && s !in st.closing && s !in st.lost)
    && (Registered(st, s) ==> s !in st.closing && s !in st.lost)
    && (s in st.closing ==> s !in st.lost)
  }

  ghost predicate Known(st: State, s: Sock) {
    s in st.used && s.hub in st.hubs && s.nsp in st.spaces
  }

  ghost predicate SockInv(st: State, s: Sock) {
    && OneStage(st, s)
    && (s in st.pending || InUse(st, s) ==> Known(st, s))
    && (s in st.used ==> s.hub in st.hubs)
    // the namespace sets hold exactly the sockets in use
    && (Member(st, s) <==> InUse(st, s))
    && (s in st.closing ==> s.hub in st.closed)
    && (s in st.late ==> s.hub in st.closed && (Registered(st, s) || s in st.lost))
    && (s.hub in st.closed && Registered(st, s) ==> s in st.late)
  }

  // Every table entry stands at its own connection and namespace.
  ghost predicate TableKeyed(st: State) {
    forall k <- st.table :: SlotOf(st.table[k]) == k
  }

  ghost predicate Inv(st: State) {
    && (forall s: Sock :: SockInv(st, s))
    && TableKeyed(st)
    && (forall n <- st.spaces, s <- st.spaces[n] :: s.nsp == n)
    && st.closed <= st.hubs
  }

  lemma StepKeepsSock(st: State, a: Action, s: Sock)
    requires Inv(st)
    ensures SockInv(Step(st, a), s)
  {
    assert SockInv(st, s);
    if Enabled(st, a) {
      match a
      case Register(t) =>
        assert SockInv(st, t);
        if SlotOf(t) in st.table { assert SockInv(st, st.table[SlotOf(t)]); }
      case _ =>
    }
  }

  lemma StepKeeps(st: State, a: Action)
    requires Inv(st)
    ensures Inv(Step(st, a))
  {
    forall s: Sock ensures SockInv(Step(st, a), s) { StepKeepsSock(st, a, s); }
  }

  lemma {:induction false} Always(run: seq<Action>)
    ensures Inv(After(run)) && ROOT in After(run).spaces
  {
    if run != [] {
      Always(run[..|run| - 1]);
      StepKeeps(After(run[..|run| - 1]), run[|run| - 1]);
    }
  }

  // A socket's namespace exists before the socket does, and is never taken away.
  lemma PendingKnown(run: seq<Action>, s: Sock)
    requires s in After(run).pending
    ensures s.nsp in After(run).spaces && s.hub in After(run).hubs
  {
    Always(run);
    assert SockInv(After(run), s);
  }

  // A registered socket has its places, and being admitted again would not change them.
  lemma RegisteredKnown(run: seq<Action>, s: Sock)
    requires Registered(After(run), s)
    ensures s.nsp in After(run).spaces && s in After(run).spaces[s.nsp] && s.hub in After(run).hubs
    ensures !Enabled(After(run), Admit(s)) && !Enabled(After(run), Register(s))
  {
    Always(run);
    assert SockInv(After(run), s);
  }

  // Registering completes an admission.
  lemma RegisteredNow(run: seq<Action>, s: Sock)
    requires s in After(run).admitting
    ensures Registered(After(run + [Register(s)]), s)
  {
    Unfold(run, Register(s));
  }

  lemma AdmittedNow(run: seq<Action>, s: Sock)
    requires s in After(run).pending
    ensures s in After(run + [Admit(s)]).admitting
  {
    PendingKnown(run, s);
    Unfold(run, Admit(s));
  }

  lemma UsedKnown(run: seq<Action>, s: Sock)
    requires s in After(run).used
    ensures s.hub in After(run).hubs
  {
    Always(run);
    assert SockInv(After(run), s);
  }

  // A socket just created is waiting for its middleware.
  lemma CreatedNow(run: seq<Action>, a: Action)
    requires a.Open? || a.Create?
    requires Enabled(After(run), a)
    ensures Sock(a.hub, if a.Open? then ROOT else a.nsp, a.serial) in After(run + [a]).pending
  {
    Unfold(run, a);
  }

  // The snapshot of a close takes exactly the connection's table.
  lemma SnapshotNow(run: seq<Action>, h: nat)
    requires Enabled(After(run), Snapshot(h))
    ensures var st, st' := After(run), After(run + [Snapshot(h)]);
            && st'.closed == st.closed + {h} && st'.spaces == st.spaces
            && forall s: Sock :: s.hub == h ==> (s in st'.closing <==> Registered(st, s))
  {
    Always(run);
    Unfold(run, Snapshot(h));
    forall s: Sock | s.hub == h
      ensures s in After(run + [Snapshot(h)]).closing <==> Registered(After(run), s)
    {
      assert SockInv(After(run), s);
    }
  }

  lemma RemovedNow(run: seq<Action>, s: Sock)
    requires s in After(run).closing
    ensures s.nsp in After(run).spaces
    ensures var st, st' := After(run), After(run + [Remove(s)]);
            st'.closing == st.closing - {s} && st'.closed == st.closed
  {
    Always(run);
    assert SockInv(After(run), s);
    Unfold(run, Remove(s));
  }

  // ---------------------------------------------------------------- routing

  // Where the connection hands a frame that is not a CONNECT: the table lookup, then the guard
  // at the top of Socket.dispatch.
  function Route(st: State, hub: nat, frameNsp: GoString): Option<Sock> {
    if Slot(hub, frameNsp) !in st.table then None
    else
      var s := st.table[Slot(hub, frameNsp)];
      if frameNsp != s.nsp then None else Some(s)
  }

  // The guard never drops a frame, and a frame only ever reaches a socket of its own connection
  // that is in the socket set of the namespace the frame names.
  lemma RoutingHolds(run: seq<Action>, hub: nat, nsp: GoString)
    ensures var st := After(run);
            && (Route(st, hub, nsp).Some? <==> Slot(hub, nsp) in st.table)
            && (Route(st, hub, nsp).Some? ==>
                  var s := Route(st, hub, nsp).value; s.hub == hub && s.nsp == nsp && Member(st, s))
  {
    Always(run);
    var st := After(run);
    if Slot(hub, nsp) in st.table {
      assert SockInv(st, st.table[Slot(hub, nsp)]);
    }
  }

  // ---------------------------------------------------------------- who is in a namespace

  // The sockets of one connection in one namespace's set.
  function Members(st: State, k: Slot): set<Sock> {
    if k.nsp in st.spaces then set s | s in st.spaces[k.nsp] && s.hub == k.hub else {}
  }

  function Entry(st: State, k: Slot): set<Sock> {
    if k in st.table then {st.table[k]} else {}
  }

  // Nothing of this slot is halfway in or halfway out.
  ghost predicate Settled(st: State, k: Slot) {
    forall s <- st.admitting + st.closing :: SlotOf(s) != k
  }

  ghost predicate NoneLost(st: State, k: Slot) {
    forall s <- st.lost :: SlotOf(s) != k
  }

  ghost predicate NoneLate(st: State, k: Slot) {
    forall s <- st.late :: SlotOf(s) != k
  }

  // A namespace set holds the registered socket of each connection and those it displaced.
  lemma MembersExactly(run: seq<Action>, k: Slot)
    requires Settled(After(run), k)
    ensures var st := After(run); Members(st, k) == Entry(st, k) + set s | s in st.lost && SlotOf(s) == k
  {
    Always(run);
    var st := After(run);
    forall s: Sock
      ensures s in Members(st, k) <==> s in Entry(st, k) || (s in st.lost && SlotOf(s) == k)
    {
      assert SockInv(st, s);
      if k in st.table { assert SlotOf(st.table[k]) == k; }
    }
  }

  // How often the run writes this place of the table, before and after the connection's close.
  function Registrations(run: seq<Action>, k: Slot): nat {
    if run == [] then 0 else
      var before, a := run[..|run| - 1], run[|run| - 1];
      Registrations(before, k) + if a.Register? && SlotOf(a.sock) == k && Enabled(After(before), a) then 1 else 0
  }

  function LateRegistrations(run: seq<Action>, k: Slot): nat {
    if run == [] then 0 else
      var before, a := run[..|run| - 1], run[|run| - 1];
      LateRegistrations(before, k) +
        if a.Register? && SlotOf(a.sock) == k && Enabled(After(before), a) && k.hub in After(before).closed then 1 else 0
  }

  // What the two counts say about the tables.
  ghost predicate Counted(st: State, k: Slot, n: nat, late: nat) {
    && (late == 0 <==> NoneLate(st, k))
    && (late == 0 ==> (n <= 1 <==> NoneLost(st, k)))
    && (k.hub !in st.closed ==> late == 0 && (n == 0 <==> k !in st.table))
  }

  lemma CountedStep(st: State, k: Slot, n: nat, late: nat, a: Action)
    requires Inv(st) && Counted(st, k, n, late)
    ensures var hit := a.Register? && SlotOf(a.sock) == k && Enabled(st, a);
            Counted(Step(st, a), k, if hit then n + 1 else n, if hit && k.hub in st.closed then late + 1 else late)
  {
    if Enabled(st, a) && a.Register? {
      var k' := SlotOf(a.sock);
      if k' in st.table { assert SlotOf(st.table[k']) == k'; }
      var st' := Step(st, a);
      assert st'.lost == st.lost + if k' in st.table then {st.table[k']} else {};
      assert st'.late == st.late + if a.sock.hub in st.closed then {a.sock} else {};
    }
  }

  lemma {:induction false} CountsHold(run: seq<Action>, k: Slot)
    ensures Counted(After(run), k, Registrations(run, k), LateRegistrations(run, k))
  {
    if run != [] {
      var before := run[..|run| - 1];
      CountsHold(before, k);
      Always(before);
      CountedStep(After(before), k, Registrations(before, k), LateRegistrations(before, k), run[|run| - 1]);
    }
  }

  // Connection tables and namespace sets agree about an open connection exactly when it was
  // admitted to the namespace at most once.
  lemma Bijection(run: seq<Action>, k: Slot)
    requires Settled(After(run), k) && k.hub !in After(run).closed
    ensures Members(After(run), k) == Entry(After(run), k) <==> Registrations(run, k) <= 1
  {
    var st := After(run);
    Always(run);
    CountsHold(run, k);
    MembersExactly(run, k);
    forall s | s in st.lost && SlotOf(s) == k
      ensures s in Members(st, k) && s !in Entry(st, k)
    {
      assert SockInv(st, s);
    }
  }

  // A closed connection leaves nothing behind in a namespace exactly when it was admitted to it
  // at most once and not after the close.
  lemma CleanClose(run: seq<Action>, k: Slot)
    requires Settled(After(run), k) && k.hub in After(run).closed
    ensures Members(After(run), k) == {} <==> Registrations(run, k) <= 1 && LateRegistrations(run, k) == 0
  {
    var st := After(run);
    Always(run);
    CountsHold(run, k);
    MembersExactly(run, k);
    forall s | SlotOf(s) == k
      ensures s in Members(st, k) <==> s in st.lost || s in st.late
    {
      assert SockInv(st, s);
    }
  }

  lemma Unfold(run: seq<Action>, a: Action)
    ensures After(run + [a]) == Step(After(run), a)
  {
    assert (run + [a])[..|run|] == run;
  }

  // A second socket of the same place is admitted after the first was registered.
  lemma Displaces(run: seq<Action>, first: Sock, second: Sock)
    requires Registered(After(run), first) && SlotOf(second) == SlotOf(first) && first != second
    requires second in After(run).pending
    ensures first in After(run + [Admit(second)] + [Register(second)]).lost
  {
    Always(run);
    assert SockInv(After(run), second);
    Unfold(run, Admit(second));
    Unfold(run + [Admit(second)], Register(second));
  }

  // What was displaced, or registered too late, stays in its namespace set whatever happens next.
  lemma {:induction false} LeftForGood(run: seq<Action>, more: seq<Action>, s: Sock)
    requires s in After(run).lost || s in After(run).late
    ensures s in After(run + more).lost || s in After(run + more).late
    ensures Member(After(run + more), s)
  {
    if more == [] {
      assert run + more == run;
    } else {
      var m := |more| - 1;
      LeftForGood(run, more[..m], s);
      assert run + more == (run + more[..m]) + [more[m]];
      Unfold(run + more[..m], more[m]);
    }
    Always(run + more);
    assert SockInv(After(run + more), s);
  }

  // Both ways of leaving a socket behind do happen. Here a connection sends CONNECT for one
  // namespace twice: the second socket displaces the first, and no close ever removes that one.
  lemma SecondConnectLeaks(n: GoString)
    requires n != ROOT
    ensures var first, second := Sock(0, n, 1), Sock(0, n, 2);
            var run := [Of(n)] + [Open(0, 0)] + [Create(0, n, 1)] + [Admit(first)] + [Register(first)]
                       + [Create(0, n, 2)] + [Admit(second)] + [Register(second)];
            forall more :: Member(After(run + more), first)
  {
    var first, second := Sock(0, n, 1), Sock(0, n, 2);
    assert [Of(n)] == [] + [Of(n)];
    Unfold([], Of(n));
    Unfold([Of(n)], Open(0, 0));
    Unfold([Of(n)] + [Open(0, 0)], Create(0, n, 1));
    var open := [Of(n)] + [Open(0, 0)] + [Create(0, n, 1)];
    Unfold(open, Admit(first));
    Unfold(open + [Admit(first)], Register(first));
    var once := open + [Admit(first)] + [Register(first)];
    Unfold(once, Create(0, n, 2));
    Displaces(once + [Create(0, n, 2)], first, second);
    forall more { LeftForGood(once + [Create(0, n, 2)] + [Admit(second)] + [Register(second)], more, first); }
  }

  // Here root middleware passes only after the connection has closed.
  lemma LateAdmissionLeaks()
    ensures var root := Sock(0, ROOT, 0);
            var run := [Open(0, 0)] + [Snapshot(0)] + [Admit(root)] + [Register(root)];
            forall more :: Member(After(run + more), root)
  {
    var root := Sock(0, ROOT, 0);
    assert [Open(0, 0)] == [] + [Open(0, 0)];
    Unfold([], Open(0, 0));
    Unfold([Open(0, 0)], Snapshot(0));
    Unfold([Open(0, 0)] + [Snapshot(0)], Admit(root));
    Unfold([Open(0, 0)] + [Snapshot(0)] + [Admit(root)], Register(root));
    forall more { LeftForGood([Open(0, 0)] + [Snapshot(0)] + [Admit(root)] + [Register(root)], more, root); }
  }

  // ---------------------------------------------------------------- connections do not interfere

  predicate Concerns(a: Action, hub: nat) {
    match a
    case Of(_) => true
    case Open(h, _) => h == hub
    case Create(h, _, _) => h == hub
    case Reject(s) => s.hub == hub
    case Admit(s) => s.hub == hub
    case Register(s) => s.hub == hub
    case Snapshot(h) => h == hub
    case Remove(s) => s.hub == hub
  }

  // The run as it would have been with this connection alone.
  function Only(run: seq<Action>, hub: nat): seq<Action> {
    if run == [] then [] else
      var a := run[|run| - 1];
      Only(run[..|run| - 1], hub) + if Concerns(a, hub) then [a] else []
  }

  ghost predicate SameSock(st: State, st': State, s: Sock) {
    && (s in st.pending <==> s in st'.pending)
    && (s in st.admitting <==> s in st'.admitting)
    && (s in st.closing <==> s in st'.closing)
    && (s in st.used <==> s in st'.used)
    && (Registered(st, s) <==> Registered(st', s))
    && (Member(st, s) <==> Member(st', s))
  }

  // Everything about one connection, and the set of namespaces, is the same in both states.
  ghost predicate SameFor(st: State, st': State, hub: nat) {
    && st.spaces.Keys == st'.spaces.Keys
    && (hub in st.hubs <==> hub in st'.hubs)
    && (hub in st.closed <==> hub in st'.closed)
    && forall s: Sock :: s.hub == hub ==> SameSock(st, st', s)
  }

  lemma OthersChangeNothing(st: State, a: Action, hub: nat)
    requires Inv(st) && !Concerns(a, hub) && ROOT in st.spaces
    ensures SameFor(st, Step(st, a), hub)
  {}

  // What an action does to one socket, in terms of that socket alone.
  lemma SockAfter(st: State, a: Action, s: Sock)
    requires TableKeyed(st) && Enabled(st, a)
    ensures var st' := Perform(st, a);
            && (Registered(st', s) <==>
                  if a.Register? && SlotOf(a.sock) == SlotOf(s) then a.sock == s
                  else Registered(st, s) && !(a.Snapshot? && a.hub == s.hub))
            && (Member(st', s) <==> (Member(st, s) || a == Admit(s)) && a != Remove(s))
            && (s in st'.closing <==> (s in st.closing || (a.Snapshot? && a.hub == s.hub && Registered(st, s))) && a != Remove(s))
  {}

  lemma SameSockStep(st: State, st': State, a: Action, s: Sock)
    requires TableKeyed(st) && TableKeyed(st')
    requires Enabled(st, a) && Enabled(st', a) && SameSock(st, st', s)
    ensures SameSock(Perform(st, a), Perform(st', a), s)
  {
    SockAfter(st, a, s);
    SockAfter(st', a, s);
  }

  lemma SameStep(st: State, st': State, a: Action, hub: nat)
    requires Inv(st) && Inv(st') && SameFor(st, st', hub) && Concerns(a, hub)
    ensures SameFor(Step(st, a), Step(st', a), hub)
  {
    assert Enabled(st, a) <==> Enabled(st', a) by {
      match a
      case Create(h, n, k) => assert SameSock(st, st', Sock(h, n, k));
      case Reject(s) => assert SameSock(st, st', s);
      case Admit(s) => assert SameSock(st, st', s);
      case Register(s) => assert SameSock(st, st', s);
      case Remove(s) => assert SameSock(st, st', s);
      case _ =>
    }
    if Enabled(st, a) {
      forall s: Sock | s.hub == hub
        ensures SameSock(Perform(st, a), Perform(st', a), s)
      {
        SameSockStep(st, st', a, s);
      }
    }
  }

  // Whatever other connections do, including their closes, a connection's sockets are exactly
  // those it would have had alone.
  lemma {:induction false} Isolation(run: seq<Action>, hub: nat)
    ensures SameFor(After(run), After(Only(run, hub)), hub)
  {
    if run != [] {
      var before, a := run[..|run| - 1], run[|run| - 1];
      Isolation(before, hub);
      Always(before);
      Always(Only(before, hub));
      if Concerns(a, hub) {
        SameStep(After(before), After(Only(before, hub)), a, hub);
        Unfold(Only(before, hub), a);
      } else {
        OthersChangeNothing(After(before), a, hub);
        assert Only(run, hub) == Only(before, hub);
      }
    }
  }
}
