// The server itself: its namespaces, and what connecting, dispatching and closing do to them
// (server/server.go, server/hub.go). Every method is proved to perform actions of the machine in
// Registration, so what holds of all its runs holds of the program.
module ServerRegistry {
  import opened Bytes
  import opened SchemaTypes
  import opened Frame
  import opened SchemaTables
  import opened TableCodec
  import Positional
  import opened PositionalLaws
  import opened SchemaSync
  import opened Middleware
  import opened ServerReplies
  import opened ServerObjects
  import R = Registration

  type Spaces = map<GoString, set<Socket>>
  type Tables = map<nat, map<GoString, Socket>>
  type Objects = map<R.Sock, Socket>

  function NoSuchNamespace(nsp: GoString): GoString {
    Ascii("Requested namespace '") + nsp + Ascii("' does not exist on cluster.")
  }

  // ---------------------------------------------------------------- abstraction

  ghost predicate Identified(objs: Objects, s: Socket) {
    s.id in objs && objs[s.id] == s
  }

  // The socket sets and connection tables of the objects, beside the machine's state.
  datatype Picture = Picture(spaces: Spaces, tables: Tables, objs: Objects, st: R.State)

  ghost predicate ObjectsAgree(i: Picture) {
    && i.objs.Keys == i.st.used
    && forall id <- i.objs :: i.objs[id].id == id && i.objs[id].nsp == id.nsp && i.objs[id].hub.num == id.hub
  }

  ghost predicate SpacesAgree(i: Picture) {
    && i.spaces.Keys == i.st.spaces.Keys
    && (forall n <- i.spaces, s <- i.spaces[n] :: Identified(i.objs, s) && s.id in i.st.spaces[n])
    && forall n <- i.spaces, id <- i.st.spaces[n] :: id in i.objs && i.objs[id] in i.spaces[n]
  }

  ghost predicate TablesAgree(i: Picture) {
    && i.tables.Keys == i.st.hubs
    && (forall h <- i.tables, n <- i.tables[h] ::
          Identified(i.objs, i.tables[h][n]) && R.Slot(h, n) in i.st.table && i.st.table[R.Slot(h, n)] == i.tables[h][n].id)
    && forall k <- i.st.table :: k.hub in i.tables && k.nsp in i.tables[k.hub]
  }

  ghost predicate Agrees(i: Picture) {
    ObjectsAgree(i) && SpacesAgree(i) && TablesAgree(i)
  }

  // A picture of objects that is one of a state of the machine.
  type Image = i: Picture | Agrees(i) ghost witness Picture(map[R.ROOT := {}], map[], map[], R.Start())

  // What each action does to the objects.
  lemma OfImage(i: Image, n: GoString) returns (j: Image)
    requires n !in i.spaces
    ensures j == Picture(i.spaces[n := {}], i.tables, i.objs, R.Step(i.st, R.Of(n)))
  {
    j := Picture(i.spaces[n := {}], i.tables, i.objs, R.Step(i.st, R.Of(n)));
  }

  lemma OpenImage(i: Image, s: Socket) returns (j: Image)
    requires R.ROOT in i.spaces && s.id.hub !in i.tables && s.id !in i.objs
    requires s.id.nsp == R.ROOT == s.nsp && s.hub.num == s.id.hub
    ensures j == Picture(i.spaces, i.tables[s.id.hub := map[]], i.objs[s.id := s], R.Step(i.st, R.Open(s.id.hub, s.id.serial)))
  {
    j := Picture(i.spaces, i.tables[s.id.hub := map[]], i.objs[s.id := s], R.Step(i.st, R.Open(s.id.hub, s.id.serial)));
  }

  lemma CreateImage(i: Image, s: Socket) returns (j: Image)
    requires R.Enabled(i.st, R.Create(s.id.hub, s.id.nsp, s.id.serial)) && s.id.nsp == s.nsp && s.hub.num == s.id.hub
    ensures j == Picture(i.spaces, i.tables, i.objs[s.id := s], R.Step(i.st, R.Create(s.id.hub, s.id.nsp, s.id.serial)))
  {
    j := Picture(i.spaces, i.tables, i.objs[s.id := s], R.Step(i.st, R.Create(s.id.hub, s.id.nsp, s.id.serial)));
  }

  lemma RejectImage(i: Image, s: Socket) returns (j: Image)
    ensures j == Picture(i.spaces, i.tables, i.objs, R.Step(i.st, R.Reject(s.id)))
  {
    j := Picture(i.spaces, i.tables, i.objs, R.Step(i.st, R.Reject(s.id)));
  }

  lemma AdmitImage(i: Image, s: Socket) returns (j: Image)
    requires Identified(i.objs, s) && R.Enabled(i.st, R.Admit(s.id))
    ensures s.nsp in i.spaces && s.id.nsp == s.nsp
    ensures j == Picture(i.spaces[s.nsp := i.spaces[s.nsp] + {s}], i.tables, i.objs, R.Step(i.st, R.Admit(s.id)))
  {
    j := Picture(i.spaces[s.nsp := i.spaces[s.nsp] + {s}], i.tables, i.objs, R.Step(i.st, R.Admit(s.id)));
  }

  ghost function Registering(i: Picture, s: Socket): Picture
    requires R.Enabled(i.st, R.Register(s.id)) && s.id.hub in i.tables
  {
    Picture(i.spaces, i.tables[s.id.hub := i.tables[s.id.hub][s.nsp := s]], i.objs, R.Perform(i.st, R.Register(s.id)))
  }

  lemma RegisterAgrees(i: Picture, s: Socket)
    requires R.Enabled(i.st, R.Register(s.id)) && s.id.hub in i.tables
    requires TablesAgree(i) && Identified(i.objs, s) && s.id.nsp == s.nsp
    ensures TablesAgree(Registering(i, s))
  {
    var j := Registering(i, s);
    forall h <- j.tables, n <- j.tables[h]
      ensures Identified(j.objs, j.tables[h][n]) && R.Slot(h, n) in j.st.table && j.st.table[R.Slot(h, n)] == j.tables[h][n].id
    {
      if h == s.id.hub && n == s.nsp { assert R.Slot(h, n) == R.SlotOf(s.id); }
    }
  }

  lemma RegisterImage(i: Image, s: Socket) returns (j: Image)
    requires Identified(i.objs, s) && R.Enabled(i.st, R.Register(s.id)) && s.id.hub in i.tables
    ensures j == Picture(i.spaces, i.tables[s.id.hub := i.tables[s.id.hub][s.nsp := s]], i.objs, R.Step(i.st, R.Register(s.id)))
  {
    RegisterAgrees(i, s);
    var k := Registering(i, s);
    assert ObjectsAgree(k) && SpacesAgree(k);
    j := k;
  }

  ghost function Snapshotting(i: Picture, h: nat): Picture
    requires R.Enabled(i.st, R.Snapshot(h))
  {
    Picture(i.spaces, i.tables[h := map[]], i.objs, R.Perform(i.st, R.Snapshot(h)))
  }

  lemma SnapshotAgrees(i: Picture, h: nat)
    requires R.Enabled(i.st, R.Snapshot(h)) && TablesAgree(i)
    ensures TablesAgree(Snapshotting(i, h)) && h in i.tables
  {}

  lemma SnapshotImage(i: Image, h: nat) returns (j: Image)
    requires R.Enabled(i.st, R.Snapshot(h))
    ensures h in i.tables
    ensures j == Picture(i.spaces, i.tables[h := map[]], i.objs, R.Step(i.st, R.Snapshot(h)))
  {
    SnapshotAgrees(i, h);
    var k := Snapshotting(i, h);
    assert ObjectsAgree(k) && SpacesAgree(k);
    j := k;
  }

  lemma RemoveImage(i: Image, s: Socket) returns (j: Image)
    requires Identified(i.objs, s) && R.Enabled(i.st, R.Remove(s.id))
    ensures s.nsp in i.spaces
    ensures j == Picture(i.spaces[s.nsp := i.spaces[s.nsp] - {s}], i.tables, i.objs, R.Step(i.st, R.Remove(s.id)))
  {
    j := Picture(i.spaces[s.nsp := i.spaces[s.nsp] - {s}], i.tables, i.objs, R.Step(i.st, R.Remove(s.id)));
  }

  // The sockets of a snapshot that are still to be removed are those the machine is closing.
  ghost predicate Closing(i: Picture, h: nat, socks: map<GoString, Socket>, rest: set<GoString>) {
    && rest <= socks.Keys && h in i.st.closed
    && (forall n <- rest ::
          Identified(i.objs, socks[n]) && socks[n].nsp == n && socks[n].id.nsp == n && socks[n].id in i.st.closing)
    && forall id <- i.st.closing :: id.hub == h ==> id.nsp in rest && socks[id.nsp].id == id
  }

  lemma ClosingSame(i: Picture, j: Picture, h: nat, socks: map<GoString, Socket>, rest: set<GoString>)
    requires Closing(i, h, socks, rest) && j.objs == i.objs && j.st == i.st
    ensures Closing(j, h, socks, rest)
  {}

  lemma ClosingStep(i: Picture, j: Picture, h: nat, socks: map<GoString, Socket>, rest: set<GoString>, n: GoString)
    requires Closing(i, h, socks, rest) && n in rest
    requires j.objs == i.objs && j.st.closing == i.st.closing - {socks[n].id} && j.st.closed == i.st.closed
    ensures Closing(j, h, socks, rest - {n})
  {}

  // In the end the machine is closing nothing of this connection.
  lemma AllClosed(i: Picture, h: nat, socks: map<GoString, Socket>)
    requires Closing(i, h, socks, {})
    ensures Closing(i, h, map[], {})
  {}

  // ---------------------------------------------------------------- reading the objects

  ghost predicate Named(namespaces: map<GoString, Namespace>) {
    forall n <- namespaces :: namespaces[n].name == n
  }

  ghost predicate Numbered(hubs: map<nat, Hub>) {
    forall h <- hubs :: hubs[h].num == h
  }

  ghost predicate Attached(objs: Objects, hubs: map<nat, Hub>) {
    forall id <- objs :: id.hub in hubs && objs[id].hub == hubs[id.hub]
  }

  ghost function SpacesIn(namespaces: map<GoString, Namespace>): Spaces
    reads namespaces.Values`sockets
  {
    map n | n in namespaces :: namespaces[n].sockets
  }

  ghost function SchemasIn(namespaces: map<GoString, Namespace>): map<GoString, Bucket>
    reads namespaces.Values`schemas
  {
    map n | n in namespaces :: namespaces[n].schemas
  }

  ghost function TablesIn(hubs: map<nat, Hub>): Tables
    reads hubs.Values`sockets
  {
    map h | h in hubs :: hubs[h].sockets
  }

  // Namespaces and connections are told apart by name and number.
  lemma NamespacesApart(namespaces: map<GoString, Namespace>, n: GoString)
    requires Named(namespaces) && n in namespaces
    ensures forall m <- namespaces :: m != n ==> namespaces[m] != namespaces[n]
  {}

  lemma HubsApart(hubs: map<nat, Hub>, h: nat)
    requires Numbered(hubs) && h in hubs
    ensures forall g <- hubs :: g != h ==> hubs[g] != hubs[h]
  {}

  lemma HubAdded(objs: Objects, hubs: map<nat, Hub>, hub: Hub, sock: Socket)
    requires Numbered(hubs) && Attached(objs, hubs) && hub.num !in hubs && sock.hub == hub && sock.id.hub == hub.num
    ensures Numbered(hubs[hub.num := hub]) && Attached(objs[sock.id := sock], hubs[hub.num := hub])
  {}

  // Each namespace has lost its entry of `socks`, except those still in `rest`.
  ghost predicate Emptied(before: Spaces, after: Spaces, socks: map<GoString, Socket>, rest: set<GoString>) {
    && after.Keys == before.Keys
    && forall n <- before :: after[n] == before[n] - if n in socks && n !in rest then {socks[n]} else {}
  }

  lemma EmptiedStart(spaces: Spaces, socks: map<GoString, Socket>)
    ensures Emptied(spaces, spaces, socks, socks.Keys)
  {}

  lemma EmptiedStep(before: Spaces, now: Spaces, socks: map<GoString, Socket>, rest: set<GoString>, n: GoString)
    requires Emptied(before, now, socks, rest) && n in rest && n in socks && n in now
    ensures Emptied(before, now[n := now[n] - {socks[n]}], socks, rest - {n})
  {}

  lemma SpaceOf(namespaces: map<GoString, Namespace>, n: GoString)
    ensures n in namespaces ==> n in SpacesIn(namespaces) && SpacesIn(namespaces)[n] == namespaces[n].sockets
  {}

  lemma NamespaceAdded(namespaces: map<GoString, Namespace>, ns: Namespace)
    requires Named(namespaces) && ns.name !in namespaces && ns.sockets == {}
    ensures var after := namespaces[ns.name := ns]; Named(after) && SpacesIn(after) == SpacesIn(namespaces)[ns.name := {}]
  {}

  // ---------------------------------------------------------------- what connection middleware decides

  // What one outcome of the chain makes happen to the socket.
  function Decided(o: Outcome<Visitor>, id: R.Sock): seq<R.Action> {
    match o
    case Completed(_) => [R.Admit(id)] + [R.Register(id)]
    case Refused(_) => [R.Reject(id)]
    case Held => []
  }

  function AllDecided(out: seq<Outcome<Visitor>>, id: R.Sock): seq<R.Action> {
    if out == [] then [] else AllDecided(out[..|out| - 1], id) + Decided(out[|out| - 1], id)
  }

  // A refusal closes the socket.
  predicate ClosedBy(closed: bool, out: seq<Outcome<Visitor>>) {
    if out == [] then closed else out[|out| - 1].Refused? || ClosedBy(closed, out[..|out| - 1])
  }

  // The schemas announced on an admission, and the map order in which they were exported.
  datatype Note = Note(payload: Option<seq<byte>>, order: seq<GoString>)

  ghost function ConnectFrames(nsp: GoString, payload: Option<seq<byte>>): seq<seq<byte>> {
    if payload.None? then [] else [PrintFrame(Packet(Header(FRAME_CONNECT, nsp, [], 0), payload.value))]
  }

  // What an open socket is told of one outcome.
  ghost function Notice(p: Platform, nsp: GoString, o: Outcome<Visitor>, note: Note): seq<seq<byte>> {
    match o
    case Completed(_) => ConnectFrames(nsp, note.payload)
    case Refused(m) => DefaultFrame(p, ErrorHeader(nsp, 0), Message(m))
    case Held => []
  }

  // What is sent for all of them: nothing once the socket is closed.
  ghost function Notices(p: Platform, nsp: GoString, closed: bool, out: seq<Outcome<Visitor>>, notes: seq<Note>): seq<seq<byte>>
    requires |notes| == |out|
  {
    if out == [] then [] else
      var n := |out| - 1;
      Notices(p, nsp, closed, out[..n], notes[..n]) + Unless(ClosedBy(closed, out[..n]), Notice(p, nsp, out[n], notes[n]))
  }

  lemma {:induction false} DecidedConcat(a: seq<Outcome<Visitor>>, b: seq<Outcome<Visitor>>, id: R.Sock)
    ensures AllDecided(a + b, id) == AllDecided(a, id) + AllDecided(b, id)
  {
    if b == [] {
      assert a + b == a;
    } else {
      var n := |b| - 1;
      assert (a + b)[..|a + b| - 1] == a + b[..n];
      DecidedConcat(a, b[..n], id);
      Assoc(AllDecided(a, id), AllDecided(b[..n], id), Decided(b[n], id));
    }
  }

  lemma {:induction false} ClosedConcat(closed: bool, a: seq<Outcome<Visitor>>, b: seq<Outcome<Visitor>>)
    ensures ClosedBy(closed, a + b) == ClosedBy(ClosedBy(closed, a), b)
  {
    if b == [] {
      assert a + b == a;
    } else {
      assert (a + b)[..|a + b| - 1] == a + b[..|b| - 1];
      ClosedConcat(closed, a, b[..|b| - 1]);
    }
  }

  lemma {:induction false} NoticesConcat(p: Platform, nsp: GoString, closed: bool, a: seq<Outcome<Visitor>>, an: seq<Note>,
                                         b: seq<Outcome<Visitor>>, bn: seq<Note>)
    requires |an| == |a| && |bn| == |b|
    ensures Notices(p, nsp, closed, a + b, an + bn) == Notices(p, nsp, closed, a, an) + Notices(p, nsp, ClosedBy(closed, a), b, bn)
  {
    if b == [] {
      assert a + b == a && an + bn == an;
    } else {
      var n := |b| - 1;
      assert (a + b)[..|a + b| - 1] == a + b[..n] && (an + bn)[..|an + bn| - 1] == an + bn[..n];
      NoticesConcat(p, nsp, closed, a, an, b[..n], bn[..n]);
      ClosedConcat(closed, a, b[..n]);
      Assoc(Notices(p, nsp, closed, a, an), Notices(p, nsp, ClosedBy(closed, a), b[..n], bn[..n]),
            Unless(ClosedBy(ClosedBy(closed, a), b[..n]), Notice(p, nsp, b[n], bn[n])));
    }
  }

  // The state that a chain works on.
  datatype Trail = Trail(run: seq<R.Action>, closed: bool, writes: seq<seq<byte>>)

  // The outcomes lead from one state to the other.
  ghost predicate Leads(p: Platform, nsp: GoString, id: R.Sock, out: seq<Outcome<Visitor>>, notes: seq<Note>, a: Trail, b: Trail) {
    && |notes| == |out|
    && b.run == a.run + AllDecided(out, id)
    && b.closed == ClosedBy(a.closed, out)
    && b.writes == a.writes + Notices(p, nsp, a.closed, out, notes)
  }

  lemma LeadsNowhere(p: Platform, nsp: GoString, id: R.Sock, a: Trail)
    ensures Leads(p, nsp, id, [], [], a, a)
  {}

  lemma LeadsOne(p: Platform, nsp: GoString, id: R.Sock, o: Outcome<Visitor>, note: Note, a: Trail)
    ensures Leads(p, nsp, id, [o], [note], a,
                  Trail(a.run + Decided(o, id), a.closed || o.Refused?, a.writes + Unless(a.closed, Notice(p, nsp, o, note))))
  {
    assert [o][..0] == [] && [note][..0] == [];
    assert AllDecided([o], id) == AllDecided([], id) + Decided(o, id);
    assert Notices(p, nsp, a.closed, [o], [note]) ==
           Notices(p, nsp, a.closed, [], []) + Unless(ClosedBy(a.closed, []), Notice(p, nsp, o, note));
  }

  lemma LeadsOn(p: Platform, nsp: GoString, id: R.Sock, out: seq<Outcome<Visitor>>, notes: seq<Note>, a: Trail, b: Trail,
                more: seq<Outcome<Visitor>>, moreNotes: seq<Note>, c: Trail)
    requires Leads(p, nsp, id, out, notes, a, b) && Leads(p, nsp, id, more, moreNotes, b, c)
    ensures Leads(p, nsp, id, out + more, notes + moreNotes, a, c)
  {
    DecidedConcat(out, more, id);
    ClosedConcat(a.closed, out, more);
    NoticesConcat(p, nsp, a.closed, out, notes, more, moreNotes);
    Assoc(a.run, AllDecided(out, id), AllDecided(more, id));
    Assoc(a.writes, Notices(p, nsp, a.closed, out, notes), Notices(p, nsp, b.closed, more, moreNotes));
  }

  // When every middleware calls next exactly once there is one decision, the fold's: the socket is
  // admitted and registered and its connection gets the CONNECT, or it is rejected and closed and its
  // connection gets the reason.
  lemma OneDecision(p: Platform, nsp: GoString, id: R.Sock, links: seq<Link<Visitor>>, v: Visitor, notes: seq<Note>, a: Trail, b: Trail)
    requires ExactlyOnce(links) && Leads(p, nsp, id, Outcomes(links, v), notes, a, b) && !a.closed
    ensures var o := Fold(links, Completed(v));
            && |notes| == 1 && !o.Held?
            && (o.Completed? ==>
                  && b.run == a.run + ([R.Admit(id)] + [R.Register(id)]) && !b.closed
                  && b.writes == a.writes + if notes[0].payload.None? then [] else
                                   [PrintFrame(Packet(Header(FRAME_CONNECT, nsp, [], 0), notes[0].payload.value))])
            && (o.Refused? ==>
                  var packed := p.marshal(Map(map[Ascii("message") := Str(o.message)]));
                  && b.run == a.run + [R.Reject(id)] && b.closed
                  && b.writes == a.writes + if packed.None? then [] else
                                   [PrintFrame(Packet(Header(FRAME_ACK, nsp, Ascii("error"), 0), p.deflate(packed.value)))])
  {
    OneOutcome(links, v);
    var o := Fold(links, Completed(v));
    LeadsOne(p, nsp, id, o, notes[0], a);
    assert notes == [notes[0]];
    if o.Refused? { ErrorFrame(p, nsp, 0, o.message); }
    hide DefaultFrame, PrintFrame, Message, ErrorHeader;
  }

  // ---------------------------------------------------------------- what a message does

  // A message is read, or dropped with an error, or makes the decoder panic. Nothing in the program
  // recovers from that: it ends the server.
  datatype Reading = Read(header: Header, payload: Val) | Dropped | Crash

  // What messages change about a socket.
  datatype Log = Log(handled: seq<Invocation>, rooms: set<GoString>)

  ghost function Logs(socks: map<GoString, Socket>): map<GoString, Log>
    reads socks.Values`handled, socks.Values`rooms
  {
    map n | n in socks :: Log(socks[n].handled, socks[n].rooms)
  }

  // What a frame that is not a CONNECT does to the socket it reaches, and what is sent back.
  ghost function LogAfter(s: Socket, header: Header, payload: Val, before: Log): Log
    reads s`middlewares, s`listeners
  {
    Log(before.handled + Deliveries(s.listeners, Raised(s.nsp, s.middlewares, header, payload)),
        RoomsAfter(before.rooms, s.nsp, header, payload))
  }

  // A frame that is not a CONNECT reaches the socket registered for its namespace, and no other.
  ghost predicate Delivered(p: Platform, socks: map<GoString, Socket>, header: Header, payload: Val,
                            logs: map<GoString, Log>, writes: seq<seq<byte>>, logsAfter: map<GoString, Log>, writesAfter: seq<seq<byte>>)
    reads socks.Values`middlewares, socks.Values`listeners, socks.Values`closed
  {
    var n := header.nsp;
    if n in socks && n in logs then
      && writesAfter == writes + SentBack(p, socks[n], header, payload)
      && logsAfter == logs[n := LogAfter(socks[n], header, payload, logs[n])]
    else
      n !in socks && writesAfter == writes && logsAfter == logs
  }

  ghost function SentBack(p: Platform, s: Socket, header: Header, payload: Val): seq<seq<byte>>
    reads s`middlewares, s`listeners, s`closed
  {
    Unless(s.closed, Replies(p, s.Asking(header.ackID), Raised(s.nsp, s.middlewares, header, payload)) + Pongs(s.nsp, header))
  }

  // ---------------------------------------------------------------- the server

  class Server {
    const p: Platform
    const useSchemas: bool
    var namespaces: map<GoString, Namespace>
    ghost var hubs: map<nat, Hub>      // every connection opened so far
    ghost var image: Image             // every socket created so far, and where it is
    ghost var run: seq<R.Action>       // what has happened

    ghost predicate Valid()
      reads this, namespaces.Values`sockets, hubs.Values`sockets
    {
      && Named(namespaces) && Numbered(hubs) && Attached(image.objs, hubs)
      && image.spaces == SpacesIn(namespaces) && image.tables == TablesIn(hubs) && image.st == R.After(run)
    }

    // New creates the root namespace.
    constructor (p: Platform, useSchemas: bool)
      ensures Valid() && run == [] && this.p == p && this.useSchemas == useSchemas
      ensures namespaces.Keys == {R.ROOT} && fresh(namespaces.Values) && hubs == map[]
    {
      this.p, this.useSchemas := p, useSchemas;
      var root := new Namespace(R.ROOT);
      namespaces := map[R.ROOT := root];
      hubs, run := map[], [];
      image := Picture(map[R.ROOT := {}], map[], map[], R.Start());
    }

    ghost method Happen(a: R.Action, after: Image)
      requires image.st == R.After(run) && after.st == R.Step(image.st, a)
      modifies this`run, this`image
      ensures run == old(run) + [a] && image == after && image.st == R.After(run)
    {
      R.Unfold(run, a);
      run := run + [a];
      image := after;
    }

    method Of(name: GoString) returns (ns: Namespace)
      requires Valid()
      modifies this`namespaces, this`run, this`image
      ensures Valid() && name in namespaces && ns == namespaces[name]
      ensures name in old(namespaces) ==> namespaces == old(namespaces) && run == old(run) && image == old(image)
      ensures name !in old(namespaces) ==>
                fresh(ns) && namespaces == old(namespaces)[name := ns] && run == old(run) + [R.Of(name)]
    {
      if name in namespaces { return namespaces[name]; }
      ns := new Namespace(name);
      hide R.Step, R.After, ObjectsAgree, SpacesAgree, TablesAgree;
      assert Valid();
      hide *;
      Enlist(ns);
    }

    // A namespace nobody has joined yet enters the registry.
    method Enlist(ns: Namespace)
      requires Valid() && ns.name !in namespaces && ns.sockets == {}
      modifies this`namespaces, this`run, this`image
      ensures Valid() && namespaces == old(namespaces)[ns.name := ns] && run == old(run) + [R.Of(ns.name)]
    {
      assert ns.name !in image.spaces;
      NamespaceAdded(namespaces, ns);
      hide *;
      NewName(ns.name);
      namespaces := namespaces[ns.name := ns];
      assert image.spaces == SpacesIn(namespaces);
      assert image.tables == TablesIn(hubs);
    }

    // The machine's side of a new namespace.
    ghost method NewName(name: GoString)
      requires Valid() && name !in image.spaces
      modifies this`run, this`image
      ensures run == old(run) + [R.Of(name)] && image.spaces == old(image.spaces)[name := {}]
      ensures image.tables == old(image.tables) && image.objs == old(image.objs) && image.st == R.After(run)
    {
      hide R.Step, R.After, ObjectsAgree, SpacesAgree, TablesAgree, SpacesIn, TablesIn, Named, Numbered, Attached;
      ghost var after := OfImage(image, name);
      Happen(R.Of(name), after);
    }

    // Middleware has not yet let the socket in, or has done so and it is still registered.
    ghost predicate Admissible(sock: Socket)
      reads this`image
    {
      Identified(image.objs, sock) && (sock.id in image.st.pending || R.Registered(image.st, sock.id))
    }

    // A registered socket is where admission puts it.
    lemma InPlace(sock: Socket)
      requires Valid() && Identified(image.objs, sock) && R.Registered(image.st, sock.id)
      ensures sock.nsp in namespaces && sock in namespaces[sock.nsp].sockets
      ensures sock.nsp in sock.hub.sockets && sock.hub.sockets[sock.nsp] == sock
      ensures R.Step(image.st, R.Admit(sock.id)) == image.st == R.Step(image.st, R.Register(sock.id))
    {
      R.RegisteredKnown(run, sock.id);
      assert image.spaces.Keys == namespaces.Keys && sock.nsp in image.spaces;
      assert sock.nsp in image.tables[sock.id.hub];
    }

    // Either way the socket ends up in its namespace, and then in its connection's table.
    lemma Admitting(sock: Socket) returns (after: Image)
      requires Valid() && Admissible(sock)
      ensures after.st == R.Step(image.st, R.Admit(sock.id)) && after.objs == image.objs && after.tables == image.tables
      ensures sock.nsp in namespaces && after.spaces == image.spaces[sock.nsp := image.spaces[sock.nsp] + {sock}]
      ensures sock.id in after.st.admitting || R.Registered(after.st, sock.id)
    {
      if sock.id in image.st.pending {
        R.PendingKnown(run, sock.id);
        R.AdmittedNow(run, sock.id);
        R.Unfold(run, R.Admit(sock.id));
        hide R.After, TablesAgree;
        after := AdmitImage(image, sock);
      } else {
        InPlace(sock);
        after := image;
        assert image.spaces[sock.nsp] + {sock} == image.spaces[sock.nsp];
      }
    }

    lemma Registering(sock: Socket) returns (after: Image)
      requires Valid() && Identified(image.objs, sock) && (sock.id in image.st.admitting || R.Registered(image.st, sock.id))
      ensures after.st == R.Step(image.st, R.Register(sock.id)) && after.objs == image.objs && after.spaces == image.spaces
      ensures sock.id.hub in hubs && sock.hub == hubs[sock.id.hub]
      ensures after.tables == image.tables[sock.id.hub := image.tables[sock.id.hub][sock.nsp := sock]]
      ensures R.Registered(after.st, sock.id)
    {
      if sock.id in image.st.admitting {
        R.RegisteredNow(run, sock.id);
        R.Unfold(run, R.Register(sock.id));
        hide R.After, SpacesAgree;
        after := RegisterImage(image, sock);
      } else {
        InPlace(sock);
        after := image;
        ghost var row := image.tables[sock.id.hub];
        assert row[sock.nsp := sock] == row;
      }
    }

    // The part of admission under the namespace's lock, and the part under the connection's.
    method AddSocket(sock: Socket)
      requires Valid() && Admissible(sock)
      modifies this`run, this`image, namespaces.Values`sockets
      ensures Valid() && run == old(run) + [R.Admit(sock.id)] && image.objs == old(image.objs)
      ensures sock.nsp in namespaces && namespaces[sock.nsp].sockets == old(namespaces[sock.nsp].sockets) + {sock}
      ensures sock.id in image.st.admitting || R.Registered(image.st, sock.id)
    {
      hide R.Step, R.After, R.Registered, ObjectsAgree, SpacesAgree, TablesAgree, Admissible;
      ghost var after := Admitting(sock);
      NamespacesApart(namespaces, sock.nsp);
      namespaces[sock.nsp].AddSocket(sock);
      RowWritten(image.spaces, SpacesIn(namespaces), sock.nsp);
      Happen(R.Admit(sock.id), after);
    }

    method PutInTable(sock: Socket)
      requires Valid() && Identified(image.objs, sock) && (sock.id in image.st.admitting || R.Registered(image.st, sock.id))
      modifies this`run, this`image, sock.hub`sockets
      ensures Valid() && run == old(run) + [R.Register(sock.id)] && image.objs == old(image.objs)
      ensures sock.hub.sockets == old(sock.hub.sockets)[sock.nsp := sock] && R.Registered(image.st, sock.id)
    {
      hide R.Step, R.After, R.Registered, ObjectsAgree, SpacesAgree, TablesAgree;
      ghost var after := Registering(sock);
      HubsApart(hubs, sock.id.hub);
      sock.hub.sockets := sock.hub.sockets[sock.nsp := sock];
      RowWritten(image.tables, TablesIn(hubs), sock.id.hub);
      Happen(R.Register(sock.id), after);
    }

    // ---------------------------------------------------------------- admission

    // What the payload of the CONNECT frame that answers an admission says: the schemas of every
    // namespace for the root, those of the namespace itself for any other.
    ghost predicate Exported(nsp: GoString, payload: Option<seq<byte>>, order: seq<GoString>)
      reads this`namespaces, namespaces.Values`schemas
    {
      nsp in namespaces && Enumerates(order, namespaces.Keys) &&
      if !useSchemas then payload == Some([])
      else if nsp == R.ROOT then
        var all := ExportAll(AllDefinitions(SchemasIn(namespaces)), order);
        && (payload.Some? <==> RootWritable(all))
        && (payload.Some? && Inflates(p) ==> (RootPayload(p, payload.value) == Some(all) <==> RootPrintable(all)))
      else
        var defs := Definitions(namespaces[nsp].schemas);
        && (payload.Some? <==> TableWritable(defs))
        && (payload.Some? && Inflates(p) ==> (NamespacePayload(p, payload.value) == Some(defs) <==> TablePrintable(defs)))
    }

    method ConnectPayload(nsp: GoString) returns (r: Option<seq<byte>>, ghost order: seq<GoString>)
      requires nsp in namespaces
      ensures Exported(nsp, r, order)
    {
      var spaces := map n | n in namespaces :: namespaces[n].schemas;
      var all;
      all, order := ExportAllSchemas(spaces);
      assert spaces.Keys == namespaces.Keys;
      if !useSchemas { return Some([]), order; }
      if nsp == R.ROOT {
        r := EncodeRootSchemaPayload(p, all);
      } else {
        var schemas := namespaces[nsp].schemas;
        r := EncodeNamespaceSchemaPayload(p, map e | e in schemas :: schemas[e].definition);
      }
    }

    method Join(sock: Socket)
      requires Valid() && Admissible(sock)
      modifies this`run, this`image, namespaces.Values`sockets, sock.hub`sockets
      ensures Valid() && run == old(run) + ([R.Admit(sock.id)] + [R.Register(sock.id)]) && image.objs == old(image.objs)
      ensures sock.nsp in namespaces && sock.hub.sockets == old(sock.hub.sockets)[sock.nsp := sock]
      ensures R.Registered(image.st, sock.id)
    {
      hide *;
      AdmissibleKnown(sock);
      AddSocket(sock);
      PutInTable(sock);
      Assoc(old(run), [R.Admit(sock.id)], [R.Register(sock.id)]);
    }

    lemma AdmissibleKnown(sock: Socket)
      requires Admissible(sock)
      ensures Identified(image.objs, sock)
    {}

    method SendConnect(sock: Socket) returns (payload: Option<seq<byte>>, ghost order: seq<GoString>)
      requires sock.nsp in namespaces
      modifies sock.hub`writes
      ensures Exported(sock.nsp, payload, order)
      ensures sock.hub.writes == old(sock.hub.writes) + Unless(sock.closed, ConnectFrames(sock.nsp, payload))
    {
      hide Exported;
      payload, order := ConnectPayload(sock.nsp);
      if payload.None? { return; }
      var buf := EncodeFrame(Header(FRAME_CONNECT, sock.nsp, [], 0), payload.value);
      sock.Send(buf[..]);
    }

    // done(true): the socket joins the namespace, then the connection's table, and is told.
    method Admission(sock: Socket) returns (payload: Option<seq<byte>>, ghost order: seq<GoString>)
      requires Valid() && Admissible(sock)
      modifies this`run, this`image, namespaces.Values`sockets, sock.hub
      ensures Valid() && run == old(run) + ([R.Admit(sock.id)] + [R.Register(sock.id)]) && image.objs == old(image.objs)
      ensures sock.hub.sockets == old(sock.hub.sockets)[sock.nsp := sock] && R.Registered(image.st, sock.id)
      ensures Exported(sock.nsp, payload, order)
      ensures sock.hub.writes == old(sock.hub.writes) + Unless(sock.closed, ConnectFrames(sock.nsp, payload))
    {
      hide *;
      Join(sock);
      payload, order := SendConnect(sock);
    }

    // ---------------------------------------------------------------- connection middleware

    ghost function Now(sock: Socket): Trail
      reads this`run, sock`closed, sock.hub`writes
    {
      Trail(run, sock.closed, sock.hub.writes)
    }

    lemma NowIs(sock: Socket)
      ensures Now(sock) == Trail(run, sock.closed, sock.hub.writes)
    {}

    // Every admission among the outcomes announced what the server then exported.
    ghost predicate Exporting(nsp: GoString, out: seq<Outcome<Visitor>>, notes: seq<Note>)
      reads this`namespaces, namespaces.Values`schemas
    {
      |notes| == |out| && forall i :: 0 <= i < |out| && out[i].Completed? ==> Exported(nsp, notes[i].payload, notes[i].order)
    }

    lemma ExportingConcat(nsp: GoString, a: seq<Outcome<Visitor>>, an: seq<Note>, b: seq<Outcome<Visitor>>, bn: seq<Note>)
      requires Exporting(nsp, a, an) && Exporting(nsp, b, bn)
      ensures Exporting(nsp, a + b, an + bn)
    {
      hide Exported;
    }

    lemma ExportingOne(nsp: GoString, o: Outcome<Visitor>, note: Note)
      requires o.Completed? ==> Exported(nsp, note.payload, note.order)
      ensures Exporting(nsp, [o], [note]) && Exporting(nsp, [], [])
    {
      hide Exported;
    }

    // done(true), and the refusal with done(false).
    method Admit(sock: Socket) returns (ghost note: Note)
      requires Valid() && Admissible(sock)
      modifies this`run, this`image, namespaces.Values`sockets, sock.hub
      ensures Valid() && Admissible(sock) && image.objs == old(image.objs)
      ensures var o := Completed(sock.visitor);
              Leads(p, sock.nsp, sock.id, [o], [note], old(Now(sock)), Now(sock)) && Exporting(sock.nsp, [o], [note])
    {
      hide Valid, Exported, Exporting, ConnectFrames, R.Registered;
      var payload;
      ghost var order;
      payload, order := Admission(sock);
      note := Note(payload, order);
      LeadsOne(p, sock.nsp, sock.id, Completed(sock.visitor), note, old(Now(sock)));
      ExportingOne(sock.nsp, Completed(sock.visitor), note);
    }

    ghost method Rejects(sock: Socket)
      requires Valid() && Admissible(sock)
      modifies this`run, this`image
      ensures Valid() && Admissible(sock) && image.objs == old(image.objs) && run == old(run) + [R.Reject(sock.id)]
    {
      hide R.After, ObjectsAgree, SpacesAgree, TablesAgree;
      var after := RejectImage(image, sock);
      Happen(R.Reject(sock.id), after);
    }

    method Refuse(sock: Socket, message: GoString)
      requires Valid() && Admissible(sock)
      modifies this`run, this`image, sock`closed, sock.hub`writes
      ensures Valid() && Admissible(sock) && image.objs == old(image.objs) && sock.closed
      ensures run == old(run) + [R.Reject(sock.id)]
      ensures sock.hub.writes == old(sock.hub.writes) + Unless(old(sock.closed), DefaultFrame(p, ErrorHeader(sock.nsp, 0), Message(message)))
    {
      hide *;
      SmallId();
      sock.SendDefault(p, ErrorHeader(sock.nsp, 0), Message(message));
      sock.closed := true;
      Rejects(sock);
    }

    static lemma SmallId()
      ensures forall n: GoString :: ErrorHeader(n, 0).ackID < TWO_32
    {}

    // run(idx): each outcome of the rest of the chain takes effect as it comes.
    method Run(links: seq<Link<Visitor>>, idx: nat, sock: Socket) returns (ghost notes: seq<Note>)
      requires Valid() && Admissible(sock) && idx <= |links|
      modifies this`run, this`image, namespaces.Values`sockets, sock`closed, sock`visitor, sock.hub
      ensures Valid() && Admissible(sock) && image.objs == old(image.objs)
      ensures var out := Outcomes(links[idx..], old(sock.visitor));
              Leads(p, sock.nsp, sock.id, out, notes, old(Now(sock)), Now(sock)) && Exporting(sock.nsp, out, notes)
      decreases |links| - idx, 1
    {
      hide *;
      if idx >= |links| {
        ChainEnd(links[idx..], sock.visitor);
        ghost var note := Admit(sock);
        return [note];
      }
      ghost var rest, from := links[idx + 1..], Now(sock);
      var calls := links[idx](sock.visitor);
      ChainStep(links, idx, sock.visitor);
      notes := [];
      LeadsNowhere(p, sock.nsp, sock.id, from);
      NoCalls(rest, calls[..0]);
      ExportingOne(sock.nsp, Outcome<Visitor>.Held, Note(None, []));
      var k := 0;
      while k < |calls|
        invariant 0 <= k <= |calls|
        invariant Valid() && Admissible(sock) && image.objs == old(image.objs)
        invariant Leads(p, sock.nsp, sock.id, OfCalls(rest, calls[..k]), notes, from, Now(sock))
        invariant Exporting(sock.nsp, OfCalls(rest, calls[..k]), notes)
      {
        ghost var out, more := OfCalls(rest, calls[..k]), CallOutcomes(rest, calls[k]);
        ghost var here := Now(sock);
        ghost var added := Next(links, idx, sock, calls[k]);
        OfCallsStep(rest, calls, k);
        LeadsOn(p, sock.nsp, sock.id, out, notes, from, here, more, added, Now(sock));
        ExportingConcat(sock.nsp, out, notes, more, added);
        notes := notes + added;
        k := k + 1;
      }
      assert calls[..k] == calls;
    }

    // The closure handed to the middleware at idx.
    method Next(links: seq<Link<Visitor>>, idx: nat, sock: Socket, call: Call<Visitor>) returns (ghost notes: seq<Note>)
      requires Valid() && Admissible(sock) && idx < |links|
      modifies this`run, this`image, namespaces.Values`sockets, sock`closed, sock`visitor, sock.hub
      ensures Valid() && Admissible(sock) && image.objs == old(image.objs)
      ensures var out := CallOutcomes(links[idx + 1..], call);
              Leads(p, sock.nsp, sock.id, out, notes, old(Now(sock)), Now(sock)) && Exporting(sock.nsp, out, notes)
      decreases |links| - idx, 0
    {
      hide Valid, Admissible, Leads, Exporting, Outcomes, DefaultFrame;
      sock.visitor := call.packet;
      if call.err.None? {
        notes := Run(links, idx + 1, sock);
        return;
      }
      Refuse(sock, call.err.value);
      ghost var o: Outcome<Visitor> := Refused(call.err.value);
      ghost var note := Note(None, []);
      LeadsOne(p, sock.nsp, sock.id, o, note, old(Now(sock)));
      ExportingOne(sock.nsp, o, note);
      notes := [note];
    }

    // runMiddlewares.
    method Gate(ns: Namespace, sock: Socket) returns (ghost notes: seq<Note>)
      requires Valid() && Admissible(sock)
      modifies this`run, this`image, namespaces.Values`sockets, sock`closed, sock`visitor, sock.hub
      ensures Valid() && Admissible(sock) && image.objs == old(image.objs)
      ensures var out := Outcomes(ns.middlewares, old(sock.visitor));
              Leads(p, sock.nsp, sock.id, out, notes, old(Now(sock)), Now(sock)) && Exporting(sock.nsp, out, notes)
    {
      hide *;
      assert ns.middlewares[0..] == ns.middlewares;
      notes := Run(ns.middlewares, 0, sock);
    }

    // ---------------------------------------------------------------- connecting

    ghost method EnterHub(hub: Hub, sock: Socket)
      requires Valid() && hub.num !in hubs && hub.sockets == map[] && R.ROOT in namespaces && sock.id !in image.objs
      requires sock.hub == hub && sock.nsp == R.ROOT && sock.id == R.Sock(hub.num, R.ROOT, sock.id.serial)
      modifies this`run, this`image, this`hubs
      ensures Valid() && Identified(image.objs, sock) && hubs == old(hubs)[hub.num := hub]
      ensures run == old(run) + [R.Open(hub.num, sock.id.serial)]
    {
      hide R.Step, R.After, ObjectsAgree, SpacesAgree, TablesAgree;
      var after := OpenImage(image, sock);
      HubAdded(image.objs, hubs, hub, sock);
      assert TablesIn(hubs[hub.num := hub]) == TablesIn(hubs)[hub.num := map[]];
      hubs := hubs[hub.num := hub];
      Happen(R.Open(hub.num, sock.id.serial), after);
    }

    // A number no connection has is free for the root socket of a new one.
    lemma Unused(id: R.Sock)
      requires Valid() && id.hub !in hubs
      ensures id !in image.objs && id.hub !in image.st.hubs && R.ROOT in namespaces
    {
      assert image.tables.Keys == hubs.Keys && image.spaces.Keys == namespaces.Keys;
      R.Always(run);
      if id in image.objs { R.UsedKnown(run, id); }
    }

    // The connection and its root socket. The numbers stand for addresses not used before.
    method Open(visitor: Visitor, answers: Answers, ghost num: nat, ghost serial: nat) returns (hub: Hub, sock: Socket)
      requires Valid() && num !in hubs
      modifies this`run, this`image, this`hubs
      ensures Valid() && fresh(hub) && fresh(sock) && sock.hub == hub && sock.nsp == R.ROOT
      ensures hub.writes == [] && !sock.closed && sock.visitor == visitor && sock.rooms == {visitor.name}
      ensures Identified(image.objs, sock) && sock.id in image.st.pending && hubs == old(hubs)[num := hub]
      ensures run == old(run) + [R.Open(num, serial)] && sock.id == R.Sock(num, R.ROOT, serial)
    {
      hide R.Step, R.After, ObjectsAgree, SpacesAgree, TablesAgree;
      hub := new Hub(num);
      sock := new Socket(R.ROOT, hub, visitor, answers, serial);
      Unused(sock.id);
      R.CreatedNow(run, R.Open(num, serial));
      EnterHub(hub, sock);
    }

    // A new connection: its root socket passes through the root namespace's middleware.
    method HandleConnection(visitor: Visitor, answers: Answers, ghost num: nat, ghost serial: nat)
      returns (hub: Hub, sock: Socket, ghost notes: seq<Note>)
      requires Valid() && num !in hubs
      modifies this`run, this`image, this`hubs, this`namespaces, namespaces.Values`sockets
      ensures Valid() && fresh(hub) && fresh(sock) && sock.hub == hub && sock.id == R.Sock(num, R.ROOT, serial)
      ensures Identified(image.objs, sock) && hubs == old(hubs)[num := hub]
      ensures namespaces == old(namespaces) && R.ROOT in namespaces
      ensures var out := Outcomes(namespaces[R.ROOT].middlewares, visitor);
              && Leads(p, R.ROOT, sock.id, out, notes, Trail(old(run) + [R.Open(num, serial)], false, []), Now(sock))
              && Exporting(R.ROOT, out, notes)
    {
      hide *;
      hub, sock := Open(visitor, answers, num, serial);
      RootThere();
      var ns := Of(R.ROOT);
      AdmissibleIfPending(sock);
      NowIs(sock);
      notes := Gate(ns, sock);
      AdmissibleKnown(sock);
    }

    lemma RootThere()
      requires Valid()
      ensures R.ROOT in namespaces
    {
      R.Always(run);
      assert image.spaces.Keys == namespaces.Keys;
    }

    lemma AdmissibleIfPending(sock: Socket)
      requires Identified(image.objs, sock) && sock.id in image.st.pending
      ensures Admissible(sock)
    {}

    ghost method EnterSocket(hub: Hub, sock: Socket)
      requires Valid() && hub.num in hubs && hub == hubs[hub.num] && sock.hub == hub && sock.id == R.Sock(hub.num, sock.nsp, sock.id.serial)
      requires R.Enabled(image.st, R.Create(sock.id.hub, sock.nsp, sock.id.serial))
      modifies this`run, this`image
      ensures Valid() && Identified(image.objs, sock) && sock.id in image.st.pending
      ensures run == old(run) + [R.Create(hub.num, sock.nsp, sock.id.serial)]
    {
      hide R.Step, R.After, ObjectsAgree, SpacesAgree, TablesAgree;
      R.CreatedNow(run, R.Create(hub.num, sock.nsp, sock.id.serial));
      var after := CreateImage(image, sock);
      Happen(R.Create(hub.num, sock.nsp, sock.id.serial), after);
    }

    lemma CanCreate(hub: Hub, nsp: GoString, serial: nat)
      requires Valid() && hub.num in hubs && hub.num !in image.st.closed
      requires nsp != R.ROOT && R.Sock(hub.num, nsp, serial) !in image.objs
      ensures nsp in namespaces ==> R.Enabled(image.st, R.Create(hub.num, nsp, serial))
    {
      assert image.spaces.Keys == namespaces.Keys == image.st.spaces.Keys;
      assert image.tables.Keys == hubs.Keys == image.st.hubs && image.objs.Keys == image.st.used;
    }

    method AddMember(hub: Hub, nsp: GoString, visitor: Visitor, answers: Answers, ghost serial: nat) returns (sock: Socket)
      requires Valid() && hub.num in hubs && hub == hubs[hub.num] && R.Enabled(image.st, R.Create(hub.num, nsp, serial))
      modifies this`run, this`image
      ensures Valid() && Identified(image.objs, sock) && sock.id in image.st.pending && fresh(sock)
      ensures sock.hub == hub && sock.nsp == nsp && sock.id == R.Sock(hub.num, nsp, serial)
      ensures !sock.closed && sock.visitor == visitor
      ensures run == old(run) + [R.Create(hub.num, nsp, serial)]
    {
      hide *;
      sock := new Socket(nsp, hub, visitor, answers, serial);
      EnterSocket(hub, sock);
    }

    method ConnectTo(hub: Hub, nsp: GoString, visitor: Visitor, answers: Answers, ghost serial: nat)
      returns (sock: Socket, ghost notes: seq<Note>)
      requires Valid() && hub.num in hubs && hub == hubs[hub.num] && hub.num !in image.st.closed
      requires nsp != R.ROOT && R.Sock(hub.num, nsp, serial) !in image.objs && nsp in namespaces
      modifies this`run, this`image, namespaces.Values`sockets, hub
      ensures Valid() && sock.hub == hub && fresh(sock)
      ensures var out := Outcomes(namespaces[nsp].middlewares, visitor);
              && Leads(p, nsp, R.Sock(hub.num, nsp, serial), out, notes,
                       Trail(old(run) + [R.Create(hub.num, nsp, serial)], false, old(hub.writes)), Now(sock))
              && Exporting(nsp, out, notes)
    {
      hide *;
      CanCreate(hub, nsp, serial);
      sock := AddMember(hub, nsp, visitor, answers, serial);
      AdmissibleIfPending(sock);
      NowIs(sock);
      notes := Gate(namespaces[nsp], sock);
    }

    method ReportMissing(hub: Hub, nsp: GoString)
      modifies hub`writes
      ensures hub.writes == old(hub.writes) + DefaultFrame(p, ErrorHeader(nsp, 0), Message(NoSuchNamespace(nsp)))
    {
      var bytes := EncodeEventPayload(p, map[], Ascii("error"), Message(NoSuchNamespace(nsp)));
      if bytes.None? { return; }
      var buf := EncodeFrame(ErrorHeader(nsp, 0), bytes.value);
      hub.Send(buf[..]);
    }

    // A namespace that does not exist is reported and nothing else happens. Any other gets a socket,
    // which passes through its middleware; the outcomes say what then happens and what is sent.
    ghost predicate Connected(nsp: GoString, visitor: Visitor, id: R.Sock, notes: seq<Note>, from: Trail, to: Trail)
      reads this`namespaces, namespaces.Values`schemas, namespaces.Values`middlewares
    {
      if nsp !in namespaces then
        to.run == from.run && to.writes == from.writes + DefaultFrame(p, ErrorHeader(nsp, 0), Message(NoSuchNamespace(nsp)))
      else
        var out := Outcomes(namespaces[nsp].middlewares, visitor);
        && Leads(p, nsp, id, out, notes, from.(run := from.run + [R.Create(id.hub, nsp, id.serial)]), to)
        && Exporting(nsp, out, notes)
    }

    // A CONNECT frame for a namespace other than the root. `closed` says whether its socket ended
    // up closed.
    method HandleNamespaceConnect(hub: Hub, nsp: GoString, visitor: Visitor, answers: Answers, ghost serial: nat)
      returns (closed: bool, ghost notes: seq<Note>)
      requires Valid() && hub.num in hubs && hub == hubs[hub.num] && hub.num !in image.st.closed
      requires nsp != R.ROOT && R.Sock(hub.num, nsp, serial) !in image.objs
      modifies this`run, this`image, namespaces.Values`sockets, hub
      ensures Valid()
      ensures Connected(nsp, visitor, R.Sock(hub.num, nsp, serial), notes,
                        Trail(old(run), false, old(hub.writes)), Trail(run, closed, hub.writes))
      ensures nsp !in namespaces ==> hub.sockets == old(hub.sockets) && run == old(run)
      ensures nsp !in namespaces ==>
                var text := Ascii("Requested namespace '") + nsp + Ascii("' does not exist on cluster.");
                var packed := p.marshal(Map(map[Ascii("message") := Str(text)]));
                hub.writes == old(hub.writes) + if packed.None? then [] else
                                [PrintFrame(Packet(Header(FRAME_ACK, nsp, Ascii("error"), 0), p.deflate(packed.value)))]
    {
      ErrorFrame(p, nsp, 0, NoSuchNamespace(nsp));
      hide Valid, Leads, Exporting, Outcomes;
      closed, notes := false, [];
      if nsp !in namespaces {
        ReportMissing(hub, nsp);
      } else {
        var sock;
        sock, notes := ConnectTo(hub, nsp, visitor, answers, serial);
        closed := sock.closed;
      }
    }

    // ---------------------------------------------------------------- closing

    // The part of handleClose under the connection's lock: the table is emptied into a snapshot.
    method TakeSnapshot(hub: Hub) returns (socks: map<GoString, Socket>)
      requires Valid() && hub.num in hubs && hub == hubs[hub.num] && R.Enabled(image.st, R.Snapshot(hub.num))
      modifies this`run, this`image, hub`sockets
      ensures Valid() && run == old(run) + [R.Snapshot(hub.num)] && image.objs == old(image.objs)
      ensures socks == old(hub.sockets) && hub.sockets == map[]
    {
      hide R.Step, R.After, ObjectsAgree, SpacesAgree, TablesAgree;
      socks := hub.sockets;
      ghost var after := SnapshotImage(image, hub.num);
      HubsApart(hubs, hub.num);
      hub.sockets := map[];
      RowWritten(image.tables, TablesIn(hubs), hub.num);
      Happen(R.Snapshot(hub.num), after);
    }

    // One round of the loop.
    method RemoveSocket(sock: Socket)
      requires Valid() && Identified(image.objs, sock) && R.Enabled(image.st, R.Remove(sock.id)) && sock.nsp in namespaces
      modifies this`run, this`image, namespaces.Values`sockets
      ensures Valid() && run == old(run) + [R.Remove(sock.id)] && image.objs == old(image.objs)
      ensures image.st.closing == old(image.st.closing) - {sock.id} && image.st.closed == old(image.st.closed)
      ensures SpacesIn(namespaces) == old(SpacesIn(namespaces))[sock.nsp := old(namespaces[sock.nsp].sockets) - {sock}]
    {
      hide R.Step, R.After, ObjectsAgree, SpacesAgree, TablesAgree;
      R.RemovedNow(run, sock.id);
      ghost var after := RemoveImage(image, sock);
      NamespacesApart(namespaces, sock.nsp);
      namespaces[sock.nsp].RemoveSocket(sock);
      RowWritten(image.spaces, SpacesIn(namespaces), sock.nsp);
      Happen(R.Remove(sock.id), after);
    }

    // A table holds each socket under its own namespace.
    lemma TableRows(hub: Hub, n: GoString)
      requires Valid() && hub.num in hubs && hub == hubs[hub.num] && n in hub.sockets
      ensures var s := hub.sockets[n];
              Identified(image.objs, s) && s.nsp == n == s.id.nsp && s.id.hub == hub.num && R.Registered(image.st, s.id)
    {
      var s := hub.sockets[n];
      assert image.tables[hub.num][n] == s;
      R.RoutingHolds(run, hub.num, n);
    }

    lemma NoOthers(hub: Hub, id: R.Sock)
      requires Valid() && hub.num in hubs && hub == hubs[hub.num] && id.hub == hub.num && R.Registered(image.st, id)
      ensures id.nsp in hub.sockets && hub.sockets[id.nsp].id == id
    {
      assert id.nsp in image.tables[hub.num];
    }

    // A snapshot closes what was in the table.
    lemma SnapshotCloses(hub: Hub)
      requires Valid() && hub.num in hubs && hub == hubs[hub.num] && R.Enabled(image.st, R.Snapshot(hub.num))
      ensures Closing(image.(st := R.After(run + [R.Snapshot(hub.num)])), hub.num, hub.sockets, hub.sockets.Keys)
    {
      forall n <- hub.sockets { TableRows(hub, n); }
      forall id: R.Sock | id.hub == hub.num && R.Registered(image.st, id) { NoOthers(hub, id); }
      R.SnapshotNow(run, hub.num);
      hide R.Step, R.After, R.Registered, ObjectsAgree, SpacesAgree, TablesAgree;
    }

    lemma StateAfter()
      requires Valid()
      ensures image.st == R.After(run)
    {}

    method StartClose(hub: Hub) returns (socks: map<GoString, Socket>)
      requires Valid() && hub.num in hubs && hub == hubs[hub.num] && R.Enabled(image.st, R.Snapshot(hub.num))
      modifies this`run, this`image, hub`sockets
      ensures Valid() && image.objs == old(image.objs) && Closing(image, hub.num, socks, socks.Keys)
      ensures socks == old(hub.sockets) && hub.sockets == map[]
    {
      hide *;
      SnapshotCloses(hub);
      ghost var before := image;
      socks := TakeSnapshot(hub);
      StateAfter();
      ClosingSame(before.(st := image.st), image, hub.num, socks, socks.Keys);
    }

    method CloseOne(hub: Hub, socks: map<GoString, Socket>, n: GoString, ghost rest: set<GoString>)
      requires Valid() && Closing(image, hub.num, socks, rest) && n in rest
      modifies this`run, this`image, namespaces.Values`sockets
      ensures Valid() && image.objs == old(image.objs) && Closing(image, hub.num, socks, rest - {n})
      ensures n in socks && n in namespaces
      ensures SpacesIn(namespaces) == old(SpacesIn(namespaces))[n := old(namespaces[n].sockets) - {socks[n]}]
    {
      hide *;
      ghost var before := image;
      ClosingFacts(hub.num, socks, n, rest);
      var sock := socks[n];
      if sock.nsp in namespaces {
        RemoveSocket(sock);
      }
      ClosingStep(before, image, hub.num, socks, rest, n);
    }

    lemma ClosingFacts(h: nat, socks: map<GoString, Socket>, n: GoString, rest: set<GoString>)
      requires Valid() && Closing(image, h, socks, rest) && n in rest
      ensures n in socks && socks[n].nsp == n && Identified(image.objs, socks[n])
      ensures n in namespaces && R.Enabled(image.st, R.Remove(socks[n].id))
    {
      R.RemovedNow(run, socks[n].id);
      assert image.spaces.Keys == namespaces.Keys == image.st.spaces.Keys;
    }

    // The loop of handleClose.
    method RemoveAll(hub: Hub, socks: map<GoString, Socket>)
      requires Valid() && Closing(image, hub.num, socks, socks.Keys)
      modifies this`run, this`image, namespaces.Values`sockets
      ensures Valid() && image.objs == old(image.objs) && Closing(image, hub.num, socks, {})
      ensures Emptied(old(SpacesIn(namespaces)), SpacesIn(namespaces), socks, {})
    {
      hide *;
      var rest := socks.Keys;
      ghost var spaces := SpacesIn(namespaces);
      EmptiedStart(spaces, socks);
      while rest != {}
        invariant rest <= socks.Keys
        invariant Valid() && image.objs == old(image.objs) && Closing(image, hub.num, socks, rest)
        invariant Emptied(spaces, SpacesIn(namespaces), socks, rest)
        decreases |rest|
      {
        var n :| n in rest;
        ghost var before := SpacesIn(namespaces);
        SpaceOf(namespaces, n);
        CloseOne(hub, socks, n, rest);
        EmptiedStep(spaces, before, socks, rest, n);
        rest := rest - {n};
      }
    }

    // Closing takes the connection's registered sockets out of their namespaces, and nothing else
    // out of any.
    method HandleClose(hub: Hub)
      requires Valid() && hub.num in hubs && hub == hubs[hub.num] && R.Enabled(image.st, R.Snapshot(hub.num))
      modifies this`run, this`image, hub`sockets, namespaces.Values`sockets
      ensures Valid() && image.objs == old(image.objs) && Closing(image, hub.num, map[], {})
      ensures hub.sockets == map[]
      ensures Emptied(old(SpacesIn(namespaces)), SpacesIn(namespaces), old(hub.sockets), {})
    {
      hide *;
      var socks := StartClose(hub);
      RemoveAll(hub, socks);
      AllClosed(image, hub.num, socks);
    }

    // ---------------------------------------------------------------- dispatching

    // The table leads every frame to a socket of this connection that is in the set of the
    // namespace the frame names, or to none.
    lemma Routes(hub: Hub, nsp: GoString)
      requires Valid() && hub.num in hubs && hub == hubs[hub.num]
      ensures nsp in hub.sockets <==> R.Route(image.st, hub.num, nsp).Some?
      ensures nsp in hub.sockets ==>
                var s := hub.sockets[nsp];
                && s.nsp == nsp && s.hub == hub && s.id == R.Route(image.st, hub.num, nsp).value
                && nsp in namespaces && s in namespaces[nsp].sockets
    {
      R.RoutingHolds(run, hub.num, nsp);
      if nsp in hub.sockets {
        TableRows(hub, nsp);
        assert nsp in image.spaces;
      }
    }

    function SchemasFor(nsp: GoString): Bucket
      reads this`namespaces, namespaces.Values`schemas
    {
      if nsp in namespaces then namespaces[nsp].schemas else map[]
    }

    // A frame and its decoded payload. `spare` is the memory behind the frame.
    ghost function Decoded(raw: seq<byte>, spare: seq<byte>): Reading
      reads this`namespaces, namespaces.Values`schemas
    {
      match ParseFrame(raw)
      case None => Dropped
      case Some(f) =>
        match PayloadValue(p, SchemasFor(f.header.nsp), f.header.event, f.payload, spare)
        case Done(v, _) => Read(f.header, v)
        case Failed => Dropped
        case Panicked => Crash
    }

    method DecodeFrame(raw: seq<byte>, spare: seq<byte>) returns (r: Reading)
      ensures r == Decoded(raw, spare)
      ensures r.Read? ==> r.header.ackID < TWO_32
    {
      var f := DecodeFrameHeader(raw);
      if f.None? { return Dropped; }
      ParsedBounds(raw);
      var header := f.value.header;
      var payload := DecodeEventPayload(p, SchemasFor(header.nsp), header.event, f.value.payload, spare);
      match payload
      case Done(v, _) => return Read(header, v);
      case Failed => return Dropped;
      case Panicked => return Crash;
    }

    lemma AllRoutes(hub: Hub)
      requires Valid() && hub.num in hubs && hub == hubs[hub.num]
      ensures forall n <- hub.sockets :: hub.sockets[n].nsp == n && hub.sockets[n].hub == hub
    {
      forall n <- hub.sockets ensures hub.sockets[n].nsp == n && hub.sockets[n].hub == hub { Routes(hub, n); }
    }

    method Forward(hub: Hub, header: Header, payload: Val)
      requires Valid() && hub.num in hubs && hub == hubs[hub.num] && header.ackID < TWO_32
      modifies hub`writes, hub.sockets.Values`handled, hub.sockets.Values`rooms
      ensures Delivered(p, hub.sockets, header, payload, old(Logs(hub.sockets)), old(hub.writes), Logs(hub.sockets), hub.writes)
    {
      hide Valid, Raised, RoomsAfter, Deliveries, Replies, Pongs;
      AllRoutes(hub);
      if header.nsp in hub.sockets {
        Serve(hub.sockets, hub.sockets[header.nsp], header, payload);
      }
    }

    method Serve(socks: map<GoString, Socket>, s: Socket, header: Header, payload: Val)
      requires header.nsp in socks && s == socks[header.nsp] && header.ackID < TWO_32
      requires forall n <- socks :: socks[n].nsp == n
      modifies s.hub`writes, s`handled, s`rooms
      ensures s.hub.writes == old(s.hub.writes) + SentBack(p, s, header, payload)
      ensures Logs(socks) == old(Logs(socks))[header.nsp := LogAfter(s, header, payload, old(Logs(socks)[header.nsp]))]
    {
      hide Valid, Raised, RoomsAfter, Deliveries, Replies, Pongs, Unless;
      ghost var before := Logs(socks);
      s.Dispatch(p, header, payload);
      RowWritten(before, Logs(socks), header.nsp);
    }

    // These messages end the server: one for an event with a schema in the namespace it names, root
    // included, whose payload has bytes and some read by that schema leaves them.
    ghost predicate Fatal(raw: seq<byte>, spare: seq<byte>)
      reads this`namespaces, namespaces.Values`schemas
    {
      match ParseFrame(raw)
      case None => false
      case Some(f) =>
        && f.payload != [] && f.header.nsp in namespaces && f.header.event in namespaces[f.header.nsp].schemas
        && Short(p, namespaces[f.header.nsp].schemas[f.header.event].definition, f.payload + spare, |f.payload|, 0)
    }

    lemma CrashesExactly(raw: seq<byte>, spare: seq<byte>)
      ensures Decoded(raw, spare).Crash? <==> Fatal(raw, spare)
    {
      var f := ParseFrame(raw);
      if f.Some? {
        var h := f.value.header;
        PayloadPanicsExactly(p, SchemasFor(h.nsp), h.event, f.value.payload, spare);
      }
    }

    // One message from the connection. One that does not parse, or whose payload does not decode,
    // is dropped before its type is looked at; one whose payload makes the decoder panic ends the
    // server. A CONNECT for the root is ignored, any other joins the namespace it names.
    method HandleMessage(hub: Hub, raw: seq<byte>, spare: seq<byte>, visitor: Visitor, answers: Answers, ghost serial: nat)
      returns (crashed: bool, closed: bool, ghost notes: seq<Note>)
      requires Valid() && hub.num in hubs && hub == hubs[hub.num] && hub.num !in image.st.closed
      requires forall id <- image.objs :: id.hub == hub.num ==> id.serial != serial
      modifies this`run, this`image, namespaces.Values`sockets, hub, hub.sockets.Values`handled, hub.sockets.Values`rooms
      ensures Valid()
      ensures crashed <==> old(Decoded(raw, spare)).Crash?
      ensures crashed <==> old(Fatal(raw, spare))
      ensures var d := old(Decoded(raw, spare));
              !d.Read? || d.header.typ != FRAME_CONNECT || d.header.nsp == R.ROOT ==>
                image == old(image) && run == old(run) && hub.sockets == old(hub.sockets)
      ensures match old(Decoded(raw, spare))
              case Read(header, payload) =>
                if header.typ == FRAME_CONNECT && header.nsp != R.ROOT then
                  && Connected(header.nsp, visitor, R.Sock(hub.num, header.nsp, serial), notes,
                               Trail(old(run), false, old(hub.writes)), Trail(run, closed, hub.writes))
                  && Logs(old(hub.sockets)) == old(Logs(hub.sockets))
                else if header.typ == FRAME_CONNECT then
                  run == old(run) && hub.writes == old(hub.writes) && Logs(old(hub.sockets)) == old(Logs(hub.sockets))
                else
                  && run == old(run)
                  && Delivered(p, old(hub.sockets), header, payload,
                               old(Logs(hub.sockets)), old(hub.writes), Logs(old(hub.sockets)), hub.writes)
              case _ =>
                run == old(run) && hub.writes == old(hub.writes) && Logs(old(hub.sockets)) == old(Logs(hub.sockets))
    {
      hide *;
      crashed, closed, notes := false, false, [];
      CrashesExactly(raw, spare);
      var d := DecodeFrame(raw, spare);
      if d.Crash? { return true, false, []; }
      if d.Dropped? { return; }
      if d.header.typ != FRAME_CONNECT {
        Forward(hub, d.header, d.payload);
      } else if d.header.nsp != R.ROOT {
        closed, notes := HandleNamespaceConnect(hub, d.header.nsp, visitor, answers, serial);
      }
    }

    // A payload in the positional form of the event's schema in the namespace of the frame, the root
    // included, is read as the canonical value, whatever is behind it.
    lemma SchemaEventRead(raw: seq<byte>, header: Header, v: Val, spare: seq<byte>)
      requires Unpacks(p) && header.nsp in namespaces && header.event in namespaces[header.nsp].schemas
      requires var def := namespaces[header.nsp].schemas[header.event].definition;
               && Sendable(p, def, v) && Positional.Enc(p, def, v) != []
               && ParseFrame(raw) == Some(Packet(header, Positional.Enc(p, def, v)))
      ensures Decoded(raw, spare) ==
                Read(header, Positional.Canon(p, namespaces[header.nsp].schemas[header.event].definition, v))
    {
      var def := namespaces[header.nsp].schemas[header.event].definition;
      var b := Positional.Enc(p, def, v);
      RoundTrip(p, def, v, spare);
      DecOfEnc(p, def, v, b + spare, |b|, 0);
    }

    // Every other payload with bytes is read as generic MessagePack, and one without bytes as nil.
    lemma OtherEventRead(raw: seq<byte>, f: Packet, spare: seq<byte>)
      requires ParseFrame(raw) == Some(f)
      ensures f.payload == [] ==> Decoded(raw, spare) == Read(f.header, Nil)
      ensures f.payload != [] && (f.header.nsp !in namespaces || f.header.event !in namespaces[f.header.nsp].schemas) ==>
                var inflated := p.inflate(f.payload);
                Decoded(raw, spare) ==
                  if inflated.None? || p.unmarshal(inflated.value).None? then Dropped
                  else Read(f.header, p.unmarshal(inflated.value).value)
    {}

    // One byte for an event of two is such a message, whatever its type.
    lemma OneByteCrashes(header: Header, b: byte)
      requires header.nsp in namespaces && header.event in namespaces[header.nsp].schemas
      requires namespaces[header.nsp].schemas[header.event].definition == Prim(Uint16Tag)
      requires header.nsp != [] && |header.nsp| <= 0xFF && |header.event| <= 0xFF && header.ackID < TWO_32
      ensures Decoded(PrintFrame(Packet(header, [b])), []).Crash?
    {
      FrameRoundTrip(Packet(header, [b]));
    }

    // ---------------------------------------------------------------- what the machine's runs say about the objects

    // The sockets of one connection in a namespace's set are the machine's members of that place.
    lemma SameMembers(hub: Hub, n: GoString)
      requires Valid() && hub.num in hubs && hub == hubs[hub.num] && n in namespaces
      ensures forall s <- OnHub(namespaces[n].sockets, hub) ::
                Identified(image.objs, s) && s.id in R.Members(image.st, R.Slot(hub.num, n))
      ensures forall id <- R.Members(image.st, R.Slot(hub.num, n)) ::
                id in image.objs && image.objs[id] in OnHub(namespaces[n].sockets, hub)
    {
      assert image.spaces.Keys == namespaces.Keys && image.spaces[n] == namespaces[n].sockets;
    }

    // A closed connection has left a namespace for good exactly when it had been admitted to it at
    // most once, and not after the close.
    lemma CleanlyClosed(hub: Hub, n: GoString)
      requires Valid() && hub.num in hubs && hub == hubs[hub.num] && n in namespaces
      requires hub.num in image.st.closed && R.Settled(image.st, R.Slot(hub.num, n))
      ensures OnHub(namespaces[n].sockets, hub) == {} <==>
                R.Registrations(run, R.Slot(hub.num, n)) <= 1 && R.LateRegistrations(run, R.Slot(hub.num, n)) == 0
    {
      R.CleanClose(run, R.Slot(hub.num, n));
      hide *;
      SameMembers(hub, n);
    }

    // An open connection has exactly its registered socket in a namespace when it has been
    // admitted to it at most once.
    lemma OneSocket(hub: Hub, n: GoString)
      requires Valid() && hub.num in hubs && hub == hubs[hub.num] && n in namespaces
      requires hub.num !in image.st.closed && R.Settled(image.st, R.Slot(hub.num, n))
      requires R.Registrations(run, R.Slot(hub.num, n)) <= 1
      ensures OnHub(namespaces[n].sockets, hub) == if n in hub.sockets then {hub.sockets[n]} else {}
    {
      var k := R.Slot(hub.num, n);
      R.Bijection(run, k);
      SameMembers(hub, n);
      Routes(hub, n);
      forall s <- OnHub(namespaces[n].sockets, hub)
        ensures n in hub.sockets && s == hub.sockets[n]
      {
        assert s.id in R.Entry(image.st, k);
        NoOthers(hub, s.id);
        TableRows(hub, n);
      }
    }

    // Then a broadcast writes to the connection at most once: exactly when its socket is open, in
    // the room, and not the one excluded.
    lemma OncePerConnection(hub: Hub, n: GoString, room: Option<GoString>, exclude: Socket?)
      requires Valid() && hub.num in hubs && hub == hubs[hub.num] && n in namespaces
      requires hub.num !in image.st.closed && R.Settled(image.st, R.Slot(hub.num, n))
      requires R.Registrations(run, R.Slot(hub.num, n)) <= 1
      ensures var meant := n in hub.sockets && (var s := hub.sockets[n]; s != exclude && !s.closed && InRoom(s, room));
              |Targets(namespaces[n].sockets, room, exclude, hub)| == if meant then 1 else 0
    {
      OneSocket(hub, n);
      hide Valid;
      var mine, targets := OnHub(namespaces[n].sockets, hub), Targets(namespaces[n].sockets, room, exclude, hub);
      assert targets <= mine;
      if n in hub.sockets {
        var s := hub.sockets[n];
        assert s in mine;
        assert s in targets <==> s != exclude && !s.closed && InRoom(s, room);
        assert targets == if s in targets then {s} else {};
      }
    }
  }
}
