// Acknowledgement callbacks of a client (client/client.go): which frame may call which callback,
// over every sequence of emits and incoming acknowledgements.
module AckTable {
  import opened Bytes
  import opened SchemaTypes
  import opened Frame
  import opened SchemaTables
  import opened SchemaSync
  import opened Middleware
  import opened ServerReplies

  // ---------------------------------------------------------------- the machine

  datatype Action =
    | Emit(acked: bool)                    // doEmit, with or without a callback
    | Answer(id: nat, decodes: bool)       // an ACK frame with this id arrives

  // A callback that was called: the emit it belongs to, and the id of the frame that called it.
  datatype Fired = Fired(emit: nat, id: nat)

  datatype State = State(
    counter: nat,              // uint32
    pending: map<nat, nat>,    // id to the emit whose callback waits for it
    issued: seq<nat>,          // the ids given to emits with a callback, in order
    fired: seq<Fired>          // the callbacks called, in order
  )

  function Step(st: State, a: Action): State {
    match a
    case Emit(acked) =>
      if !acked then st
      else st.(counter := (st.counter + 1) % TWO_32,
               pending := st.pending[st.counter := |st.issued|],
               issued := st.issued + [st.counter])
    case Answer(id, decodes) =>
      if decodes && id in st.pending then
        st.(pending := st.pending - {id}, fired := st.fired + [Fired(st.pending[id], id)])
      else st
  }

  function Start(): State {
    State(1, map[], [], [])
  }

  function From(st: State, run: seq<Action>): State {
    if run == [] then st else Step(From(st, run[..|run| - 1]), run[|run| - 1])
  }

  function After(run: seq<Action>): State {
    From(Start(), run)
  }

  // ---------------------------------------------------------------- what every run keeps

  // A callback waits under the id its emit was given, and is called at most once, by a frame
  // with that id; one that was called does not wait.
  ghost predicate Inv(st: State) {
    && st.counter == (1 + |st.issued|) % TWO_32
    && (forall i :: 0 <= i < |st.issued| ==> st.issued[i] == (1 + i) % TWO_32)
    && (forall id <- st.pending :: st.pending[id] < |st.issued| && st.issued[st.pending[id]] == id)
    && (forall f <- st.fired :: f.emit < |st.issued| && st.issued[f.emit] == f.id)
    && (forall i, j :: 0 <= i < j < |st.fired| ==> st.fired[i].emit != st.fired[j].emit)
    && (forall id <- st.pending, f <- st.fired :: f.emit != st.pending[id])
  }

  lemma StepKeeps(st: State, a: Action)
    requires Inv(st)
    ensures Inv(Step(st, a))
  {
    if a.Answer? && a.decodes && a.id in st.pending {
      var st' := Step(st, a);
      assert st'.fired == st.fired + [Fired(st.pending[a.id], a.id)];
    }
  }

  lemma {:induction false} Always(run: seq<Action>)
    ensures Inv(After(run))
  {
    if run != [] {
      Always(run[..|run| - 1]);
      StepKeeps(After(run[..|run| - 1]), run[|run| - 1]);
    }
  }

  // Every callback is called at most once, and only by a frame with the id of its own emit:
  // in every run, however many emits there are.
  lemma OnlyItsOwn(run: seq<Action>)
    ensures var st := After(run);
            && (forall f <- st.fired :: f.emit < |st.issued| && st.issued[f.emit] == f.id)
            && (forall i, j :: 0 <= i < j < |st.fired| ==> st.fired[i].emit != st.fired[j].emit)
  {
    Always(run);
  }

  ghost predicate Unambiguous(ids: seq<nat>) {
    && (forall i :: 0 <= i < |ids| ==> ids[i] != 0)
    && forall i, j :: 0 <= i < j < |ids| ==> ids[i] != ids[j]
  }

  // The ids are non-zero and never reused exactly as long as the counter has not wrapped.
  lemma IdsUnambiguous(run: seq<Action>)
    ensures Unambiguous(After(run).issued) <==> |After(run).issued| < TWO_32
  {
    Always(run);
    var ids := After(run).issued;
    if |ids| >= TWO_32 {
      assert ids[TWO_32 - 1] == 0;
    }
  }

  // Until then nothing is lost: every callback either waits, under an id between 1 and the
  // number of emits, or has been called.
  ghost predicate Accounted(st: State) {
    forall i :: 0 <= i < |st.issued| ==>
      st.issued[i] == i + 1 && ((i + 1 in st.pending && st.pending[i + 1] == i) || Fired(i, i + 1) in st.fired)
  }

  lemma AccountedStep(st: State, a: Action)
    requires Inv(st) && Accounted(st) && |Step(st, a).issued| < TWO_32
    ensures Accounted(Step(st, a))
  {
    var st' := Step(st, a);
    forall i | 0 <= i < |st'.issued|
      ensures st'.issued[i] == i + 1
      ensures (i + 1 in st'.pending && st'.pending[i + 1] == i) || Fired(i, i + 1) in st'.fired
    {
      if i < |st.issued| {
        assert st'.issued[i] == st.issued[i];
        if Fired(i, i + 1) in st.fired {
          assert Fired(i, i + 1) in st'.fired;
        } else if st' != st && a.Answer? && a.id == i + 1 {
          assert st'.fired[|st.fired|] == Fired(i, i + 1);
        }
      }
    }
  }

  lemma {:induction false} NothingLost(run: seq<Action>)
    requires |After(run).issued| < TWO_32
    ensures Accounted(After(run))
    ensures forall id <- After(run).pending :: 1 <= id <= |After(run).issued| && After(run).pending[id] == id - 1
  {
    Always(run);
    if run != [] {
      var before := run[..|run| - 1];
      Always(before);
      NothingLost(before);
      AccountedStep(After(before), run[|run| - 1]);
    }
  }

  // The callback of this emit neither waits nor was called.
  ghost predicate Gone(st: State, emit: nat) {
    && emit < |st.issued|
    && (forall id <- st.pending :: st.pending[id] != emit)
    && forall f <- st.fired :: f.emit != emit
  }

  lemma {:induction false} GoneForGood(st: State, more: seq<Action>, emit: nat)
    requires Gone(st, emit)
    ensures Gone(From(st, more), emit)
  {
    if more != [] { GoneForGood(st, more[..|more| - 1], emit); }
  }

  // A callback that waits or was called is displaced by exactly one thing: an emit that is given the
  // id it still waits for.
  lemma DisplacedExactly(run: seq<Action>, a: Action, emit: nat)
    requires emit < |After(run).issued| && !Gone(After(run), emit)
    ensures var st := After(run);
            Gone(After(run + [a]), emit) <==> a == Emit(true) && st.counter in st.pending && st.pending[st.counter] == emit
  {
    Always(run);
    assert (run + [a])[..|run|] == run;
    var st, st' := After(run), After(run + [a]);
    assert st' == Step(st, a);
    if Fired(emit, st.issued[emit]) in st.fired {
      FiredStays(st, a, Fired(emit, st.issued[emit]));
    } else if f :| f in st.fired && f.emit == emit {
      FiredStays(st, a, f);
    } else {
      var id :| id in st.pending && st.pending[id] == emit;
      assert st.issued[emit] == id;
      if a.Answer? && a.decodes && a.id == id {
        assert st'.fired[|st.fired|] == Fired(emit, id);
      } else if a == Emit(true) && st.counter == id {
        forall k <- st'.pending ensures st'.pending[k] != emit {
          if k != id { assert st.issued[st.pending[k]] == k; }
        }
      } else {
        assert st'.pending[id] == emit;
      }
    }
  }

  lemma FiredStays(st: State, a: Action, f: Fired)
    requires f in st.fired
    ensures f in Step(st, a).fired
  {
    var i :| 0 <= i < |st.fired| && st.fired[i] == f;
    assert Step(st, a).fired[i] == f;
  }

  // Whenever that happens, on whichever wrap of the counter and for whichever id, the displaced
  // callback is never called, in any continuation.
  lemma WrapDisplaces(run: seq<Action>, more: seq<Action>)
    requires After(run).counter in After(run).pending
    ensures var st := After(run); Gone(From(After(run + [Emit(true)]), more), st.pending[st.counter])
  {
    var st := After(run);
    Always(run);
    var e := st.pending[st.counter];
    assert !Gone(st, e);
    DisplacedExactly(run, Emit(true), e);
    GoneForGood(After(run + [Emit(true)]), more, e);
  }

  function Emits(n: nat): (run: seq<Action>)
    ensures |run| == n
  {
    seq(n, _ => Emit(true))
  }

  lemma {:induction false} Unanswered(n: nat)
    ensures |After(Emits(n)).issued| == n && After(Emits(n)).fired == []
  {
    if n > 0 {
      Unanswered(n - 1);
      assert Emits(n)[..n - 1] == Emits(n - 1);
    }
  }

  // One emit fewer has given out every id but 0, so the first callback still waits under 1.
  lemma FirstWaits(n: nat)
    requires n == TWO_32 - 1
    ensures var st := After(Emits(n)); st.counter == 0 && 1 in st.pending && st.pending[1] == 0
  {
    Unanswered(n);
    NothingLost(Emits(n));
    Always(Emits(n));
    assert After(Emits(n)).issued[0] == 1;
  }

  lemma ZeroIdKeeps(run: seq<Action>)
    requires After(run).counter == 0 && 1 in After(run).pending
    ensures var st, st' := After(run), After(run + [Emit(true)]);
            st'.counter == 1 && 1 in st'.pending && st'.pending[1] == st.pending[1]
  {
    assert (run + [Emit(true)])[..|run|] == run;
  }

  // It does happen: after 2^32 emits with no answer the next one displaces the first.
  lemma FirstDisplaced(more: seq<Action>)
    ensures Gone(From(After(Emits(TWO_32) + [Emit(true)]), more), 0)
  {
    var n := TWO_32 - 1;
    assert Emits(n + 1) == Emits(n) + [Emit(true)];
    hide After, From, Emits, Gone;
    FirstWaits(n);
    ZeroIdKeeps(Emits(n));
    WrapDisplaces(Emits(n + 1), more);
  }

  // ---------------------------------------------------------------- one request

  ghost predicate Called(st: State, emit: nat) {
    exists f <- st.fired :: f.emit == emit
  }

  // Until it is called, the callback of this emit waits under this id.
  ghost predicate Waits(st: State, emit: nat, id: nat) {
    Inv(st) && emit < |st.issued| && st.issued[emit] == id && (Called(st, emit) || (id in st.pending && st.pending[id] == emit))
  }

  lemma CalledNow(st: State, a: Action, emit: nat)
    ensures Called(Step(st, a), emit) <==>
              Called(st, emit) || (a.Answer? && a.decodes && a.id in st.pending && st.pending[a.id] == emit)
  {
    var st' := Step(st, a);
    if f :| f in st.fired && f.emit == emit {
      FiredStays(st, a, f);
    } else if a.Answer? && a.decodes && a.id in st.pending && st.pending[a.id] == emit {
      assert st'.fired[|st.fired|] == Fired(emit, a.id);
    }
  }

  lemma WaitsStep(st: State, a: Action, emit: nat, id: nat)
    requires Waits(st, emit, id) && |Step(st, a).issued| < TWO_32
    ensures Waits(Step(st, a), emit, id)
    ensures Called(Step(st, a), emit) <==> Called(st, emit) || a == Answer(id, true)
  {
    CalledNow(st, a, emit);
    StepKeeps(st, a);
    OwnId(st, emit, id);
    hide Called, Inv;
  }

  lemma OwnId(st: State, emit: nat, id: nat)
    requires Waits(st, emit, id)
    ensures forall k <- st.pending :: st.pending[k] == emit ==> k == id
    ensures |st.issued| + 1 < TWO_32 ==> st.counter != id
  {}

  lemma EmitWaits(run: seq<Action>)
    ensures var st := After(run); Waits(After(run + [Emit(true)]), |st.issued|, st.counter)
    ensures !Called(After(run + [Emit(true)]), |After(run).issued|)
  {
    Always(run);
    Always(run + [Emit(true)]);
    assert (run + [Emit(true)])[..|run|] == run;
  }

  // While the ids have not wrapped, the callback of an emit is called exactly when a frame with the
  // id it was given arrives and decodes, whatever else is emitted or arrives in between.
  lemma {:induction false} CalledExactly(run: seq<Action>, rest: seq<Action>)
    requires |From(After(run + [Emit(true)]), rest).issued| < TWO_32
    ensures var st, emit, id := From(After(run + [Emit(true)]), rest), |After(run).issued|, After(run).counter;
            Waits(st, emit, id) && (Called(st, emit) <==> Answer(id, true) in rest)
  {
    EmitWaits(run);
    if rest != [] {
      var n := |rest| - 1;
      CalledExactly(run, rest[..n]);
      WaitsStep(From(After(run + [Emit(true)]), rest[..n]), rest[n], |After(run).issued|, After(run).counter);
      assert rest == rest[..n] + [rest[n]];
    }
  }

  // ---------------------------------------------------------------- several answers

  // Answers with one id, as many as may come and in whatever order they decode, call the callback
  // waiting for that id, once, and no other.
  lemma {:induction false} OneCall(st: State, answers: seq<Action>, id: nat)
    requires forall a <- answers :: a.Answer? && a.id == id
    ensures var st' := From(st, answers);
            && st'.issued == st.issued && st'.counter == st.counter
            && if id in st.pending && Answer(id, true) in answers
               then st'.fired == st.fired + [Fired(st.pending[id], id)] && st'.pending == st.pending - {id}
               else st' == st
  {
    if answers != [] {
      var n := |answers| - 1;
      var last := answers[n];
      OneCall(st, answers[..n], id);
      assert answers == answers[..n] + [last];
      assert last in answers && (last.decodes ==> last == Answer(id, true));
      assert From(st, answers) == Step(From(st, answers[..n]), last);
    }
  }

  // What the server sends back for one event: each frame as the client sees it.
  ghost function Incoming(raw: seq<byte>, decodes: bool): Action {
    match ParseFrame(raw)
    case Some(f) => Answer(f.header.ackID, decodes)
    case None => Answer(0, false)
  }

  // However often the server's handler acknowledges, and whatever its middleware does, the frames
  // it sends for a request call the callback of that request at most once and no other callback.
  lemma RequestCallsItsOwn(p: Platform, q: Request, outcomes: seq<Outcome<Event>>, run: seq<Action>, decodes: seq<bool>)
    requires Sized(q)
    requires var sent := Replies(p, q, outcomes); |decodes| == |sent|
    ensures var sent := Replies(p, q, outcomes);
            var answers := seq(|sent|, i requires 0 <= i < |sent| => Incoming(sent[i], decodes[i]));
            var st, st' := After(run), From(After(run), answers);
            || st' == st
            || (q.ackID in st.pending && st'.fired == st.fired + [Fired(st.pending[q.ackID], q.ackID)])
  {
    var sent := Replies(p, q, outcomes);
    RepliesEcho(p, q, outcomes);
    var answers := seq(|sent|, i requires 0 <= i < |sent| => Incoming(sent[i], decodes[i]));
    forall a <- answers ensures a.Answer? && a.id == q.ackID {
      var i :| 0 <= i < |answers| && answers[i] == a;
      assert Echo(q, sent[i]);
    }
    OneCall(After(run), answers, q.ackID);
  }

  // ---------------------------------------------------------------- the client's table

  // A callback is known by a number.
  class Acks {
    var ackCallbacks: map<nat, nat>
    var ackCounter: nat
    ghost var callbacks: seq<nat>    // the callback of each emit that has one
    ghost var run: seq<Action>

    ghost predicate Valid()
      reads this
    {
      var st := After(run);
      && ackCounter == st.counter && ackCounter < TWO_32
      && |callbacks| == |st.issued|
      && ackCallbacks.Keys == st.pending.Keys
      && forall id <- ackCallbacks :: st.pending[id] < |callbacks| && ackCallbacks[id] == callbacks[st.pending[id]]
    }

    constructor ()
      ensures Valid() && run == [] && callbacks == []
    {
      ackCallbacks, ackCounter := map[], 1;
      callbacks, run := [], [];
    }

    ghost method Happen(a: Action)
      modifies this`run
      ensures run == old(run) + [a] && After(run) == Step(After(old(run)), a)
    {
      assert (run + [a])[..|run|] == run;
      run := run + [a];
    }

    // The callback of an emit waits under the counter's value.
    method Await(cb: Option<nat>) returns (ackID: nat)
      requires Valid()
      modifies this
      ensures Valid() && run == old(run) + [Emit(cb.Some?)] && ackID < TWO_32
      ensures callbacks == if cb.Some? then old(callbacks) + [cb.value] else old(callbacks)
      ensures ackID == if cb.Some? then After(old(run)).counter else 0
    {
      ackID := 0;
      if cb.Some? {
        Always(run);
        ackID := ackCounter;
        ackCounter := (ackCounter + 1) % TWO_32;
        ackCallbacks := ackCallbacks[ackID := cb.value];
        callbacks := callbacks + [cb.value];
      }
      Happen(Emit(cb.Some?));
    }

    // doEmit up to the frame. An event that cannot be encoded sends nothing, but its callback has
    // been entered by then.
    method DoEmit(p: Platform, known: Known, nsp: GoString, event: GoString, payload: Val, cb: Option<nat>) returns (frame: Option<seq<byte>>)
      requires Valid()
      modifies this
      ensures Valid() && run == old(run) + [Emit(cb.Some?)]
      ensures callbacks == if cb.Some? then old(callbacks) + [cb.value] else old(callbacks)
      ensures var id := if cb.Some? then After(old(run)).counter else 0;
              frame == match PayloadBytes(p, BucketOf(known, SchemaKey(nsp)), event, payload)
                       case Some(b) => Some(PrintFrame(Packet(Header(FRAME_EVENT, nsp, event, id), b)))
                       case None => None
    {
      var ackID := Await(cb);
      hide *;
      var bytes := EncodeEventPayload(p, BucketOf(known, SchemaKey(nsp)), event, payload);
      if bytes.None? { return None; }
      var buf := EncodeFrame(Header(FRAME_EVENT, nsp, event, ackID), bytes.value);
      return Some(buf[..]);
    }

    // An ACK frame: the payload is decoded first, and only then is the callback looked up. A payload
    // that makes the decoder panic ends the client.
    method HandleAck(p: Platform, known: Known, f: Packet, spare: seq<byte>) returns (crashed: bool, called: Option<(nat, Val)>)
      requires Valid()
      modifies this
      ensures var v := PayloadValue(p, BucketOf(known, SchemaKey(f.header.nsp)), f.header.event, f.payload, spare);
              && Valid() && callbacks == old(callbacks) && (crashed <==> v.Panicked?)
              && run == (if crashed then old(run) else old(run) + [Answer(f.header.ackID, v.Done?)])
              && (called.Some? <==> v.Done? && f.header.ackID in After(old(run)).pending)
              && (called.Some? ==> called.value == (callbacks[After(old(run)).pending[f.header.ackID]], v.value))
    {
      var v := DecodeEventPayload(p, BucketOf(known, SchemaKey(f.header.nsp)), f.header.event, f.payload, spare);
      if v.Panicked? { return true, None; }
      Happen(Answer(f.header.ackID, v.Done?));
      if !v.Done? || f.header.ackID !in ackCallbacks { return false, None; }
      crashed, called := false, Some((ackCallbacks[f.header.ackID], v.value));
      ackCallbacks := ackCallbacks - {f.header.ackID};
    }
  }
}
