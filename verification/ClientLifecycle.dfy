// The life of a client connection (client/client.go): dialling, reading, closing, waiting to
// reconnect, over every interleaving with the user's Close.
module ClientLifecycle {
  import opened Bytes
  import opened Frame
  import opened SchemaTables

  // ---------------------------------------------------------------- the machine

  // The client's options that matter here. Unset options get positive defaults.
  datatype Config = Config(autoReconnect: bool, maxAttempts: nat, baseDelay: real, maxDelay: real)

  // What is under way, counted, so that nothing is assumed about there being only one.
  datatype State = State(
    dialling: nat,        // calls of connect before Dial returns
    reading: nat,         // read loops
    closing: nat,         // calls of handleClose
    timers: nat,          // pending reconnect timers
    attempts: nat,        // reconnectAttempts
    closedByUser: bool,
    // history
    failures: nat,        // dials that failed since the last that succeeded
    connected: bool,      // some dial has succeeded
    waits: seq<real>,     // the delays scheduled since the last dial that succeeded
    dialsAfterClose: nat  // dials begun or completed after the user's Close
  )

  datatype Action =
    | DialFails                    // connect gets an error and calls handleClose
    | DialSucceeds                 // connect resets the attempts and starts a read loop
    | ReadEnds                     // the read loop ends and calls handleClose
    | CloseHandled(jitter: real)   // the end of handleClose: reconnect or stop
    | TimerFires                   // the timer calls connect
    | UserCloses                   // Client.Close

  // 1.5 to the power k.
  function Pow15(k: nat): real {
    if k == 0 then 1.0 else 1.5 * Pow15(k - 1)
  }

  function Min(a: real, b: real): real {
    if a <= b then a else b
  }

  const JITTER := 300.0  // milliseconds

  // The wait before reconnect attempt k, for a random number in [0, 300).
  function Delay(c: Config, k: nat, jitter: real): real {
    Min(c.baseDelay * Pow15(k) + jitter, c.maxDelay)
  }

  lemma DelayIs(c: Config, k: nat, jitter: real)
    ensures var wait := c.baseDelay * Pow15(k) + jitter;
            Delay(c, k, jitter) == Min(wait, c.maxDelay) == if wait < c.maxDelay then wait else c.maxDelay
  {}

  predicate Enabled(st: State, a: Action) {
    match a
    case DialFails => st.dialling > 0
    case DialSucceeds => st.dialling > 0
    case ReadEnds => st.reading > 0
    case CloseHandled(j) => st.closing > 0 && 0.0 <= j < JITTER
    case TimerFires => st.timers > 0
    case UserCloses => true
  }

  predicate Retries(c: Config, st: State) {
    !st.closedByUser && c.autoReconnect && st.attempts < c.maxAttempts
  }

  function Perform(c: Config, st: State, a: Action): State
    requires Enabled(st, a)
  {
    match a
    case DialFails =>
      st.(dialling := st.dialling - 1, closing := st.closing + 1, failures := st.failures + 1)
    case DialSucceeds =>
      st.(dialling := st.dialling - 1, reading := st.reading + 1, attempts := 0,
          failures := 0, connected := true, waits := [])
    case ReadEnds =>
      st.(reading := st.reading - 1, closing := st.closing + 1)
    case CloseHandled(j) =>
      if Retries(c, st) then
        st.(closing := st.closing - 1, timers := st.timers + 1, attempts := st.attempts + 1,
            waits := st.waits + [Delay(c, st.attempts + 1, j)])
      else st.(closing := st.closing - 1)
    case TimerFires =>
      st.(timers := st.timers - 1, dialling := st.dialling + 1,
          dialsAfterClose := st.dialsAfterClose + if st.closedByUser then 1 else 0)
    case UserCloses => st.(closedByUser := true)
  }

  // An action that cannot happen now changes nothing.
  function Step(c: Config, st: State, a: Action): State {
    if Enabled(st, a) then Perform(c, st, a) else st
  }

  // New starts dialling.
  function Start(): State {
    State(1, 0, 0, 0, 0, false, 0, false, [], 0)
  }

  function After(c: Config, run: seq<Action>): State {
    if run == [] then Start() else Step(c, After(c, run[..|run| - 1]), run[|run| - 1])
  }

  // ---------------------------------------------------------------- what every run keeps

  function Threads(st: State): nat {
    st.dialling + st.reading + st.closing + st.timers
  }

  // Nothing will happen any more.
  predicate Stopped(st: State) {
    Threads(st) == 0
  }

  // The wait before each attempt since the last success lies within its bounds.
  ghost predicate WaitsBounded(c: Config, waits: seq<real>) {
    forall i :: 0 <= i < |waits| ==> Delay(c, i + 1, 0.0) <= waits[i] <= Delay(c, i + 1, JITTER)
  }

  ghost predicate Inv(c: Config, st: State) {
    && Threads(st) <= 1
    && st.attempts <= c.maxAttempts
    && |st.waits| == st.attempts && WaitsBounded(c, st.waits)
    // each attempt since the last success was scheduled by the close of the dial before it
    && (st.dialling == 1 || st.timers == 1 ==> st.failures + (if st.connected then 1 else 0) == st.attempts)
    && (st.reading == 1 ==> st.connected && st.attempts == 0 && st.failures == 0)
    && (st.closing == 1 ==> st.failures + (if st.connected then 1 else 0) == st.attempts + 1)
    && (Stopped(st) ==>
          && st.failures + (if st.connected then 1 else 0) == st.attempts + 1
          && (st.closedByUser || !c.autoReconnect || st.attempts == c.maxAttempts))
    && (!st.closedByUser ==> st.dialsAfterClose == 0)
    && (st.closedByUser ==> st.dialsAfterClose + st.timers <= 1)
  }

  lemma WaitsGrow(c: Config, waits: seq<real>, jitter: real)
    requires WaitsBounded(c, waits) && 0.0 <= jitter < JITTER
    ensures WaitsBounded(c, waits + [Delay(c, |waits| + 1, jitter)])
  {}

  lemma StepKeeps(c: Config, st: State, a: Action)
    requires Inv(c, st)
    ensures Inv(c, Step(c, st, a))
  {
    if a.CloseHandled? && 0.0 <= a.jitter < JITTER { WaitsGrow(c, st.waits, a.jitter); }
    hide WaitsBounded, Delay;
  }

  lemma {:induction false} Always(c: Config, run: seq<Action>)
    ensures Inv(c, After(c, run))
  {
    if run != [] {
      Always(c, run[..|run| - 1]);
      StepKeeps(c, After(c, run[..|run| - 1]), run[|run| - 1]);
    }
  }

  // ---------------------------------------------------------------- at most one thing at a time

  predicate Only(st: State, dialling: nat, reading: nat, closing: nat, timers: nat) {
    st.dialling == dialling && st.reading == reading && st.closing == closing && st.timers == timers
  }

  // In every reachable state exactly one of dialling, reading, closing, waiting to reconnect and
  // stopped holds, and the attempts stay within their limit.
  lemma {:induction false} OneAtATime(c: Config, run: seq<Action>)
    ensures var st := After(c, run);
            && (Only(st, 1, 0, 0, 0) || Only(st, 0, 1, 0, 0) || Only(st, 0, 0, 1, 0) || Only(st, 0, 0, 0, 1) || Stopped(st))
            && st.attempts <= c.maxAttempts
  {
    Always(c, run);
  }

  // A client that never connects and is not closed stops exactly when maxAttempts + 1 dials have
  // failed; it never makes more.
  lemma {:induction false} GivesUp(c: Config, run: seq<Action>)
    requires c.autoReconnect && !After(c, run).connected && !After(c, run).closedByUser
    ensures var st := After(c, run);
            && st.failures <= c.maxAttempts + 1
            && (Stopped(st) || (st.closing == 1 && !Retries(c, st)) <==> st.failures == c.maxAttempts + 1)
  {
    Always(c, run);
  }

  // After a lost connection, maxAttempts more.
  lemma {:induction false} GivesUpAgain(c: Config, run: seq<Action>)
    requires c.autoReconnect && After(c, run).connected && !After(c, run).closedByUser
    ensures var st := After(c, run);
            && st.failures <= c.maxAttempts
            && (Stopped(st) ==> st.failures == c.maxAttempts)
  {
    Always(c, run);
  }

  // ---------------------------------------------------------------- whether it reconnects at all

  // A close that finds reconnection on, no user close and attempts left leaves one timer pending; any
  // other leaves the client stopped.
  lemma CloseDecides(c: Config, run: seq<Action>, jitter: real)
    requires After(c, run).closing > 0 && 0.0 <= jitter < JITTER
    ensures var st, st' := After(c, run), After(c, run + [CloseHandled(jitter)]);
            if c.autoReconnect && !st.closedByUser && st.attempts < c.maxAttempts
            then Only(st', 0, 0, 0, 1) && st'.attempts == st.attempts + 1 && |st'.waits| == |st.waits| + 1
            else Only(st', 0, 0, 0, 0) && st'.attempts == st.attempts && st'.waits == st.waits
  {
    Always(c, run);
    Unfold(c, run, CloseHandled(jitter));
    hide Delay;
  }

  // What a client told not to reconnect has done: its one dial, and no more.
  ghost predicate Single(st: State) {
    && st.timers == 0 && st.attempts == 0 && st.waits == [] && st.dialsAfterClose == 0
    && (st.dialling == 1 ==> st.failures == 0 && !st.connected)
    && (st.dialling == 0 ==> st.failures == if st.connected then 0 else 1)
  }

  lemma SingleStep(c: Config, st: State, a: Action)
    requires !c.autoReconnect && Threads(st) <= 1 && Single(st)
    ensures Single(Step(c, st, a))
  {
    hide Delay;
  }

  // It never waits and never dials again, in any run, and it is stopped exactly when its dial has
  // failed, or its connection ended, and the close has been handled.
  lemma {:induction false} NeverReconnects(c: Config, run: seq<Action>)
    requires !c.autoReconnect
    ensures var st := After(c, run);
            && Single(st)
            && (Stopped(st) <==> (st.failures == 1 || st.connected) && st.reading == 0 && st.closing == 0)
  {
    Always(c, run);
    hide Delay, WaitsBounded, Step;
    if run != [] {
      var before := run[..|run| - 1];
      Always(c, before);
      NeverReconnects(c, before);
      SingleStep(c, After(c, before), run[|run| - 1]);
    }
  }

  // ---------------------------------------------------------------- waiting

  function Sum(xs: seq<real>): real {
    if xs == [] then 0.0 else Sum(xs[..|xs| - 1]) + xs[|xs| - 1]
  }

  // The first wait is one and a half times the base, up to 300 milliseconds more, under the cap; and
  // but for that addition each wait is one and a half times the one before, under the cap.
  lemma Backoff(c: Config, k: nat, jitter: real)
    requires 0.0 <= c.maxDelay
    ensures Delay(c, 1, jitter) == if 1.5 * c.baseDelay + jitter < c.maxDelay then 1.5 * c.baseDelay + jitter else c.maxDelay
    ensures var wait := Delay(c, k, 0.0);
            Delay(c, k + 1, 0.0) == if 1.5 * wait < c.maxDelay then 1.5 * wait else c.maxDelay
  {
    assert Pow15(1) == 1.5 * Pow15(0);
    var x := c.baseDelay * Pow15(k);
    assert c.baseDelay * Pow15(k + 1) == 1.5 * x;
  }

  lemma FirstWait(c: Config, run: seq<Action>)
    requires 0.0 <= c.maxDelay && After(c, run).waits != []
    ensures var low, high, wait := 1.5 * c.baseDelay, 1.5 * c.baseDelay + 300.0, After(c, run).waits[0];
            (if low < c.maxDelay then low else c.maxDelay) <= wait <= (if high < c.maxDelay then high else c.maxDelay)
  {
    Always(c, run);
    Backoff(c, 1, 0.0);
    Backoff(c, 1, JITTER);
    hide Delay;
  }

  // The sum of min(base * 1.5^k + extra, maxDelay) for k from 1 to n.
  function Bound(c: Config, n: nat, extra: real): real {
    if n == 0 then 0.0 else Bound(c, n - 1, extra) + Delay(c, n, extra)
  }

  lemma {:induction false} SumBounded(c: Config, waits: seq<real>)
    requires WaitsBounded(c, waits)
    ensures Bound(c, |waits|, 0.0) <= Sum(waits) <= Bound(c, |waits|, JITTER)
  {
    if waits != [] {
      var n := |waits| - 1;
      assert forall i :: 0 <= i < n ==> waits[..n][i] == waits[i];
      SumBounded(c, waits[..n]);
    }
  }

  // n times d.
  function Times(n: nat, d: real): real {
    if n == 0 then 0.0 else Times(n - 1, d) + d
  }

  lemma {:induction false} SumCapped(c: Config, waits: seq<real>, m: nat)
    requires WaitsBounded(c, waits) && |waits| <= m && c.maxDelay >= 0.0
    ensures Sum(waits) <= Times(m, c.maxDelay)
    decreases m
  {
    if |waits| < m {
      SumCapped(c, waits, m - 1);
    } else if m > 0 {
      assert waits[m - 1] <= c.maxDelay;
      SumCapped(c, waits[..m - 1], m - 1);
    }
  }

  // The total time waited since the last successful dial is bounded by the matching sums, and by
  // maxAttempts times the cap.
  lemma {:induction false} TotalWait(c: Config, run: seq<Action>)
    ensures var st := After(c, run);
            && |st.waits| == st.attempts
            && Bound(c, st.attempts, 0.0) <= Sum(st.waits) <= Bound(c, st.attempts, JITTER)
  {
    Always(c, run);
    SumBounded(c, After(c, run).waits);
  }

  lemma {:induction false} TotalWaitCapped(c: Config, run: seq<Action>)
    requires c.maxDelay >= 0.0
    ensures Sum(After(c, run).waits) <= Times(c.maxAttempts, c.maxDelay)
  {
    Always(c, run);
    SumCapped(c, After(c, run).waits, c.maxAttempts);
  }

  lemma {:induction false} Pow15Grows(j: nat, k: nat)
    requires j <= k
    ensures 1.0 <= Pow15(j) <= Pow15(k)
    decreases k
  {
    if j < k {
      Pow15Grows(j, k - 1);
    } else if k > 0 {
      Pow15Grows(k - 1, k - 1);
    }
  }

  // Once the backoff reaches the cap it stays there: the jitter no longer matters.
  lemma StaysAtCap(c: Config, j: nat, k: nat, jitter: real)
    requires c.baseDelay > 0.0 && jitter >= 0.0 && j <= k && c.baseDelay * Pow15(j) >= c.maxDelay
    ensures Delay(c, k, jitter) == c.maxDelay
  {
    Pow15Grows(j, k);
    assert c.baseDelay * Pow15(j) <= c.baseDelay * Pow15(k);
  }

  // ---------------------------------------------------------------- after Close

  // At most one dial begins after the user's Close.
  lemma {:induction false} AtMostOneMoreDial(c: Config, run: seq<Action>)
    ensures After(c, run).dialsAfterClose <= 1
  {
    Always(c, run);
  }

  lemma Unfold(c: Config, run: seq<Action>, a: Action)
    ensures After(c, run + [a]) == Step(c, After(c, run), a)
  {
    assert (run + [a])[..|run|] == run;
  }

  // Nothing was under way that could still dial.
  predicate NoMoreDials(st: State) {
    st.closedByUser && st.dialling == 0 && st.timers == 0
  }

  lemma {:induction false} StaysQuiet(c: Config, run: seq<Action>, more: seq<Action>)
    requires NoMoreDials(After(c, run))
    ensures var st, st' := After(c, run), After(c, run + more);
            NoMoreDials(st') && st'.dialsAfterClose == st.dialsAfterClose && st'.reading <= st.reading
  {
    if more == [] {
      assert run + more == run;
    } else {
      var m := |more| - 1;
      StaysQuiet(c, run, more[..m]);
      assert run + more == (run + more[..m]) + [more[m]];
      Unfold(c, run + more[..m], more[m]);
    }
  }

  // Close does not stop a pending timer or a dial in flight: afterwards the client can be connected
  // again exactly if one of them was there.
  lemma CloseLeaves(c: Config, run: seq<Action>)
    ensures var closed := run + [UserCloses];
            (exists more :: Enabled(After(c, closed + more), DialSucceeds)) <==>
              After(c, run).dialling == 1 || After(c, run).timers == 1
  {
    Always(c, run);
    var closed := run + [UserCloses];
    Unfold(c, run, UserCloses);
    if After(c, run).dialling == 1 {
      assert closed + [] == closed;
      assert Enabled(After(c, closed + []), DialSucceeds);
    } else if After(c, run).timers == 1 {
      Unfold(c, closed, TimerFires);
      assert Enabled(After(c, closed + [TimerFires]), DialSucceeds);
    } else {
      forall more ensures !Enabled(After(c, closed + more), DialSucceeds) {
        StaysQuiet(c, closed, more);
      }
    }
  }

  // ---------------------------------------------------------------- the client

  // The CONNECT frames sent after a dial, in the order in which the namespaces come.
  function Rejoins(order: seq<GoString>): seq<seq<byte>> {
    if order == [] then [] else
      Rejoins(order[..|order| - 1]) + [PrintFrame(Packet(Header(FRAME_CONNECT, order[|order| - 1], [], 0), []))]
  }

  // Each of them asks the server for its namespace.
  lemma {:induction false} RejoinsAsk(order: seq<GoString>, i: nat)
    requires i < |order| && order[i] != [] && |order[i]| <= 0xFF
    ensures |Rejoins(order)| == |order|
    ensures ParseFrame(Rejoins(order)[i]) == Some(Packet(Header(FRAME_CONNECT, order[i], [], 0), []))
  {
    var n := |order| - 1;
    RejoinsLength(order);
    hide ParseFrame, PrintFrame;
    if i < n {
      RejoinsAsk(order[..n], i);
    } else {
      FrameRoundTrip(Packet(Header(FRAME_CONNECT, order[n], [], 0), []));
    }
  }

  lemma {:induction false} RejoinsLength(order: seq<GoString>)
    ensures |Rejoins(order)| == |order|
  {
    if order != [] { RejoinsLength(order[..|order| - 1]); }
  }

  class Client {
    const config: Config
    var connected: bool
    var reconnectAttempts: nat
    var closedByUser: bool
    var namespaces: set<GoString>
    var writes: seq<seq<byte>>      // the messages sent on the present connection
    ghost var run: seq<Action>

    ghost function Now(): State
      reads this`run
    {
      After(config, run)
    }

    // There is a connection while one is being read, and until the close after that clears it.
    ghost predicate Valid()
      reads this
    {
      && reconnectAttempts == Now().attempts && closedByUser == Now().closedByUser
      && (Now().reading == 1 ==> connected)
      && (connected ==> Now().reading == 1 || Now().closing == 1)
    }

    constructor (config: Config, nsp: GoString)
      ensures Valid() && run == [] && this.config == config && namespaces == {nsp} && !connected
    {
      this.config, namespaces := config, {nsp};
      connected, reconnectAttempts, closedByUser, writes, run := false, 0, false, [], [];
    }

    ghost method Happen(a: Action)
      modifies this`run
      ensures run == old(run) + [a] && Now() == Step(config, old(Now()), a)
    {
      Unfold(config, run, a);
      run := run + [a];
    }

    // connect, with what Dial returned. Every namespace but the root is joined again.
    method Connect(dialled: bool) returns (ghost order: seq<GoString>)
      requires Valid() && Now().dialling > 0
      modifies this
      ensures Valid() && namespaces == old(namespaces)
      ensures run == old(run) + [if dialled then DialSucceeds else DialFails]
      ensures dialled ==> connected && reconnectAttempts == 0
      ensures dialled ==> Enumerates(order, namespaces - {Ascii("/")}) && writes == Rejoins(order)
      ensures !dialled ==> connected == old(connected) && writes == old(writes)
    {
      order := [];
      Always(config, run);
      if !dialled {
        Happen(DialFails);
        return;
      }
      connected, writes := true, [];
      reconnectAttempts := 0;
      Happen(DialSucceeds);
      order := Rejoin();
    }

    method Rejoin() returns (ghost order: seq<GoString>)
      requires writes == []
      modifies this`writes
      ensures Enumerates(order, namespaces - {Ascii("/")}) && writes == Rejoins(order)
    {
      order := [];
      var rest := namespaces - {Ascii("/")};
      ghost var all := rest;
      while rest != {}
        invariant rest <= all && Enumerates(order, all - rest) && writes == Rejoins(order)
        decreases |rest|
      {
        var nsp :| nsp in rest;
        var buf := EncodeFrame(Header(FRAME_CONNECT, nsp, [], 0), []);
        writes := writes + [buf[..]];
        EnumeratesSnoc(order, all - rest, nsp);
        assert all - (rest - {nsp}) == all - rest + {nsp};
        assert (order + [nsp])[..|order|] == order;
        order := order + [nsp];
        rest := rest - {nsp};
      }
      assert all - rest == all;
    }

    // The read loop ends, or the reconnect timer runs out.
    ghost method Passes(a: Action)
      requires Valid() && (a == ReadEnds || a == TimerFires) && Enabled(Now(), a)
      modifies this`run
      ensures Valid() && run == old(run) + [a] && Now() == Step(config, old(Now()), a)
      ensures a == TimerFires ==> Now().dialling > 0
    {
      Always(config, run);
      Happen(a);
    }

    // The beginning of handleClose.
    method Detach()
      requires Valid() && Now().closing > 0
      modifies this`connected
      ensures Valid() && !connected
    {
      Always(config, run);
      connected := false;
    }

    lemma AttemptsWithin()
      ensures Now().closing > 0 ==> Only(Now(), 0, 0, 1, 0)
    {
      Always(config, run);
    }

    // The end of handleClose, with the random number drawn: the delay of the reconnect timer, if
    // one is set.
    method Schedule(jitter: real) returns (delay: Option<real>)
      requires Valid() && Now().closing > 0 && !connected && 0.0 <= jitter < JITTER
      modifies this`reconnectAttempts, this`run
      ensures Valid() && run == old(run) + [CloseHandled(jitter)]
      ensures delay.Some? <==> Now().timers == old(Now()).timers + 1
      ensures delay.Some? <==> Retries(config, old(Now()))
      ensures delay.Some? <==> config.autoReconnect && !closedByUser && old(reconnectAttempts) < config.maxAttempts
      ensures delay.Some? ==> Now().waits == old(Now()).waits + [delay.value]
      ensures delay.Some? ==> reconnectAttempts == old(reconnectAttempts) + 1
      ensures delay.Some? ==>
                var wait := config.baseDelay * Pow15(reconnectAttempts) + jitter;
                delay.value == if wait < config.maxDelay then wait else config.maxDelay
    {
      AttemptsWithin();
      if !closedByUser && config.autoReconnect && reconnectAttempts < config.maxAttempts {
        reconnectAttempts := reconnectAttempts + 1;
        delay := Some(Min(config.baseDelay * Pow15(reconnectAttempts) + jitter, config.maxDelay));
        DelayIs(config, reconnectAttempts, jitter);
        assert delay.value == Delay(config, reconnectAttempts, jitter);
      } else {
        delay := None;
      }
      Happen(CloseHandled(jitter));
    }

    // safeSend: without a connection the message is lost.
    method SafeSend(buf: seq<byte>)
      modifies this`writes
      ensures writes == if connected then old(writes) + [buf] else old(writes)
    {
      if connected { writes := writes + [buf]; }
    }

    method Close()
      requires Valid()
      modifies this`closedByUser, this`run
      ensures Valid() && closedByUser && run == old(run) + [UserCloses]
    {
      closedByUser := true;
      Happen(UserCloses);
    }
  }
}
