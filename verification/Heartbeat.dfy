// The client's heartbeat (client/client.go): its ticker, its stop channel and its pong timer,
// over every interleaving of setting up, arming, clearing and cleaning up.
module Heartbeat {

  // ---------------------------------------------------------------- runtime objects

  // A channel that is only ever closed. Closing it twice panics.
  class Channel {
    var closed: bool

    constructor ()
      ensures !closed
    {
      closed := false;
    }

    method Close()
      requires !closed
      modifies this`closed
      ensures closed
    {
      closed := true;
    }
  }

  class Ticker {
    var running: bool

    constructor ()
      ensures running
    {
      running := true;
    }

    method Stop()
      modifies this`running
      ensures !running
    {
      running := false;
    }
  }

  // A timer is pending until it is stopped or has fired.
  class Timer {
    var pending: bool

    constructor ()
      ensures pending
    {
      pending := true;
    }

    method Stop()
      modifies this`pending
      ensures !pending
    {
      pending := false;
    }

    method Fire()
      requires pending
      modifies this`pending
      ensures !pending
    {
      pending := false;
    }
  }

  // ---------------------------------------------------------------- the machine

  datatype Action =
    | Setup     // setupHeartbeat, at each CONNECT for the client's own namespace
    | Arm       // armPongTimeout, by the goroutine of any ticker, even one already stopped
    | Clear     // clearPongTimeout, at each PONG
    | Cleanup   // cleanupHeartbeat, at each close
    | Expire    // the pong timer runs out

  // How many heartbeats are set up and how many pong timers have been made; which ones are live.
  datatype State = State(beating: bool, armed: bool, made: nat, closed: nat, timers: nat)

  function Step(st: State, a: Action): State {
    match a
    case Setup => st.(beating := true, made := st.made + 1, closed := if st.beating then st.closed + 1 else st.closed)
    case Arm => st.(armed := true, timers := st.timers + 1)
    case Clear => st.(armed := false)
    case Cleanup => st.(beating := false, armed := false, closed := if st.beating then st.closed + 1 else st.closed)
    case Expire => st.(armed := false)
  }

  function After(run: seq<Action>): State {
    if run == [] then State(false, false, 0, 0, 0) else Step(After(run[..|run| - 1]), run[|run| - 1])
  }

  // Whether the latest action of a run other than Setup is Arm.
  predicate LastArms(run: seq<Action>) {
    run != [] && var a := run[|run| - 1]; a == Arm || (a == Setup && LastArms(run[..|run| - 1]))
  }

  predicate LastBeats(run: seq<Action>) {
    run != [] && var a := run[|run| - 1]; a == Setup || (a != Cleanup && LastBeats(run[..|run| - 1]))
  }

  // A pong timer is pending exactly when it was armed after the last pong, expiry and close; a
  // heartbeat is running exactly when it was set up after the last close.
  lemma {:induction false} LiveExactly(run: seq<Action>)
    ensures After(run).armed <==> LastArms(run)
    ensures After(run).beating <==> LastBeats(run)
  {
    if run != [] { LiveExactly(run[..|run| - 1]); }
  }

  // So a goroutine that sends its ping just before a close can leave a timer pending behind it,
  // across a new heartbeat, until the next pong.
  lemma StaleTimer(before: seq<Action>)
    ensures var st := After(before + [Cleanup] + [Arm] + [Setup]); st.armed && st.beating
  {
    var run := before + [Cleanup] + [Arm] + [Setup];
    assert run[..|run| - 1] == before + [Cleanup] + [Arm];
    LiveExactly(run);
  }

  // ---------------------------------------------------------------- the client's heartbeat

  class Heartbeat {
    var pingTicker: Ticker?
    var pongTimer: Timer?
    var stopHeartbeat: Channel?
    ghost var channels: set<Channel>    // everything ever made
    ghost var tickers: set<Ticker>
    ghost var timers: set<Timer>
    ghost var run: seq<Action>

    ghost function ClosedOnes(): set<Channel>
      reads this`channels, channels`closed
    {
      set c | c in channels && c.closed
    }

    // The only open channel is the stored one.
    ghost predicate StopValid(beating: bool, made: nat, closed: nat)
      reads this`stopHeartbeat, this`channels, channels`closed
    {
      && |ClosedOnes()| == closed
      && (stopHeartbeat != null <==> beating)
      && (stopHeartbeat != null ==> stopHeartbeat in channels && !stopHeartbeat.closed)
      && (forall c <- channels :: !c.closed ==> c == stopHeartbeat)
      && |channels| == made
    }

    // The only running ticker is the stored one.
    ghost predicate PingValid(beating: bool)
      reads this`pingTicker, this`tickers, tickers`running
    {
      && (pingTicker != null <==> beating)
      && (pingTicker != null ==> pingTicker in tickers && pingTicker.running)
      && (forall k <- tickers :: k.running ==> k == pingTicker)
    }

    // The only pending timer is the stored one.
    ghost predicate PongValid(armed: bool, made: nat)
      reads this`pongTimer, this`timers, timers`pending
    {
      && (pongTimer != null ==> pongTimer in timers)
      && (forall t <- timers :: t.pending ==> t == pongTimer)
      && (armed <==> pongTimer != null && pongTimer.pending)
      && |timers| == made
    }

    // They are there exactly when the machine says so.
    ghost predicate Valid()
      reads this, channels`closed, tickers`running, timers`pending
    {
      var st := After(run);
      StopValid(st.beating, st.made, st.closed) && PingValid(st.beating) && PongValid(st.armed, st.timers)
    }

    constructor ()
      ensures Valid() && run == [] && channels == {} && tickers == {} && timers == {}
    {
      pingTicker, pongTimer, stopHeartbeat := null, null, null;
      channels, tickers, timers, run := {}, {}, {}, [];
    }

    ghost method Happen(a: Action)
      modifies this`run
      ensures run == old(run) + [a] && After(run) == Step(After(old(run)), a)
    {
      assert (run + [a])[..|run|] == run;
      run := run + [a];
    }

    // close(c.stopHeartbeat), where there is one to close.
    method CloseChannel(ghost beating: bool, ghost made: nat, ghost closed: nat)
      requires StopValid(beating, made, closed)
      modifies this`stopHeartbeat, channels`closed
      ensures StopValid(false, made, if beating then closed + 1 else closed) && channels == old(channels)
    {
      if stopHeartbeat == null { return; }
      ghost var before := ClosedOnes();
      stopHeartbeat.Close();
      assert ClosedOnes() == before + {stopHeartbeat};
      stopHeartbeat := null;
    }

    method OpenChannel(ghost made: nat, ghost closed: nat)
      requires StopValid(false, made, closed)
      modifies this`stopHeartbeat, this`channels
      ensures StopValid(true, made + 1, closed) && fresh(stopHeartbeat) && channels == old(channels) + {stopHeartbeat}
    {
      ghost var before := ClosedOnes();
      stopHeartbeat := new Channel();
      channels := channels + {stopHeartbeat};
      assert ClosedOnes() == before;
    }

    method RestartChannel(ghost beating: bool, ghost made: nat, ghost closed: nat)
      requires StopValid(beating, made, closed)
      modifies this`stopHeartbeat, this`channels, channels`closed
      ensures StopValid(true, made + 1, if beating then closed + 1 else closed)
      ensures fresh(stopHeartbeat) && channels == old(channels) + {stopHeartbeat}
    {
      hide StopValid;
      CloseChannel(beating, made, closed);
      OpenChannel(made, if beating then closed + 1 else closed);
    }

    method RestartTicker(ghost beating: bool)
      requires PingValid(beating)
      modifies this`pingTicker, this`tickers, tickers`running
      ensures PingValid(true) && fresh(pingTicker) && tickers == old(tickers) + {pingTicker}
    {
      if pingTicker != null { pingTicker.Stop(); }
      pingTicker := new Ticker();
      tickers := tickers + {pingTicker};
    }

    method SetupHeartbeat()
      requires Valid()
      modifies this`pingTicker, this`stopHeartbeat, this`tickers, this`channels, this`run, tickers`running, channels`closed
      ensures Valid() && run == old(run) + [Setup]
      ensures fresh(stopHeartbeat) && channels == old(channels) + {stopHeartbeat}
      ensures fresh(pingTicker) && tickers == old(tickers) + {pingTicker}
      ensures stopHeartbeat != null && forall c <- channels :: c.closed <==> c != stopHeartbeat
      ensures pingTicker != null && forall k <- tickers :: k.running <==> k == pingTicker
    {
      hide After, StopValid, PingValid, PongValid;
      ghost var st := After(run);
      RestartTicker(st.beating);
      RestartChannel(st.beating, st.made, st.closed);
      Happen(Setup);
      Beating();
    }

    // After a setup one channel is open and one ticker runs, the stored ones.
    lemma Beating()
      requires Valid() && run != [] && run[|run| - 1] == Setup
      ensures stopHeartbeat != null && forall c <- channels :: c.closed <==> c != stopHeartbeat
      ensures pingTicker != null && forall k <- tickers :: k.running <==> k == pingTicker
    {}

    method RestartTimer(ghost armed: bool, ghost made: nat)
      requires PongValid(armed, made)
      modifies this`pongTimer, this`timers, timers`pending
      ensures PongValid(true, made + 1) && fresh(pongTimer) && timers == old(timers) + {pongTimer} && pongTimer.pending
    {
      if pongTimer != null { pongTimer.Stop(); }
      pongTimer := new Timer();
      timers := timers + {pongTimer};
    }

    method ArmPongTimeout()
      requires Valid()
      modifies this`pongTimer, this`timers, this`run, timers`pending
      ensures Valid() && run == old(run) + [Arm]
      ensures fresh(pongTimer) && timers == old(timers) + {pongTimer} && pongTimer.pending
      ensures forall t <- timers :: t.pending <==> t == pongTimer
    {
      hide After, StopValid, PingValid;
      ghost var st := After(run);
      RestartTimer(st.armed, st.timers);
      Happen(Arm);
    }

    method ClearPongTimeout()
      requires Valid()
      modifies this`pongTimer, this`run, timers`pending
      ensures Valid() && run == old(run) + [Clear] && forall t <- timers :: !t.pending
    {
      ghost var st := After(run);
      hide After, StopValid, PingValid;
      StopTimer(st.armed, st.timers);
      Happen(Clear);
    }

    method StopTicker(ghost beating: bool)
      requires PingValid(beating)
      modifies this`pingTicker, tickers`running
      ensures PingValid(false) && tickers == old(tickers)
    {
      if pingTicker == null { return; }
      pingTicker.Stop();
      pingTicker := null;
    }

    method StopTimer(ghost armed: bool, ghost made: nat)
      requires PongValid(armed, made)
      modifies this`pongTimer, timers`pending
      ensures PongValid(false, made) && timers == old(timers)
    {
      if pongTimer == null { return; }
      pongTimer.Stop();
      pongTimer := null;
    }

    method CleanupHeartbeat()
      requires Valid()
      modifies this`pingTicker, this`pongTimer, this`stopHeartbeat, this`run, timers`pending, tickers`running, channels`closed
      ensures Valid() && run == old(run) + [Cleanup]
      ensures (forall c <- channels :: c.closed) && (forall k <- tickers :: !k.running) && forall t <- timers :: !t.pending
    {
      StopAll();
      AllStill();
    }

    method StopAll()
      requires Valid()
      modifies this`pingTicker, this`pongTimer, this`stopHeartbeat, this`run, timers`pending, tickers`running, channels`closed
      ensures Valid() && run == old(run) + [Cleanup]
    {
      hide After, StopValid, PingValid, PongValid;
      ghost var st := After(run);
      StopTicker(st.beating);
      CloseChannel(st.beating, st.made, st.closed);
      StopTimer(st.armed, st.timers);
      Happen(Cleanup);
    }

    // After a cleanup nothing is left running.
    lemma AllStill()
      requires Valid() && run != [] && run[|run| - 1] == Cleanup
      ensures (forall c <- channels :: c.closed) && (forall k <- tickers :: !k.running) && forall t <- timers :: !t.pending
    {}

    // Each stop channel ever made has been closed, once, except the one in use.
    lemma AllClosedButOne()
      requires Valid()
      ensures ClosedOnes() == channels - if stopHeartbeat != null then {stopHeartbeat} else {}
      ensures |ClosedOnes()| == After(run).closed && |channels| == After(run).made
    {}

    // The pong timer runs out. It stays stored, but no longer pending.
    method PongTimeout(t: Timer)
      requires Valid() && t in timers && t.pending
      modifies this`run, timers`pending
      ensures Valid() && run == old(run) + [Expire] && !t.pending
    {
      t.Fire();
      Happen(Expire);
    }
  }
}
