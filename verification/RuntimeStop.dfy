/** Shutting down a server's runtime: once the dispatcher is being stopped, and every session is or has lost its
    client, every run is finite, and at its end nothing is left running. */
module RuntimeStop {
  import D = DispatcherModel
  import DP = DispatcherProofs
  import DT = DispatcherTheorems
  import S = SessionModel
  import SP = SessionProofs
  import ST = SessionTheorems
  import SS = SessionStop
  import opened Runtime
  import opened RuntimeProofs
  import RT = RuntimeTheorems

  /** Every step but those of whoever stops a session once more. */
  predicate IsOwn(a: Action) {
    !(a.Alone? && a.s.Stopper?)
  }

  /** Every session is being stopped, or its read loop has met an error. */
  predicate SessionsStop(ss: seq<S.State>) {
    forall i | 0 <= i < |ss| :: SS.Winding(ss[i])
  }

  /** There will never be more forwarders than this. */
  predicate Fits(ss: seq<S.State>, ns: seq<nat>) {
    |ss| == |ns| && forall i | 0 <= i < |ss| :: SS.Room(ss[i]) <= ns[i]
  }

  function SessionsLeft(ss: seq<S.State>, ns: seq<nat>): nat
    requires |ss| == |ns|
  {
    if ss == [] then 0 else SS.StepsLeft(ss[0], ns[0]) + SessionsLeft(ss[1..], ns[1..])
  }

  /** A bound on the steps that are left. */
  function StepsLeft(s: State, ns: seq<nat>): nat
    requires |s.sessions| == |ns|
  {
    DT.Measure(s.dispatcher) + SessionsLeft(s.sessions, ns)
  }

  lemma {:induction false} SessionsLeftUpdate(ss: seq<S.State>, ns: seq<nat>, j: nat, t: S.State)
    requires |ss| == |ns| && j < |ss|
    ensures SessionsLeft(ss[j := t], ns) == SessionsLeft(ss, ns) - SS.StepsLeft(ss[j], ns[j]) + SS.StepsLeft(t, ns[j])
  {
    hide SS.StepsLeft;
    if j == 0 {
      assert ss[j := t][1..] == ss[1..];
    } else {
      SessionsLeftUpdate(ss[1..], ns[1..], j - 1, t);
      assert ss[j := t][1..] == ss[1..][j - 1 := t];
    }
  }

  /** What an action is to the session in which it takes place. */
  lemma AsSession(c: Config, s: State, a: Action) returns (x: S.Action)
    requires PartsInv(c, s) && Enabled(c, s, a) && !a.Dispatch? && !a.Enqueue?
    ensures S.Enabled(c.Session(a.i), s.sessions[a.i], x)
    ensures NextSession(c, s, a) == S.Next(c.Session(a.i), s.sessions[a.i], x)
    ensures SS.IsOwn(x) == IsOwn(a)
  {
    match a
    case Alone(_, y) => x := y;
    case Receive(_, r) => x := S.ReadLoop(S.ReadOk(r));
    case Return(i) => x := S.ReadLoop(ReturnStep(s, s.sessions[i].reader.req));
    case Forward(i, k) =>
      ForwardIsReceive(c, s, i, k);
      x := S.Forward(k, S.Receive(s.dispatcher.results.slots[s.sessions[i].forwarders[k].req]));
  }

  /** What a step of a session does to what that session has left. */
  lemma SessionNearer(c: S.Config, s: S.State, x: S.Action, n: nat)
    requires SP.Inv(c, s) && SS.Winding(s) && SS.Room(s) <= n && S.Enabled(c, s, x)
    ensures var t := S.Next(c, s, x);
            && SS.Winding(t) && SS.Room(t) <= n
            && (if SS.IsOwn(x) then SS.StepsLeft(t, n) < SS.StepsLeft(s, n) else SS.StepsLeft(t, n) == SS.StepsLeft(s, n))
  {
    var t := S.Next(c, s, x);
    SS.StepNearer(c, s, x);
    hide SP.Inv, S.Next, S.Enabled, SS.Nearer, SS.Work;
    if SS.IsOwn(x) {
      SS.RoomBounds(t);
      hide SS.Room, SS.StepsLeft;
      SS.FewerSteps(s, t, n);
    }
  }

  lemma DispatcherNearer(c: Config, s: State, a: Action)
    requires PartsInv(c, s) && Enabled(c, s, a)
    ensures DT.Measure(NextDispatcher(c, s, a)) <= DT.Measure(s.dispatcher)
    ensures a.Dispatch? || a.Enqueue? ==> DT.Measure(NextDispatcher(c, s, a)) < DT.Measure(s.dispatcher)
  {
    hide DP.Inv, SessionsInv, D.Enabled, D.Next, DT.Measure;
    match a
    case Dispatch(x) => DT.MeasureStep(c.dispatcher, s.dispatcher, x);
    case Enqueue(i, x) => DT.MeasureStep(c.dispatcher, s.dispatcher, D.Caller(s.sessions[i].reader.req, x));
    case Forward(i, k) => DT.MeasureStep(c.dispatcher, s.dispatcher, D.Collect(s.sessions[i].forwarders[k].req));
    case _ =>
  }

  lemma StaysWithin(ss: seq<S.State>, ns: seq<nat>, j: nat, t: S.State)
    requires SessionsStop(ss) && Fits(ss, ns) && j < |ss| && SS.Winding(t) && SS.Room(t) <= ns[j]
    ensures SessionsStop(ss[j := t]) && Fits(ss[j := t], ns)
  {
    hide SS.Room;
  }

  /** What a step that is a session's does to what the sessions have left. */
  lemma SessionsNearer(c: Config, s: State, a: Action, ns: seq<nat>)
    requires PartsInv(c, s) && SessionsStop(s.sessions) && Fits(s.sessions, ns) && Enabled(c, s, a)
    requires !a.Dispatch? && !a.Enqueue?
    ensures var ss := s.sessions[a.i := NextSession(c, s, a)];
            && SessionsStop(ss) && Fits(ss, ns)
            && (if IsOwn(a) then SessionsLeft(ss, ns) < SessionsLeft(s.sessions, ns) else SessionsLeft(ss, ns) == SessionsLeft(s.sessions, ns))
  {
    var x := AsSession(c, s, a);
    var i, t := a.i, NextSession(c, s, a);
    assert SP.Inv(c.Session(i), s.sessions[i]) && SS.Winding(s.sessions[i]) && SS.Room(s.sessions[i]) <= ns[i];
    hide PartsInv, Enabled, S.Enabled, S.Next, NextSession, SS.StepsLeft, SS.Room, SessionsLeft, SessionsStop, Fits, IsOwn, SS.IsOwn;
    SessionNearer(c.Session(i), s.sessions[i], x, ns[i]);
    StaysWithin(s.sessions, ns, i, t);
    SessionsLeftUpdate(s.sessions, ns, i, t);
  }

  lemma StepNearer(c: Config, s: State, a: Action, ns: seq<nat>)
    requires PartsInv(c, s) && SessionsStop(s.sessions) && Fits(s.sessions, ns) && Enabled(c, s, a)
    ensures var t := Next(c, s, a);
            && SessionsStop(t.sessions) && Fits(t.sessions, ns)
            && (if IsOwn(a) then StepsLeft(t, ns) < StepsLeft(s, ns) else StepsLeft(t, ns) <= StepsLeft(s, ns))
  {
    DispatcherNearer(c, s, a);
    hide PartsInv, SessionsLeft, DT.Measure, SessionsStop, NextSession, NextDispatcher;
    if !a.Dispatch? && !a.Enqueue? {
      SessionsNearer(c, s, a, ns);
    }
    hide Enabled;
  }

  function OwnSteps(run: seq<Action>): nat {
    if run == [] then 0 else (if IsOwn(run[0]) then 1 else 0) + OwnSteps(run[1..])
  }

  /** Both kinds of stop have begun: every session's stop channel is closed, and Stop has been called on the
      dispatcher, which had been started. */
  predicate ShuttingDown(s: State) {
    SessionsStop(s.sessions) && s.dispatcher.started && !s.dispatcher.front.stop.NotStopping?
  }

  lemma StaysStarted(c: Config, s: State, a: Action)
    requires Enabled(c, s, a) && s.dispatcher.started && !s.dispatcher.front.stop.NotStopping?
    ensures NextDispatcher(c, s, a).started && !NextDispatcher(c, s, a).front.stop.NotStopping?
  {
  }

  lemma {:induction false} EndsWithin(c: Config, s: State, run: seq<Action>, t: State, ns: seq<nat>)
    requires Inv(c, s) && ShuttingDown(s) && Fits(s.sessions, ns) && Reaches(c, s, run, t)
    ensures Inv(c, t) && ShuttingDown(t) && Fits(t.sessions, ns)
    ensures OwnSteps(run) + StepsLeft(t, ns) <= StepsLeft(s, ns)
    decreases |run|
  {
    if run != [] {
      InvStep(c, s, run[0]);
      StaysStarted(c, s, run[0]);
      StepNearer(c, s, run[0], ns);
      hide Inv, Enabled, Next, SessionsStop, StepsLeft, Fits;
      EndsWithin(c, Next(c, s, run[0]), run[1..], t, ns);
    }
  }

  function Rooms(ss: seq<S.State>): (ns: seq<nat>)
    ensures Fits(ss, ns)
  {
    seq(|ss|, i requires 0 <= i < |ss| => SS.Room(ss[i]))
  }

  predicate SessionOver(t: S.State) {
    t.reader.Gone? && t.writer.pc.Ended? && forall k | 0 <= k < |t.forwarders| :: t.forwarders[k].pc.Finished?
  }

  /** Both loops of every session and all its forwarders have ended, Stop of the dispatcher has returned, and its
      goroutines are gone. */
  predicate AllOver(s: State) {
    && s.dispatcher.front.stop.Returned? && D.NoGoroutines(s.dispatcher)
    && forall i | 0 <= i < |s.sessions| :: SessionOver(s.sessions[i])
  }

  /** No goroutine has a step left. */
  ghost predicate AtRest(c: Config, s: State) {
    forall a | IsOwn(a) :: !Enabled(c, s, a)
  }

  /** A loop that has not ended has a step, or its call of Enqueue does. */
  lemma LoopMoves(c: Config, s: State, i: nat) returns (a: Action)
    requires Inv(c, s) && ShuttingDown(s) && i < |s.sessions|
    requires !s.sessions[i].reader.Gone? || !s.sessions[i].writer.pc.Ended?
    ensures IsOwn(a) && Enabled(c, s, a)
  {
    var t := s.sessions[i];
    RT.NotPanicked(c, s);
    assert SP.Written(t.writer, t.queue, t.accepted) by {
      assert SP.Inv(c.Session(i), t);
    }
    hide Inv, SP.Written;
    if t.reader.Submitting? {
      a := RT.CallMoves(c, s, i);
    } else if !t.reader.Gone? {
      var x := ST.ReaderMoves(t);
      a := Alone(i, S.ReadLoop(x));
    } else {
      ST.WriterMoves(t);
      var x :| S.WriterEnabled(t, x);
      a := Alone(i, S.WriteLoop(x));
    }
  }

  /** A forwarder that has not ended has a step, or the dispatcher's goroutines work for it. */
  lemma ForwarderMoves(c: Config, s: State, i: nat, k: nat) returns (a: Action)
    requires Inv(c, s) && ShuttingDown(s) && i < |s.sessions| && k < |s.sessions[i].forwarders|
    requires !s.sessions[i].forwarders[k].pc.Finished?
    ensures IsOwn(a) && Enabled(c, s, a)
  {
    assert s.sessions[i].reader.Gone? ==> s.sessions[i].stop.chClosed by {
      assert SP.Inv(c.Session(i), s.sessions[i]);
    }
    hide Inv, Enabled;
    if s.sessions[i].forwarders[k].pc.Awaiting? {
      a := RT.AwaitMoves(c, s, i, k);
    } else if !s.sessions[i].reader.Gone? {
      a := LoopMoves(c, s, i);
    } else {
      a := RT.ForwarderMoves(c, s, i, k);
    }
  }

  /** Stop of the dispatcher gets on, or the goroutines do, or the session for whose call it waits. */
  lemma DispatcherMoves(c: Config, s: State) returns (a: Action)
    requires Inv(c, s) && ShuttingDown(s)
    requires !s.dispatcher.front.stop.Returned? || !D.NoGoroutines(s.dispatcher)
    ensures IsOwn(a) && Enabled(c, s, a)
  {
    var d := s.dispatcher;
    RT.NotPanicked(c, s);
    if d.front.stop.Returned? {
      assert !d.incoming.open;
      a := RT.GoroutinesMove(c, s);
    } else {
      var x := DT.StopMoves(c.dispatcher, d);
      if x.Caller? {
        assert IsCalling(s.owner, s.sessions, x.r);
        hide Inv;
        a := RT.CallMoves(c, s, s.owner[x.r].0);
      } else {
        a := Dispatch(x);
      }
    }
  }

  lemma SomethingMoves(c: Config, s: State) returns (a: Action)
    requires Inv(c, s) && ShuttingDown(s) && !AllOver(s)
    ensures IsOwn(a) && Enabled(c, s, a)
  {
    hide Inv, Enabled, IsOwn, ShuttingDown, D.NoGoroutines;
    if !s.dispatcher.front.stop.Returned? || !D.NoGoroutines(s.dispatcher) {
      a := DispatcherMoves(c, s);
    } else {
      var i :| 0 <= i < |s.sessions| && !SessionOver(s.sessions[i]);
      if !s.sessions[i].reader.Gone? || !s.sessions[i].writer.pc.Ended? {
        a := LoopMoves(c, s, i);
      } else {
        var k :| 0 <= k < |s.sessions[i].forwarders| && !s.sessions[i].forwarders[k].pc.Finished?;
        a := ForwarderMoves(c, s, i, k);
      }
    }
  }

  lemma NothingMoves(c: Config, s: State, a: Action)
    requires ShuttingDown(s) && AllOver(s) && IsOwn(a)
    ensures !Enabled(c, s, a)
  {
    hide SessionsStop;
    match a
    case Dispatch(x) => assert s.dispatcher.scheduler.pc.Gone?;
    case Alone(i, x) => assert i < |s.sessions| ==> SessionOver(s.sessions[i]);
    case Receive(i, _) => assert i < |s.sessions| ==> SessionOver(s.sessions[i]);
    case Enqueue(i, _) => assert i < |s.sessions| ==> SessionOver(s.sessions[i]);
    case Return(i) => assert i < |s.sessions| ==> SessionOver(s.sessions[i]);
    case Forward(i, _) => assert i < |s.sessions| ==> SessionOver(s.sessions[i]);
  }

  /** Shutdown ends: in every run, once the started dispatcher is being stopped and every session is or has met an
      error in its read loop, the steps still made are bounded beforehand, whoever else calls for a stop; and no step is left exactly when
      everything has ended. */
  lemma ShutdownEnds(c: Config, reqs: set<Req>, before: seq<Action>, s: State, after: seq<Action>, t: State)
    requires c.Valid() && Reaches(c, Init(c, reqs), before, s) && ShuttingDown(s) && Reaches(c, s, after, t)
    ensures OwnSteps(after) <= StepsLeft(s, Rooms(s.sessions))
    ensures AtRest(c, t) <==> AllOver(t)
  {
    InitInv(c, reqs);
    InvRun(c, Init(c, reqs), before, s);
    hide Inv, Enabled, AllOver, StepsLeft, Fits, IsOwn, ShuttingDown;
    EndsWithin(c, s, after, t, Rooms(s.sessions));
    if AllOver(t) {
      forall a | IsOwn(a)
        ensures !Enabled(c, t, a)
      {
        NothingMoves(c, t, a);
      }
    } else {
      var a := SomethingMoves(c, t);
    }
  }
}
