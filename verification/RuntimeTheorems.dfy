/** What sessions over one dispatcher promise together, for any number of sessions and workers. */
module RuntimeTheorems {
  import opened Int64
  import D = DispatcherModel
  import DP = DispatcherProofs
  import DT = DispatcherTheorems
  import S = SessionModel
  import SP = SessionProofs
  import ST = SessionTheorems
  import SJ = SessionJam
  import opened Runtime
  import opened RuntimeProofs
  import Values
  import Grammar
  import Streams
  import Wire

  /** In every interleaving, stops included: a session with one request in flight has written a prefix of the
      results of its requests in the order of the requests, each with its own request's scope, although the
      dispatcher may serve requests of different sessions in any order. */
  lemma SessionOrder(c: Config, reqs: set<Req>, run: seq<Action>, t: State, i: nat)
    requires c.Valid() && Reaches(c, Init(c, reqs), run, t) && i < |c.limits| && c.limits[i] == 1
    ensures i < |t.sessions|
    ensures t.sessions[i].writer.written <= S.Answers(c.Session(i), t.sessions[i].forwarders)
  {
    InitInv(c, reqs);
    InvRun(c, Init(c, reqs), run, t);
    assert SP.Inv(c.Session(i), t.sessions[i]);
    ST.SerialAnswers(c.Session(i), t.sessions[i]);
  }

  /** The run takes the wire of session `i` from `w` to `v`. */
  ghost predicate Emits(c: Config, s: State, i: nat, w: Wire.Wire, run: seq<Action>, t: State, v: Wire.Wire)
    decreases |run|
  {
    if run == [] then s == t && w == v
    else
      && Enabled(c, s, run[0])
      && exists u :: StepEmits(s, i, w, run[0], u) && Emits(c, Next(c, s, run[0]), i, u, run[1..], t, v)
  }

  predicate StepEmits(s: State, i: nat, w: Wire.Wire, a: Action, u: Wire.Wire) {
    if a.Alone? && a.i == i && i < |s.sessions| then Wire.WireStep(s.sessions[i].writer, a.s, w, u) else u == w
  }

  lemma WriterUntouched(c: Config, s: State, i: nat, a: Action)
    requires Enabled(c, s, a) && i < |s.sessions| && !(a.Alone? && a.i == i)
    ensures i < |Next(c, s, a).sessions| && Next(c, s, a).sessions[i].writer == s.sessions[i].writer
  {
    hide D.Enabled, D.Next, S.Next, S.Enabled;
  }

  lemma StepWired(c: Config, s: State, i: nat, w: Wire.Wire, a: Action, u: Wire.Wire)
    requires Inv(c, s) && Enabled(c, s, a) && i < |s.sessions|
    requires Wire.Wired(s.sessions[i].writer, w) && StepEmits(s, i, w, a, u)
    ensures i < |Next(c, s, a).sessions| && Wire.Wired(Next(c, s, a).sessions[i].writer, u)
  {
    if a.Alone? && a.i == i {
      assert SP.Written(s.sessions[i].writer, s.sessions[i].queue, s.sessions[i].accepted) by {
        assert SP.Inv(c.Session(i), s.sessions[i]);
      }
      hide Inv, Wire.WireStep, Wire.Wired, D.Enabled, D.Next, S.Next, S.Enabled;
      Wire.WiredStep(c.Session(i), s.sessions[i], a.s, w, u);
    } else {
      hide Inv, Enabled, Next, Wire.Wired;
      WriterUntouched(c, s, i, a);
    }
  }

  lemma {:induction false} RunWired(c: Config, s: State, i: nat, w: Wire.Wire, run: seq<Action>, t: State, v: Wire.Wire)
    requires Inv(c, s) && i < |s.sessions| && Wire.Wired(s.sessions[i].writer, w) && Emits(c, s, i, w, run, t, v)
    ensures Inv(c, t) && i < |t.sessions| && Wire.Wired(t.sessions[i].writer, v)
    decreases |run|
  {
    hide Inv, Enabled, Next, Wire.Wired, StepEmits;
    if run != [] {
      var u :| StepEmits(s, i, w, run[0], u) && Emits(c, Next(c, s, run[0]), i, u, run[1..], t, v);
      InvStep(c, s, run[0]);
      StepWired(c, s, i, w, run[0], u);
      RunWired(c, Next(c, s, run[0]), i, u, run[1..], t, v);
    }
  }

  /** So the client of such a session, parsing what its connection received, finds the results of its first
      requests, one each, in the order in which it sent them; and unless a flush failed, of all that were
      flushed, up to the first result with a nil array inside. */
  lemma ClientReadsAnswers(c: Config, reqs: set<Req>, run: seq<Action>, t: State, i: nat, v: Wire.Wire)
    requires c.Valid() && i < |c.limits| && c.limits[i] == 1
    requires Emits(c, Init(c, reqs), i, Wire.Wire([], []), run, t, v)
    ensures i < |t.sessions|
    ensures var s := t.sessions[i];
            |Wire.Encoded(s.writer.written)| <= MAX ==>
              && var b := Grammar.ParseAll(v.out, 0);
              && |b.values| <= |s.forwarders|
              && (forall k | 0 <= k < |b.values| :: b.values[k] == Values.Norm(c.dispatcher.exec(s.forwarders[k].req)))
              && (!ST.Failed(s.writer) ==>
                    s.writer.flushed <= |s.writer.written|
                    && |b.values| == Streams.Readable(Wire.ValuesOf(s.writer.written[..s.writer.flushed])))
  {
    InitInv(c, reqs);
    assert Wire.Wired(Init(c, reqs).sessions[i].writer, Wire.Wire([], []));
    hide Reaches;
    RunWired(c, Init(c, reqs), i, Wire.Wire([], []), run, t, v);
    var s := t.sessions[i];
    assert SP.Inv(c.Session(i), s);
    hide Inv, Emits, SP.Inv, Wire.Wired, Wire.Encoded, Values.Norm, Grammar.ParseAll, Streams.Readable;
    WrittenAnswers(c.Session(i), s);
    if |Wire.Encoded(s.writer.written)| <= MAX {
      Wire.PeerReads(s.writer, v);
    }
  }

  lemma WrittenAnswers(c: S.Config, s: S.State)
    requires SP.Inv(c, s) && c.maxInFlight == 1
    ensures s.writer.flushed <= |s.writer.written| <= |s.forwarders|
    ensures forall k | 0 <= k < |s.writer.written| :: s.writer.written[k].value == c.exec(s.forwarders[k].req)
  {
    ST.SerialAnswers(c, s);
    assert SP.Progress(s.writer);
    hide SP.Inv;
    forall k | 0 <= k < |s.writer.written|
      ensures s.writer.written[k].value == c.exec(s.forwarders[k].req)
    {
      assert s.writer.written[k] == S.Answers(c, s.forwarders)[k];
    }
  }

  /** No request is ever with two forwarders, of one session or of two. */
  lemma OneOwner(c: Config, reqs: set<Req>, run: seq<Action>, t: State, i: nat, k: nat, j: nat, l: nat)
    requires c.Valid() && Reaches(c, Init(c, reqs), run, t)
    requires i < |t.sessions| && k < |t.sessions[i].forwarders| && j < |t.sessions| && l < |t.sessions[j].forwarders|
    requires t.sessions[i].forwarders[k].req == t.sessions[j].forwarders[l].req
    ensures i == j && k == l
  {
    InitInv(c, reqs);
    InvRun(c, Init(c, reqs), run, t);
    hide PartsInv;
    assert OwnSession(t.owner, t.dispatcher, i, t.sessions[i]) && OwnSession(t.owner, t.dispatcher, j, t.sessions[j]);
    assert OwnForwarder(t.owner, t.dispatcher, i, k, t.sessions[i].forwarders[k]);
    assert OwnForwarder(t.owner, t.dispatcher, j, l, t.sessions[j].forwarders[l]);
  }

  /** A forwarder's request was accepted, and its result, if delivered, is in its channel. */
  lemma AwaitsAccepted(s: State, i: nat, k: nat)
    requires Owned(s) && i < |s.sessions| && k < |s.sessions[i].forwarders| && s.sessions[i].forwarders[k].pc.Awaiting?
    ensures var r := s.sessions[i].forwarders[k].req;
            D.CallAt(s.dispatcher.front, r, D.ReturnedNil) && Expected(s.dispatcher.results, r)
  {
    assert OwnSession(s.owner, s.dispatcher, i, s.sessions[i]);
    assert OwnForwarder(s.owner, s.dispatcher, i, k, s.sessions[i].forwarders[k]);
  }

  /** Once Stop of a started dispatcher has returned, every forwarder that still waits finds its result. */
  lemma NoForwarderLost(c: Config, reqs: set<Req>, run: seq<Action>, t: State, i: nat, k: nat)
    requires c.Valid() && Reaches(c, Init(c, reqs), run, t) && t.dispatcher.front.stop == D.Returned(true)
    requires i < |t.sessions| && k < |t.sessions[i].forwarders| && t.sessions[i].forwarders[k].pc.Awaiting?
    ensures Enabled(c, t, Forward(i, k))
  {
    InitInv(c, reqs);
    InvRun(c, Init(c, reqs), run, t);
    hide Inv;
    ResultIsThere(c, t, i, k);
  }

  lemma ResultIsThere(c: Config, s: State, i: nat, k: nat)
    requires Inv(c, s) && s.dispatcher.front.stop == D.Returned(true)
    requires i < |s.sessions| && k < |s.sessions[i].forwarders| && s.sessions[i].forwarders[k].pc.Awaiting?
    ensures Enabled(c, s, Forward(i, k))
  {
    NotPanicked(c, s);
    AwaitsAccepted(s, i, k);
    var r := s.sessions[i].forwarders[k].req;
    assert D.Deliveries(s.dispatcher.results.log, r) == 1 by {
      DT.StoppedAnswered(c.dispatcher, s.dispatcher);
    }
    hide Inv, D.Deliveries;
  }

  lemma NotPanicked(c: Config, s: State)
    requires PartsInv(c, s)
    ensures !s.dispatcher.panicked && |s.sessions| == |c.limits|
  {
    hide DP.Conserved, DP.Counted, DP.Registering, DP.Logged, DP.Genuine;
  }

  // No request is stuck.

  predicate IsGoroutines(a: Action) {
    a.Dispatch? && (a.a.Schedule? || a.a.Work?)
  }

  /** The step carries the request of this forwarder further: the scheduler's or a worker's while it waits for
      its result, the write loop's while it is before the response queue, and any of its own. */
  predicate Advances(t: S.State, i: nat, k: nat, a: Action)
    requires k < |t.forwarders|
  {
    match a
    case Forward(j, l) => j == i && l == k
    case Dispatch(_) => IsGoroutines(a) && t.forwarders[k].pc.Awaiting?
    case Alone(j, x) => j == i && ((x.Forward? && x.k == k) || (x.WriteLoop? && t.forwarders[k].pc.Offering?))
    case _ => false
  }

  /** The step carries the call of Enqueue of this session further. */
  predicate AdvancesCall(i: nat, a: Action) {
    match a
    case Enqueue(j, _) => j == i
    case Return(j) => j == i
    case _ => IsGoroutines(a)
  }

  lemma GoroutinesMove(c: Config, s: State) returns (a: Action)
    requires Inv(c, s) && s.dispatcher.started && DT.WorkLeft(s.dispatcher)
    ensures IsGoroutines(a) && Enabled(c, s, a)
  {
    var x := DT.GoroutineMoves(c.dispatcher, s.dispatcher);
    NotPanicked(c, s);
    a := Dispatch(x);
  }

  /** A call of Enqueue made by a session gets on, if need be after the goroutines have made room. */
  lemma CallMoves(c: Config, s: State, i: nat) returns (a: Action)
    requires Inv(c, s) && s.dispatcher.started && i < |s.sessions| && s.sessions[i].reader.Submitting?
    ensures AdvancesCall(i, a) && Enabled(c, s, a)
  {
    var r := s.sessions[i].reader.req;
    assert r in s.dispatcher.front.calls by {
      assert OwnSession(s.owner, s.dispatcher, i, s.sessions[i]);
    }
    NotPanicked(c, s);
    match s.dispatcher.front.calls[r]
    case NotCalled => a := Enqueue(i, D.Call);
    case Registered =>
      if |s.dispatcher.incoming.items| < c.dispatcher.queueSize {
        a := Enqueue(i, D.Send);
      } else {
        assert c.dispatcher.queueSize > 0;
        a := GoroutinesMove(c, s);
      }
    case Sent => a := Enqueue(i, D.Leave);
    case Refused => a := Enqueue(i, D.Leave);
    case ReturnedNil => a := Return(i);
    case ReturnedErr => a := Return(i);
  }

  /** A forwarder that waits for its result gets it, or the goroutines still work on it. */
  lemma AwaitMoves(c: Config, s: State, i: nat, k: nat) returns (a: Action)
    requires Inv(c, s) && s.dispatcher.started
    requires i < |s.sessions| && k < |s.sessions[i].forwarders| && s.sessions[i].forwarders[k].pc.Awaiting?
    ensures Advances(s.sessions[i], i, k, a) && Enabled(c, s, a)
  {
    var r := s.sessions[i].forwarders[k].req;
    AwaitsAccepted(s, i, k);
    NotPanicked(c, s);
    if r in s.dispatcher.results.slots {
      a := Forward(i, k);
    } else {
      DT.AtMostOnce(c.dispatcher, s.dispatcher, r);
      DT.UnansweredIsWork(c.dispatcher, s.dispatcher, r);
      a := GoroutinesMove(c, s);
    }
  }

  /** A forwarder that has its result gets rid of it unless the session is jammed. */
  lemma ForwarderMoves(c: Config, s: State, i: nat, k: nat) returns (a: Action)
    requires Inv(c, s) && i < |s.sessions| && k < |s.sessions[i].forwarders|
    requires S.IsLive(s.sessions[i].forwarders[k]) && !s.sessions[i].forwarders[k].pc.Awaiting?
    requires !(SJ.Jammed(s.sessions[i]) && s.sessions[i].forwarders[k].pc.Offering?)
    ensures Advances(s.sessions[i], i, k, a) && Enabled(c, s, a)
  {
    var t := s.sessions[i];
    assert SP.Written(t.writer, t.queue, t.accepted) by {
      assert SP.Inv(c.Session(i), t);
    }
    NotPanicked(c, s);
    hide Inv, SP.Written;
    match t.forwarders[k].pc
    case Holding(_) => a := Alone(i, S.Forward(k, S.CheckStop));
    case Lowering(_) => a := Alone(i, S.Forward(k, S.Load));
    case Swapping(_, _) => a := Alone(i, S.Forward(k, S.Swap));
    case Offering(_) =>
      if |t.queue| < S.ResponseQueueSize {
        a := Alone(i, S.Forward(k, S.Accept));
      } else if t.stop.chClosed {
        a := Alone(i, S.Forward(k, S.Refuse));
      } else {
        assert |t.queue| == S.ResponseQueueSize by {
          assert SP.Written(t.writer, t.queue, t.accepted);
        }
        ST.WriterMoves(t);
        var x :| S.WriterEnabled(t, x);
        a := Alone(i, S.WriteLoop(x));
      }
  }

  /** In a jammed session a forwarder before the response queue has no step, and the write loop has none. */
  lemma JammedWaits(c: Config, s: State, i: nat, k: nat, a: Action)
    requires i < |s.sessions| && k < |s.sessions[i].forwarders|
    requires SJ.Jammed(s.sessions[i]) && s.sessions[i].forwarders[k].pc.Offering?
    requires Advances(s.sessions[i], i, k, a)
    ensures !Enabled(c, s, a)
  {
    hide D.Enabled, S.ReaderEnabled, S.StopperEnabled;
  }

  /** The forwarder's request is stuck: no step carries it further. */
  ghost predicate Stuck(c: Config, s: State, i: nat, k: nat)
    requires i < |s.sessions| && k < |s.sessions[i].forwarders|
  {
    forall a | Advances(s.sessions[i], i, k, a) :: !Enabled(c, s, a)
  }

  /** In every run over a started dispatcher, the request of a live forwarder is stuck exactly when the
      forwarder is before the response queue of a jammed session. */
  lemma StuckExactly(c: Config, reqs: set<Req>, run: seq<Action>, t: State, i: nat, k: nat)
    requires c.Valid() && Reaches(c, Init(c, reqs), run, t) && t.dispatcher.started
    requires i < |t.sessions| && k < |t.sessions[i].forwarders| && S.IsLive(t.sessions[i].forwarders[k])
    ensures Stuck(c, t, i, k) <==> SJ.Jammed(t.sessions[i]) && t.sessions[i].forwarders[k].pc.Offering?
  {
    InitInv(c, reqs);
    InvRun(c, Init(c, reqs), run, t);
    hide Inv, Enabled, Advances, SJ.Jammed;
    if SJ.Jammed(t.sessions[i]) && t.sessions[i].forwarders[k].pc.Offering? {
      forall a | Advances(t.sessions[i], i, k, a)
        ensures !Enabled(c, t, a)
      {
        JammedWaits(c, t, i, k, a);
      }
    } else if t.sessions[i].forwarders[k].pc.Awaiting? {
      var a := AwaitMoves(c, t, i, k);
    } else {
      var a := ForwarderMoves(c, t, i, k);
    }
  }

  /** A session's call of Enqueue is never stuck over a started dispatcher. */
  lemma CallNotStuck(c: Config, reqs: set<Req>, run: seq<Action>, t: State, i: nat)
    requires c.Valid() && Reaches(c, Init(c, reqs), run, t) && t.dispatcher.started
    requires i < |t.sessions| && t.sessions[i].reader.Submitting?
    ensures exists a :: AdvancesCall(i, a) && Enabled(c, t, a)
  {
    InitInv(c, reqs);
    InvRun(c, Init(c, reqs), run, t);
    hide Inv, Enabled, AdvancesCall;
    var a := CallMoves(c, t, i);
  }

  // Every request is answered.

  /** A step by which the requests that session `i` has passed on get on: of the dispatcher's goroutines, of the
      session's forwarders or of its write loop. */
  predicate Serves(i: nat, a: Action) {
    match a
    case Forward(j, _) => j == i
    case Alone(j, x) => j == i && (x.Forward? || x.WriteLoop?)
    case _ => IsGoroutines(a)
  }

  /** No such step is left. */
  ghost predicate Settled(c: Config, s: State, i: nat) {
    forall a | Serves(i, a) :: !Enabled(c, s, a)
  }

  predicate Undisturbed(t: S.State) {
    !t.stop.flag && !ST.Failed(t.writer)
  }

  lemma ForwarderSettled(c: Config, s: State, i: nat, k: nat)
    requires Inv(c, s) && s.dispatcher.started && Settled(c, s, i) && i < |s.sessions| && k < |s.sessions[i].forwarders|
    requires !SJ.Jammed(s.sessions[i])
    ensures s.sessions[i].forwarders[k].pc.Finished?
  {
    hide Inv, Enabled, SJ.Jammed;
    if s.sessions[i].forwarders[k].pc.Awaiting? {
      var a := AwaitMoves(c, s, i, k);
    } else if S.IsLive(s.sessions[i].forwarders[k]) {
      var a := ForwarderMoves(c, s, i, k);
    }
  }

  lemma WriterSettled(c: Config, s: State, i: nat)
    requires PartsInv(c, s) && Settled(c, s, i) && i < |s.sessions|
    ensures forall x :: !S.WriterEnabled(s.sessions[i], x)
  {
    NotPanicked(c, s);
    hide PartsInv;
    forall x
      ensures !S.WriterEnabled(s.sessions[i], x)
    {
      assert Serves(i, Alone(i, S.WriteLoop(x)));
    }
  }

  lemma NotEnded(c: S.Config, t: S.State)
    requires SP.Inv(c, t) && c.writable && Undisturbed(t)
    ensures !t.writer.pc.Ended? && !t.stop.chClosed
    ensures SP.Written(t.writer, t.queue, t.accepted) && SP.StopOrder(t.stop, t.reader, t.forwarders)
    ensures c.maxInFlight == 1 ==> SP.Serial(c, t.forwarders, t.accepted)
  {
  }

  /** The complement of `SessionOrder`: in every run over a started dispatcher, once no such step is left, a
      session that nobody stops and whose writer has not failed has got rid of all its forwarders, none of them
      refused, and has written and flushed all they brought; with one request in flight, exactly the results of
      all its requests, in order. */
  lemma AllAnswered(c: Config, reqs: set<Req>, run: seq<Action>, t: State, i: nat)
    requires c.Valid() && Reaches(c, Init(c, reqs), run, t) && t.dispatcher.started
    requires i < |t.sessions| && i < |c.limits| && Undisturbed(t.sessions[i]) && Settled(c, t, i)
    ensures var s := t.sessions[i];
            && (forall k | 0 <= k < |s.forwarders| :: s.forwarders[k].pc == S.Finished(true))
            && s.queue == [] && s.writer.written == s.accepted && s.writer.flushed == |s.accepted|
            && (c.limits[i] == 1 ==> s.writer.written == S.Answers(c.Session(i), s.forwarders))
  {
    InitInv(c, reqs);
    InvRun(c, Init(c, reqs), run, t);
    var s := t.sessions[i];
    assert SP.Inv(c.Session(i), s);
    NotEnded(c.Session(i), s);
    WriterSettled(c, t, i);
    hide Inv, SP.Inv, Settled, Reaches;
    ST.WriterWaits(s);
    forall k | 0 <= k < |s.forwarders|
      ensures s.forwarders[k].pc == S.Finished(true)
    {
      ForwarderSettled(c, t, i, k);
      assert S.WasRefused(s.forwarders[k]) ==> s.stop.flag;
    }
    if c.limits[i] == 1 {
      AllSent(c.Session(i), s);
    }
  }

  lemma AllSent(c: S.Config, s: S.State)
    requires SP.Serial(c, s.forwarders, s.accepted)
    requires forall k | 0 <= k < |s.forwarders| :: s.forwarders[k].pc == S.Finished(true)
    ensures s.accepted == S.Answers(c, s.forwarders)
  {
    if s.forwarders != [] {
      assert S.WasSent(s.forwarders[|s.forwarders| - 1]);
    }
    assert s.forwarders[..|s.forwarders|] == s.forwarders;
  }
}
