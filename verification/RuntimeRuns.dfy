/** Runs of the whole: what a session can do by itself it can do over a dispatcher that serves it. */
module RuntimeRuns {
  import D = DispatcherModel
  import DP = DispatcherProofs
  import DT = DispatcherTheorems
  import DispatcherOrder
  import S = SessionModel
  import SR = SessionRuns
  import ST = SessionTheorems
  import SJ = SessionJam
  import opened Runtime
  import opened RuntimeProofs
  import RT = RuntimeTheorems

  // The dispatcher serves one request.

  /** Started, not being stopped, and with nothing to do. */
  predicate Calm(d: D.State) {
    && !d.panicked && d.started
    && d.front.stop.NotStopping? && !d.front.stopped
    && d.incoming == D.Channel([], true) && d.ready == D.Channel([], true) && d.complete == []
    && d.scheduler == D.Scheduler(D.Selecting, true, 0, []) && 0 < |d.workers| && d.workers[0].Idle?
  }

  /** The run consists of steps of the dispatcher's own and of the call of Enqueue for one request. */
  predicate IsFor(a: D.Action, r: Req) {
    IsDispatch(a) || (a.Caller? && a.r == r)
  }

  predicate AllFor(run: seq<D.Action>, r: Req) {
    forall k | 0 <= k < |run| :: IsFor(run[k], r)
  }

  /** A run of that kind. */
  predicate Serves(c: D.Config, d: D.State, run: seq<D.Action>, e: D.State, r: Req) {
    D.Reaches(c, d, run, e) && AllFor(run, r)
  }

  lemma ServesMore(c: D.Config, d: D.State, run: seq<D.Action>, e: D.State, r: Req, a: D.Action)
    requires Serves(c, d, run, e, r) && D.Enabled(c, e, a) && IsFor(a, r)
    ensures Serves(c, d, run + [a], D.Next(c, e, a), r)
  {
    DP.ReachesSnoc(c, d, run, e, a);
  }

  /** The request is sent, received, and placed in the ready channel. */
  lemma Enters(c: D.Config, d: D.State, r: Req) returns (run: seq<D.Action>, e: D.State)
    requires c.Valid() && c.usable(r) && Calm(d) && D.CallAt(d.front, r, D.NotCalled) && r !in d.results.slots
    ensures Serves(c, d, run, e, r)
    ensures e == d.(front := e.front, ready := D.Channel([r], true), scheduler := D.Scheduler(D.Selecting, true, 1, []))
    ensures e.front == d.front.(calls := d.front.calls[r := D.Sent], enqueuers := d.front.enqueuers + 1)
  {
    hide Serves;
    assert Serves(c, d, [], d, r) by { ServesNone(c, d, r); }
    var e1 := D.Next(c, d, D.Caller(r, D.Call));
    ServesMore(c, d, [], d, r, D.Caller(r, D.Call));
    run := [] + [D.Caller(r, D.Call)];
    var e2 := D.Next(c, e1, D.Caller(r, D.Send));
    ServesMore(c, d, run, e1, r, D.Caller(r, D.Send));
    run := run + [D.Caller(r, D.Send)];
    var e3 := D.Next(c, e2, D.Schedule(D.Receive));
    ServesMore(c, d, run, e2, r, D.Schedule(D.Receive));
    run := run + [D.Schedule(D.Receive)];
    e := D.Next(c, e3, D.Schedule(D.Place));
    ServesMore(c, d, run, e3, r, D.Schedule(D.Place));
    run := run + [D.Schedule(D.Place)];
    assert d.front.calls[r := D.Registered][r := D.Sent] == d.front.calls[r := D.Sent];
  }

  lemma ServesNone(c: D.Config, d: D.State, r: Req)
    ensures Serves(c, d, [], d, r)
  {
  }

  /** A worker runs its command and reports it, and the call of Enqueue returns. */
  lemma Executes(c: D.Config, d0: D.State, run0: seq<D.Action>, d: D.State, r: Req) returns (run: seq<D.Action>, e: D.State)
    requires c.Valid() && Serves(c, d0, run0, d, r)
    requires !d.panicked && d.started && d.ready == D.Channel([r], true) && d.complete == [] && r !in d.results.slots
    requires d.scheduler == D.Scheduler(D.Selecting, true, 1, []) && 0 < |d.workers| && d.workers[0].Idle?
    requires D.CallAt(d.front, r, D.Sent)
    ensures Serves(c, d0, run, e, r)
    ensures e == d.(front := e.front, ready := D.Channel([], true), scheduler := D.Scheduler(D.Selecting, true, 0, []),
                    results := e.results, finished := e.finished)
    ensures e.front == d.front.(calls := d.front.calls[r := D.ReturnedNil], enqueuers := d.front.enqueuers - 1)
    ensures e.results.slots == d.results.slots[r := c.exec(r)]
  {
    hide Serves;
    var e1 := D.Next(c, d, D.Work(0, D.Take));
    ServesMore(c, d0, run0, d, r, D.Work(0, D.Take));
    run := run0 + [D.Work(0, D.Take)];
    var e2 := D.Next(c, e1, D.Work(0, D.Deliver));
    ServesMore(c, d0, run, e1, r, D.Work(0, D.Deliver));
    run := run + [D.Work(0, D.Deliver)];
    var e3 := D.Next(c, e2, D.Work(0, D.Report));
    ServesMore(c, d0, run, e2, r, D.Work(0, D.Report));
    run := run + [D.Work(0, D.Report)];
    var e4 := D.Next(c, e3, D.Schedule(D.Complete));
    ServesMore(c, d0, run, e3, r, D.Schedule(D.Complete));
    run := run + [D.Schedule(D.Complete)];
    e := D.Next(c, e4, D.Caller(r, D.Leave));
    ServesMore(c, d0, run, e4, r, D.Caller(r, D.Leave));
    run := run + [D.Caller(r, D.Leave)];
    assert e.workers == d.workers;
  }

  /** A calm dispatcher takes a request and is calm again, with the result in the request's channel. */
  lemma ServesOne(c: D.Config, d: D.State, r: Req) returns (run: seq<D.Action>, e: D.State)
    requires c.Valid() && c.usable(r) && Calm(d) && D.CallAt(d.front, r, D.NotCalled) && r !in d.results.slots
    ensures Serves(c, d, run, e, r) && Calm(e)
    ensures e.front.calls == d.front.calls[r := D.ReturnedNil] && e.results.slots == d.results.slots[r := c.exec(r)]
  {
    hide Serves;
    var run1, d1 := Enters(c, d, r);
    run, e := Executes(c, d, run1, d1, r);
    assert d.front.calls[r := D.Sent][r := D.ReturnedNil] == d.front.calls[r := D.ReturnedNil];
  }

  /** The dispatcher's steps for a session's call are steps of the whole. */
  lemma {:induction false} Lifts(c: Config, s: State, i: nat, drun: seq<D.Action>, e: D.State) returns (run: seq<Action>)
    requires |s.sessions| == |c.limits| && i < |s.sessions| && s.sessions[i].reader.Submitting?
    requires Serves(c.dispatcher, s.dispatcher, drun, e, s.sessions[i].reader.req)
    ensures Reaches(c, s, run, s.(dispatcher := e))
    decreases |drun|
  {
    if drun == [] {
      run := [];
    } else {
      var x := drun[0];
      assert IsFor(x, s.sessions[i].reader.req);
      var a := if x.Caller? then Enqueue(i, x.call) else Dispatch(x);
      var t := Next(c, s, a);
      assert Enabled(c, s, a) && t == s.(dispatcher := D.Next(c.dispatcher, s.dispatcher, x));
      assert AllFor(drun[1..], s.sessions[i].reader.req);
      hide D.Next, D.Enabled, Next, Enabled;
      var rest := Lifts(c, t, i, drun[1..], e);
      run := [a] + rest;
      assert run[1..] == rest;
    }
  }

  // The session in the whole does what it does alone.

  /** The number of the next request that the session reads. */
  function Upcoming(t: S.State): nat {
    if t.reader.Reading? then t.reader.scope else t.scopes
  }

  /** The requests from here on are new. */
  ghost predicate NewFrom(s: State, b: nat, m: nat) {
    forall r | b <= r < m :: r !in s.owner && D.CallAt(s.dispatcher.front, r, D.NotCalled)
  }

  /** The session's requests are not yet passed on, or answered in their channels. */
  ghost predicate Served(d: D.State, t: S.State) {
    && (t.reader.Reading? ==> t.reader.scope + 1 == t.scopes)
    && (t.reader.Read? || t.reader.Submitting? ==> D.CallAt(d.front, t.reader.req, D.NotCalled))
    && forall k | 0 <= k < |t.forwarders| :: t.forwarders[k].pc.Awaiting? ==> t.forwarders[k].req in d.results.slots
  }

  /** The dispatcher is calm and has served session `i`, which has new requests up to `m`. */
  ghost predicate Ready(c: Config, s: State, i: nat, m: nat) {
    && Inv(c, s) && |s.sessions| == |c.limits| && i < |s.sessions| && Calm(s.dispatcher)
    && NewFrom(s, Upcoming(s.sessions[i]), m) && Served(s.dispatcher, s.sessions[i])
  }

  lemma AloneServed(c: S.Config, d: D.State, t: S.State, x: S.Action)
    requires Served(d, t) && IsAlone(x) && S.Enabled(c, t, x)
    ensures Served(d, S.Next(c, t, x)) && Upcoming(t) <= Upcoming(S.Next(c, t, x))
  {
    AloneFrame(c, t, x);
    AloneReading(c, t, x);
    hide S.Next, S.Enabled;
  }

  lemma AloneReading(c: S.Config, t: S.State, x: S.Action)
    requires IsAlone(x) && S.Enabled(c, t, x) && (t.reader.Reading? ==> t.reader.scope + 1 == t.scopes)
    ensures var u := S.Next(c, t, x);
            (u.reader.Reading? ==> u.reader.scope + 1 == u.scopes) && Upcoming(t) <= Upcoming(u)
  {
  }

  lemma FollowAlone(c: Config, s: State, i: nat, m: nat, x: S.Action) returns (run: seq<Action>, t: State)
    requires i < |c.limits| && i < |s.sessions| && Ready(c, s, i, m) && IsAlone(x) && S.Enabled(c.Session(i), s.sessions[i], x)
    ensures Reaches(c, s, run, t) && i < |t.sessions| && Ready(c, t, i, m) && t.sessions[i] == S.Next(c.Session(i), s.sessions[i], x)
  {
    var a := Alone(i, x);
    assert Enabled(c, s, a);
    InvStep(c, s, a);
    AloneServed(c.Session(i), s.dispatcher, s.sessions[i], x);
    t := Next(c, s, a);
    run := [a];
    OneStep(c, s, a);
    hide Inv, S.Next, S.Enabled, Served, Calm, Enabled;
  }

  lemma OneStep(c: Config, s: State, a: Action)
    requires Enabled(c, s, a)
    ensures Reaches(c, s, [a], Next(c, s, a))
  {
    assert [a][1..] == [];
  }

  lemma ReadStepIs(c: Config, s: State, i: nat, r: Req)
    requires |s.sessions| == |c.limits| && i < |s.sessions| && s.sessions[i].reader.Reading?
    requires r !in s.owner && D.CallAt(s.dispatcher.front, r, D.NotCalled)
    ensures Enabled(c, s, Receive(i, r))
    ensures var t := s.sessions[i];
            Next(c, s, Receive(i, r)) ==
            s.(sessions := s.sessions[i := t.(reader := S.Read(r, t.reader.scope))],
               owner := s.owner[r := (i, |t.forwarders|)])
  {
  }

  lemma FollowRead(c: Config, s: State, i: nat, m: nat, r: Req) returns (run: seq<Action>, t: State)
    requires i < |s.sessions| && s.sessions[i].reader.Reading? && r == s.sessions[i].reader.scope && r < m
    requires Ready(c, s, i, m)
    ensures Reaches(c, s, run, t) && Ready(c, t, i, m)
    ensures t.sessions == s.sessions[i := s.sessions[i].(reader := S.Read(r, r))]
  {
    hide Calm, Inv;
    assert r !in s.owner && D.CallAt(s.dispatcher.front, r, D.NotCalled);
    ReadStepIs(c, s, i, r);
    InvStep(c, s, Receive(i, r));
    t := Next(c, s, Receive(i, r));
    run := [Receive(i, r)];
    OneStep(c, s, Receive(i, r));
    hide Enabled, Next, Reaches;
  }

  /** A request that was not passed on has no result. */
  lemma NoResultYet(c: Config, s: State, r: Req)
    requires Inv(c, s) && D.CallAt(s.dispatcher.front, r, D.NotCalled)
    ensures r !in s.dispatcher.results.slots
  {
    DT.AtMostOnce(c.dispatcher, s.dispatcher, r);
    DT.SlotsDelivered(c.dispatcher, s.dispatcher, r);
  }

  /** The dispatcher has served the call of session `i`, which has not returned yet. */
  lemma CallServed(c: Config, s: State, i: nat, m: nat) returns (run: seq<Action>, t: State)
    requires i < |s.sessions| && s.sessions[i].reader.Submitting?
    requires Ready(c, s, i, m) && c.dispatcher.usable(s.sessions[i].reader.req)
    ensures Reaches(c, s, run, t) && Inv(c, t) && t == s.(dispatcher := t.dispatcher) && Calm(t.dispatcher)
    ensures var r := s.sessions[i].reader.req;
            && t.dispatcher.front.calls == s.dispatcher.front.calls[r := D.ReturnedNil]
            && t.dispatcher.results.slots == s.dispatcher.results.slots[r := c.dispatcher.exec(r)]
  {
    var r := s.sessions[i].reader.req;
    NoResultYet(c, s, r);
    var drun, e := ServesOne(c.dispatcher, s.dispatcher, r);
    run := Lifts(c, s, i, drun, e);
    t := s.(dispatcher := e);
    InvRun(c, s, run, t);
  }

  lemma SubmittedServed(owner: Owners, d: D.State, e: D.State, t: S.State, m: nat, s: State, s1: State)
    requires t.reader.Submitting? && t.reader.req in s.owner
    requires s.dispatcher == d && s1.dispatcher == e && s1.owner == s.owner
    requires NewFrom(s, Upcoming(t), m) && Served(d, t)
    requires e.front.calls == d.front.calls[t.reader.req := D.ReturnedNil]
    requires t.reader.req in e.results.slots && forall r | r in d.results.slots :: r in e.results.slots
    ensures NewFrom(s1, Upcoming(t), m)
    ensures Served(e, t.(reader := S.AtTop, forwarders := t.forwarders + [S.Forwarder(t.reader.req, t.reader.scope, S.Awaiting)]))
  {
    forall r | Upcoming(t) <= r < m
      ensures r !in s1.owner && D.CallAt(e.front, r, D.NotCalled)
    {
      assert r !in s.owner && D.CallAt(d.front, r, D.NotCalled);
    }
  }

  lemma ReturnStepIs(c: Config, s: State, i: nat)
    requires |s.sessions| == |c.limits| && i < |s.sessions| && s.sessions[i].reader.Submitting?
    requires D.CallAt(s.dispatcher.front, s.sessions[i].reader.req, D.ReturnedNil)
    ensures Enabled(c, s, Return(i))
    ensures Next(c, s, Return(i)) == s.(sessions := s.sessions[i := Submitted(s.sessions[i])])
  {
  }

  /** The session after its call of Enqueue has succeeded. */
  function Submitted(t: S.State): S.State
    requires t.reader.Submitting?
  {
    t.(reader := S.AtTop, forwarders := t.forwarders + [S.Forwarder(t.reader.req, t.reader.scope, S.Awaiting)])
  }

  lemma ReaderOwns(c: Config, s: State, i: nat)
    requires i < |s.sessions| && s.sessions[i].reader.Submitting? && Inv(c, s)
    ensures s.sessions[i].reader.req in s.owner
  {
    assert OwnSession(s.owner, s.dispatcher, i, s.sessions[i]);
    hide PartsInv, Calling;
  }

  lemma FollowSubmit(c: Config, s: State, i: nat, m: nat) returns (run: seq<Action>, t: State)
    requires i < |s.sessions| && s.sessions[i].reader.Submitting?
    requires Ready(c, s, i, m) && c.dispatcher.usable(s.sessions[i].reader.req)
    ensures Reaches(c, s, run, t) && Ready(c, t, i, m)
    ensures t.sessions == s.sessions[i := Submitted(s.sessions[i])]
  {
    hide Calm, Inv, Served, NewFrom, Reaches;
    var u := s.sessions[i];
    ReaderOwns(c, s, i);
    var run1, s1 := CallServed(c, s, i, m);
    hide Ready;
    SubmittedServed(s.owner, s.dispatcher, s1.dispatcher, u, m, s, s1);
    ReturnStepIs(c, s1, i);
    InvStep(c, s1, Return(i));
    t := Next(c, s1, Return(i));
    ReachesSnoc(c, s, run1, s1, Return(i));
    run := run1 + [Return(i)];
    hide Enabled, Next;
    NewKept(s1, t, Upcoming(u), m);
    ReadyFrom(c, t, i, m);
  }

  lemma ReadyFrom(c: Config, t: State, i: nat, m: nat)
    requires Inv(c, t) && |t.sessions| == |c.limits| && i < |t.sessions| && Calm(t.dispatcher)
    requires NewFrom(t, Upcoming(t.sessions[i]), m) && Served(t.dispatcher, t.sessions[i])
    ensures Ready(c, t, i, m)
  {
    hide Inv;
  }

  lemma NewKept(s: State, t: State, b: nat, m: nat)
    requires NewFrom(s, b, m) && t.owner == s.owner && t.dispatcher.front == s.dispatcher.front
    ensures NewFrom(t, b, m)
  {
  }

  lemma {:induction false} ReachesSnoc(c: Config, s: State, run: seq<Action>, t: State, a: Action)
    requires Reaches(c, s, run, t) && Enabled(c, t, a)
    ensures Reaches(c, s, run + [a], Next(c, t, a))
    decreases |run|
  {
    hide Enabled, Next;
    if run == [] {
      assert [a][1..] == [];
    } else {
      ReachesSnoc(c, Next(c, s, run[0]), run[1..], t, a);
      assert (run + [a])[1..] == run[1..] + [a];
    }
  }

  lemma CollectedServed(d: D.State, e: D.State, t: S.State, k: nat, v: D.Value)
    requires Served(d, t) && k < |t.forwarders| && e.front == d.front
    requires e.results.slots == d.results.slots - {t.forwarders[k].req}
    requires forall l | 0 <= l < |t.forwarders| && l != k :: t.forwarders[l].req != t.forwarders[k].req
    ensures Served(e, t.(forwarders := t.forwarders[k := t.forwarders[k].(pc := S.Holding(v))]))
  {
  }

  lemma ForwardStepIs(c: Config, s: State, i: nat, k: nat, v: D.Value)
    requires |s.sessions| == |c.limits| && i < |s.sessions| && k < |s.sessions[i].forwarders|
    requires s.sessions[i].forwarders[k].pc.Awaiting? && !s.dispatcher.panicked
    requires s.sessions[i].forwarders[k].req in s.dispatcher.results.slots
    requires s.dispatcher.results.slots[s.sessions[i].forwarders[k].req] == v
    ensures Enabled(c, s, Forward(i, k))
    ensures var t, d, f := s.sessions[i], s.dispatcher, s.sessions[i].forwarders[k];
            Next(c, s, Forward(i, k)) ==
            s.(sessions := s.sessions[i := t.(forwarders := t.forwarders[k := f.(pc := S.Holding(v))])],
               dispatcher := d.(results := d.results.(slots := d.results.slots - {f.req})))
  {
  }

  lemma OwnRequests(s: State, i: nat, k: nat, l: nat)
    requires Owned(s) && i < |s.sessions| && k < |s.sessions[i].forwarders| && l < |s.sessions[i].forwarders| && k != l
    ensures s.sessions[i].forwarders[l].req != s.sessions[i].forwarders[k].req
  {
    assert OwnSession(s.owner, s.dispatcher, i, s.sessions[i]);
    assert OwnForwarder(s.owner, s.dispatcher, i, l, s.sessions[i].forwarders[l]);
    assert OwnForwarder(s.owner, s.dispatcher, i, k, s.sessions[i].forwarders[k]);
  }

  lemma SlotHolds(c: Config, s: State, r: Req)
    requires Inv(c, s) && r in s.dispatcher.results.slots
    ensures s.dispatcher.results.slots[r] == c.dispatcher.exec(r)
  {
    hide SessionsInv, Owned, Calling, DP.Ordered, DP.Conserved, DP.Counted, DP.Registering, DP.Logged;
  }

  lemma FollowForward(c: Config, s: State, i: nat, m: nat, k: nat, v: D.Value) returns (run: seq<Action>, t: State)
    requires i < |c.limits| && i < |s.sessions| && S.ForwarderEnabled(c.Session(i), s.sessions[i], k, S.Receive(v))
    requires Ready(c, s, i, m)
    ensures Reaches(c, s, run, t) && i < |t.sessions| && Ready(c, t, i, m)
    ensures t.sessions[i] == S.ForwarderNext(c.Session(i), s.sessions[i], k, S.Receive(v))
  {
    var u := s.sessions[i];
    assert u.forwarders[k].req in s.dispatcher.results.slots && !s.dispatcher.panicked;
    SlotHolds(c, s, u.forwarders[k].req);
    forall l | 0 <= l < |u.forwarders| && l != k
      ensures u.forwarders[l].req != u.forwarders[k].req
    {
      OwnRequests(s, i, k, l);
    }
    ForwardStepIs(c, s, i, k, v);
    InvStep(c, s, Forward(i, k));
    t := Next(c, s, Forward(i, k));
    run := [Forward(i, k)];
    OneStep(c, s, Forward(i, k));
    CollectedServed(s.dispatcher, t.dispatcher, u, k, v);
    NewKept(s, t, Upcoming(u), m);
    hide Inv, Enabled, Next, Served, NewFrom, Reaches;
  }

  /** The whole follows one plain step of the session. */
  lemma FollowStep(c: Config, s: State, i: nat, m: nat, x: S.Action) returns (run: seq<Action>, t: State)
    requires i < |c.limits| && i < |s.sessions| && Ready(c, s, i, m) && (forall r :: c.dispatcher.usable(r)) && s.sessions[i].scopes <= m
    requires S.Enabled(c.Session(i), s.sessions[i], x) && SR.IsPlain(s.sessions[i], x)
    ensures Reaches(c, s, run, t) && i < |t.sessions| && Ready(c, t, i, m) && t.sessions[i] == S.Next(c.Session(i), s.sessions[i], x)
  {
    if IsAlone(x) {
      run, t := FollowAlone(c, s, i, m, x);
    } else if x.ReadLoop? && x.read.ReadOk? {
      assert s.sessions[i].reader.scope < s.sessions[i].scopes;
      run, t := FollowRead(c, s, i, m, x.read.req);
    } else if x.ReadLoop? {
      run, t := FollowSubmit(c, s, i, m);
    } else {
      run, t := FollowForward(c, s, i, m, x.k, x.forward.value);
    }
  }

  lemma OneScope(c: S.Config, t: S.State, x: S.Action)
    requires S.Enabled(c, t, x)
    ensures S.Next(c, t, x).scopes <= t.scopes + 1
  {
  }

  lemma {:induction false} Joined(c: Config, s: State, run: seq<Action>, t: State, rest: seq<Action>, u: State)
    requires Reaches(c, s, run, t) && Reaches(c, t, rest, u)
    ensures Reaches(c, s, run + rest, u)
    decreases |run|
  {
    hide Enabled, Next;
    if run == [] {
      assert run + rest == rest;
    } else {
      Joined(c, Next(c, s, run[0]), run[1..], t, rest, u);
      assert (run + rest)[1..] == run[1..] + rest;
    }
  }

  lemma {:induction false} FollowRun(c: Config, s: State, i: nat, m: nat, srun: seq<S.Action>, u: S.State)
    returns (run: seq<Action>, t: State)
    requires i < |c.limits| && i < |s.sessions| && Ready(c, s, i, m) && (forall r :: c.dispatcher.usable(r)) && s.sessions[i].scopes + |srun| <= m
    requires SR.Plainly(c.Session(i), s.sessions[i], srun, u)
    ensures Reaches(c, s, run, t) && i < |t.sessions| && Ready(c, t, i, m) && t.sessions[i] == u
    decreases |srun|
  {
    if srun == [] {
      run, t := [], s;
    } else {
      var run1, s1 := FollowStep(c, s, i, m, srun[0]);
      OneScope(c.Session(i), s.sessions[i], srun[0]);
      hide Inv, Calm, NewFrom, Served, Enabled, Next, S.Enabled, S.Next, SR.IsPlain;
      var run2, s2 := FollowRun(c, s1, i, m, srun[1..], u);
      Joined(c, s, run1, s1, run2, s2);
      run, t := run1 + run2, s2;
    }
  }

  lemma StartReady(c: Config, reqs: set<Req>, i: nat, m: nat)
    requires i < |c.limits| && Enabled(c, Init(c, reqs), Dispatch(D.Start))
    requires Inv(c, Next(c, Init(c, reqs), Dispatch(D.Start))) && 0 < c.dispatcher.workers
    requires forall r: Req | r < m :: r in reqs
    ensures Ready(c, Next(c, Init(c, reqs), Dispatch(D.Start)), i, m)
  {
    hide Inv;
  }

  /** Every plain run of a session alone is its part of a run of the whole over a started dispatcher. */
  lemma Realized(c: Config, i: nat, srun: seq<S.Action>, u: S.State) returns (reqs: set<Req>, run: seq<Action>, t: State)
    requires c.Valid() && (forall r :: c.dispatcher.usable(r)) && i < |c.limits|
    requires SR.Plainly(c.Session(i), S.Init(c.Session(i)), srun, u)
    ensures Reaches(c, Init(c, reqs), run, t) && t.dispatcher.started && i < |t.sessions| && t.sessions[i] == u
  {
    var m := |srun|;
    reqs := DispatcherOrder.UpTo(m);
    var s, a := Init(c, reqs), Dispatch(D.Start);
    InitInv(c, reqs);
    assert Enabled(c, s, a);
    InvStep(c, s, a);
    OneStep(c, s, a);
    var s1 := Next(c, s, a);
    assert Ready(c, s1, i, m) by {
      StartReady(c, reqs, i, m);
    }
    hide Inv, Enabled, Next, S.Enabled, S.Next;
    run, t := FollowRun(c, s1, i, m, srun, u);
    Joined(c, s, [a], s1, run, t);
    run := [a] + run;
  }

  // What therefore happens.

  /** Any session over a started dispatcher can be jammed, and then a request of it is stuck. */
  lemma CanGetStuck(c: Config, i: nat) returns (reqs: set<Req>, run: seq<Action>, t: State, k: nat)
    requires c.Valid() && (forall r :: c.dispatcher.usable(r)) && i < |c.limits|
    ensures Reaches(c, Init(c, reqs), run, t) && t.dispatcher.started
    ensures i < |t.sessions| && SJ.Jammed(t.sessions[i])
    ensures k < |t.sessions[i].forwarders| && t.sessions[i].forwarders[k].pc.Offering? && RT.Stuck(c, t, i, k)
  {
    var srun, u;
    srun, u, k := SJ.CanJam(c.Session(i));
    reqs, run, t := Realized(c, i, srun, u);
    hide Reaches, RT.Stuck, SJ.Jammed;
    RT.StuckExactly(c, reqs, run, t, i, k);
  }

  ghost predicate WritesInOrder(c: Config, reqs: set<Req>, run: seq<Action>, t: State, i: nat)
    requires i < |c.limits|
  {
    Reaches(c, Init(c, reqs), run, t) ==> i < |t.sessions| && ST.InOrder(c.Session(i), t.sessions[i])
  }

  /** Over a dispatcher, too, a session writes in the order of its requests in every run if and only if its limit
      is one. */
  lemma OrderExactly(c: Config, i: nat)
    requires c.Valid() && (forall r :: c.dispatcher.usable(r)) && i < |c.limits|
    ensures (forall reqs, run, t :: WritesInOrder(c, reqs, run, t, i)) <==> c.limits[i] == 1
  {
    hide Reaches;
    if c.limits[i] == 1 {
      forall reqs, run, t
        ensures WritesInOrder(c, reqs, run, t, i)
      {
        if Reaches(c, Init(c, reqs), run, t) {
          RT.SessionOrder(c, reqs, run, t, i);
        }
      }
    } else {
      var srun, u := ST.SecondFirst(c.Session(i));
      var reqs, run, t := Realized(c, i, srun, u);
      assert !WritesInOrder(c, reqs, run, t, i);
    }
  }
}
