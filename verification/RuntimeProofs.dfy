/** What every run of sessions over one dispatcher keeps. */
module RuntimeProofs {
  import D = DispatcherModel
  import DT = DispatcherTheorems
  import S = SessionModel
  import opened Runtime

  type Owners = map<Req, (nat, nat)>

  /** A result that was delivered to the request is still in its channel. */
  predicate Expected(rs: D.Results, r: Req) {
    0 < D.Deliveries(rs.log, r) ==> r in rs.slots
  }

  predicate OwnedBy(owner: Owners, r: Req, i: nat, k: nat) {
    r in owner && owner[r] == (i, k)
  }

  /** The forwarder is the owner of its request; while it waits, the request is accepted and its result is
      not lost. */
  predicate OwnForwarder(owner: Owners, d: D.State, i: nat, k: nat, f: S.Forwarder) {
    OwnedBy(owner, f.req, i, k) && (f.pc.Awaiting? ==> D.CallAt(d.front, f.req, D.ReturnedNil) && Expected(d.results, f.req))
  }

  /** The read loop's request belongs to the session's next forwarder. */
  predicate OwnReader(owner: Owners, d: D.State, i: nat, n: nat, pc: S.ReaderPc) {
    match pc
    case Read(r, _) => OwnedBy(owner, r, i, n) && Expected(d.results, r) && D.CallAt(d.front, r, D.NotCalled)
    case Submitting(r, _) => OwnedBy(owner, r, i, n) && Expected(d.results, r) && r in d.front.calls
    case _ => true
  }

  ghost predicate OwnSession(owner: Owners, d: D.State, i: nat, t: S.State) {
    && OwnReader(owner, d, i, |t.forwarders|, t.reader)
    && forall k | 0 <= k < |t.forwarders| :: OwnForwarder(owner, d, i, k, t.forwarders[k])
  }

  ghost predicate Owned(s: State) {
    forall i | 0 <= i < |s.sessions| :: OwnSession(s.owner, s.dispatcher, i, s.sessions[i])
  }

  /** The read loop of the session that owns the request is in the call of Enqueue for it. */
  predicate IsCalling(owner: Owners, ss: seq<S.State>, r: Req) {
    && r in owner && owner[r].0 < |ss|
    && var pc := ss[owner[r].0].reader;
       pc.Submitting? && pc.req == r
  }

  /** Every call of Enqueue that is under way is some session's. */
  ghost predicate Calling(s: State) {
    forall r | r in s.dispatcher.front.calls :: D.IsActive(s.dispatcher.front.calls[r]) ==> IsCalling(s.owner, s.sessions, r)
  }

  ghost predicate Inv(c: Config, s: State) {
    PartsInv(c, s) && Owned(s) && Calling(s)
  }

  lemma InitInv(c: Config, reqs: set<Req>)
    requires c.Valid()
    ensures Inv(c, Init(c, reqs))
  {
    InitParts(c, reqs);
    hide PartsInv;
  }

  /** A step of the dispatcher left the request's call as it was and lost no result of it. */
  predicate SameFor(d: D.State, e: D.State, r: Req) {
    && (r in d.front.calls <==> r in e.front.calls) && (r in d.front.calls ==> e.front.calls[r] == d.front.calls[r])
    && (Expected(d.results, r) ==> Expected(e.results, r))
  }

  lemma DispatchSame(c: D.Config, d: D.State, a: D.Action, r: Req)
    requires D.Enabled(c, d, a) && IsDispatch(a)
    ensures SameFor(d, D.Next(c, d, a), r)
  {
    hide D.Deliveries;
    if a.Work? && a.work.Deliver? {
      var q := d.workers[a.w].req;
      D.DeliveriesSnoc(d.results.log, q, c.exec(q), r);
    }
  }

  lemma CallerSame(c: D.Config, d: D.State, q: Req, x: D.CallStep, r: Req)
    requires D.Enabled(c, d, D.Caller(q, x)) && r != q
    ensures SameFor(d, D.Next(c, d, D.Caller(q, x)), r)
    ensures D.Next(c, d, D.Caller(q, x)).results == d.results && q in D.Next(c, d, D.Caller(q, x)).front.calls
  {
    hide D.Deliveries;
  }

  lemma CollectSame(c: D.Config, d: D.State, q: Req, r: Req)
    requires D.Enabled(c, d, D.Collect(q)) && r != q
    ensures SameFor(d, D.Next(c, d, D.Collect(q)), r)
  {
    hide D.Deliveries;
  }

  lemma ForwarderOwns(owner: Owners, d: D.State, e: D.State, i: nat, k: nat, f: S.Forwarder)
    requires OwnForwarder(owner, d, i, k, f) && SameFor(d, e, f.req)
    ensures OwnForwarder(owner, e, i, k, f)
  {
    hide Expected;
  }

  lemma ReaderOwns(owner: Owners, d: D.State, e: D.State, i: nat, n: nat, pc: S.ReaderPc)
    requires OwnReader(owner, d, i, n, pc) && (pc.Read? || pc.Submitting? ==> SameFor(d, e, pc.req))
    ensures OwnReader(owner, e, i, n, pc)
  {
    hide Expected;
  }

  /** A step of the dispatcher on one request does not touch what others own. */
  lemma OthersOwn(owner: Owners, d: D.State, e: D.State, i: nat, t: S.State, q: Req, j: nat, n: nat)
    requires OwnSession(owner, d, i, t) && OwnedBy(owner, q, j, n)
    requires forall r | r != q :: SameFor(d, e, r)
    ensures i != j ==> OwnSession(owner, e, i, t)
    ensures n != |t.forwarders| ==> OwnReader(owner, e, i, |t.forwarders|, t.reader)
    ensures forall k | 0 <= k < |t.forwarders| && k != n :: OwnForwarder(owner, e, i, k, t.forwarders[k])
  {
    hide SameFor, Expected;
    forall k | 0 <= k < |t.forwarders| && (i, k) != (j, n)
      ensures OwnForwarder(owner, e, i, k, t.forwarders[k])
    {
      assert OwnForwarder(owner, d, i, k, t.forwarders[k]);
      ForwarderOwns(owner, d, e, i, k, t.forwarders[k]);
    }
    if (i, |t.forwarders|) != (j, n) {
      ReaderOwns(owner, d, e, i, |t.forwarders|, t.reader);
    }
  }

  lemma DispatchKeepsOwned(c: Config, s: State, a: D.Action)
    requires Owned(s) && Enabled(c, s, Dispatch(a))
    ensures Owned(Next(c, s, Dispatch(a)))
  {
    var d, e := s.dispatcher, Next(c, s, Dispatch(a)).dispatcher;
    forall r
      ensures SameFor(d, e, r)
    {
      DispatchSame(c.dispatcher, d, a, r);
    }
    hide SameFor, OwnReader, OwnForwarder, NextDispatcher, Enabled, D.Enabled;
    forall i | 0 <= i < |s.sessions|
      ensures OwnSession(s.owner, e, i, s.sessions[i])
    {
      assert OwnSession(s.owner, d, i, s.sessions[i]);
      ReaderOwns(s.owner, d, e, i, |s.sessions[i].forwarders|, s.sessions[i].reader);
      forall k | 0 <= k < |s.sessions[i].forwarders|
        ensures OwnForwarder(s.owner, e, i, k, s.sessions[i].forwarders[k])
      {
        ForwarderOwns(s.owner, d, e, i, k, s.sessions[i].forwarders[k]);
      }
    }
  }

  lemma EnqueueKeepsOwned(c: Config, s: State, j: nat, x: D.CallStep)
    requires Owned(s) && Enabled(c, s, Enqueue(j, x))
    ensures Owned(Next(c, s, Enqueue(j, x)))
  {
    var d, e := s.dispatcher, Next(c, s, Enqueue(j, x)).dispatcher;
    var q, n := s.sessions[j].reader.req, |s.sessions[j].forwarders|;
    assert OwnSession(s.owner, d, j, s.sessions[j]);
    forall r | r != q
      ensures SameFor(d, e, r)
    {
      CallerSame(c.dispatcher, d, q, x, r);
    }
    CallerSame(c.dispatcher, d, q, x, q + 1);
    assert s.sessions[j].reader.Submitting? && OwnedBy(s.owner, q, j, n);
    hide Expected, NextDispatcher, Enabled, D.Enabled, SameFor;
    forall i | 0 <= i < |s.sessions|
      ensures OwnSession(s.owner, e, i, s.sessions[i])
    {
      assert OwnSession(s.owner, d, i, s.sessions[i]);
      OthersOwn(s.owner, d, e, i, s.sessions[i], q, j, n);
    }
  }

  lemma ForwardKeepsOwned(c: Config, s: State, j: nat, n: nat)
    requires Owned(s) && Enabled(c, s, Forward(j, n))
    ensures Owned(Next(c, s, Forward(j, n)))
  {
    var d, t := s.dispatcher, Next(c, s, Forward(j, n));
    var q := s.sessions[j].forwarders[n].req;
    assert OwnSession(s.owner, d, j, s.sessions[j]);
    assert OwnForwarder(s.owner, d, j, n, s.sessions[j].forwarders[n]);
    forall r | r != q
      ensures SameFor(d, t.dispatcher, r)
    {
      CollectSame(c.dispatcher, d, q, r);
    }
    assert OwnedBy(s.owner, q, j, n);
    assert forall i | 0 <= i < |s.sessions| && i != j :: t.sessions[i] == s.sessions[i];
    assert t.sessions[j].reader == s.sessions[j].reader && t.owner == s.owner
        && t.sessions[j].forwarders == s.sessions[j].forwarders[n := t.sessions[j].forwarders[n]]
        && t.sessions[j].forwarders[n].req == q && !t.sessions[j].forwarders[n].pc.Awaiting?;
    hide Expected, NextDispatcher, NextSession, Next, Enabled, D.Enabled;
    forall i | 0 <= i < |s.sessions|
      ensures OwnSession(s.owner, t.dispatcher, i, t.sessions[i])
    {
      assert OwnSession(s.owner, d, i, s.sessions[i]);
      OthersOwn(s.owner, d, t.dispatcher, i, s.sessions[i], q, j, n);
    }
  }

  /** A step of a session by itself adds no forwarder and no request, and no forwarder goes back to waiting. */
  lemma AloneFrame(c: S.Config, t: S.State, a: S.Action)
    requires IsAlone(a) && S.Enabled(c, t, a)
    ensures var u := S.Next(c, t, a);
            && |u.forwarders| == |t.forwarders|
            && (forall k | 0 <= k < |t.forwarders| ::
                  u.forwarders[k].req == t.forwarders[k].req && (u.forwarders[k].pc.Awaiting? ==> u.forwarders[k] == t.forwarders[k]))
            && (u.reader == t.reader || !(u.reader.Read? || u.reader.Submitting?)
                || (t.reader.Read? && u.reader == S.Submitting(t.reader.req, t.reader.scope)))
  {
  }

  lemma AloneKeepsOwned(c: Config, s: State, j: nat, a: S.Action)
    requires Owned(s) && Enabled(c, s, Alone(j, a))
    ensures Owned(Next(c, s, Alone(j, a)))
  {
    var t := Next(c, s, Alone(j, a));
    AloneFrame(c.Session(j), s.sessions[j], a);
    hide Expected, S.Next, S.Enabled;
    forall i | 0 <= i < |s.sessions|
      ensures OwnSession(s.owner, s.dispatcher, i, t.sessions[i])
    {
      assert OwnSession(s.owner, s.dispatcher, i, s.sessions[i]);
    }
  }

  lemma ReturnKeepsOwned(c: Config, s: State, j: nat)
    requires Owned(s) && Enabled(c, s, Return(j))
    ensures Owned(Next(c, s, Return(j)))
  {
    var t := Next(c, s, Return(j));
    hide Expected;
    forall i | 0 <= i < |s.sessions|
      ensures OwnSession(s.owner, s.dispatcher, i, t.sessions[i])
    {
      assert OwnSession(s.owner, s.dispatcher, i, s.sessions[i]);
    }
  }

  lemma NewOwner(owner: Owners, d: D.State, i: nat, t: S.State, r: Req, o: (nat, nat))
    requires OwnSession(owner, d, i, t) && r !in owner
    ensures OwnSession(owner[r := o], d, i, t)
  {
    hide Expected;
    forall k | 0 <= k < |t.forwarders|
      ensures OwnForwarder(owner[r := o], d, i, k, t.forwarders[k])
    {
      assert OwnForwarder(owner, d, i, k, t.forwarders[k]);
    }
  }

  lemma ReceiveKeepsOwned(c: Config, s: State, j: nat, r: Req)
    requires Inv(c, s) && Enabled(c, s, Receive(j, r))
    ensures Owned(Next(c, s, Receive(j, r)))
  {
    var t := Next(c, s, Receive(j, r));
    assert Expected(s.dispatcher.results, r) by {
      DT.AtMostOnce(c.dispatcher, s.dispatcher, r);
    }
    hide Expected, PartsInv;
    forall i | 0 <= i < |s.sessions|
      ensures OwnSession(t.owner, s.dispatcher, i, t.sessions[i])
    {
      assert OwnSession(s.owner, s.dispatcher, i, s.sessions[i]);
      NewOwner(s.owner, s.dispatcher, i, s.sessions[i], r, (j, |s.sessions[j].forwarders|));
      hide OwnForwarder;
    }
  }

  lemma DispatchKeepsCalls(c: D.Config, d: D.State, a: D.Action)
    requires D.Enabled(c, d, a) && IsDispatch(a)
    ensures D.Next(c, d, a).front.calls == d.front.calls
  {
  }

  lemma EnqueueKeepsCalling(c: Config, s: State, j: nat, x: D.CallStep)
    requires Owned(s) && Calling(s) && Enabled(c, s, Enqueue(j, x))
    ensures Calling(Next(c, s, Enqueue(j, x)))
  {
    var t := Next(c, s, Enqueue(j, x));
    var q := s.sessions[j].reader.req;
    assert IsCalling(s.owner, s.sessions, q) by {
      assert OwnSession(s.owner, s.dispatcher, j, s.sessions[j]);
    }
    forall r | r in t.dispatcher.front.calls && D.IsActive(t.dispatcher.front.calls[r])
      ensures IsCalling(t.owner, t.sessions, r)
    {
      if r != q {
        CallerSame(c.dispatcher, s.dispatcher, q, x, r);
      }
    }
  }

  /** A step of one session by which no call of Enqueue ends keeps what is said of calls. */
  lemma SessionKeepsCalling(s: State, t: State, j: nat)
    requires Calling(s) && t.dispatcher.front.calls == s.dispatcher.front.calls && j < |s.sessions|
    requires |t.sessions| == |s.sessions| && t.sessions == s.sessions[j := t.sessions[j]]
    requires forall r | r in s.owner :: r in t.owner && t.owner[r] == s.owner[r]
    requires s.sessions[j].reader.Submitting? ==>
               t.sessions[j].reader == s.sessions[j].reader || Returned(s.dispatcher.front, s.sessions[j].reader.req)
    ensures Calling(t)
  {
    forall r | r in t.dispatcher.front.calls && D.IsActive(t.dispatcher.front.calls[r])
      ensures IsCalling(t.owner, t.sessions, r)
    {
      assert IsCalling(s.owner, s.sessions, r);
    }
  }

  lemma StepKeepsCalling(c: Config, s: State, a: Action)
    requires Owned(s) && Calling(s) && Enabled(c, s, a)
    ensures Calling(Next(c, s, a))
  {
    var t := Next(c, s, a);
    match a
    case Dispatch(x) =>
      DispatchKeepsCalls(c.dispatcher, s.dispatcher, x);
      assert t.sessions == s.sessions && t.owner == s.owner;
      assert t.dispatcher.front.calls == s.dispatcher.front.calls;
      hide Next, Enabled, Owned, IsCalling;
    case Enqueue(j, x) =>
      EnqueueKeepsCalling(c, s, j, x);
      hide Calling, Next, Enabled, Owned;
    case Receive(j, r) =>
      hide Owned, Calling, IsCalling;
      SessionKeepsCalling(s, t, j);
    case Return(j) =>
      hide Owned, Calling, IsCalling;
      SessionKeepsCalling(s, t, j);
    case Forward(j, k) =>
      hide Owned, Calling, IsCalling;
      SessionKeepsCalling(s, t, j);
    case Alone(j, x) =>
      if s.sessions[j].reader.Submitting? {
        AloneKeepsCall(c.Session(j), s.sessions[j], x);
      }
      hide Owned, Calling, IsCalling, S.Next, S.Enabled;
      SessionKeepsCalling(s, t, j);
  }

  lemma AloneKeepsCall(c: S.Config, t: S.State, a: S.Action)
    requires IsAlone(a) && S.Enabled(c, t, a) && t.reader.Submitting?
    ensures S.Next(c, t, a).reader == t.reader
  {
  }

  lemma InvStep(c: Config, s: State, a: Action)
    requires Inv(c, s) && Enabled(c, s, a)
    ensures Inv(c, Next(c, s, a))
  {
    PartsStep(c, s, a);
    StepKeepsCalling(c, s, a);
    hide PartsInv, Owned, Calling, Next, Enabled;
    match a
    case Dispatch(x) => DispatchKeepsOwned(c, s, x);
    case Enqueue(i, x) => EnqueueKeepsOwned(c, s, i, x);
    case Forward(i, k) => ForwardKeepsOwned(c, s, i, k);
    case Alone(i, x) => AloneKeepsOwned(c, s, i, x);
    case Return(i) => ReturnKeepsOwned(c, s, i);
    case Receive(i, r) => ReceiveKeepsOwned(c, s, i, r);
  }

  lemma {:induction false} InvRun(c: Config, s: State, run: seq<Action>, t: State)
    requires Inv(c, s) && Reaches(c, s, run, t)
    ensures Inv(c, t)
    decreases |run|
  {
    hide Inv, Enabled, Next;
    if run != [] {
      InvStep(c, s, run[0]);
      InvRun(c, Next(c, s, run[0]), run[1..], t);
    }
  }
}
