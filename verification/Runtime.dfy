/** A server's runtime: sessions that share a dispatcher, wired as in UseDispatcher of
    internal/session/session.go. A session submits by calling Enqueue with a new request, and the forwarder
    of that request takes the result out of the request's channel. */
module Runtime {
  import D = DispatcherModel
  import DP = DispatcherProofs
  import S = SessionModel
  import SP = SessionProofs

  type Req = D.Req

  /** The dispatcher's sizes, and the in-flight limit of each session. */
  datatype Config = Config(dispatcher: D.Config, limits: seq<int>) {
    predicate Valid() {
      dispatcher.Valid() && forall i | 0 <= i < |limits| :: 0 < limits[i]
    }

    function Session(i: nat): S.Config
      requires i < |limits|
    {
      S.Config(limits[i], dispatcher.exec, true, true)
    }
  }

  /** `owner` tells which session, and which of its forwarders to be, each request read so far belongs to. */
  datatype State = State(dispatcher: D.State, sessions: seq<S.State>, owner: map<Req, (nat, nat)>)

  /** A step of the dispatcher's own goroutines, of Start or of Stop; a step of a session that does not touch
      the dispatcher; a request read; a step of the call of Enqueue that a session is in; the return of that
      call to the read loop; a result received by a forwarder. */
  datatype Action =
    | Dispatch(a: D.Action)
    | Alone(i: nat, s: S.Action)
    | Receive(i: nat, req: Req)
    | Enqueue(i: nat, call: D.CallStep)
    | Return(i: nat)
    | Forward(i: nat, k: nat)

  function Init(c: Config, reqs: set<Req>): State {
    State(D.Init(c.dispatcher, reqs), seq(|c.limits|, i requires 0 <= i < |c.limits| => S.Init(c.Session(i))), map[])
  }

  predicate IsDispatch(a: D.Action) {
    !a.Caller? && !a.Collect?
  }

  predicate IsAlone(a: S.Action) {
    match a
    case ReadLoop(x) => !x.ReadOk? && !x.SubmitOk? && !x.SubmitErr?
    case Forward(_, x) => !x.Receive?
    case _ => true
  }

  predicate Returned(f: D.Front, r: Req) {
    D.CallAt(f, r, D.ReturnedNil) || D.CallAt(f, r, D.ReturnedErr)
  }

  predicate Enabled(c: Config, s: State, a: Action) {
    && |s.sessions| == |c.limits|
    && match a
       case Dispatch(x) => IsDispatch(x) && D.Enabled(c.dispatcher, s.dispatcher, x)
       case Alone(i, x) => i < |s.sessions| && IsAlone(x) && S.Enabled(c.Session(i), s.sessions[i], x)
       case Receive(i, r) =>
         && i < |s.sessions| && S.ReaderEnabled(s.sessions[i], S.ReadOk(r))
         && r !in s.owner && D.CallAt(s.dispatcher.front, r, D.NotCalled)
       case Enqueue(i, x) =>
         && i < |s.sessions| && s.sessions[i].reader.Submitting?
         && D.Enabled(c.dispatcher, s.dispatcher, D.Caller(s.sessions[i].reader.req, x))
       case Return(i) =>
         i < |s.sessions| && s.sessions[i].reader.Submitting? && Returned(s.dispatcher.front, s.sessions[i].reader.req)
       case Forward(i, k) =>
         && i < |s.sessions| && k < |s.sessions[i].forwarders| && s.sessions[i].forwarders[k].pc.Awaiting?
         && D.Enabled(c.dispatcher, s.dispatcher, D.Collect(s.sessions[i].forwarders[k].req))
  }

  /** What the session does when its call of Enqueue has returned. */
  function ReturnStep(s: State, r: Req): S.ReaderStep {
    if D.CallAt(s.dispatcher.front, r, D.ReturnedNil) then S.SubmitOk else S.SubmitErr
  }

  /** The session in which an action takes place, and what it becomes. A forwarder stores whatever value its
      channel holds. */
  function NextSession(c: Config, s: State, a: Action): S.State
    requires Enabled(c, s, a) && !a.Dispatch? && !a.Enqueue?
  {
    match a
    case Alone(i, x) => S.Next(c.Session(i), s.sessions[i], x)
    case Receive(i, r) => S.ReaderNext(c.Session(i), s.sessions[i], S.ReadOk(r))
    case Return(i) => S.ReaderNext(c.Session(i), s.sessions[i], ReturnStep(s, s.sessions[i].reader.req))
    case Forward(i, k) =>
      var t := s.sessions[i];
      var f := t.forwarders[k];
      t.(forwarders := t.forwarders[k := f.(pc := S.Holding(s.dispatcher.results.slots[f.req]))])
  }

  function NextDispatcher(c: Config, s: State, a: Action): D.State
    requires Enabled(c, s, a)
  {
    match a
    case Dispatch(x) => D.Next(c.dispatcher, s.dispatcher, x)
    case Enqueue(i, x) => D.Next(c.dispatcher, s.dispatcher, D.Caller(s.sessions[i].reader.req, x))
    case Forward(i, k) => D.Next(c.dispatcher, s.dispatcher, D.Collect(s.sessions[i].forwarders[k].req))
    case _ => s.dispatcher
  }

  function Next(c: Config, s: State, a: Action): State
    requires Enabled(c, s, a)
  {
    State(
      NextDispatcher(c, s, a),
      if a.Dispatch? || a.Enqueue? then s.sessions else s.sessions[a.i := NextSession(c, s, a)],
      if a.Receive? then s.owner[a.req := (a.i, |s.sessions[a.i].forwarders|)] else s.owner)
  }

  /** `t` is reached from `s` by the actions `run`. */
  predicate Reaches(c: Config, s: State, run: seq<Action>, t: State)
    decreases |run|
  {
    if run == [] then s == t
    else Enabled(c, s, run[0]) && Reaches(c, Next(c, s, run[0]), run[1..], t)
  }

  // The invariants of the parts hold in the whole.

  ghost predicate SessionsInv(c: Config, ss: seq<S.State>) {
    |ss| == |c.limits| && forall i | 0 <= i < |ss| :: SP.Inv(c.Session(i), ss[i])
  }

  ghost predicate PartsInv(c: Config, s: State) {
    c.Valid() && DP.Inv(c.dispatcher, s.dispatcher) && SessionsInv(c, s.sessions)
  }

  lemma InitParts(c: Config, reqs: set<Req>)
    requires c.Valid()
    ensures PartsInv(c, Init(c, reqs))
  {
    DP.InitInv(c.dispatcher, reqs);
    forall i | 0 <= i < |c.limits|
      ensures SP.Inv(c.Session(i), Init(c, reqs).sessions[i])
    {
      SP.InitInv(c.Session(i));
    }
  }

  lemma DispatcherKeeps(c: Config, s: State, a: Action)
    requires PartsInv(c, s) && Enabled(c, s, a)
    ensures DP.Inv(c.dispatcher, NextDispatcher(c, s, a))
  {
    hide DP.Inv, SessionsInv, D.Enabled, D.Next;
    match a
    case Dispatch(x) => DP.InvStep(c.dispatcher, s.dispatcher, x);
    case Enqueue(i, x) => DP.InvStep(c.dispatcher, s.dispatcher, D.Caller(s.sessions[i].reader.req, x));
    case Forward(i, k) => DP.InvStep(c.dispatcher, s.dispatcher, D.Collect(s.sessions[i].forwarders[k].req));
    case _ =>
  }

  /** The value in a request's channel is the result of the request, as the session expects. */
  lemma ForwardIsReceive(c: Config, s: State, i: nat, k: nat)
    requires PartsInv(c, s) && Enabled(c, s, Forward(i, k))
    ensures var v := s.dispatcher.results.slots[s.sessions[i].forwarders[k].req];
            && S.ForwarderEnabled(c.Session(i), s.sessions[i], k, S.Receive(v))
            && NextSession(c, s, Forward(i, k)) == S.ForwarderNext(c.Session(i), s.sessions[i], k, S.Receive(v))
  {
    hide SessionsInv, DP.Ordered, DP.Conserved, DP.Counted, DP.Registering, DP.Logged;
  }

  lemma SessionKeeps(c: Config, s: State, a: Action)
    requires PartsInv(c, s) && Enabled(c, s, a) && !a.Dispatch? && !a.Enqueue?
    ensures SP.Inv(c.Session(a.i), NextSession(c, s, a))
  {
    if a.Forward? {
      ForwardIsReceive(c, s, a.i, a.k);
    }
    hide DP.Inv, SP.Inv, S.ReaderNext, S.ForwarderNext;
    var t := s.sessions[a.i];
    assert SP.Inv(c.Session(a.i), t);
    match a
    case Alone(i, x) => SP.InvStep(c.Session(i), t, x);
    case Receive(i, r) => SP.ReaderKeeps(c.Session(i), t, S.ReadOk(r));
    case Return(i) => SP.ReaderKeeps(c.Session(i), t, ReturnStep(s, t.reader.req));
    case Forward(i, k) => SP.ForwarderKeeps(c.Session(i), t, k, S.Receive(s.dispatcher.results.slots[t.forwarders[k].req]));
  }

  lemma PartsStep(c: Config, s: State, a: Action)
    requires PartsInv(c, s) && Enabled(c, s, a)
    ensures PartsInv(c, Next(c, s, a))
  {
    DispatcherKeeps(c, s, a);
    if !a.Dispatch? && !a.Enqueue? {
      SessionKeeps(c, s, a);
    }
    hide DP.Inv, SP.Inv, NextDispatcher, NextSession, Enabled;
    var t := Next(c, s, a);
    forall i | 0 <= i < |t.sessions|
      ensures SP.Inv(c.Session(i), t.sessions[i])
    {
    }
  }
}
