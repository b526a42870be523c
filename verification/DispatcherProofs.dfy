/** What every run of the dispatcher keeps, and why stopping it drains it and ends. */
module DispatcherProofs {
  import opened Counting
  import opened DispatcherModel

  /** An accepted request is in exactly one place, and any other request is nowhere. */
  ghost predicate ConservedAt(s: State, q: Req) {
    Places(s, q) == One(Accepted(s.front, q))
  }

  ghost predicate Conserved(s: State) {
    forall q :: ConservedAt(s, q)
  }

  /** The scheduler's count of unfinished work is right. */
  ghost predicate Counted(s: State) {
    s.scheduler.pending ==
    |s.ready.items| + |s.scheduler.waiting| + Busy(s.workers) + |s.complete| + One(s.scheduler.pc.Placing?)
  }

  /** The wait group counts the calls that may still touch the incoming queue. */
  ghost predicate Registering(f: Front) {
    f.enqueuers == |ActiveCalls(f.calls)|
  }

  ghost predicate Bounded(c: Config, s: State) {
    && |s.incoming.items| <= c.queueSize && |s.ready.items| <= c.queueSize
    && |s.scheduler.waiting| <= c.queueSize && |s.complete| <= c.queueSize
    && (s.scheduler.pc.Placing? ==> |s.scheduler.waiting| < c.queueSize)
    && |s.workers| == c.workers
  }

  ghost predicate StopOrder(f: Front, incomingOpen: bool) {
    && f.stopped == !f.stop.NotStopping?
    && f.doneClosed == !(f.stop.NotStopping? || f.stop.FlagSet?)
    && incomingOpen == !(f.stop.IncomingClosed? || f.stop.Returned?)
    && (f.stop.EnqueuersGone? || f.stop.IncomingClosed? || f.stop.Returned? ==> f.enqueuers == 0)
  }

  ghost predicate GoroutineOrder(s: State) {
    && (!s.scheduler.watching ==> !s.incoming.open && s.incoming.items == [])
    && s.ready.open == !s.scheduler.pc.Gone?
    && (s.scheduler.pc.Gone? ==> Drained(s.scheduler))
    && (forall w | 0 <= w < |s.workers| :: s.workers[w].Left? ==> s.scheduler.pc.Gone?)
    && (s.front.stop.Returned? && s.front.stop.started ==> s.started && NoGoroutines(s))
    && (!s.started ==> Untouched(s))
  }

  /** Before Start nothing has left the incoming queue. */
  ghost predicate Untouched(s: State) {
    && s.scheduler == Scheduler(Selecting, true, 0, []) && s.ready.items == [] && s.complete == [] && s.finished == []
    && forall w | 0 <= w < |s.workers| :: s.workers[w].Idle?
  }

  /** Capacities, the order of shutdown, and no panic. */
  ghost predicate Ordered(c: Config, s: State) {
    c.Valid() && !s.panicked && Bounded(c, s) && StopOrder(s.front, s.incoming.open) && GoroutineOrder(s)
  }

  /** A request was delivered to once for every place it is in after its delivery. */
  ghost predicate LoggedAt(s: State, q: Req) {
    Deliveries(s.results.log, q) == HeldDelivered(s.workers, q) + Occurs(s.complete, q) + Occurs(s.finished, q)
  }

  ghost predicate Logged(s: State) {
    forall q :: LoggedAt(s, q)
  }

  /** Every delivery, and every result not yet collected, is what the request's command returned. */
  ghost predicate Genuine(c: Config, rs: Results) {
    && (forall i | 0 <= i < |rs.log| :: rs.log[i].1 == c.exec(rs.log[i].0))
    && (forall r | r in rs.slots :: 0 < Deliveries(rs.log, r) && rs.slots[r] == c.exec(r))
  }

  ghost predicate Inv(c: Config, s: State) {
    Ordered(c, s) && Conserved(s) && Counted(s) && Registering(s.front) && Logged(s) && Genuine(c, s.results)
  }

  lemma {:induction false} NoneHeld(ws: seq<WorkerPc>, r: Req)
    requires forall w | 0 <= w < |ws| :: !IsBusy(ws[w])
    ensures Held(ws, r) == 0 && HeldDelivered(ws, r) == 0 && Busy(ws) == 0
  {
    if ws != [] {
      NoneHeld(ws[1..], r);
    }
  }

  lemma InitInv(c: Config, reqs: set<Req>)
    requires c.Valid()
    ensures Inv(c, Init(c, reqs))
  {
    var s := Init(c, reqs);
    NoneHeld(s.workers, 0);
    forall q
      ensures ConservedAt(s, q) && LoggedAt(s, q)
    {
      NoneHeld(s.workers, q);
    }
    assert ActiveCalls(s.front.calls) == {};
  }

  lemma ActiveUpdate(calls: map<Req, CallPc>, r: Req, pc: CallPc)
    requires r in calls
    ensures |ActiveCalls(calls[r := pc])| == |ActiveCalls(calls)| - One(IsActive(calls[r])) + One(IsActive(pc))
    ensures IsActive(calls[r]) ==> 0 < |ActiveCalls(calls)|
  {
    var was, now := ActiveCalls(calls), ActiveCalls(calls[r := pc]);
    assert r in was <==> IsActive(calls[r]);
    if IsActive(pc) {
      assert now == was + {r};
      if r in was {
        assert was + {r} == was;
      }
    } else {
      assert now == was - {r};
      if r !in was {
        assert was - {r} == was;
      }
    }
  }

  // The invariant, goroutine by goroutine.

  lemma CallerKeepsConservedAt(c: Config, s: State, r: Req, a: CallStep, q: Req)
    requires ConservedAt(s, q) && CallerEnabled(c, s, r, a)
    ensures ConservedAt(CallerNext(c, s, r, a), q)
  {
    hide Held, Occurs;
    match a
    case Send => OccursSnoc(s.incoming.items, r, q);
    case _ =>
  }

  lemma SchedulerKeepsConservedAt(c: Config, s: State, a: SchedulerStep, q: Req)
    requires ConservedAt(s, q) && SchedulerEnabled(c, s, a)
    ensures ConservedAt(SchedulerNext(c, s, a), q)
  {
    hide Held, Occurs;
    var d := s.scheduler;
    match a
    case Receive => OccursTail(s.incoming.items, q);
    case Place =>
      OccursSnoc(s.ready.items, d.pc.req, q);
      OccursSnoc(d.waiting, d.pc.req, q);
    case Forward =>
      OccursTail(d.waiting, q);
      OccursSnoc(s.ready.items, d.waiting[0], q);
    case Complete =>
      OccursTail(s.complete, q);
      OccursSnoc(s.finished, s.complete[0], q);
    case _ =>
  }

  lemma WorkerKeepsConservedAt(c: Config, s: State, w: nat, a: WorkerStep, q: Req)
    requires ConservedAt(s, q) && WorkerEnabled(c, s, w, a)
    ensures ConservedAt(WorkerNext(c, s, w, a), q)
  {
    hide Held, Occurs, HeldDelivered;
    HeldUpdate(s.workers, w, WorkerNext(c, s, w, a).workers[w], q);
    match a
    case Take => OccursTail(s.ready.items, q);
    case Report => OccursSnoc(s.complete, s.workers[w].req, q);
    case _ =>
  }

  lemma SchedulerKeepsLoggedAt(c: Config, s: State, a: SchedulerStep, q: Req)
    requires LoggedAt(s, q) && SchedulerEnabled(c, s, a)
    ensures LoggedAt(SchedulerNext(c, s, a), q)
  {
    hide HeldDelivered, Occurs, Deliveries;
    if a.Complete? {
      OccursTail(s.complete, q);
      OccursSnoc(s.finished, s.complete[0], q);
    }
  }

  lemma WorkerKeepsLoggedAt(c: Config, s: State, w: nat, a: WorkerStep, q: Req)
    requires LoggedAt(s, q) && WorkerEnabled(c, s, w, a)
    ensures LoggedAt(WorkerNext(c, s, w, a), q)
  {
    hide Held, HeldDelivered, Occurs, Deliveries;
    HeldUpdate(s.workers, w, WorkerNext(c, s, w, a).workers[w], q);
    match a
    case Deliver => DeliveriesSnoc(s.results.log, s.workers[w].req, c.exec(s.workers[w].req), q);
    case Report => OccursSnoc(s.complete, s.workers[w].req, q);
    case _ =>
  }

  lemma WorkerKeepsGenuine(c: Config, s: State, w: nat, a: WorkerStep)
    requires Genuine(c, s.results) && WorkerEnabled(c, s, w, a)
    ensures Genuine(c, WorkerNext(c, s, w, a).results)
  {
    hide Deliveries;
    if a.Deliver? {
      var r := s.workers[w].req;
      var rs := WorkerNext(c, s, w, a).results;
      forall q | q in rs.slots
        ensures 0 < Deliveries(rs.log, q)
      {
        DeliveriesSnoc(s.results.log, r, c.exec(r), q);
        DeliveriesNat(s.results.log, q);
      }
    }
  }

  lemma {:induction false} DeliveriesNat(log: seq<(Req, Value)>, r: Req)
    ensures 0 <= Deliveries(log, r)
  {
    if log != [] {
      DeliveriesNat(log[1..], r);
    }
  }

  lemma SchedulerKeepsCounted(c: Config, s: State, a: SchedulerStep)
    requires Counted(s) && SchedulerEnabled(c, s, a)
    ensures Counted(SchedulerNext(c, s, a))
  {
    hide Busy;
    BusyNat(s.workers);
  }

  lemma WorkerKeepsCounted(c: Config, s: State, w: nat, a: WorkerStep)
    requires Counted(s) && WorkerEnabled(c, s, w, a)
    ensures Counted(WorkerNext(c, s, w, a))
  {
    hide Busy;
    BusyUpdate(s.workers, w, WorkerNext(c, s, w, a).workers[w]);
  }

  lemma {:induction false} BusyNat(ws: seq<WorkerPc>)
    ensures 0 <= Busy(ws)
    ensures Busy(ws) == 0 ==> forall w | 0 <= w < |ws| :: !IsBusy(ws[w])
  {
    if ws != [] {
      BusyNat(ws[1..]);
    }
  }

  lemma CallerFrame(c: Config, s: State, r: Req, a: CallStep)
    requires CallerEnabled(c, s, r, a)
    ensures var t := CallerNext(c, s, r, a);
            && t == s.(front := t.front, incoming := t.incoming, panicked := t.panicked)
            && t.front == s.front.(calls := t.front.calls, enqueuers := t.front.enqueuers)
            && t.incoming.open == s.incoming.open && (!a.Send? ==> t.incoming == s.incoming && t.panicked == s.panicked)
  {
  }

  lemma CallerKeepsRegistering(c: Config, s: State, r: Req, a: CallStep)
    requires Registering(s.front) && CallerEnabled(c, s, r, a)
    ensures Registering(CallerNext(c, s, r, a).front)
    ensures !a.Call? ==> 0 < s.front.enqueuers
  {
    hide ActiveCalls;
    ActiveUpdate(s.front.calls, r, CallerNext(c, s, r, a).front.calls[r]);
    match a
    case Send =>
    case Call =>
    case _ =>
  }

  lemma CallerKeepsOrder(c: Config, s: State, r: Req, a: CallStep)
    requires Ordered(c, s) && Registering(s.front) && CallerEnabled(c, s, r, a)
    ensures Ordered(c, CallerNext(c, s, r, a)) && Registering(CallerNext(c, s, r, a).front)
  {
    hide Registering, Drained;
    CallerFrame(c, s, r, a);
    CallerKeepsRegistering(c, s, r, a);
    if !a.Send? {
      hide CallerNext, CallerEnabled;
    }
  }

  lemma StopperKeepsOrder(c: Config, s: State, a: StopStep)
    requires Ordered(c, s) && StopperEnabled(s, a)
    ensures Ordered(c, StopperNext(s, a))
  {
  }

  lemma SchedulerKeepsOrder(c: Config, s: State, a: SchedulerStep)
    requires Ordered(c, s) && Counted(s) && SchedulerEnabled(c, s, a)
    ensures Ordered(c, SchedulerNext(c, s, a))
  {
    hide Busy;
    BusyNat(s.workers);
  }

  lemma WorkerKeepsOrder(c: Config, s: State, w: nat, a: WorkerStep)
    requires Ordered(c, s) && Counted(s) && WorkerEnabled(c, s, w, a)
    ensures Ordered(c, WorkerNext(c, s, w, a))
  {
    hide Busy;
    BusyNat(s.workers);
  }

  lemma CallerKeeps(c: Config, s: State, r: Req, a: CallStep)
    requires Inv(c, s) && CallerEnabled(c, s, r, a)
    ensures Inv(c, CallerNext(c, s, r, a))
  {
    hide Places, Occurs, Held, HeldDelivered, Deliveries, Busy, ActiveCalls, Ordered;
    var t := CallerNext(c, s, r, a);
    CallerKeepsOrder(c, s, r, a);
    forall q
      ensures ConservedAt(t, q) && LoggedAt(t, q)
    {
      assert ConservedAt(s, q) && LoggedAt(s, q);
      CallerKeepsConservedAt(c, s, r, a, q);
    }
  }

  lemma StopperKeeps(c: Config, s: State, a: StopStep)
    requires Inv(c, s) && StopperEnabled(s, a)
    ensures Inv(c, StopperNext(s, a))
  {
    hide Occurs, Held, HeldDelivered, Deliveries, Busy, ActiveCalls, Ordered;
    var t := StopperNext(s, a);
    StopperKeepsOrder(c, s, a);
    assert t == s.(front := t.front, incoming := t.incoming, panicked := t.panicked);
    assert t.front.calls == s.front.calls && t.front.enqueuers == s.front.enqueuers && t.incoming.items == s.incoming.items;
    hide StopperNext, StopperEnabled;
    forall q
      ensures ConservedAt(t, q) && LoggedAt(t, q)
    {
      assert ConservedAt(s, q) && LoggedAt(s, q);
    }
  }

  lemma SchedulerKeeps(c: Config, s: State, a: SchedulerStep)
    requires Inv(c, s) && SchedulerEnabled(c, s, a)
    ensures Inv(c, SchedulerNext(c, s, a))
  {
    hide Places, Occurs, Held, HeldDelivered, Deliveries, Busy, ActiveCalls, Ordered, ConservedAt, LoggedAt, Counted;
    var t := SchedulerNext(c, s, a);
    SchedulerKeepsOrder(c, s, a);
    SchedulerKeepsCounted(c, s, a);
    forall q
      ensures ConservedAt(t, q) && LoggedAt(t, q)
    {
      assert ConservedAt(s, q) && LoggedAt(s, q);
      SchedulerKeepsConservedAt(c, s, a, q);
      SchedulerKeepsLoggedAt(c, s, a, q);
    }
  }

  lemma WorkerKeeps(c: Config, s: State, w: nat, a: WorkerStep)
    requires Inv(c, s) && WorkerEnabled(c, s, w, a)
    ensures Inv(c, WorkerNext(c, s, w, a))
  {
    hide Places, Occurs, Held, HeldDelivered, Deliveries, Busy, ActiveCalls, Ordered, ConservedAt, LoggedAt, Counted, Genuine;
    var t := WorkerNext(c, s, w, a);
    WorkerKeepsOrder(c, s, w, a);
    WorkerKeepsCounted(c, s, w, a);
    WorkerKeepsGenuine(c, s, w, a);
    forall q
      ensures ConservedAt(t, q) && LoggedAt(t, q)
    {
      assert ConservedAt(s, q) && LoggedAt(s, q);
      WorkerKeepsConservedAt(c, s, w, a, q);
      WorkerKeepsLoggedAt(c, s, w, a, q);
    }
  }

  lemma OthersKeep(c: Config, s: State, a: Action)
    requires Inv(c, s) && Enabled(c, s, a) && (a.Start? || a.Collect?)
    ensures Inv(c, Next(c, s, a))
  {
    hide Occurs, Held, HeldDelivered, Deliveries, Busy, ActiveCalls;
    var t := Next(c, s, a);
    forall q
      ensures ConservedAt(t, q) && LoggedAt(t, q)
    {
      assert ConservedAt(s, q) && LoggedAt(s, q);
    }
  }

  /** Every action of every goroutine keeps the invariant, so none of them panics. */
  lemma InvStep(c: Config, s: State, a: Action)
    requires Inv(c, s) && Enabled(c, s, a)
    ensures Inv(c, Next(c, s, a))
  {
    hide Inv;
    match a
    case Caller(r, x) => CallerKeeps(c, s, r, x);
    case Stopper(x) => StopperKeeps(c, s, x);
    case Schedule(x) => SchedulerKeeps(c, s, x);
    case Work(w, x) => WorkerKeeps(c, s, w, x);
    case _ => OthersKeep(c, s, a);
  }

  lemma {:induction false} InvRun(c: Config, s: State, run: seq<Action>, t: State)
    requires Inv(c, s) && Reaches(c, s, run, t)
    ensures Inv(c, t)
    decreases |run|
  {
    hide Inv, Enabled, Next;
    if run != [] {
      InvStep(c, s, run[0]);
      InvRun(c, Next(c, s, run[0]), run[1..], t);
    }
  }

  lemma {:induction false} ReachesSnoc(c: Config, s: State, run: seq<Action>, t: State, a: Action)
    requires Reaches(c, s, run, t) && Enabled(c, t, a)
    ensures Reaches(c, s, run + [a], Next(c, t, a))
    decreases |run|
  {
    hide Enabled, Next;
    if run == [] {
      assert [a][1..] == [];
    } else {
      ReachesSnoc(c, Next(c, s, run[0]), run[1..], t, a);
      assert (run + [a])[1..] == run[1..] + [a];
    }
  }
}
