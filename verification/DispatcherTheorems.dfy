/** What stopping a dispatcher guarantees: exactly one result for each accepted request, no deadlock,
    and an end to every run. */
module DispatcherTheorems {
  import opened Counting
  import opened DispatcherModel
  import opened DispatcherProofs

  lemma {:induction false} HeldNat(ws: seq<WorkerPc>, r: Req)
    ensures 0 <= HeldDelivered(ws, r) <= Held(ws, r)
    ensures (exists w :: 0 <= w < |ws| && ws[w] == Executing(r)) ==> HeldDelivered(ws, r) < Held(ws, r)
  {
    if ws != [] {
      HeldNat(ws[1..], r);
      if w :| 0 <= w < |ws| && ws[w] == Executing(r) {
        assert w == 0 || ws[1..][w - 1] == Executing(r);
      }
    }
  }

  lemma PlacesNat(s: State, r: Req)
    ensures 0 <= Occurs(s.incoming.items, r) && 0 <= Occurs(s.scheduler.waiting, r) && 0 <= Occurs(s.ready.items, r)
    ensures 0 <= Occurs(s.complete, r) && 0 <= Occurs(s.finished, r)
    ensures 0 <= HeldDelivered(s.workers, r) <= Held(s.workers, r)
  {
    OccursNat(s.incoming.items, r);
    OccursNat(s.scheduler.waiting, r);
    OccursNat(s.ready.items, r);
    OccursNat(s.complete, r);
    OccursNat(s.finished, r);
    HeldNat(s.workers, r);
  }

  /** The worker is running the command of a request. */
  predicate Runs(s: State, w: int, r: Req) {
    0 <= w < |s.workers| && s.workers[w] == Executing(r)
  }

  lemma HeldAt(ws: seq<WorkerPc>, w: nat, r: Req)
    requires w < |ws| && Holds(ws[w], r)
    ensures 0 < Held(ws, r)
  {
    if w == 0 {
      HeldNat(ws[1..], r);
    } else {
      HeldAt(ws[1..], w - 1, r);
    }
  }

  /** At any moment: at most one result was delivered, and none before the call of Enqueue succeeded;
      a request that was not accepted is with no worker; a command is never run again after its delivery. */
  lemma AtMostOnce(c: Config, s: State, r: Req)
    requires Inv(c, s)
    ensures 0 <= Deliveries(s.results.log, r) <= One(Accepted(s.front, r))
    ensures forall w | 0 <= w < |s.workers| :: Holds(s.workers[w], r) ==> Accepted(s.front, r)
    ensures forall w :: Runs(s, w, r) ==> Deliveries(s.results.log, r) == 0 && r !in s.results.slots
  {
    assert ConservedAt(s, r) && LoggedAt(s, r);
    hide Inv, Occurs, Held, HeldDelivered, Deliveries, Accepted;
    PlacesNat(s, r);
    forall w | 0 <= w < |s.workers| && Holds(s.workers[w], r)
      ensures Accepted(s.front, r)
    {
      HeldAt(s.workers, w, r);
    }
    forall w | Runs(s, w, r)
      ensures Deliveries(s.results.log, r) == 0 && r !in s.results.slots
    {
      HeldNat(s.workers, r);
      SlotsDelivered(c, s, r);
    }
  }

  lemma SlotsDelivered(c: Config, s: State, r: Req)
    requires Inv(c, s)
    ensures r in s.results.slots ==> 0 < Deliveries(s.results.log, r)
  {
  }

  /** A call that has got past Enqueue's checks has a usable request; one that is refused in its select finds that
      Stop has closed its channel, and one that has failed had an unusable one, or Stop has begun. */
  predicate Judged(c: Config, f: Front, r: Req) {
    r in f.calls ==>
      match f.calls[r]
      case NotCalled => true
      case Registered => c.usable(r)
      case Sent => c.usable(r)
      case ReturnedNil => c.usable(r)
      case Refused => c.usable(r) && f.doneClosed
      case ReturnedErr => !c.usable(r) || f.stopped
  }

  lemma CallerJudged(c: Config, s: State, q: Req, x: CallStep, r: Req)
    requires Judged(c, s.front, r) && CallerEnabled(c, s, q, x) && (s.front.doneClosed ==> s.front.stopped)
    requires CallAt(s.front, r, NotCalled) ==> r !in s.results.slots
    ensures Judged(c, CallerNext(c, s, q, x).front, r)
  {
  }

  lemma FrontKept(c: Config, s: State, a: Action)
    requires Enabled(c, s, a) && !a.Caller?
    ensures var f, g := s.front, Next(c, s, a).front; g.calls == f.calls && (f.stopped ==> g.stopped) && (f.doneClosed ==> g.doneClosed)
  {
  }

  lemma JudgedStep(c: Config, s: State, a: Action, r: Req)
    requires Judged(c, s.front, r) && Enabled(c, s, a) && (s.front.doneClosed ==> s.front.stopped)
    requires CallAt(s.front, r, NotCalled) ==> r !in s.results.slots
    ensures Judged(c, Next(c, s, a).front, r)
  {
    hide CallerNext, StopperNext, SchedulerNext, WorkerNext, CallerEnabled, StopperEnabled, SchedulerEnabled, WorkerEnabled;
    if a.Caller? {
      CallerJudged(c, s, a.r, a.call, r);
    } else {
      FrontKept(c, s, a);
    }
  }

  lemma BeforeCall(c: Config, s: State, r: Req)
    requires Inv(c, s)
    ensures s.front.doneClosed ==> s.front.stopped
    ensures CallAt(s.front, r, NotCalled) ==> r !in s.results.slots
  {
    assert StopOrder(s.front, s.incoming.open);
    hide Inv;
    AtMostOnce(c, s, r);
    SlotsDelivered(c, s, r);
  }

  lemma {:induction false} JudgedRun(c: Config, s: State, run: seq<Action>, t: State, r: Req)
    requires Inv(c, s) && Judged(c, s.front, r) && Reaches(c, s, run, t)
    ensures Judged(c, t.front, r)
    decreases |run|
  {
    hide Inv, Enabled, Next, Judged;
    if run != [] {
      BeforeCall(c, s, r);
      JudgedStep(c, s, run[0], r);
      InvStep(c, s, run[0]);
      JudgedRun(c, Next(c, s, run[0]), run[1..], t, r);
    }
  }

  /** Which calls Enqueue accepts and which it refuses: in every run, a request that was accepted came with a
      usable result channel, and a call that failed came without one or Stop had begun. */
  lemma EnqueueJudges(c: Config, reqs: set<Req>, run: seq<Action>, t: State, r: Req)
    requires c.Valid() && Reaches(c, Init(c, reqs), run, t)
    ensures Accepted(t.front, r) ==> c.usable(r)
    ensures CallAt(t.front, r, Refused) ==> c.usable(r) && t.front.doneClosed
    ensures CallAt(t.front, r, ReturnedErr) ==> !c.usable(r) || t.front.stopped
  {
    InitInv(c, reqs);
    hide Inv;
    JudgedRun(c, Init(c, reqs), run, t, r);
  }

  /** All requests that were accepted have been answered. */
  ghost predicate AllAnswered(s: State) {
    forall r :: Accepted(s.front, r) ==> Deliveries(s.results.log, r) == 1
  }

  /** Once the scheduler and all workers are gone, no request is left in a queue. */
  lemma NothingLeft(c: Config, s: State)
    requires Inv(c, s) && s.scheduler.pc.Gone?
    ensures s.incoming.items == [] && s.ready.items == [] && s.scheduler.waiting == [] && s.complete == []
    ensures forall w | 0 <= w < |s.workers| :: !IsBusy(s.workers[w])
  {
    BusyNat(s.workers);
  }

  /** When the goroutines are gone or were never started, everything accepted is answered if and only if
      they were started or nothing was accepted. */
  lemma DrainedExactly(c: Config, s: State)
    requires Inv(c, s) && NoGoroutines(s)
    ensures AllAnswered(s) <==> s.started || s.incoming.items == []
  {
    forall r
      ensures Deliveries(s.results.log, r) == One(Accepted(s.front, r)) - Occurs(s.incoming.items, r)
      ensures !s.started ==> Deliveries(s.results.log, r) == 0
    {
      assert ConservedAt(s, r) && LoggedAt(s, r);
      if s.started {
        NothingLeft(c, s);
      }
      NoneHeld(s.workers, r);
    }
    if s.started {
      NothingLeft(c, s);
    }
    if s.incoming.items != [] {
      var r := s.incoming.items[0];
      OccursNat(s.incoming.items[1..], r);
      assert ConservedAt(s, r);
      PlacesNat(s, r);
    }
  }

  lemma StoppedAnswered(c: Config, s: State)
    requires Inv(c, s) && s.front.stop == Returned(true)
    ensures AllAnswered(s) && NoGoroutines(s)
    ensures s.incoming.items == [] && s.ready.items == [] && s.scheduler.waiting == [] && s.complete == []
  {
    NothingLeft(c, s);
    DrainedExactly(c, s);
  }

  /** In every run: a request is answered at most once and only after its call of Enqueue succeeded, with
      what its command returned; a request whose call failed is with no worker. When Stop has returned on a
      started dispatcher, every request whose call succeeded is answered, and no queue holds any. */
  lemma ExactlyOnce(c: Config, reqs: set<Req>, run: seq<Action>, t: State)
    requires c.Valid() && Reaches(c, Init(c, reqs), run, t)
    ensures !t.panicked
    ensures forall r :: 0 <= Deliveries(t.results.log, r) <= One(Accepted(t.front, r))
    ensures forall i | 0 <= i < |t.results.log| :: t.results.log[i].1 == c.exec(t.results.log[i].0)
    ensures forall r, w | 0 <= w < |t.workers| :: Holds(t.workers[w], r) ==> Accepted(t.front, r)
    ensures t.front.stop == Returned(true) ==>
              AllAnswered(t) && t.incoming.items == [] && t.ready.items == [] && t.scheduler.waiting == [] && t.complete == []
  {
    InitInv(c, reqs);
    InvRun(c, Init(c, reqs), run, t);
    forall r
      ensures 0 <= Deliveries(t.results.log, r) <= One(Accepted(t.front, r))
      ensures forall w | 0 <= w < |t.workers| :: Holds(t.workers[w], r) ==> Accepted(t.front, r)
    {
      AtMostOnce(c, t, r);
    }
    if t.front.stop == Returned(true) {
      StoppedAnswered(c, t);
    }
  }

  /** In every run: pendingWorkers counts the requests that are ready, waiting, with a worker or complete, and
      the one being placed; the overflow queue stays within the queue size; and a completion never finds the
      count at zero. */
  lemma SchedulerConservation(c: Config, reqs: set<Req>, run: seq<Action>, t: State)
    requires c.Valid() && Reaches(c, Init(c, reqs), run, t)
    ensures t.scheduler.pending ==
            |t.ready.items| + |t.scheduler.waiting| + Busy(t.workers) + |t.complete| + One(t.scheduler.pc.Placing?)
    ensures |t.scheduler.waiting| <= c.queueSize && |t.ready.items| <= c.queueSize && |t.complete| <= c.queueSize
    ensures SchedulerEnabled(c, t, Complete) ==> 0 < t.scheduler.pending
  {
    InitInv(c, reqs);
    InvRun(c, Init(c, reqs), run, t);
    BusyNat(t.workers);
  }

  /** In every run: the incoming channel is closed only when no call of Enqueue can still reach its send; the
      ready channel only when the incoming one is closed and empty, nothing is ready or waiting, and no worker
      holds a request. */
  lemma ClosedInOrder(c: Config, reqs: set<Req>, run: seq<Action>, t: State)
    requires c.Valid() && Reaches(c, Init(c, reqs), run, t)
    ensures !t.incoming.open ==> t.front.doneClosed && forall r | r in t.front.calls :: !IsActive(t.front.calls[r])
    ensures !t.ready.open ==>
              && !t.incoming.open && t.incoming.items == [] && t.ready.items == [] && t.scheduler.waiting == []
              && forall w | 0 <= w < |t.workers| :: !IsBusy(t.workers[w])
  {
    InitInv(c, reqs);
    InvRun(c, Init(c, reqs), run, t);
    if !t.incoming.open {
      forall r | r in t.front.calls
        ensures !IsActive(t.front.calls[r])
      {
        NoneActive(t.front, r);
      }
    }
    if !t.ready.open {
      NothingLeft(c, t);
    }
  }

  lemma Prepend(c: Config, s: State, a: Action, run: seq<Action>, t: State)
    requires Enabled(c, s, a) && Reaches(c, Next(c, s, a), run, t)
    ensures Reaches(c, s, [a] + run, t)
  {
    assert ([a] + run)[1..] == run;
  }

  /** Stop on a dispatcher that was never started returns without touching what was accepted. */
  lemma StopUnstarted(c: Config, s: State) returns (run: seq<Action>, t: State)
    requires Inv(c, s) && !s.started && s.front.stop.NotStopping? && s.front.enqueuers == 0
    ensures Reaches(c, s, run, t)
    ensures t.front.stop == Returned(false) && t.front.calls == s.front.calls && t.results == s.results
  {
    hide Conserved, Counted, Logged, Genuine, ActiveCalls;
    var s1 := Next(c, s, Stopper(SetFlag));
    var s2 := Next(c, s1, Stopper(CloseDone));
    var s3 := Next(c, s2, Stopper(AwaitEnqueuers));
    var s4 := Next(c, s3, Stopper(CloseIncoming));
    t := Next(c, s4, Stopper(AwaitGoroutines));
    Prepend(c, s4, Stopper(AwaitGoroutines), [], t);
    run := [Stopper(AwaitGoroutines)];
    Prepend(c, s3, Stopper(CloseIncoming), run, t);
    run := [Stopper(CloseIncoming)] + run;
    Prepend(c, s2, Stopper(AwaitEnqueuers), run, t);
    run := [Stopper(AwaitEnqueuers)] + run;
    Prepend(c, s1, Stopper(CloseDone), run, t);
    run := [Stopper(CloseDone)] + run;
    Prepend(c, s, Stopper(SetFlag), run, t);
    run := [Stopper(SetFlag)] + run;
  }

  /** A run in which Stop returns on a dispatcher that was never started, leaving an accepted request
      unanswered. */
  lemma UnstartedDropsAccepted() returns (c: Config, run: seq<Action>, t: State)
    ensures c.Valid() && Reaches(c, Init(c, {0}), run, t)
    ensures t.front.stop.Returned? && CallAt(t.front, 0, ReturnedNil) && Deliveries(t.results.log, 0) == 0
  {
    c := NewConfig(1, 1, r => true, r => Values.Null);
    var s0 := Init(c, {0});
    var s1 := Next(c, s0, Caller(0, Call));
    var s2 := Next(c, s1, Caller(0, Send));
    var s3 := Next(c, s2, Caller(0, Leave));
    InitInv(c, {0});
    InvStep(c, s0, Caller(0, Call));
    InvStep(c, s1, Caller(0, Send));
    InvStep(c, s2, Caller(0, Leave));
    hide Inv;
    run, t := StopUnstarted(c, s3);
    Prepend(c, s2, Caller(0, Leave), run, t);
    run := [Caller(0, Leave)] + run;
    Prepend(c, s1, Caller(0, Send), run, t);
    run := [Caller(0, Send)] + run;
    Prepend(c, s0, Caller(0, Call), run, t);
    run := [Caller(0, Call)] + run;
  }

  // Progress. Start, a new call of Enqueue, the start of Stop and the collection of a result are up to the
  // environment; everything else is the dispatcher's own.

  predicate Internal(a: Action) {
    match a
    case Start => false
    case Caller(_, x) => !x.Call?
    case Stopper(x) => !x.SetFlag?
    case Collect(_) => false
    case _ => true
  }

  /** Nothing is under way: no call of Enqueue, no request in a queue or with a worker; and Stop has not
      begun, or it has returned and no goroutine is left. */
  ghost predicate Quiet(s: State) {
    && s.front.enqueuers == 0
    && s.incoming.items == [] && s.ready.items == [] && s.scheduler.waiting == [] && s.complete == []
    && !s.scheduler.pc.Placing? && (forall w | 0 <= w < |s.workers| :: !IsBusy(s.workers[w]))
    && (s.front.stop.NotStopping? || (s.front.stop.Returned? && NoGoroutines(s)))
  }

  /** Something is left for the scheduler or a worker to do. */
  ghost predicate WorkLeft(s: State) {
    || s.incoming.items != [] || s.ready.items != [] || s.scheduler.waiting != [] || s.complete != []
    || s.scheduler.pc.Placing? || (exists w :: 0 <= w < |s.workers| && IsBusy(s.workers[w]))
    || (!s.incoming.open && !NoGoroutines(s))
  }

  /** An accepted request that has no result yet is with the goroutines. */
  lemma UnansweredIsWork(c: Config, s: State, r: Req)
    requires Inv(c, s) && Accepted(s.front, r) && Deliveries(s.results.log, r) == 0
    ensures WorkLeft(s)
  {
    assert ConservedAt(s, r) && LoggedAt(s, r);
    hide Inv, Deliveries;
    PlacesNat(s, r);
    if forall w | 0 <= w < |s.workers| :: !IsBusy(s.workers[w]) {
      NoneHeld(s.workers, r);
    }
  }

  /** A worker that holds a request, or an idle one with a request or a closed channel before it, can
      move unless the completion channel is full. */
  lemma WorkerMoves(c: Config, s: State, w: nat) returns (a: Action)
    requires Inv(c, s) && s.started && w < |s.workers| && !s.workers[w].Left? && s.complete == []
    requires IsBusy(s.workers[w]) || s.ready.items != [] || !s.ready.open
    ensures a.Work? && Enabled(c, s, a)
  {
    match s.workers[w]
    case Executing(r) =>
      AtMostOnce(c, s, r);
      assert Runs(s, w, r);
      a := Work(w, Deliver);
    case Delivered(_) => a := Work(w, Report);
    case Idle =>
      a := Work(w, if s.ready.items != [] then Take else Quit);
    case Left => assert false;
  }

  lemma GoroutineMoves(c: Config, s: State) returns (a: Action)
    requires Inv(c, s) && s.started && WorkLeft(s)
    ensures (a.Schedule? || a.Work?) && Enabled(c, s, a)
  {
    BusyNat(s.workers);
    var d := s.scheduler;
    if d.pc.Placing? {
      a := Schedule(Place);
    } else if d.pc.Selecting? && s.complete != [] {
      a := Schedule(Complete);
    } else if w :| 0 <= w < |s.workers| && IsBusy(s.workers[w]) {
      a := WorkerMoves(c, s, w);
    } else if d.pc.Gone? {
      NothingLeft(c, s);
      var w :| 0 <= w < |s.workers| && !s.workers[w].Left?;
      a := WorkerMoves(c, s, w);
    } else if s.ready.items != [] {
      a := WorkerMoves(c, s, 0);
    } else if d.waiting != [] {
      a := Schedule(Forward);
    } else if !d.watching {
      NoneHeld(s.workers, 0);
      a := Schedule(Exit);
    } else {
      a := Schedule(if s.incoming.items != [] then Receive else SeeClosed);
    }
  }

  /** A registered call of Enqueue can move, or the goroutines can make room for it. */
  lemma CallMoves(c: Config, s: State) returns (a: Action)
    requires Inv(c, s) && s.front.enqueuers != 0 && (s.started || s.front.doneClosed)
    ensures Internal(a) && Enabled(c, s, a)
  {
    assert ActiveCalls(s.front.calls) != {};
    var r :| r in ActiveCalls(s.front.calls);
    if !CallAt(s.front, r, Registered) {
      a := Caller(r, Leave);
    } else if s.front.doneClosed {
      a := Caller(r, Refuse);
    } else if |s.incoming.items| < c.queueSize {
      a := Caller(r, Send);
    } else {
      a := GoroutineMoves(c, s);
    }
  }

  /** While Stop is under way, started dispatcher or not, something can happen. */
  lemma StopMoves(c: Config, s: State) returns (a: Action)
    requires Inv(c, s) && !s.front.stop.NotStopping? && !s.front.stop.Returned?
    ensures Internal(a) && Enabled(c, s, a)
  {
    match s.front.stop
    case FlagSet => a := Stopper(CloseDone);
    case DoneClosed =>
      if s.front.enqueuers == 0 {
        a := Stopper(AwaitEnqueuers);
      } else {
        a := CallMoves(c, s);
      }
    case EnqueuersGone => a := Stopper(CloseIncoming);
    case IncomingClosed =>
      if NoGoroutines(s) {
        a := Stopper(AwaitGoroutines);
      } else {
        a := GoroutineMoves(c, s);
      }
    case _ => assert false;
  }

  /** A quiet dispatcher waits for its environment. */
  lemma QuietWaits(c: Config, s: State, a: Action)
    requires Inv(c, s) && Quiet(s) && Internal(a)
    ensures !Enabled(c, s, a)
  {
    hide Conserved, Counted, Logged, Genuine, Places, ActiveCalls;
    if a.Caller? && (CallAt(s.front, a.r, Registered) || CallAt(s.front, a.r, Sent) || CallAt(s.front, a.r, Refused)) {
      NoneActive(s.front, a.r);
      assert false;
    }
  }

  lemma NoneActive(f: Front, r: Req)
    requires Registering(f) && f.enqueuers == 0
    ensures !CallAt(f, r, Registered) && !CallAt(f, r, Sent) && !CallAt(f, r, Refused)
  {
    assert r !in ActiveCalls(f.calls);
  }

  /** No deadlock: a started dispatcher has a step of its own if and only if something is under way. */
  lemma NoDeadlock(c: Config, s: State)
    requires Inv(c, s) && s.started
    ensures (exists a :: Internal(a) && Enabled(c, s, a)) <==> !Quiet(s)
  {
    if Quiet(s) {
      forall a | Internal(a)
        ensures !Enabled(c, s, a)
      {
        QuietWaits(c, s, a);
      }
    } else {
      var a: Action;
      if s.front.enqueuers != 0 {
        a := CallMoves(c, s);
      } else if WorkLeft(s) {
        a := GoroutineMoves(c, s);
      } else {
        a := StopMoves(c, s);
      }
    }
  }

  // Termination: how many steps requests and goroutines still have before them, at most.

  function Uncalled(calls: map<Req, CallPc>): set<Req> {
    set r | r in calls && calls[r].NotCalled?
  }

  function Unsent(calls: map<Req, CallPc>): set<Req> {
    set r | r in calls && calls[r].Registered?
  }

  function WorkerWeight(pc: WorkerPc): nat {
    match pc
    case Left => 0
    case Idle => 1
    case Delivered(_) => 3
    case Executing(_) => 5
  }

  function WorkersWeight(ws: seq<WorkerPc>): nat {
    if ws == [] then 0 else WorkerWeight(ws[0]) + WorkersWeight(ws[1..])
  }

  function StopWeight(pc: StopPc): nat {
    match pc
    case NotStopping => 5
    case FlagSet => 4
    case DoneClosed => 3
    case EnqueuersGone => 2
    case IncomingClosed => 1
    case Returned(_) => 0
  }

  function SchedulerWeight(d: Scheduler): nat {
    (match d.pc case Gone => 0 case Selecting => 1 case Placing(_) => 8) + (if d.watching then 1 else 0) + 6 * |d.waiting|
  }

  function CallsWeight(calls: map<Req, CallPc>): nat {
    11 * |Uncalled(calls)| + 9 * |Unsent(calls)| + |ActiveCalls(calls)|
  }

  function Measure(s: State): nat {
    CallsWeight(s.front.calls) + StopWeight(s.front.stop) + (if s.started then 0 else 1)
    + 8 * |s.incoming.items| + SchedulerWeight(s.scheduler) + 5 * |s.ready.items| + WorkersWeight(s.workers)
    + |s.complete| + |s.results.slots.Keys|
  }

  lemma {:induction false} WorkersWeightUpdate(ws: seq<WorkerPc>, w: nat, x: WorkerPc)
    requires w < |ws|
    ensures WorkersWeight(ws[w := x]) == WorkersWeight(ws) - WorkerWeight(ws[w]) + WorkerWeight(x)
  {
    if w == 0 {
      assert ws[w := x][1..] == ws[1..];
    } else {
      WorkersWeightUpdate(ws[1..], w - 1, x);
      assert ws[w := x][1..] == ws[1..][w - 1 := x];
    }
  }

  lemma UncalledUpdate(calls: map<Req, CallPc>, r: Req, pc: CallPc)
    requires r in calls && !pc.NotCalled?
    ensures |Uncalled(calls[r := pc])| == |Uncalled(calls)| - One(calls[r].NotCalled?)
  {
    assert Uncalled(calls[r := pc]) == Uncalled(calls) - {r};
  }

  lemma UnsentUpdate(calls: map<Req, CallPc>, r: Req, pc: CallPc)
    requires r in calls
    ensures |Unsent(calls[r := pc])| == |Unsent(calls)| - One(calls[r].Registered?) + One(pc.Registered?)
  {
    assert Unsent(calls[r := pc]) == if pc.Registered? then Unsent(calls) + {r} else Unsent(calls) - {r};
  }

  function CallWeight(pc: CallPc): int {
    match pc
    case NotCalled => 11
    case Registered => 10
    case Sent => 1
    case Refused => 1
    case _ => 0
  }

  lemma CallsWeightUpdate(calls: map<Req, CallPc>, r: Req, pc: CallPc)
    requires r in calls && !pc.NotCalled?
    ensures CallsWeight(calls[r := pc]) == CallsWeight(calls) - CallWeight(calls[r]) + CallWeight(pc)
  {
    hide Uncalled, Unsent, ActiveCalls;
    UncalledUpdate(calls, r, pc);
    UnsentUpdate(calls, r, pc);
    ActiveUpdate(calls, r, pc);
  }

  lemma CallerNearer(c: Config, s: State, r: Req, a: CallStep)
    requires CallerEnabled(c, s, r, a) && !CallerNext(c, s, r, a).panicked
    ensures Measure(CallerNext(c, s, r, a)) < Measure(s)
  {
    hide CallsWeight, WorkersWeight, StopWeight, SchedulerWeight;
    CallsWeightUpdate(s.front.calls, r, CallerNext(c, s, r, a).front.calls[r]);
    CallerFrame(c, s, r, a);
    match a
    case Send =>
    case _ =>
  }

  lemma StopperNearer(s: State, a: StopStep)
    requires StopperEnabled(s, a) && !StopperNext(s, a).panicked
    ensures Measure(StopperNext(s, a)) < Measure(s)
  {
    hide CallsWeight, WorkersWeight, SchedulerWeight;
  }

  lemma SchedulerNearer(c: Config, s: State, a: SchedulerStep)
    requires SchedulerEnabled(c, s, a) && !SchedulerNext(c, s, a).panicked
    ensures Measure(SchedulerNext(c, s, a)) < Measure(s)
  {
    hide CallsWeight, WorkersWeight;
  }

  lemma WorkerNearer(c: Config, s: State, w: nat, a: WorkerStep)
    requires WorkerEnabled(c, s, w, a)
    ensures Measure(WorkerNext(c, s, w, a)) < Measure(s)
  {
    hide CallsWeight, WorkersWeight;
    var t := WorkerNext(c, s, w, a);
    WorkersWeightUpdate(s.workers, w, t.workers[w]);
    if a.Deliver? {
      assert t.results.slots.Keys == s.results.slots.Keys + {s.workers[w].req};
    }
  }

  /** Every action brings the end of the run nearer. */
  lemma MeasureStep(c: Config, s: State, a: Action)
    requires Inv(c, s) && Enabled(c, s, a)
    ensures Measure(Next(c, s, a)) < Measure(s)
  {
    var t := Next(c, s, a);
    assert !t.panicked by {
      InvStep(c, s, a);
    }
    hide Inv, CallerNext, StopperNext, SchedulerNext, WorkerNext;
    match a
    case Caller(r, x) => CallerNearer(c, s, r, x);
    case Stopper(x) => StopperNearer(s, x);
    case Schedule(x) => SchedulerNearer(c, s, x);
    case Work(w, x) => WorkerNearer(c, s, w, x);
    case Collect(r) =>
      hide CallsWeight, WorkersWeight;
      assert t.results.slots.Keys == s.results.slots.Keys - {r};
    case Start =>
  }

  /** So a run has no more actions than the measure of the state it starts from. */
  lemma {:induction false} RunsEnd(c: Config, s: State, run: seq<Action>, t: State)
    requires Inv(c, s) && Reaches(c, s, run, t)
    ensures |run| + Measure(t) <= Measure(s)
    decreases |run|
  {
    hide Inv, Enabled, Next, Measure;
    if run != [] {
      InvStep(c, s, run[0]);
      MeasureStep(c, s, run[0]);
      RunsEnd(c, Next(c, s, run[0]), run[1..], t);
    }
  }

  /** Stop returns: however the run went, its length is bounded beforehand; and if the dispatcher can do
      nothing more after Stop has begun, then Stop has returned and, had it been started, has drained it. */
  lemma StopReturns(c: Config, reqs: set<Req>, run: seq<Action>, t: State)
    requires c.Valid() && Reaches(c, Init(c, reqs), run, t)
    ensures |run| <= Measure(Init(c, reqs))
    ensures !t.front.stop.NotStopping? && (forall a :: Internal(a) ==> !Enabled(c, t, a)) ==> t.front.stop.Returned?
    ensures t.front.stop == Returned(true) ==> AllAnswered(t) && NoGoroutines(t)
  {
    var s := Init(c, reqs);
    InitInv(c, reqs);
    InvRun(c, s, run, t);
    RunsEnd(c, s, run, t);
    ExactlyOnce(c, reqs, run, t);
    if !t.front.stop.NotStopping? && !t.front.stop.Returned? {
      var a := StopMoves(c, t);
    }
  }
}
