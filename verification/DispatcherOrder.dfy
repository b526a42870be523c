/** In which order the workers get the requests. */
module DispatcherOrder {
  import opened Counting
  import opened DispatcherModel
  import opened DispatcherProofs
  import DispatcherTheorems

  /** The requests between the incoming channel and the workers, in the order in which they get there if
      none overtakes another. */
  function Line(s: State): seq<Req> {
    s.ready.items + s.scheduler.waiting + (if s.scheduler.pc.Placing? then [s.scheduler.pc.req] else []) + s.incoming.items
  }

  lemma NewcomerIsNew(c: Config, s: State)
    requires Inv(c, s) && s.scheduler.pc.Placing? && s.scheduler.waiting != []
    ensures s.scheduler.waiting[0] != s.scheduler.pc.req
  {
    var r := s.scheduler.pc.req;
    assert ConservedAt(s, r);
    hide Inv;
    DispatcherTheorems.PlacesNat(s, r);
    OccursNat(s.scheduler.waiting[1..], r);
  }

  /** The scheduler keeps that order except when it finds room in the ready channel for a newcomer while
      others wait; then the newcomer does overtake. */
  lemma SchedulerKeepsLine(c: Config, s: State, a: SchedulerStep)
    requires Inv(c, s) && SchedulerEnabled(c, s, a)
    ensures Line(SchedulerNext(c, s, a)) == Line(s) <==>
            !(a.Place? && s.scheduler.waiting != [] && |s.ready.items| < c.queueSize)
  {
    var t := SchedulerNext(c, s, a);
    var d := s.scheduler;
    assert !t.panicked by {
      SchedulerKeeps(c, s, a);
    }
    if a.Place? && d.waiting != [] && |s.ready.items| < c.queueSize {
      NewcomerIsNew(c, s);
      hide Inv;
      assert Line(t)[|s.ready.items|] == d.pc.req && Line(s)[|s.ready.items|] == d.waiting[0];
    } else {
      hide Inv;
      assert Line(t) == Line(s);
    }
  }

  // Whole runs.

  /** The requests that calls of Enqueue sent, in order. */
  function SentIn(run: seq<Action>): seq<Req> {
    if run == [] then [] else SentBy(run[0]) + SentIn(run[1..])
  }

  function SentBy(a: Action): seq<Req> {
    if a.Caller? && a.call.Send? then [a.r] else []
  }

  /** The requests that workers took, in order. */
  function TakenIn(c: Config, s: State, run: seq<Action>, t: State): seq<Req>
    requires Reaches(c, s, run, t)
    decreases |run|
  {
    if run == [] then [] else TakenBy(c, s, run[0]) + TakenIn(c, Next(c, s, run[0]), run[1..], t)
  }

  function TakenBy(c: Config, s: State, a: Action): seq<Req>
    requires Enabled(c, s, a)
  {
    if a.Work? && a.work.Take? then [s.ready.items[0]] else []
  }

  predicate Overtakes(c: Config, s: State, a: Action) {
    a == Schedule(Place) && Enabled(c, s, a) && s.scheduler.waiting != [] && |s.ready.items| < c.queueSize
  }

  lemma CallerKeepsLine(c: Config, s: State, r: Req, a: CallStep)
    requires CallerEnabled(c, s, r, a) && !CallerNext(c, s, r, a).panicked
    ensures Line(CallerNext(c, s, r, a)) == Line(s) + SentBy(Caller(r, a))
  {
    match a
    case Send =>
    case _ => assert Line(s) + [] == Line(s);
  }

  lemma WorkerKeepsLine(c: Config, s: State, w: nat, a: WorkerStep)
    requires !s.panicked && WorkerEnabled(c, s, w, a)
    ensures Line(s) == TakenBy(c, s, Work(w, a)) + Line(WorkerNext(c, s, w, a))
  {
    match a
    case Take =>
    case _ => assert [] + Line(s) == Line(s);
  }

  lemma StepKeepsLine(c: Config, s: State, a: Action)
    requires Inv(c, s) && Enabled(c, s, a) && !Overtakes(c, s, a)
    ensures Line(s) + SentBy(a) == TakenBy(c, s, a) + Line(Next(c, s, a))
  {
    assert !Next(c, s, a).panicked by {
      InvStep(c, s, a);
    }
    assert Line(s) + [] == Line(s) == [] + Line(s);
    match a
    case Caller(r, x) =>
      CallerKeepsLine(c, s, r, x);
      assert [] + Line(CallerNext(c, s, r, x)) == Line(CallerNext(c, s, r, x));
    case Schedule(x) =>
      SchedulerKeepsLine(c, s, x);
      hide Line, Inv;
    case Work(w, x) =>
      WorkerKeepsLine(c, s, w, x);
      hide Line, Inv;
    case _ => hide Inv;
  }

  /** With room for one request in each queue nobody is overtaken: the overflow queue is only used when it is empty. */
  lemma NoneOvertaken(c: Config, s: State, a: Action)
    requires Inv(c, s) && c.queueSize == 1
    ensures !Overtakes(c, s, a)
  {
  }

  /** In the run nobody is overtaken. */
  predicate InTurn(c: Config, s: State, run: seq<Action>)
    decreases |run|
  {
    run == [] || (Enabled(c, s, run[0]) && !Overtakes(c, s, run[0]) && InTurn(c, Next(c, s, run[0]), run[1..]))
  }

  lemma {:induction false} SmallInTurn(c: Config, s: State, run: seq<Action>, t: State)
    requires Inv(c, s) && c.queueSize == 1 && Reaches(c, s, run, t)
    ensures InTurn(c, s, run)
    decreases |run|
  {
    hide Inv, Enabled, Next, Overtakes;
    if run != [] {
      NoneOvertaken(c, s, run[0]);
      InvStep(c, s, run[0]);
      SmallInTurn(c, Next(c, s, run[0]), run[1..], t);
    }
  }

  /** As long as nobody is overtaken, whatever the sizes, the requests sent are those that workers took and then
      those on their way, in that order. */
  lemma {:induction false} RunKeepsLine(c: Config, s: State, run: seq<Action>, t: State)
    requires Inv(c, s) && InTurn(c, s, run) && Reaches(c, s, run, t)
    ensures Line(s) + SentIn(run) == TakenIn(c, s, run, t) + Line(t)
    decreases |run|
  {
    hide Inv, Enabled, Next, Line, SentBy, TakenBy, Overtakes;
    if run != [] {
      var u := Next(c, s, run[0]);
      StepKeepsLine(c, s, run[0]);
      InvStep(c, s, run[0]);
      RunKeepsLine(c, u, run[1..], t);
      var x, y := SentBy(run[0]), TakenBy(c, s, run[0]);
      assert Line(s) + (x + SentIn(run[1..])) == (Line(s) + x) + SentIn(run[1..]);
      assert (y + Line(u)) + SentIn(run[1..]) == y + (Line(u) + SentIn(run[1..]));
      assert y + (TakenIn(c, u, run[1..], t) + Line(t)) == (y + TakenIn(c, u, run[1..], t)) + Line(t);
    } else {
      assert Line(s) + [] == Line(s) == [] + Line(s);
    }
  }

  /** Workers have taken the first requests sent, in the order in which they were sent. */
  ghost predicate Fifo(c: Config, reqs: set<Req>, run: seq<Action>, t: State) {
    Reaches(c, Init(c, reqs), run, t) ==> TakenIn(c, Init(c, reqs), run, t) <= SentIn(run)
  }

  lemma {:induction false} SentSnoc(run: seq<Action>, a: Action)
    ensures SentIn(run + [a]) == SentIn(run) + SentBy(a)
  {
    hide SentBy;
    if run == [] {
      assert run + [a] == [a] && [a][1..] == [];
    } else {
      SentSnoc(run[1..], a);
      assert (run + [a])[1..] == run[1..] + [a];
    }
  }

  lemma {:induction false} TakenSnoc(c: Config, s: State, run: seq<Action>, t: State, a: Action)
    requires Reaches(c, s, run, t) && Enabled(c, t, a)
    ensures Reaches(c, s, run + [a], Next(c, t, a))
    ensures TakenIn(c, s, run + [a], Next(c, t, a)) == TakenIn(c, s, run, t) + TakenBy(c, t, a)
    decreases |run|
  {
    hide Enabled, Next, TakenBy;
    ReachesSnoc(c, s, run, t, a);
    if run == [] {
      assert run + [a] == [a] && [a][1..] == [];
    } else {
      assert (run + [a])[0] == run[0] && (run + [a])[1..] == run[1..] + [a];
      TakenSnoc(c, Next(c, s, run[0]), run[1..], t, a);
    }
  }

  /** What was sent and taken in a run. */
  ghost predicate Traced(c: Config, s: State, run: seq<Action>, t: State, sent: seq<Req>, taken: seq<Req>) {
    Inv(c, t) && Reaches(c, s, run, t) && SentIn(run) == sent && TakenIn(c, s, run, t) == taken
  }

  lemma TracedSnoc(c: Config, s: State, run: seq<Action>, t: State, a: Action, sent: seq<Req>, taken: seq<Req>)
    requires Traced(c, s, run, t, sent, taken) && Enabled(c, t, a)
    ensures Traced(c, s, run + [a], Next(c, t, a), sent + SentBy(a), taken + TakenBy(c, t, a))
  {
    hide Inv, Enabled, Next, SentBy, TakenBy;
    InvStep(c, t, a);
    SentSnoc(run, a);
    TakenSnoc(c, s, run, t, a);
  }

  /** Nobody was overtaken so far: the requests sent are those that workers took and then those still on their
      way, in that order. */
  ghost predicate Orderly(c: Config, s: State, run: seq<Action>, t: State) {
    Inv(c, t) && Reaches(c, s, run, t) && SentIn(run) == TakenIn(c, s, run, t) + Line(t)
  }

  lemma OrderlySnoc(c: Config, s: State, run: seq<Action>, t: State, a: Action)
    requires Orderly(c, s, run, t) && Enabled(c, t, a) && !Overtakes(c, t, a)
    ensures Orderly(c, s, run + [a], Next(c, t, a))
  {
    hide Inv, Enabled, Next, SentBy, TakenBy, Overtakes, Line;
    var taken := TakenIn(c, s, run, t);
    TracedSnoc(c, s, run, t, a, SentIn(run), taken);
    StepKeepsLine(c, t, a);
    assert (taken + Line(t)) + SentBy(a) == taken + (Line(t) + SentBy(a));
    assert taken + (TakenBy(c, t, a) + Line(Next(c, t, a))) == (taken + TakenBy(c, t, a)) + Line(Next(c, t, a));
  }

  // A run in which a newcomer is taken first.

  /** Requests go straight into the ready channel, no worker takes any, and those from `b` to `m` are still to come. */
  ghost predicate Filling(c: Config, s: State, b: nat, m: nat) {
    && !s.panicked && s.started && |s.ready.items| <= c.queueSize && s.ready.open
    && s.incoming == Channel([], true) && s.scheduler.pc.Selecting? && s.scheduler.watching
    && s.front.stop.NotStopping? && !s.front.stopped && s.results.slots == map[]
    && 0 < |s.workers| && s.workers[0].Idle? && s.complete == []
    && forall r | b <= r < m :: CallAt(s.front, r, NotCalled)
  }

  /** The next request is sent and received by the scheduler. */
  lemma Arrive(c: Config, s0: State, run0: seq<Action>, s: State, b: nat, m: nat) returns (run: seq<Action>, t: State)
    requires c.Valid() && c.usable(b) && Filling(c, s, b, m) && b < m && |s.scheduler.waiting| < c.queueSize
    requires Orderly(c, s0, run0, s)
    ensures Orderly(c, s0, run, t)
    ensures t.scheduler.pc == Placing(b) && t.scheduler.waiting == s.scheduler.waiting && t.ready == s.ready && t.workers == s.workers
    ensures Filling(c, t.(scheduler := t.scheduler.(pc := Selecting)), b + 1, m)
  {
    hide Orderly;
    var s1 := Next(c, s, Caller(b, Call));
    OrderlySnoc(c, s0, run0, s, Caller(b, Call));
    var run1 := run0 + [Caller(b, Call)];
    var s2 := Next(c, s1, Caller(b, Send));
    OrderlySnoc(c, s0, run1, s1, Caller(b, Send));
    var run2 := run1 + [Caller(b, Send)];
    t := Next(c, s2, Schedule(Receive));
    OrderlySnoc(c, s0, run2, s2, Schedule(Receive));
    run := run2 + [Schedule(Receive)];
    forall r | b + 1 <= r < m
      ensures CallAt(t.front, r, NotCalled)
    {
      assert CallAt(s.front, r, NotCalled);
    }
  }

  /** The next request arrives and is placed. */
  lemma ArriveAndPlace(c: Config, s0: State, run0: seq<Action>, s: State, b: nat, m: nat) returns (run: seq<Action>, t: State)
    requires c.Valid() && c.usable(b) && Filling(c, s, b, m) && b < m && |s.scheduler.waiting| < c.queueSize
    requires s.scheduler.waiting == [] || |s.ready.items| == c.queueSize
    requires Orderly(c, s0, run0, s)
    ensures Orderly(c, s0, run, t) && Filling(c, t, b + 1, m)
    ensures |s.ready.items| < c.queueSize ==> |t.ready.items| == |s.ready.items| + 1 && t.scheduler.waiting == s.scheduler.waiting
    ensures |s.ready.items| == c.queueSize ==> t.ready == s.ready && |t.scheduler.waiting| == |s.scheduler.waiting| + 1
  {
    hide Orderly;
    var run1, s1 := Arrive(c, s0, run0, s, b, m);
    t := Next(c, s1, Schedule(Place));
    OrderlySnoc(c, s0, run1, s1, Schedule(Place));
    run := run1 + [Schedule(Place)];
  }

  lemma {:induction false} FillReady(c: Config, s0: State, run0: seq<Action>, s: State, b: nat, m: nat)
    returns (run: seq<Action>, t: State)
    requires c.Valid() && (forall r :: c.usable(r)) && Filling(c, s, b, m) && s.scheduler.waiting == []
    requires |s.ready.items| == b && c.queueSize <= m && Orderly(c, s0, run0, s)
    ensures Orderly(c, s0, run, t) && Filling(c, t, c.queueSize, m)
    ensures |t.ready.items| == c.queueSize && t.scheduler.waiting == []
    decreases c.queueSize - b
  {
    hide Orderly;
    run, t := run0, s;
    if b < c.queueSize {
      run, t := ArriveAndPlace(c, s0, run0, s, b, m);
      run, t := FillReady(c, s0, run, t, b + 1, m);
    }
  }

  /** With larger queues it does happen: the ready channel is full, one request waits, the next one is received,
      and a worker makes room before it is placed. */
  lemma OvertakingRun(c: Config) returns (reqs: set<Req>, run: seq<Action>, t: State)
    requires c.Valid() && (forall r :: c.usable(r)) && 2 <= c.queueSize
    ensures Orderly(c, Init(c, reqs), run, t) && Overtakes(c, t, Schedule(Place))
    ensures 0 < |t.workers| && t.workers[0].Executing? && t.complete == []
  {
    hide Orderly;
    var n := c.queueSize;
    reqs := UpTo(n + 2);
    var s := Init(c, reqs);
    var s1 := Next(c, s, Start);
    InitOrderly(c, reqs);
    OrderlySnoc(c, s, [], s, Start);
    assert [] + [Start] == [Start];
    var run2, s2 := FillReady(c, s, [Start], s1, 0, n + 2);
    var run3, s3 := ArriveAndPlace(c, s, run2, s2, n, n + 2);
    var run4, s4 := Arrive(c, s, run3, s3, n + 1, n + 2);
    t := Next(c, s4, Work(0, Take));
    OrderlySnoc(c, s, run4, s4, Work(0, Take));
    run := run4 + [Work(0, Take)];
  }

  function UpTo(n: nat): (rs: set<Req>)
    ensures forall r: Req :: r in rs <==> r < n
  {
    if n == 0 then {} else UpTo(n - 1) + {n - 1}
  }

  lemma InitOrderly(c: Config, reqs: set<Req>)
    requires c.Valid()
    ensures Orderly(c, Init(c, reqs), [], Init(c, reqs))
  {
    InitInv(c, reqs);
    hide Inv;
  }

  /** The first worker finishes its request and takes the next one, while the scheduler does nothing. */
  lemma TakeNext(c: Config, s0: State, run0: seq<Action>, s: State, sent: seq<Req>, taken: seq<Req>)
    returns (run: seq<Action>, t: State)
    requires Traced(c, s0, run0, s, sent, taken) && s.started && 0 < |s.workers| && s.workers[0].Executing?
    requires s.ready.items != [] && |s.complete| < c.queueSize
    ensures Traced(c, s0, run, t, sent, taken + [s.ready.items[0]])
    ensures t.started && |t.workers| == |s.workers| && t.workers[0].Executing?
    ensures t.ready.items == s.ready.items[1..] && |t.complete| == |s.complete| + 1
  {
    var r := s.workers[0].req;
    assert !s.panicked && r !in s.results.slots by {
      DispatcherTheorems.AtMostOnce(c, s, r);
      assert DispatcherTheorems.Runs(s, 0, r);
    }
    hide Traced;
    var s1 := Next(c, s, Work(0, Deliver));
    TracedSnoc(c, s0, run0, s, Work(0, Deliver), sent, taken);
    var run1 := run0 + [Work(0, Deliver)];
    var s2 := Next(c, s1, Work(0, Report));
    assert sent + [] == sent && taken + [] == taken;
    TracedSnoc(c, s0, run1, s1, Work(0, Report), sent, taken);
    var run2 := run1 + [Work(0, Report)];
    t := Next(c, s2, Work(0, Take));
    TracedSnoc(c, s0, run2, s2, Work(0, Take), sent, taken);
    run := run2 + [Work(0, Take)];
  }

  lemma {:induction false} TakeAll(c: Config, s0: State, run0: seq<Action>, s: State, sent: seq<Req>, taken: seq<Req>)
    returns (run: seq<Action>, t: State)
    requires Traced(c, s0, run0, s, sent, taken) && s.started && 0 < |s.workers| && s.workers[0].Executing?
    requires |s.complete| + |s.ready.items| <= c.queueSize
    ensures Traced(c, s0, run, t, sent, taken + s.ready.items)
    decreases |s.ready.items|
  {
    hide Traced;
    if s.ready.items == [] {
      run, t := run0, s;
      assert taken + [] == taken;
    } else {
      run, t := TakeNext(c, s0, run0, s, sent, taken);
      run, t := TakeAll(c, s0, run, t, sent, taken + [s.ready.items[0]]);
      assert taken + [s.ready.items[0]] + s.ready.items[1..] == taken + s.ready.items;
    }
  }

  /** A run in which a worker takes a newcomer before a request that was sent earlier. */
  lemma UnfairRun(c: Config) returns (reqs: set<Req>, run: seq<Action>, t: State)
    requires c.Valid() && (forall r :: c.usable(r)) && 2 <= c.queueSize
    ensures Reaches(c, Init(c, reqs), run, t) && !(TakenIn(c, Init(c, reqs), run, t) <= SentIn(run))
  {
    var run1, s1;
    reqs, run1, s1 := OvertakingRun(c);
    var s0, a := Init(c, reqs), Schedule(Place);
    var sent, taken := SentIn(run1), TakenIn(c, s0, run1, s1);
    var ready, w, q := s1.ready.items, s1.scheduler.waiting[0], s1.scheduler.pc.req;
    NewcomerIsNew(c, s1);
    assert Traced(c, s0, run1, s1, sent, taken);
    assert sent[|taken| + |ready|] == w by {
      assert (ready + s1.scheduler.waiting + [q])[|ready|] == w;
    }
    TracedSnoc(c, s0, run1, s1, a, sent, taken);
    assert sent + [] == sent && taken + [] == taken;
    var s2 := Next(c, s1, a);
    assert s2.ready.items == ready + [q] by {
      InvStep(c, s1, a);
    }
    hide Traced, Orderly, Inv, Line;
    run, t := TakeAll(c, s0, run1 + [a], s2, sent, taken);
    assert (taken + (ready + [q]))[|taken| + |ready|] == q;
    assert Traced(c, s0, run, t, sent, taken + (ready + [q]));
    TracedMeans(c, s0, run, t, sent, taken + (ready + [q]));
  }

  lemma TracedMeans(c: Config, s: State, run: seq<Action>, t: State, sent: seq<Req>, taken: seq<Req>)
    requires Traced(c, s, run, t, sent, taken)
    ensures Reaches(c, s, run, t) && SentIn(run) == sent && TakenIn(c, s, run, t) == taken
  {
  }

  /** Workers take requests in the order in which they were sent, in every run, if and only if the queues have
      room for one. */
  lemma FifoExactly(c: Config)
    requires c.Valid() && forall r :: c.usable(r)
    ensures (forall reqs, run, t :: Fifo(c, reqs, run, t)) <==> c.queueSize == 1
  {
    hide Reaches;
    if c.queueSize == 1 {
      hide Enabled, Next;
      forall reqs, run, t | Reaches(c, Init(c, reqs), run, t)
        ensures Fifo(c, reqs, run, t)
      {
        InitInv(c, reqs);
        SmallInTurn(c, Init(c, reqs), run, t);
        RunKeepsLine(c, Init(c, reqs), run, t);
        assert Line(Init(c, reqs)) == [] && [] + SentIn(run) == SentIn(run);
      }
    } else {
      var reqs, run, t := UnfairRun(c);
      assert !Fifo(c, reqs, run, t);
    }
  }
}
