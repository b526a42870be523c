/** The Dispatcher type of internal/dispatcher/dispatcher.go with its fields updated in place. A method
    carries one goroutine to its next blocking point; which goroutine moves, and which ready case a select
    takes, is the caller's choice. */
module Dispatcher {
  import opened Bytes
  import opened Counting
  import opened DispatcherModel
  import opened DispatcherProofs
  import opened DispatcherTheorems

  class Dispatcher {
    const config: Config
    var incomingQueue: seq<Req>
    var incomingOpen: bool
    var readyQueue: seq<Req>
    var readyOpen: bool
    var completeQueue: seq<Req>
    var waitingQueue: seq<Req>
    var enqueueDone: bool
    var stopped: bool
    var enqueueWG: int
    var started: bool
    // The local variables and program counters of the goroutines.
    var scheduler: SchedulerPc
    var watching: bool
    var pendingWorkers: int
    var workers: seq<WorkerPc>
    var calls: map<Req, CallPc>
    var stop: StopPc
    // The result channels, and what passed through them.
    var slots: map<Req, Value>
    ghost var log: seq<(Req, Value)>
    ghost var finished: seq<Req>

    ghost function View(): State
      reads this
    {
      State(Front(calls, enqueueWG, stop, stopped, enqueueDone), started,
            Channel(incomingQueue, incomingOpen), Channel(readyQueue, readyOpen), completeQueue,
            Scheduler(scheduler, watching, pendingWorkers, waitingQueue), workers, Results(slots, log), finished, false)
    }

    ghost predicate Valid()
      reads this
    {
      Inv(config, View())
    }

    constructor (workers: int, queueSize: int, usable: Req -> bool, exec: Req -> Value, reqs: set<Req>)
      ensures config == NewConfig(workers, queueSize, usable, exec)
      ensures View() == Init(config, reqs) && Valid()
    {
      var c := NewConfig(workers, queueSize, usable, exec);
      config := c;
      incomingQueue, incomingOpen, readyQueue, readyOpen, completeQueue, waitingQueue := [], true, [], true, [], [];
      enqueueDone, stopped, enqueueWG, started := false, false, 0, false;
      scheduler, watching, pendingWorkers := Selecting, true, 0;
      this.workers := seq(c.workers, _ => Idle);
      calls := map r | r in reqs :: NotCalled;
      stop, slots, log, finished := NotStopping, map[], [], [];
      new;
      InitInv(config, reqs);
    }

    /** One iteration of schedulerLoop. */
    method StepScheduler(want: SchedulerStep) returns (moved: bool)
      requires Valid()
      modifies this
      ensures Valid() && moved == SchedulerEnabled(config, old(View()), want)
      ensures View() == if moved then SchedulerNext(config, old(View()), want) else old(View())
    {
      SchedulerSafe(config, View(), want);
      hide Inv;
      if !started || scheduler.Gone? {
        return false;
      }
      if scheduler.Placing? {
        if want != Place {
          return false;
        }
        PlaceRequest();
        return true;
      }
      if !watching && pendingWorkers == 0 && |waitingQueue| == 0 {
        if want != Exit {
          return false;
        }
        readyOpen := false;
        scheduler := Gone;
        return true;
      }
      moved := SelectCase(want);
    }

    /** The inner select: the ready channel if it has room, the overflow queue otherwise. */
    method PlaceRequest()
      requires started && scheduler.Placing? && readyOpen
      modifies this`readyQueue, this`waitingQueue, this`scheduler
      ensures View() == SchedulerNext(config, old(View()), SchedulerStep.Place)
    {
      if |readyQueue| < config.queueSize {
        readyQueue := readyQueue + [scheduler.req];
      } else {
        waitingQueue := waitingQueue + [scheduler.req];
      }
      scheduler := Selecting;
    }

    /** The outer select, restricted to the case that is wanted. */
    method SelectCase(want: SchedulerStep) returns (moved: bool)
      requires started && scheduler.Selecting? && readyOpen
      requires watching || pendingWorkers != 0 || waitingQueue != []
      modifies this
      ensures moved == SchedulerEnabled(config, old(View()), want)
      ensures View() == if moved then SchedulerNext(config, old(View()), want) else old(View())
    {
      var acceptIn := watching && |waitingQueue| < config.queueSize;
      var readyOut := |waitingQueue| > 0;
      moved := match want
        case Receive => acceptIn && |incomingQueue| > 0
        case SeeClosed => acceptIn && |incomingQueue| == 0 && !incomingOpen
        case Forward => readyOut && |readyQueue| < config.queueSize
        case Complete => |completeQueue| > 0
        case _ => false;
      if moved {
        TakeCase(want);
      }
    }

    /** The body of the case taken. */
    method TakeCase(want: SchedulerStep)
      requires readyOpen && (want.Receive? || want.SeeClosed? || want.Forward? || want.Complete?)
      requires SchedulerEnabled(config, View(), want)
      modifies this
      ensures View() == SchedulerNext(config, old(View()), want)
    {
      match want
      case Receive => ReceiveRequest();
      case SeeClosed => watching := false;
      case Forward => ForwardWaiting();
      case Complete => CompleteRequest();
    }

    method ReceiveRequest()
      requires SchedulerEnabled(config, View(), Receive)
      modifies this`incomingQueue, this`scheduler, this`pendingWorkers
      ensures View() == SchedulerNext(config, old(View()), Receive)
    {
      scheduler := Placing(incomingQueue[0]);
      incomingQueue := incomingQueue[1..];
      pendingWorkers := pendingWorkers + 1;
    }

    method ForwardWaiting()
      requires readyOpen && SchedulerEnabled(config, View(), Forward)
      modifies this`readyQueue, this`waitingQueue
      ensures View() == SchedulerNext(config, old(View()), Forward)
    {
      readyQueue := readyQueue + [waitingQueue[0]];
      waitingQueue := waitingQueue[1..];
    }

    method CompleteRequest()
      requires SchedulerEnabled(config, View(), Complete)
      modifies this`completeQueue, this`finished, this`pendingWorkers
      ensures View() == SchedulerNext(config, old(View()), Complete)
    {
      finished := finished + [completeQueue[0]];
      completeQueue := completeQueue[1..];
      if pendingWorkers > 0 {
        pendingWorkers := pendingWorkers - 1;
      }
    }

    /** A step of workerLoop and of processRequest and deliverResult in it. */
    method StepWorker(w: nat, want: WorkerStep) returns (moved: bool)
      requires Valid()
      modifies this
      ensures Valid() && moved == WorkerEnabled(config, old(View()), w, want)
      ensures View() == if moved then WorkerNext(config, old(View()), w, want) else old(View())
    {
      WorkerSafe(config, View(), w, want);
      hide Inv;
      if !started || w >= |workers| {
        return false;
      }
      match workers[w]
      case Idle =>
        moved := NextRequest(w, want);
      case Executing(_) =>
        moved := want == Deliver;
        if moved {
          ProcessRequest(w);
        }
      case Delivered(req) =>
        moved := want == Report && |completeQueue| < config.queueSize;
        if moved {
          completeQueue := completeQueue + [req];
          workers := workers[w := Idle];
        }
      case Left =>
        moved := false;
    }

    /** The head of the worker's loop: a request from the ready channel, or the end once that is closed and empty. */
    method NextRequest(w: nat, want: WorkerStep) returns (moved: bool)
      requires started && w < |workers| && workers[w].Idle?
      modifies this`workers, this`readyQueue
      ensures moved == WorkerEnabled(config, old(View()), w, want)
      ensures View() == if moved then WorkerNext(config, old(View()), w, want) else old(View())
    {
      if want == Take && |readyQueue| > 0 {
        workers := workers[w := Executing(readyQueue[0])];
        readyQueue := readyQueue[1..];
        return true;
      }
      moved := want == Quit && |readyQueue| == 0 && !readyOpen;
      if moved {
        workers := workers[w := Left];
      }
    }

    /** processRequest: the command runs, and its result goes into the request's channel. */
    method ProcessRequest(w: nat)
      requires started && w < |workers| && workers[w].Executing? && workers[w].req !in slots
      modifies this`workers, this`slots, this`log
      ensures View() == WorkerNext(config, old(View()), w, Deliver)
    {
      var req := workers[w].req;
      var result := config.exec(req);
      slots := slots[req := result];
      log := log + [(req, result)];
      workers := workers[w := Delivered(req)];
    }

    /** A step of the call of Enqueue for the request. */
    method StepCaller(r: Req, want: CallStep) returns (moved: bool)
      requires Valid()
      modifies this
      ensures Valid() && moved == CallerEnabled(config, old(View()), r, want)
      ensures View() == if moved then CallerNext(config, old(View()), r, want) else old(View())
    {
      CallerSafe(config, View(), r, want);
      hide Inv;
      if r !in calls {
        return false;
      }
      match calls[r]
      case NotCalled =>
        moved := want == Call;
        if moved {
          Register(r);
        }
      case Registered =>
        moved := SelectSend(r, want);
      case Sent =>
        moved := want == Leave;
        if moved {
          Unregister(r);
        }
      case Refused =>
        moved := want == Leave;
        if moved {
          Unregister(r);
        }
      case _ =>
        moved := false;
    }

    /** The checks before the select, and the mutex around the flag and the wait group. */
    method Register(r: Req)
      requires CallAt(View().front, r, NotCalled)
      modifies this`calls, this`enqueueWG
      ensures View() == CallerNext(config, old(View()), r, Call)
    {
      if !config.usable(r) || r in slots || stopped {
        calls := calls[r := ReturnedErr];
        return;
      }
      enqueueWG := enqueueWG + 1;
      calls := calls[r := Registered];
    }

    /** The select: room in the incoming channel, or the news that Stop has begun. */
    method SelectSend(r: Req, want: CallStep) returns (moved: bool)
      requires CallAt(View().front, r, Registered) && incomingOpen
      modifies this`calls, this`incomingQueue
      ensures moved == CallerEnabled(config, old(View()), r, want)
      ensures View() == if moved then CallerNext(config, old(View()), r, want) else old(View())
    {
      if want == Send && |incomingQueue| < config.queueSize {
        incomingQueue := incomingQueue + [r];
        calls := calls[r := Sent];
        return true;
      }
      moved := want == Refuse && enqueueDone;
      if moved {
        calls := calls[r := Refused];
      }
    }

    /** The deferred Done of the wait group, and the return. */
    method Unregister(r: Req)
      requires CallAt(View().front, r, Sent) || CallAt(View().front, r, Refused)
      modifies this`calls, this`enqueueWG
      ensures View() == CallerNext(config, old(View()), r, Leave)
    {
      enqueueWG := enqueueWG - 1;
      calls := calls[r := if calls[r].Sent? then ReturnedNil else ReturnedErr];
    }

    /** The next statement of Stop. */
    method StepStopper(want: StopStep) returns (moved: bool)
      requires Valid()
      modifies this`stopped, this`enqueueDone, this`incomingOpen, this`stop
      ensures Valid() && moved == StopperEnabled(old(View()), want)
      ensures View() == if moved then StopperNext(old(View()), want) else old(View())
    {
      moved := StopperCanStep(want);
      if !moved {
        return;
      }
      StopperSafe(config, View(), want);
      hide Inv, StopperEnabled, StopperNext;
      StopStatement(want);
    }

    method StopStatement(want: StopStep)
      requires StopperEnabled(View(), want) && !StopperNext(View(), want).panicked
      modifies this`stopped, this`enqueueDone, this`incomingOpen, this`stop
      ensures View() == StopperNext(old(View()), want)
    {
      hide NoGoroutines;
      match want
      case SetFlag =>
        stopped := true;
        stop := FlagSet;
      case CloseDone =>
        enqueueDone := true;
        stop := DoneClosed;
      case AwaitEnqueuers =>
        stop := EnqueuersGone;
      case CloseIncoming =>
        incomingOpen := false;
        stop := IncomingClosed;
      case AwaitGoroutines =>
        stop := Returned(started);
    }

    /** Stop has come to the statement, and if it is a wait, what it waits for has happened. */
    method StopperCanStep(want: StopStep) returns (can: bool)
      ensures can == StopperEnabled(View(), want)
    {
      match want
      case SetFlag => can := stop.NotStopping?;
      case CloseDone => can := stop.FlagSet?;
      case AwaitEnqueuers => can := stop.DoneClosed? && enqueueWG == 0;
      case CloseIncoming => can := stop.EnqueuersGone?;
      case AwaitGoroutines =>
        var gone := GoroutinesGone();
        can := stop.IncomingClosed? && gone;
    }

    /** The wait group of the goroutines is at zero. */
    method GoroutinesGone() returns (gone: bool)
      ensures gone == NoGoroutines(View())
    {
      if !started {
        return true;
      }
      if !scheduler.Gone? {
        return false;
      }
      var w := 0;
      while w < |workers|
        invariant 0 <= w <= |workers|
        invariant forall k | 0 <= k < w :: workers[k].Left?
      {
        if !workers[w].Left? {
          return false;
        }
        w := w + 1;
      }
      return true;
    }

    /** Start launches the goroutines, once. */
    method Start() returns (launched: bool)
      requires Valid()
      modifies this`started
      ensures Valid() && launched == !old(started)
      ensures View() == old(View()).(started := true)
    {
      if !started {
        OthersKeep(config, View(), Action.Start);
      }
      launched := !started;
      started := true;
    }

    /** The caller takes its result out of the one-slot channel. */
    method TakeResult(r: Req) returns (result: Option<Value>)
      requires Valid()
      modifies this`slots
      ensures Valid() && (result.Some? <==> r in old(slots)) && (result.Some? ==> result.value == config.exec(r))
      ensures View() == if result.Some? then Next(config, old(View()), Collect(r)) else old(View())
    {
      if r !in slots {
        return None;
      }
      OthersKeep(config, View(), Collect(r));
      result := Some(slots[r]);
      slots := slots - {r};
    }

    /** Any schedule: the goroutines and callers move in the given order, and those that cannot wait. Whatever
        it was: the queues stay within their sizes and the scheduler's count is right; every result in a channel
        is its command's; and once Stop has returned on a started dispatcher, the queues are drained, every
        request whose call succeeded has its one result, and no other was delivered. */
    method Run(schedule: seq<Action>) returns (ghost run: seq<Action>)
      requires Valid()
      modifies this
      ensures Valid() && Reaches(config, old(View()), run, View())
      ensures |run| <= |schedule|
      ensures |incomingQueue| <= config.queueSize && |readyQueue| <= config.queueSize
      ensures |waitingQueue| <= config.queueSize && |completeQueue| <= config.queueSize
      ensures pendingWorkers == |readyQueue| + |waitingQueue| + Busy(workers) + |completeQueue| + One(scheduler.Placing?)
      ensures forall r | r in slots :: slots[r] == config.exec(r)
      ensures stop == Returned(true) ==>
                && incomingQueue == [] && readyQueue == [] && waitingQueue == [] && completeQueue == []
                && (forall w | 0 <= w < |workers| :: workers[w].Left?)
                && (forall r | r in calls :: Deliveries(log, r) == One(calls[r].ReturnedNil?))
    {
      run := [];
      for i := 0 to |schedule|
        invariant Valid() && Reaches(config, old(View()), run, View())
        invariant |run| <= i
      {
        ghost var s := View();
        var moved := Step(schedule[i]);
        if moved {
          ReachesSnoc(config, old(View()), run, s, schedule[i]);
          run := run + [schedule[i]];
        }
      }
      RunMeans(config, View());
    }

    /** Whoever the action belongs to makes it, or stays blocked. */
    method Step(a: Action) returns (moved: bool)
      requires Valid()
      modifies this
      ensures Valid() && moved == Enabled(config, old(View()), a)
      ensures View() == if moved then Next(config, old(View()), a) else old(View())
    {
      hide Inv, CallerNext, StopperNext, SchedulerNext, WorkerNext;
      match a
      case Start => moved := Start();
      case Caller(r, x) => moved := StepCaller(r, x);
      case Stopper(x) => moved := StepStopper(x);
      case Schedule(x) => moved := StepScheduler(x);
      case Work(w, x) => moved := StepWorker(w, x);
      case Collect(r) =>
        var result := TakeResult(r);
        moved := result.Some?;
    }
  }

  lemma SchedulerSafe(c: Config, s: State, a: SchedulerStep)
    requires Inv(c, s)
    ensures SchedulerEnabled(c, s, a) ==> Inv(c, SchedulerNext(c, s, a))
    ensures !s.scheduler.pc.Gone? ==> s.ready.open
  {
    if SchedulerEnabled(c, s, a) {
      SchedulerKeeps(c, s, a);
    }
  }

  lemma WorkerSafe(c: Config, s: State, w: nat, a: WorkerStep)
    requires Inv(c, s)
    ensures WorkerEnabled(c, s, w, a) ==> Inv(c, WorkerNext(c, s, w, a))
    ensures w < |s.workers| && s.workers[w].Executing? ==> s.workers[w].req !in s.results.slots
  {
    if WorkerEnabled(c, s, w, a) {
      WorkerKeeps(c, s, w, a);
    }
    if w < |s.workers| && s.workers[w].Executing? {
      AtMostOnce(c, s, s.workers[w].req);
      assert Runs(s, w, s.workers[w].req);
    }
  }

  lemma CallerSafe(c: Config, s: State, r: Req, a: CallStep)
    requires Inv(c, s)
    ensures CallerEnabled(c, s, r, a) ==> Inv(c, CallerNext(c, s, r, a))
    ensures CallAt(s.front, r, Registered) ==> s.incoming.open
  {
    if CallerEnabled(c, s, r, a) {
      CallerKeeps(c, s, r, a);
    }
    if CallAt(s.front, r, Registered) && s.front.enqueuers == 0 {
      NoneActive(s.front, r);
      assert false;
    }
  }

  lemma StopperSafe(c: Config, s: State, a: StopStep)
    requires Inv(c, s)
    ensures StopperEnabled(s, a) ==> Inv(c, StopperNext(s, a)) && !StopperNext(s, a).panicked
  {
    if StopperEnabled(s, a) {
      StopperKeeps(c, s, a);
    }
  }

  lemma RunMeans(c: Config, s: State)
    requires Inv(c, s)
    ensures Bounded(c, s) && Counted(s) && Genuine(c, s.results)
    ensures s.front.stop == Returned(true) ==>
              && s.incoming.items == [] && s.ready.items == [] && s.scheduler.waiting == [] && s.complete == []
              && (forall w | 0 <= w < |s.workers| :: s.workers[w].Left?)
              && (forall r | r in s.front.calls :: Deliveries(s.results.log, r) == One(s.front.calls[r].ReturnedNil?))
  {
    if s.front.stop == Returned(true) {
      StoppedAnswered(c, s);
      forall r | r in s.front.calls
        ensures Deliveries(s.results.log, r) == One(s.front.calls[r].ReturnedNil?)
      {
        AtMostOnce(c, s, r);
        NoneActive(s.front, r);
      }
    }
  }
}
