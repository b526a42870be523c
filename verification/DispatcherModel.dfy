/** The dispatcher of internal/dispatcher/dispatcher.go as a labelled transition system: one action for
    each atomic step of a goroutine. Requests are identified by numbers. */
module DispatcherModel {
  import opened Counting
  import Values

  type Req = nat
  type Value = Values.Value

  /** Sizes, which requests come with a result channel that Enqueue can use, and what the command of each
      request returns. */
  datatype Config = Config(workers: nat, queueSize: nat, usable: Req -> bool, exec: Req -> Value) {
    predicate Valid() {
      0 < workers && 0 < queueSize
    }
  }

  /** NewDispatcher's defaults for sizes that are not positive. */
  function NewConfig(workers: int, queueSize: int, usable: Req -> bool, exec: Req -> Value): (c: Config)
    ensures c.Valid() && c.usable == usable && c.exec == exec
    ensures c.workers == workers || (workers <= 0 && c.workers == 1)
    ensures c.queueSize == queueSize || (queueSize <= 0 && c.queueSize == 4096)
  {
    Config(if workers <= 0 then 1 else workers, if queueSize <= 0 then 4096 else queueSize, usable, exec)
  }

  /** Where a call of Enqueue is. `Sent` and `Refused` have left the select but not yet the wait group. */
  datatype CallPc = NotCalled | Registered | Sent | Refused | ReturnedNil | ReturnedErr

  /** Where Stop is: before each of its statements, or returned; `started` tells whether there were
      goroutines to wait for. */
  datatype StopPc = NotStopping | FlagSet | DoneClosed | EnqueuersGone | IncomingClosed | Returned(started: bool)

  datatype SchedulerPc = Selecting | Placing(req: Req) | Gone

  datatype WorkerPc = Idle | Executing(req: Req) | Delivered(req: Req) | Left

  /** A channel of requests. */
  datatype Channel = Channel(items: seq<Req>, open: bool)

  /** The callers' side: the calls of Enqueue, the wait group that counts them, and Stop. */
  datatype Front = Front(calls: map<Req, CallPc>, enqueuers: int, stop: StopPc, stopped: bool, doneClosed: bool)

  /** The scheduler's own variables; `watching` is false once its incoming queue variable is nil. */
  datatype Scheduler = Scheduler(pc: SchedulerPc, watching: bool, pending: int, waiting: seq<Req>)

  /** The one-slot result channels, and every delivery ever made. */
  datatype Results = Results(slots: map<Req, Value>, log: seq<(Req, Value)>)

  datatype State = State(
    front: Front,
    started: bool,
    incoming: Channel,
    ready: Channel,
    complete: seq<Req>,
    scheduler: Scheduler,
    workers: seq<WorkerPc>,
    results: Results,
    finished: seq<Req>,
    panicked: bool)

  datatype CallStep = Call | Send | Refuse | Leave
  datatype StopStep = SetFlag | CloseDone | AwaitEnqueuers | CloseIncoming | AwaitGoroutines
  datatype SchedulerStep = Receive | SeeClosed | Place | Forward | Complete | Exit
  datatype WorkerStep = Take | Deliver | Report | Quit

  datatype Action =
    | Start
    | Caller(r: Req, call: CallStep)
    | Stopper(stop: StopStep)
    | Schedule(step: SchedulerStep)
    | Work(w: nat, work: WorkerStep)
    | Collect(r: Req)

  /** A dispatcher nobody has called yet; `reqs` are the requests that callers may pass to Enqueue. */
  function Init(c: Config, reqs: set<Req>): State {
    State(Front(map r | r in reqs :: NotCalled, 0, NotStopping, false, false), false,
          Channel([], true), Channel([], true), [], Scheduler(Selecting, true, 0, []),
          seq(c.workers, _ => Idle), Results(map[], []), [], false)
  }

  /** The scheduler returns at the head of its loop. */
  predicate Drained(d: Scheduler) {
    !d.watching && d.pending == 0 && d.waiting == []
  }

  /** No goroutine is left to wait for. */
  predicate NoGoroutines(s: State) {
    !s.started || (s.scheduler.pc.Gone? && forall w | 0 <= w < |s.workers| :: s.workers[w].Left?)
  }

  predicate CallAt(f: Front, r: Req, pc: CallPc) {
    r in f.calls && f.calls[r] == pc
  }

  // Enqueue. A send on a closed channel can happen: it panics.

  predicate CallerEnabled(c: Config, s: State, r: Req, a: CallStep) {
    match a
    case Call => CallAt(s.front, r, NotCalled)
    case Send => CallAt(s.front, r, Registered) && (|s.incoming.items| < c.queueSize || !s.incoming.open)
    case Refuse => CallAt(s.front, r, Registered) && s.front.doneClosed
    case Leave => CallAt(s.front, r, Sent) || CallAt(s.front, r, Refused)
  }

  function CallerNext(c: Config, s: State, r: Req, a: CallStep): State
    requires CallerEnabled(c, s, r, a)
  {
    var f := s.front;
    match a
    case Call =>
      if !c.usable(r) || r in s.results.slots || f.stopped then s.(front := f.(calls := f.calls[r := ReturnedErr]))
      else s.(front := f.(calls := f.calls[r := Registered], enqueuers := f.enqueuers + 1))
    case Send =>
      if !s.incoming.open then s.(panicked := true)
      else s.(front := f.(calls := f.calls[r := Sent]), incoming := s.incoming.(items := s.incoming.items + [r]))
    case Refuse => s.(front := f.(calls := f.calls[r := Refused]))
    case Leave =>
      s.(front := f.(calls := f.calls[r := if f.calls[r].Sent? then ReturnedNil else ReturnedErr], enqueuers := f.enqueuers - 1))
  }

  // Stop.

  predicate StopperEnabled(s: State, a: StopStep) {
    match a
    case SetFlag => s.front.stop.NotStopping?
    case CloseDone => s.front.stop.FlagSet?
    case AwaitEnqueuers => s.front.stop.DoneClosed? && s.front.enqueuers == 0
    case CloseIncoming => s.front.stop.EnqueuersGone?
    case AwaitGoroutines => s.front.stop.IncomingClosed? && NoGoroutines(s)
  }

  function StopperNext(s: State, a: StopStep): State
    requires StopperEnabled(s, a)
  {
    var f := s.front;
    match a
    case SetFlag => s.(front := f.(stop := FlagSet, stopped := true))
    case CloseDone => if f.doneClosed then s.(panicked := true) else s.(front := f.(stop := DoneClosed, doneClosed := true))
    case AwaitEnqueuers => s.(front := f.(stop := EnqueuersGone))
    case CloseIncoming =>
      if !s.incoming.open then s.(panicked := true)
      else s.(front := f.(stop := IncomingClosed), incoming := s.incoming.(open := false))
    case AwaitGoroutines => s.(front := f.(stop := Returned(s.started)))
  }

  // The scheduler loop.

  predicate SchedulerEnabled(c: Config, s: State, a: SchedulerStep) {
    var d := s.scheduler;
    var accepting := d.pc.Selecting? && !Drained(d) && d.watching && |d.waiting| < c.queueSize;
    && s.started
    && match a
       case Receive => accepting && s.incoming.items != []
       case SeeClosed => accepting && s.incoming.items == [] && !s.incoming.open
       case Place => d.pc.Placing?
       case Forward => d.pc.Selecting? && !Drained(d) && d.waiting != [] && (|s.ready.items| < c.queueSize || !s.ready.open)
       case Complete => d.pc.Selecting? && !Drained(d) && s.complete != []
       case Exit => d.pc.Selecting? && Drained(d)
  }

  function SchedulerNext(c: Config, s: State, a: SchedulerStep): State
    requires SchedulerEnabled(c, s, a)
  {
    var d := s.scheduler;
    match a
    case Receive =>
      s.(incoming := s.incoming.(items := s.incoming.items[1..]),
         scheduler := d.(pending := d.pending + 1, pc := Placing(s.incoming.items[0])))
    case SeeClosed => s.(scheduler := d.(watching := false))
    case Place =>
      if !s.ready.open then s.(panicked := true)
      else if |s.ready.items| < c.queueSize then
        s.(ready := s.ready.(items := s.ready.items + [d.pc.req]), scheduler := d.(pc := Selecting))
      else s.(scheduler := d.(pc := Selecting, waiting := d.waiting + [d.pc.req]))
    case Forward =>
      if !s.ready.open then s.(panicked := true)
      else s.(ready := s.ready.(items := s.ready.items + [d.waiting[0]]), scheduler := d.(waiting := d.waiting[1..]))
    case Complete =>
      s.(complete := s.complete[1..], finished := s.finished + [s.complete[0]],
         scheduler := d.(pending := if d.pending > 0 then d.pending - 1 else d.pending))
    case Exit =>
      if !s.ready.open then s.(panicked := true)
      else s.(ready := s.ready.(open := false), scheduler := d.(pc := Gone))
  }

  // The worker loops.

  predicate WorkerEnabled(c: Config, s: State, w: nat, a: WorkerStep) {
    s.started && w < |s.workers| &&
    var pc := s.workers[w];
    match a
    case Take => pc.Idle? && s.ready.items != []
    case Deliver => pc.Executing? && pc.req !in s.results.slots
    case Report => pc.Delivered? && |s.complete| < c.queueSize
    case Quit => pc.Idle? && s.ready.items == [] && !s.ready.open
  }

  function WorkerNext(c: Config, s: State, w: nat, a: WorkerStep): State
    requires WorkerEnabled(c, s, w, a)
  {
    var pc := s.workers[w];
    match a
    case Take =>
      s.(ready := s.ready.(items := s.ready.items[1..]), workers := s.workers[w := Executing(s.ready.items[0])])
    case Deliver =>
      s.(results := Results(s.results.slots[pc.req := c.exec(pc.req)], s.results.log + [(pc.req, c.exec(pc.req))]),
         workers := s.workers[w := Delivered(pc.req)])
    case Report => s.(complete := s.complete + [pc.req], workers := s.workers[w := Idle])
    case Quit => s.(workers := s.workers[w := Left])
  }

  /** The action can happen in the state. */
  predicate Enabled(c: Config, s: State, a: Action) {
    !s.panicked &&
    match a
    case Start => !s.started
    case Caller(r, x) => CallerEnabled(c, s, r, x)
    case Stopper(x) => StopperEnabled(s, x)
    case Schedule(x) => SchedulerEnabled(c, s, x)
    case Work(w, x) => WorkerEnabled(c, s, w, x)
    case Collect(r) => r in s.results.slots
  }

  function Next(c: Config, s: State, a: Action): State
    requires Enabled(c, s, a)
  {
    match a
    case Start => s.(started := true)
    case Caller(r, x) => CallerNext(c, s, r, x)
    case Stopper(x) => StopperNext(s, x)
    case Schedule(x) => SchedulerNext(c, s, x)
    case Work(w, x) => WorkerNext(c, s, w, x)
    case Collect(r) => s.(results := s.results.(slots := s.results.slots - {r}))
  }

  /** `t` is reached from `s` by the actions `run`. */
  predicate Reaches(c: Config, s: State, run: seq<Action>, t: State)
    decreases |run|
  {
    if run == [] then s == t
    else Enabled(c, s, run[0]) && Reaches(c, Next(c, s, run[0]), run[1..], t)
  }

  // Where requests are.

  predicate Holds(w: WorkerPc, r: Req) {
    w == Executing(r) || w == Delivered(r)
  }

  predicate IsBusy(w: WorkerPc) {
    w.Executing? || w.Delivered?
  }

  /** How many workers hold a request, hold it with its result delivered, hold any request. */
  function Held(ws: seq<WorkerPc>, r: Req): int {
    if ws == [] then 0 else One(Holds(ws[0], r)) + Held(ws[1..], r)
  }

  function HeldDelivered(ws: seq<WorkerPc>, r: Req): int {
    if ws == [] then 0 else One(ws[0] == Delivered(r)) + HeldDelivered(ws[1..], r)
  }

  function Busy(ws: seq<WorkerPc>): int {
    if ws == [] then 0 else One(IsBusy(ws[0])) + Busy(ws[1..])
  }

  /** How often a result was delivered to a request. */
  function Deliveries(log: seq<(Req, Value)>, r: Req): int {
    if log == [] then 0 else One(log[0].0 == r) + Deliveries(log[1..], r)
  }

  /** In how many places of the dispatcher a request is. */
  function Places(s: State, r: Req): int {
    Occurs(s.incoming.items, r) + One(s.scheduler.pc == Placing(r)) + Occurs(s.scheduler.waiting, r)
    + Occurs(s.ready.items, r) + Held(s.workers, r) + Occurs(s.complete, r) + Occurs(s.finished, r)
  }

  /** The call that passed the request on has succeeded, or is about to return success. */
  predicate Accepted(f: Front, r: Req) {
    CallAt(f, r, Sent) || CallAt(f, r, ReturnedNil)
  }

  predicate IsActive(pc: CallPc) {
    pc.Registered? || pc.Sent? || pc.Refused?
  }

  /** The calls registered in the wait group. */
  function ActiveCalls(calls: map<Req, CallPc>): set<Req> {
    set r | r in calls && IsActive(calls[r])
  }

  lemma {:induction false} DeliveriesSnoc(log: seq<(Req, Value)>, x: Req, v: Value, r: Req)
    ensures Deliveries(log + [(x, v)], r) == Deliveries(log, r) + One(x == r)
  {
    if log != [] {
      DeliveriesSnoc(log[1..], x, v, r);
      assert (log + [(x, v)])[1..] == log[1..] + [(x, v)];
    } else {
      assert log + [(x, v)] == [(x, v)];
    }
  }

  lemma {:induction false} HeldUpdate(ws: seq<WorkerPc>, w: nat, x: WorkerPc, r: Req)
    requires w < |ws|
    ensures Held(ws[w := x], r) == Held(ws, r) - One(Holds(ws[w], r)) + One(Holds(x, r))
    ensures HeldDelivered(ws[w := x], r) == HeldDelivered(ws, r) - One(ws[w] == Delivered(r)) + One(x == Delivered(r))
  {
    hide Holds;
    if w == 0 {
      assert ws[w := x][1..] == ws[1..];
    } else {
      HeldUpdate(ws[1..], w - 1, x, r);
      assert ws[w := x][1..] == ws[1..][w - 1 := x];
    }
  }

  lemma {:induction false} BusyUpdate(ws: seq<WorkerPc>, w: nat, x: WorkerPc)
    requires w < |ws|
    ensures Busy(ws[w := x]) == Busy(ws) - One(IsBusy(ws[w])) + One(IsBusy(x))
  {
    hide IsBusy;
    if w == 0 {
      assert ws[w := x][1..] == ws[1..];
    } else {
      BusyUpdate(ws[1..], w - 1, x);
      assert ws[w := x][1..] == ws[1..][w - 1 := x];
    }
  }
}
