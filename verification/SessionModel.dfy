/** The session of internal/session/session.go as a labelled transition system: the read loop, one forwarder
    for each submitted request, the write loop, and whoever stops or closes the session. */
module SessionModel {
  import opened Counting
  import Values

  type Req = nat
  type Scope = nat
  type Value = Values.Value

  const ResponseQueueSize := 16

  /** What the session was set up with; `exec` is what the command of each request returns. */
  datatype Config = Config(maxInFlight: int, exec: Req -> Value, readable: bool, writable: bool) {
    predicate Valid() {
      0 < maxInFlight
    }
  }

  /** SetMaxInFlight on a session that starts with a limit of one. */
  function SetMaxInFlight(c: Config, n: int): (d: Config)
    ensures c.Valid() ==> d.Valid()
    ensures d.exec == c.exec && d.readable == c.readable && d.writable == c.writable
    ensures if 0 < n then d.maxInFlight == n else d.maxInFlight == c.maxInFlight
  {
    if n <= 0 then c else c.(maxInFlight := n)
  }

  datatype Response = Response(value: Value, scope: Scope)

  /** The read loop: `Gate`, `Gauge` and `Asleep` are in waitForInflightSlot, `Ending` and `Closing` in the
      StopGracefully that follows the loop. */
  datatype ReaderPc =
    | AtTop | Gate | Gauge | Asleep
    | NeedScope
    | Reading(scope: Scope)
    | Read(req: Req, scope: Scope)
    | Submitting(req: Req, scope: Scope)
    | Uncounting(scope: Scope)
    | GivingBack(scope: Scope)
    | Ending | Closing | Gone

  /** A forwarder: waiting for the result, before HandleResponse's check, in its select, in the loop of
      decrementInflight, or finished; `sent` tells whether its response was accepted. */
  datatype ForwarderPc =
    | Awaiting
    | Holding(value: Value)
    | Offering(value: Value)
    | Lowering(sent: bool)
    | Swapping(sent: bool, current: int)
    | Finished(sent: bool)

  datatype Forwarder = Forwarder(req: Req, scope: Scope, pc: ForwarderPc)

  datatype WriterPc = Top | Selecting | Writing | Draining | Flushing | Releasing(failed: bool) | Ended(failed: bool)

  /** The write loop: its batch, and the responses it took, wrote, flushed (how many) and whose scopes it
      released so far. */
  datatype Writer = Writer(
    pc: WriterPc, batch: seq<Response>, taken: seq<Response>, written: seq<Response>, flushed: nat, released: seq<Scope>)

  datatype StopState = StopState(flag: bool, chClosed: bool, closed: bool)

  /** `scopes` counts the scopes allocated so far; `accepted` are the responses ever put into the queue;
      `returned` are the scopes the read loop gave back, `dropped` those of refused responses. */
  datatype State = State(
    reader: ReaderPc,
    inflight: int,
    scopes: nat,
    forwarders: seq<Forwarder>,
    queue: seq<Response>,
    accepted: seq<Response>,
    writer: Writer,
    stop: StopState,
    returned: seq<Scope>,
    dropped: seq<Scope>)

  datatype ReaderStep =
    | Check | CheckGate | Measure | Wake | Tick
    | Allocate | NoScope
    | ReadOk(req: Req) | ReadFail
    | Count | SubmitOk | SubmitErr | Uncount | GiveBack
    | SetFlag | CloseCh

  datatype ForwarderStep = Receive(value: Value) | CheckStop | Accept | Refuse | Load | Swap
  datatype WriterStep = Pass | Take | WriteOk | WriteFail | More | Enough | FlushOk | FlushFail | Release | Exit
  datatype StopStep = RaiseFlag | CloseStopCh | MarkClosed

  datatype Action =
    | ReadLoop(read: ReaderStep)
    | Forward(k: nat, forward: ForwarderStep)
    | WriteLoop(write: WriterStep)
    | Stopper(stop: StopStep)

  function Init(c: Config): State {
    State(if c.readable then AtTop else Ending, 0, 0, [], [], [],
          Writer(if c.writable then Top else Ended(false), [], [], [], 0, []), StopState(false, false, false), [], [])
  }

  predicate ShouldStop(s: State) {
    s.stop.flag || s.stop.closed
  }

  // The read loop.

  predicate ReaderEnabled(s: State, a: ReaderStep) {
    match a
    case Check => s.reader.AtTop?
    case CheckGate => s.reader.Gate?
    case Measure => s.reader.Gauge?
    case Wake => s.reader.Asleep? && s.stop.chClosed
    case Tick => s.reader.Asleep?
    case Allocate => s.reader.NeedScope?
    case NoScope => s.reader.NeedScope?
    case ReadOk(_) => s.reader.Reading?
    case ReadFail => s.reader.Reading?
    case Count => s.reader.Read?
    case SubmitOk => s.reader.Submitting?
    case SubmitErr => s.reader.Submitting?
    case Uncount => s.reader.Uncounting?
    case GiveBack => s.reader.GivingBack?
    case SetFlag => s.reader.Ending?
    case CloseCh => s.reader.Closing?
  }

  function ReaderNext(c: Config, s: State, a: ReaderStep): State
    requires ReaderEnabled(s, a)
  {
    match a
    case Check => s.(reader := if ShouldStop(s) then Ending else Gate)
    case CheckGate => s.(reader := if ShouldStop(s) then Ending else Gauge)
    case Measure => s.(reader := if s.inflight < c.maxInFlight then NeedScope else Asleep)
    case Wake => s.(reader := Ending)
    case Tick => s.(reader := Gate)
    case Allocate => s.(reader := Reading(s.scopes), scopes := s.scopes + 1)
    case NoScope => s.(reader := Ending)
    case ReadOk(req) => s.(reader := Read(req, s.reader.scope))
    case ReadFail => s.(reader := GivingBack(s.reader.scope))
    case Count => s.(reader := Submitting(s.reader.req, s.reader.scope), inflight := s.inflight + 1)
    case SubmitOk =>
      s.(reader := AtTop, forwarders := s.forwarders + [Forwarder(s.reader.req, s.reader.scope, Awaiting)])
    case SubmitErr => s.(reader := Uncounting(s.reader.scope))
    case Uncount => s.(reader := GivingBack(s.reader.scope), inflight := s.inflight - 1)
    case GiveBack => s.(reader := Ending, returned := s.returned + [s.reader.scope])
    case SetFlag => s.(reader := Closing, stop := s.stop.(flag := true))
    case CloseCh => s.(reader := Gone, stop := s.stop.(chClosed := true))
  }

  // The forwarders.

  predicate ForwarderEnabled(c: Config, s: State, k: nat, a: ForwarderStep) {
    k < |s.forwarders| &&
    var pc := s.forwarders[k].pc;
    match a
    case Receive(v) => pc.Awaiting? && v == c.exec(s.forwarders[k].req)
    case CheckStop => pc.Holding?
    case Accept => pc.Offering? && |s.queue| < ResponseQueueSize
    case Refuse => pc.Offering? && s.stop.chClosed
    case Load => pc.Lowering?
    case Swap => pc.Swapping?
  }

  function ForwarderNext(c: Config, s: State, k: nat, a: ForwarderStep): State
    requires ForwarderEnabled(c, s, k, a)
  {
    var f := s.forwarders[k];
    match a
    case Receive(v) => s.(forwarders := s.forwarders[k := f.(pc := Holding(v))])
    case CheckStop =>
      if ShouldStop(s) then s.(forwarders := s.forwarders[k := f.(pc := Lowering(false))], dropped := s.dropped + [f.scope])
      else s.(forwarders := s.forwarders[k := f.(pc := Offering(f.pc.value))])
    case Accept =>
      s.(forwarders := s.forwarders[k := f.(pc := Lowering(true))],
         queue := s.queue + [Response(f.pc.value, f.scope)], accepted := s.accepted + [Response(f.pc.value, f.scope)])
    case Refuse => s.(forwarders := s.forwarders[k := f.(pc := Lowering(false))], dropped := s.dropped + [f.scope])
    case Load =>
      if s.inflight <= 0 then s.(forwarders := s.forwarders[k := f.(pc := Finished(f.pc.sent))])
      else s.(forwarders := s.forwarders[k := f.(pc := Swapping(f.pc.sent, s.inflight))])
    case Swap =>
      if s.inflight == f.pc.current
      then s.(forwarders := s.forwarders[k := f.(pc := Finished(f.pc.sent))], inflight := f.pc.current - 1)
      else s.(forwarders := s.forwarders[k := f.(pc := Lowering(f.pc.sent))])
  }

  // The write loop. It alone takes from the queue, so the test of the queue's length and the receive that
  // follows it are one step.

  predicate WriterEnabled(s: State, a: WriterStep) {
    var pc := s.writer.pc;
    match a
    case Pass => pc.Top? && !(s.stop.chClosed && s.queue == [])
    case Take => pc.Selecting? && s.queue != []
    case WriteOk => pc.Writing? && s.writer.batch != []
    case WriteFail => pc.Writing?
    case More => pc.Draining? && s.queue != []
    case Enough => pc.Draining? && s.queue == []
    case FlushOk => pc.Flushing?
    case FlushFail => pc.Flushing?
    case Release => pc.Releasing?
    case Exit => (pc.Top? || pc.Selecting?) && s.stop.chClosed && s.queue == []
  }

  function Scopes(rs: seq<Response>): seq<Scope> {
    seq(|rs|, i requires 0 <= i < |rs| => rs[i].scope)
  }

  function WriterNext(s: State, a: WriterStep): State
    requires WriterEnabled(s, a)
  {
    var w := s.writer;
    match a
    case Pass => s.(writer := w.(pc := Selecting))
    case Take => s.(queue := s.queue[1..], writer := w.(pc := Writing, batch := [s.queue[0]], taken := w.taken + [s.queue[0]]))
    case WriteOk => s.(writer := w.(pc := Draining, written := w.written + [w.batch[|w.batch| - 1]]))
    case WriteFail => s.(writer := w.(pc := Releasing(true)))
    case More =>
      s.(queue := s.queue[1..], writer := w.(pc := Writing, batch := w.batch + [s.queue[0]], taken := w.taken + [s.queue[0]]))
    case Enough => s.(writer := w.(pc := Flushing))
    case FlushOk => s.(writer := w.(pc := Releasing(false), flushed := |w.taken|))
    case FlushFail => s.(writer := w.(pc := Releasing(true)))
    case Release =>
      s.(writer := w.(pc := if w.pc.failed then Ended(true) else Top, batch := [], released := w.released + Scopes(w.batch)))
    case Exit => s.(writer := w.(pc := Ended(false)))
  }

  // StopGracefully and CloseNow from outside, and closeConn.

  predicate StopperEnabled(s: State, a: StopStep) {
    match a
    case RaiseFlag => true
    case CloseStopCh => s.stop.flag
    case MarkClosed => s.stop.chClosed
  }

  function StopperNext(s: State, a: StopStep): State
    requires StopperEnabled(s, a)
  {
    match a
    case RaiseFlag => s.(stop := s.stop.(flag := true))
    case CloseStopCh => s.(stop := s.stop.(chClosed := true))
    case MarkClosed => s.(stop := s.stop.(closed := true))
  }

  predicate Enabled(c: Config, s: State, a: Action) {
    match a
    case ReadLoop(x) => ReaderEnabled(s, x)
    case Forward(k, x) => ForwarderEnabled(c, s, k, x)
    case WriteLoop(x) => WriterEnabled(s, x)
    case Stopper(x) => StopperEnabled(s, x)
  }

  function Next(c: Config, s: State, a: Action): State
    requires Enabled(c, s, a)
  {
    match a
    case ReadLoop(x) => ReaderNext(c, s, x)
    case Forward(k, x) => ForwarderNext(c, s, k, x)
    case WriteLoop(x) => WriterNext(s, x)
    case Stopper(x) => StopperNext(s, x)
  }

  /** `t` is reached from `s` by the actions `run`. */
  predicate Reaches(c: Config, s: State, run: seq<Action>, t: State)
    decreases |run|
  {
    if run == [] then s == t
    else Enabled(c, s, run[0]) && Reaches(c, Next(c, s, run[0]), run[1..], t)
  }

  // Who has what.

  /** The forwarder has not yet taken its request out of the counter. */
  predicate IsLive(f: Forwarder) {
    !f.pc.Finished?
  }

  predicate Carries(f: Forwarder, x: Scope) {
    f.scope == x && (f.pc.Awaiting? || f.pc.Holding? || f.pc.Offering?)
  }

  predicate WasSent(f: Forwarder) {
    match f.pc
    case Lowering(b) => b
    case Swapping(b, _) => b
    case Finished(b) => b
    case _ => false
  }

  predicate WasRefused(f: Forwarder) {
    match f.pc
    case Lowering(b) => !b
    case Swapping(b, _) => !b
    case Finished(b) => !b
    case _ => false
  }

  function Live(fs: seq<Forwarder>): int {
    if fs == [] then 0 else One(IsLive(fs[0])) + Live(fs[1..])
  }

  function Carriers(fs: seq<Forwarder>, x: Scope): int {
    if fs == [] then 0 else One(Carries(fs[0], x)) + Carriers(fs[1..], x)
  }

  function Pending(q: seq<Response>, x: Scope): int {
    if q == [] then 0 else One(q[0].scope == x) + Pending(q[1..], x)
  }

  predicate ReaderHolds(pc: ReaderPc, x: Scope) {
    match pc
    case Reading(y) => x == y
    case Read(_, y) => x == y
    case Submitting(_, y) => x == y
    case Uncounting(y) => x == y
    case GivingBack(y) => x == y
    case _ => false
  }

  /** In how many places a scope is. */
  function Places(s: State, x: Scope): int {
    One(ReaderHolds(s.reader, x)) + Carriers(s.forwarders, x) + Pending(s.queue, x) + Pending(s.writer.batch, x)
    + Occurs(s.writer.released, x) + Occurs(s.returned, x) + Occurs(s.dropped, x)
  }

  /** The response that answers a forwarder's request. */
  function Answer(c: Config, f: Forwarder): Response {
    Response(c.exec(f.req), f.scope)
  }

  function Answers(c: Config, fs: seq<Forwarder>): seq<Response> {
    seq(|fs|, i requires 0 <= i < |fs| => Answer(c, fs[i]))
  }
}
