/** The Session type of internal/session/session.go with its fields updated in place. A method carries one of
    the session's goroutines one atomic step further; which one moves, which ready case a select takes, and
    what the connection, the pool and the dispatcher answer, is the caller's choice. */
module Session {
  import opened Counting
  import opened SessionModel
  import opened SessionProofs
  import opened SessionTheorems

  class Session {
    const config: Config
    var responses: seq<Response>
    var inflight: int
    var stopFlag: bool
    var stopChClosed: bool
    var closed: bool
    // The goroutines: their local variables and program counters.
    var reader: ReaderPc
    var nextScope: nat
    var forwarders: seq<Forwarder>
    var writer: WriterPc
    var batch: seq<Response>
    // What left the session, and what has passed through it.
    var output: seq<Response>
    var released: seq<Scope>
    var returned: seq<Scope>
    ghost var flushed: nat
    ghost var accepted: seq<Response>
    ghost var taken: seq<Response>
    ghost var dropped: seq<Scope>

    ghost function View(): State
      reads this
    {
      State(reader, inflight, nextScope, forwarders, responses, accepted,
            Writer(writer, batch, taken, output, flushed, released), StopState(stopFlag, stopChClosed, closed),
            returned, dropped)
    }

    ghost predicate Valid()
      reads this
    {
      Inv(config, View())
    }

    constructor (c: Config)
      requires c.Valid()
      ensures config == c && View() == Init(c) && Valid()
    {
      config := c;
      responses, inflight, stopFlag, stopChClosed, closed := [], 0, false, false, false;
      reader := if c.readable then AtTop else Ending;
      nextScope, forwarders := 0, [];
      writer := if c.writable then Top else Ended(false);
      batch, output, released, returned := [], [], [], [];
      flushed, accepted, taken, dropped := 0, [], [], [];
      new;
      InitInv(c);
    }

    function MustStop(): bool
      reads this
    {
      stopFlag || closed
    }

    /** A step of readLoop, of waitForInflightSlot in it, or of the StopGracefully after it. */
    method StepReader(want: ReaderStep) returns (moved: bool)
      requires Valid()
      modifies this
      ensures Valid() && moved == ReaderEnabled(old(View()), want)
      ensures View() == if moved then ReaderNext(config, old(View()), want) else old(View())
    {
      moved := ReaderCanStep(want);
      if !moved {
        return;
      }
      ReaderKeeps(config, View(), want);
      hide Inv;
      if reader.AtTop? || reader.Gate? || reader.Gauge? || reader.Asleep? {
        StepGate(want);
      } else if reader.NeedScope? || reader.Reading? || reader.Read? {
        StepRequest(want);
      } else {
        StepReturn(want);
      }
    }

    method ReaderCanStep(want: ReaderStep) returns (can: bool)
      ensures can == ReaderEnabled(View(), want)
    {
      can := match want
        case Check => reader.AtTop?
        case CheckGate => reader.Gate?
        case Measure => reader.Gauge?
        case Wake => reader.Asleep? && stopChClosed
        case Tick => reader.Asleep?
        case Allocate => reader.NeedScope?
        case NoScope => reader.NeedScope?
        case ReadOk(_) => reader.Reading?
        case ReadFail => reader.Reading?
        case Count => reader.Read?
        case SubmitOk => reader.Submitting?
        case SubmitErr => reader.Submitting?
        case Uncount => reader.Uncounting?
        case GiveBack => reader.GivingBack?
        case SetFlag => reader.Ending?
        case CloseCh => reader.Closing?;
    }

    /** The check at the head of the loop, and waitForInflightSlot. */
    method StepGate(want: ReaderStep)
      requires ReaderEnabled(View(), want) && (reader.AtTop? || reader.Gate? || reader.Gauge? || reader.Asleep?)
      modifies this`reader
      ensures View() == ReaderNext(config, old(View()), want)
    {
      match reader
      case AtTop =>
        reader := if MustStop() then Ending else Gate;
      case Gate =>
        reader := if MustStop() then Ending else Gauge;
      case Gauge =>
        reader := if inflight < config.maxInFlight then NeedScope else Asleep;
      case Asleep =>
        reader := if want == Wake then Ending else Gate;
    }

    /** A scope, a request, and the counter. */
    method StepRequest(want: ReaderStep)
      requires ReaderEnabled(View(), want) && (reader.NeedScope? || reader.Reading? || reader.Read?)
      modifies this`reader, this`nextScope, this`inflight
      ensures View() == ReaderNext(config, old(View()), want)
    {
      match reader
      case NeedScope =>
        if want == NoScope {
          reader := Ending;
        } else {
          reader := Reading(nextScope);
          nextScope := nextScope + 1;
        }
      case Reading(scope) =>
        reader := if want == ReadFail then GivingBack(scope) else Read(want.req, scope);
      case Read(req, scope) =>
        inflight := inflight + 1;
        reader := Submitting(req, scope);
    }

    /** What follows the submitter's return, and the end of the loop. */
    method StepReturn(want: ReaderStep)
      requires ReaderEnabled(View(), want)
      requires reader.Submitting? || reader.Uncounting? || reader.GivingBack? || reader.Ending? || reader.Closing?
      modifies this`reader, this`forwarders, this`inflight, this`returned, this`stopFlag, this`stopChClosed
      ensures View() == ReaderNext(config, old(View()), want)
    {
      match reader
      case Submitting(req, scope) =>
        if want == SubmitOk {
          forwarders := forwarders + [Forwarder(req, scope, Awaiting)];
          reader := AtTop;
        } else {
          reader := Uncounting(scope);
        }
      case Uncounting(scope) =>
        inflight := inflight - 1;
        reader := GivingBack(scope);
      case GivingBack(scope) =>
        returned := returned + [scope];
        reader := Ending;
      case Ending =>
        stopFlag := true;
        reader := Closing;
      case Closing =>
        stopChClosed := true;
        reader := Gone;
    }

    /** A step of the goroutine that UseDispatcher starts for a request, of HandleResponse or of
        decrementInflight in it. */
    method StepForwarder(k: nat, want: ForwarderStep) returns (moved: bool)
      requires Valid()
      modifies this
      ensures Valid() && moved == ForwarderEnabled(config, old(View()), k, want)
      ensures View() == if moved then ForwarderNext(config, old(View()), k, want) else old(View())
    {
      if k >= |forwarders| {
        return false;
      }
      ForwarderSafe(config, View(), k, want);
      hide Inv;
      var f := forwarders[k];
      match f.pc
      case Awaiting =>
        moved := want.Receive? && want.value == config.exec(f.req);
        if moved {
          forwarders := forwarders[k := f.(pc := Holding(want.value))];
        }
      case Holding(value) =>
        moved := want == CheckStop;
        if moved {
          CheckResponse(k);
        }
      case Offering(value) =>
        moved := OfferResponse(k, want);
      case Finished(_) =>
        moved := false;
      case _ =>
        moved := LowerCounter(k, want);
    }

    /** The loop of decrementInflight: load, then compare and swap. */
    method LowerCounter(k: nat, want: ForwarderStep) returns (moved: bool)
      requires k < |forwarders| && (forwarders[k].pc.Lowering? || forwarders[k].pc.Swapping?)
      modifies this`forwarders, this`inflight
      ensures moved == ForwarderEnabled(config, old(View()), k, want)
      ensures View() == if moved then ForwarderNext(config, old(View()), k, want) else old(View())
    {
      var f := forwarders[k];
      match f.pc
      case Lowering(sent) =>
        moved := want == Load;
        if moved {
          forwarders := forwarders[k := f.(pc := if inflight <= 0 then Finished(sent) else Swapping(sent, inflight))];
        }
      case Swapping(sent, current) =>
        moved := want == Swap;
        if moved {
          if inflight == current {
            inflight := current - 1;
            forwarders := forwarders[k := f.(pc := Finished(sent))];
          } else {
            forwarders := forwarders[k := f.(pc := Lowering(sent))];
          }
        }
    }

    /** The check at the head of HandleResponse. */
    method CheckResponse(k: nat)
      requires k < |forwarders| && forwarders[k].pc.Holding?
      modifies this`forwarders, this`dropped
      ensures View() == ForwarderNext(config, old(View()), k, CheckStop)
    {
      var f := forwarders[k];
      if MustStop() {
        dropped := dropped + [f.scope];
        forwarders := forwarders[k := f.(pc := Lowering(false))];
      } else {
        forwarders := forwarders[k := f.(pc := Offering(f.pc.value))];
      }
    }

    /** The select of HandleResponse. */
    method OfferResponse(k: nat, want: ForwarderStep) returns (moved: bool)
      requires k < |forwarders| && forwarders[k].pc.Offering?
      modifies this`forwarders, this`responses, this`accepted, this`dropped
      ensures moved == ForwarderEnabled(config, old(View()), k, want)
      ensures View() == if moved then ForwarderNext(config, old(View()), k, want) else old(View())
    {
      var f := forwarders[k];
      if want == Accept && |responses| < ResponseQueueSize {
        var queued := Response(f.pc.value, f.scope);
        responses := responses + [queued];
        accepted := accepted + [queued];
        forwarders := forwarders[k := f.(pc := Lowering(true))];
        return true;
      }
      moved := want == Refuse && stopChClosed;
      if moved {
        dropped := dropped + [f.scope];
        forwarders := forwarders[k := f.(pc := Lowering(false))];
      }
    }

    /** A step of writeLoop. */
    method StepWriter(want: WriterStep) returns (moved: bool)
      requires Valid()
      modifies this
      ensures Valid() && moved == WriterEnabled(old(View()), want)
      ensures View() == if moved then WriterNext(old(View()), want) else old(View())
    {
      assert writer.Writing? ==> batch != [];
      moved := WriterCanStep(want);
      if !moved {
        return;
      }
      WriterKeeps(config, View(), want);
      hide Inv;
      match want
      case Pass => writer := Selecting;
      case Take => Dequeue(want);
      case More => Dequeue(want);
      case WriteOk => WriteLast();
      case WriteFail => writer := Releasing(true);
      case Enough => writer := Flushing;
      case FlushOk => Flushed();
      case FlushFail => writer := Releasing(true);
      case Release => ReleaseBatch();
      case Exit => writer := Ended(false);
    }

    method WriterCanStep(want: WriterStep) returns (can: bool)
      requires writer.Writing? ==> batch != []
      ensures can == WriterEnabled(View(), want)
    {
      can := match want
        case Pass => writer.Top? && !(stopChClosed && |responses| == 0)
        case Take => writer.Selecting? && |responses| > 0
        case WriteOk => writer.Writing?
        case WriteFail => writer.Writing?
        case More => writer.Draining? && |responses| > 0
        case Enough => writer.Draining? && |responses| == 0
        case FlushOk => writer.Flushing?
        case FlushFail => writer.Flushing?
        case Release => writer.Releasing?
        case Exit => (writer.Top? || writer.Selecting?) && stopChClosed && |responses| == 0;
    }

    /** A receive from the response channel: the first of a batch, or one more. */
    method Dequeue(want: WriterStep)
      requires WriterEnabled(View(), want) && (want.Take? || want.More?)
      modifies this`responses, this`taken, this`writer, this`batch
      ensures View() == WriterNext(old(View()), want)
    {
      batch := if want.Take? then [responses[0]] else batch + [responses[0]];
      taken := taken + [responses[0]];
      responses := responses[1..];
      writer := Writing;
    }

    method WriteLast()
      requires WriterEnabled(View(), WriteOk)
      modifies this`output, this`writer
      ensures View() == WriterNext(old(View()), WriteOk)
    {
      output := output + [batch[|batch| - 1]];
      writer := Draining;
    }

    method Flushed()
      requires WriterEnabled(View(), FlushOk)
      modifies this`flushed, this`writer
      ensures View() == WriterNext(old(View()), FlushOk)
    {
      flushed := |taken|;
      writer := Releasing(false);
    }

    /** releaseBatch: every scope of the batch, in order; then the loop goes on or ends. */
    method ReleaseBatch()
      requires WriterEnabled(View(), Release)
      modifies this`released, this`batch, this`writer
      ensures View() == WriterNext(old(View()), Release)
    {
      for i := 0 to |batch|
        modifies this`released
        invariant released == old(released) + Scopes(batch)[..i]
      {
        released := released + [batch[i].scope];
      }
      assert Scopes(batch)[..|batch|] == Scopes(batch);
      batch := [];
      writer := if writer.failed then Ended(true) else Top;
    }

    /** A step of StopGracefully or CloseNow called from outside, or of closeConn. */
    method StepStopper(want: StopStep) returns (moved: bool)
      requires Valid()
      modifies this`stopFlag, this`stopChClosed, this`closed
      ensures Valid() && moved == StopperEnabled(old(View()), want)
      ensures View() == if moved then StopperNext(old(View()), want) else old(View())
    {
      moved := want == RaiseFlag || (want == CloseStopCh && stopFlag) || (want == MarkClosed && stopChClosed);
      if !moved {
        return;
      }
      StopperKeeps(config, View(), want);
      hide Inv;
      match want
      case RaiseFlag => stopFlag := true;
      case CloseStopCh => stopChClosed := true;
      case MarkClosed => closed := true;
    }

    method Step(a: Action) returns (moved: bool)
      requires Valid()
      modifies this
      ensures Valid() && moved == Enabled(config, old(View()), a)
      ensures View() == if moved then Next(config, old(View()), a) else old(View())
    {
      hide Inv, ReaderNext, ForwarderNext, WriterNext, StopperNext;
      match a
      case ReadLoop(x) => moved := StepReader(x);
      case Forward(k, x) => moved := StepForwarder(k, x);
      case WriteLoop(x) => moved := StepWriter(x);
      case Stopper(x) => moved := StepStopper(x);
    }

    /** Any schedule: the goroutines move in the given order, and those that cannot wait. Whatever it was: the
        in-flight counter and the queue stay within their limits; the scopes released are those of the first
        responses taken, and none is released or given back twice; a write loop that ended well has flushed all
        it wrote; and with one request in flight, the output is the results of the first requests in order. */
    method Run(schedule: seq<Action>) returns (ghost run: seq<Action>)
      requires Valid()
      modifies this
      ensures Valid() && Reaches(config, old(View()), run, View())
      ensures 0 <= inflight <= config.maxInFlight && |responses| <= ResponseQueueSize
      ensures output <= accepted && released <= Scopes(taken)
      ensures forall x :: Occurs(released, x) + Occurs(returned, x) <= 1
      ensures writer == Ended(false) ==> flushed == |output| && released == Scopes(output)
      ensures config.maxInFlight == 1 ==> output <= Answers(config, forwarders)
    {
      run := [];
      for i := 0 to |schedule|
        invariant Valid() && Reaches(config, old(View()), run, View())
      {
        ghost var s := View();
        var moved := Step(schedule[i]);
        if moved {
          ReachesSnoc(config, old(View()), run, s, schedule[i]);
          run := run + [schedule[i]];
        }
      }
      RunMeans(config, View());
    }
  }

  lemma RunMeans(c: Config, s: State)
    requires Inv(c, s)
    ensures 0 <= s.inflight <= c.maxInFlight && |s.queue| <= ResponseQueueSize
    ensures s.writer.written <= s.accepted && s.writer.released <= Scopes(s.writer.taken)
    ensures forall x :: Occurs(s.writer.released, x) + Occurs(s.returned, x) <= 1
    ensures s.writer.pc == Ended(false) ==>
              s.writer.flushed == |s.writer.written| && s.writer.released == Scopes(s.writer.written)
    ensures c.maxInFlight == 1 ==> s.writer.written <= Answers(c, s.forwarders)
  {
    LiveNat(s.forwarders);
    WrittenConserved(s);
    if c.maxInFlight == 1 {
      SerialAnswers(c, s);
    }
    ReleasedInOrder(s);
    hide Gated, StopOrder, Genuine, Serial, Written;
    forall x
      ensures Occurs(s.writer.released, x) + Occurs(s.returned, x) <= 1
    {
      ScopeOnce(s, x);
    }
  }

  lemma ForwarderSafe(c: Config, s: State, k: nat, a: ForwarderStep)
    requires Inv(c, s)
    ensures ForwarderEnabled(c, s, k, a) ==> Inv(c, ForwarderNext(c, s, k, a))
  {
    if ForwarderEnabled(c, s, k, a) {
      ForwarderKeeps(c, s, k, a);
    }
  }

  lemma {:induction false} ReachesSnoc(c: Config, s: State, run: seq<Action>, t: State, a: Action)
    requires Reaches(c, s, run, t) && Enabled(c, t, a)
    ensures Reaches(c, s, run + [a], Next(c, t, a))
    decreases |run|
  {
    hide Enabled, Next;
    if run == [] {
      assert [a][1..] == [];
    } else {
      ReachesSnoc(c, Next(c, s, run[0]), run[1..], t, a);
      assert (run + [a])[1..] == run[1..] + [a];
    }
  }
}
