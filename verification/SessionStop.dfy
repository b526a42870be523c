/** What ends a session's goroutines: once the stop channel is closed, or the read loop is on its way out, every run
    is finite. */
module SessionStop {
  import opened Counting
  import opened SessionModel
  import opened SessionProofs
  import opened SessionTheorems

  // How much is left to do, apart from the retries of decrementInflight. A queued response is worth what the
  // write loop spends on it.

  function ReaderWeight(pc: ReaderPc): nat {
    match pc
    case Gone => 0
    case Closing => 1
    case Ending => 2
    case GivingBack(_) => 3
    case AtTop => 3
    case Gate => 3
    case Asleep => 4
    case Uncounting(_) => 4
    case Submitting(_, _) => 15
    case Read(_, _) => 16
    case Reading(_) => 17
    case NeedScope => 18
    case Gauge => 19
  }

  function ForwarderWeight(pc: ForwarderPc): nat {
    match pc
    case Finished(_) => 0
    case Lowering(_) => 1
    case Swapping(_, _) => 1
    case Offering(_) => 9
    case Holding(_) => 10
    case Awaiting => 11
  }

  function WriterWeight(pc: WriterPc): nat {
    match pc
    case Ended(_) => 0
    case Selecting => 1
    case Top => 2
    case Releasing(_) => 3
    case Flushing => 4
    case Draining => 5
    case Writing => 6
  }

  function ForwardersWeight(fs: seq<Forwarder>): nat {
    if fs == [] then 0 else ForwarderWeight(fs[0].pc) + ForwardersWeight(fs[1..])
  }

  function Work(s: State): nat {
    ReaderWeight(s.reader) + ForwardersWeight(s.forwarders) + 7 * |s.queue| + WriterWeight(s.writer.pc)
  }

  /** Steps that decrementInflight makes before the counter changes next. */
  function Retry(pc: ForwarderPc, inflight: int): nat {
    match pc
    case Lowering(_) => 1
    case Swapping(_, current) => if current == inflight then 0 else 2
    case _ => 0
  }

  function Retries(fs: seq<Forwarder>, inflight: int): nat {
    if fs == [] then 0 else Retry(fs[0].pc, inflight) + Retries(fs[1..], inflight)
  }

  /** The read loop may still submit a request after the stop. */
  predicate MaySubmit(pc: ReaderPc) {
    pc.Gauge? || pc.NeedScope? || pc.Reading? || pc.Read? || pc.Submitting?
  }

  /** How many forwarders there can be at most. */
  function Room(s: State): nat {
    |s.forwarders| + One(MaySubmit(s.reader))
  }

  lemma {:induction false} ForwardersWeightUpdate(fs: seq<Forwarder>, k: nat, f: Forwarder, inflight: int)
    requires k < |fs|
    ensures ForwardersWeight(fs[k := f]) == ForwardersWeight(fs) - ForwarderWeight(fs[k].pc) + ForwarderWeight(f.pc)
    ensures Retries(fs[k := f], inflight) == Retries(fs, inflight) - Retry(fs[k].pc, inflight) + Retry(f.pc, inflight)
  {
    hide ForwarderWeight, Retry;
    if k == 0 {
      assert fs[k := f][1..] == fs[1..];
    } else {
      ForwardersWeightUpdate(fs[1..], k - 1, f, inflight);
      assert fs[k := f][1..] == fs[1..][k - 1 := f];
    }
  }

  lemma {:induction false} ForwardersWeightSnoc(fs: seq<Forwarder>, f: Forwarder)
    ensures ForwardersWeight(fs + [f]) == ForwardersWeight(fs) + ForwarderWeight(f.pc)
  {
    hide ForwarderWeight;
    if fs == [] {
      assert fs + [f] == [f] && [f][1..] == [];
    } else {
      ForwardersWeightSnoc(fs[1..], f);
      assert (fs + [f])[1..] == fs[1..] + [f];
    }
  }

  lemma {:induction false} RetriesBound(fs: seq<Forwarder>, inflight: int)
    ensures Retries(fs, inflight) <= 2 * |fs|
  {
    if fs != [] {
      RetriesBound(fs[1..], inflight);
    }
  }

  /** One state is nearer to the end than another. */
  predicate Nearer(t: State, s: State) {
    Work(t) < Work(s) || (Work(t) == Work(s) && Retries(t.forwarders, t.inflight) < Retries(s.forwarders, s.inflight))
  }

  /** The read loop is behind its loop, or about to leave it. */
  predicate Leaving(pc: ReaderPc) {
    pc.Uncounting? || pc.GivingBack? || pc.Ending? || pc.Closing? || pc.Gone?
  }

  /** The session is being stopped, or its read loop has met an error. */
  predicate Winding(s: State) {
    s.stop.chClosed || Leaving(s.reader)
  }

  lemma ReaderNearer(c: Config, s: State, a: ReaderStep)
    requires Winding(s) && (s.stop.chClosed ==> s.stop.flag) && ReaderEnabled(s, a)
    ensures Nearer(ReaderNext(c, s, a), s)
  {
    hide ForwardersWeight, Retries;
    if a.SubmitOk? {
      ForwardersWeightSnoc(s.forwarders, Forwarder(s.reader.req, s.reader.scope, Awaiting));
    }
  }

  lemma ForwarderNearer(c: Config, s: State, k: nat, a: ForwarderStep)
    requires ForwarderEnabled(c, s, k, a) && (a.Load? ==> 0 < s.inflight)
    ensures Nearer(ForwarderNext(c, s, k, a), s)
  {
    hide ForwardersWeight, Retries;
    var t := ForwarderNext(c, s, k, a);
    ForwardersWeightUpdate(s.forwarders, k, t.forwarders[k], s.inflight);
  }

  lemma WriterNearer(s: State, a: WriterStep)
    requires WriterEnabled(s, a)
    ensures Nearer(WriterNext(s, a), s)
  {
    hide ForwardersWeight, Retries;
  }

  predicate IsOwn(a: Action) {
    !a.Stopper?
  }

  /** There is never more room for forwarders, and no way back. */
  lemma RoomKept(c: Config, s: State, a: Action)
    requires Winding(s) && (s.stop.chClosed ==> s.stop.flag) && Enabled(c, s, a)
    ensures Winding(Next(c, s, a)) && Room(Next(c, s, a)) <= Room(s)
  {
  }

  /** Only the session's own goroutines bring it nearer to its end; whoever stops it does not set it back. */
  lemma StepNearer(c: Config, s: State, a: Action)
    requires Inv(c, s) && Winding(s) && Enabled(c, s, a)
    ensures Winding(Next(c, s, a)) && Room(Next(c, s, a)) <= Room(s)
    ensures if IsOwn(a) then Nearer(Next(c, s, a), s)
            else Work(Next(c, s, a)) == Work(s) && Next(c, s, a).forwarders == s.forwarders && Next(c, s, a).inflight == s.inflight
  {
    assert s.stop.chClosed ==> s.stop.flag;
    RoomKept(c, s, a);
    assert a.Forward? ==> Gated(c, s.reader, s.inflight, s.forwarders);
    hide Inv, Gated, Nearer, Room, Work, ReaderNext, WriterNext, ForwarderNext, StopperNext;
    match a
    case ReadLoop(x) => ReaderNearer(c, s, x);
    case Forward(k, x) =>
      ForwarderKeepsGate(c, s, k, x);
      ForwarderNearer(c, s, k, x);
    case WriteLoop(x) => WriterNearer(s, x);
    case Stopper(x) => StopperNeutral(s, x);
  }

  lemma StopperNeutral(s: State, a: StopStep)
    requires StopperEnabled(s, a)
    ensures var t := StopperNext(s, a); Work(t) == Work(s) && t.forwarders == s.forwarders && t.inflight == s.inflight
  {
    hide ForwardersWeight;
  }

  function Times(x: nat, m: nat): nat {
    if x == 0 then 0 else m + Times(x - 1, m)
  }

  lemma {:induction false} TimesLess(x: nat, y: nat, m: nat)
    requires x < y
    ensures Times(x, m) + m <= Times(y, m)
  {
    if x + 1 < y {
      TimesLess(x, y - 1, m);
    }
  }

  /** A bound on the steps left, given that there will never be more than `n` forwarders. */
  function StepsLeft(s: State, n: nat): nat {
    Times(Work(s), 2 * n + 1) + Retries(s.forwarders, s.inflight)
  }

  lemma FewerSteps(s: State, t: State, n: nat)
    requires Nearer(t, s) && |t.forwarders| <= n
    ensures StepsLeft(t, n) < StepsLeft(s, n)
  {
    RetriesBound(t.forwarders, t.inflight);
    hide Work, Retries;
    if Work(t) < Work(s) {
      TimesLess(Work(t), Work(s), 2 * n + 1);
    }
  }

  function OwnSteps(run: seq<Action>): nat {
    if run == [] then 0 else (if IsOwn(run[0]) then 1 else 0) + OwnSteps(run[1..])
  }

  /** From there on, the steps that the session's goroutines make in a run are bounded beforehand. */
  lemma {:induction false} StopsWithin(c: Config, s: State, run: seq<Action>, t: State, n: nat)
    requires Inv(c, s) && Winding(s) && Room(s) <= n && Reaches(c, s, run, t)
    ensures OwnSteps(run) + StepsLeft(t, n) <= StepsLeft(s, n) && Winding(t)
    decreases |run|
  {
    hide Inv, Enabled, Next, Nearer, Work, Retries, Room, Winding;
    if run != [] {
      var u := Next(c, s, run[0]);
      InvStep(c, s, run[0]);
      StepNearer(c, s, run[0]);
      if IsOwn(run[0]) {
        RoomBounds(u);
        FewerSteps(s, u, n);
      }
      hide StepsLeft;
      StopsWithin(c, u, run[1..], t, n);
    }
  }

  lemma RoomBounds(s: State)
    ensures |s.forwarders| <= Room(s)
  {
  }

  lemma AllEnded(c: Config, t: State)
    requires Inv(c, t) && forall a | IsOwn(a) :: !Enabled(c, t, a)
    ensures t.reader.Gone? && t.stop.chClosed && t.writer.pc.Ended?
    ensures forall k | 0 <= k < |t.forwarders| :: t.forwarders[k].pc.Awaiting? || t.forwarders[k].pc.Finished?
  {
    hide ReaderEnabled, WriterEnabled, ForwarderEnabled;
    forall x: ReaderStep
      ensures !ReaderEnabled(t, x)
    {
      assert IsOwn(ReadLoop(x)) && ReaderEnabled(t, x) == Enabled(c, t, ReadLoop(x));
    }
    forall x: WriterStep
      ensures !WriterEnabled(t, x)
    {
      assert IsOwn(WriteLoop(x)) && WriterEnabled(t, x) == Enabled(c, t, WriteLoop(x));
    }
    forall k: nat, x: ForwarderStep
      ensures !ForwarderEnabled(c, t, k, x)
    {
      assert IsOwn(Forward(k, x)) && ForwarderEnabled(c, t, k, x) == Enabled(c, t, Forward(k, x));
    }
    if !t.reader.Gone? {
      var _ := ReaderMoves(t);
    }
    if !t.writer.pc.Ended? {
      WriterMoves(t);
    }
    hide Inv;
    forall k | 0 <= k < |t.forwarders|
      ensures t.forwarders[k].pc.Awaiting? || t.forwarders[k].pc.Finished?
    {
      ForwarderMoves(c, t, k);
    }
  }

  /** Stop returns: whatever happened before the stop channel was closed or the read loop met an error, the
      session's goroutines make a bounded number of steps afterwards; and when none of them has a step left, the
      stop channel is closed, and both loops have ended and so has every forwarder that got its result. */
  lemma SessionEnds(c: Config, before: seq<Action>, s: State, after: seq<Action>, t: State)
    requires c.Valid() && Reaches(c, Init(c), before, s) && Winding(s) && Reaches(c, s, after, t)
    ensures OwnSteps(after) <= StepsLeft(s, Room(s)) && Winding(t)
    ensures (forall a | IsOwn(a) :: !Enabled(c, t, a)) ==>
              t.reader.Gone? && t.stop.chClosed && t.writer.pc.Ended?
              && forall k | 0 <= k < |t.forwarders| :: t.forwarders[k].pc.Awaiting? || t.forwarders[k].pc.Finished?
  {
    InitInv(c);
    InvRun(c, Init(c), before, s);
    InvRun(c, s, after, t);
    StopsWithin(c, s, after, t, Room(s));
    hide Inv, Enabled, StepsLeft;
    if forall a | IsOwn(a) :: !Enabled(c, t, a) {
      AllEnded(c, t);
    }
  }

  /** A step with which the read loop gives up: no scope to be had, a read that failed, a submission that was
      refused, or a stop met while waiting for a slot. */
  predicate GivesUp(a: ReaderStep) {
    a.NoScope? || a.ReadFail? || a.SubmitErr? || a.Wake?
  }

  /** How many steps the read loop makes on its way out. */
  function WayOut(pc: ReaderPc): nat {
    match pc
    case Uncounting(_) => 4
    case GivingBack(_) => 3
    case Ending => 2
    case Closing => 1
    case _ => 0
  }

  function ReadSteps(run: seq<Action>): nat {
    if run == [] then 0 else (if run[0].ReadLoop? then 1 else 0) + ReadSteps(run[1..])
  }

  lemma LeavingStep(c: Config, s: State, a: Action)
    requires Leaving(s.reader) && Enabled(c, s, a)
    ensures var t := Next(c, s, a);
            && Leaving(t.reader) && t.scopes == s.scopes && |t.forwarders| == |s.forwarders|
            && WayOut(t.reader) + (if a.ReadLoop? then 1 else 0) == WayOut(s.reader)
  {
  }

  lemma {:induction false} LeavingRun(c: Config, s: State, run: seq<Action>, t: State)
    requires Leaving(s.reader) && Reaches(c, s, run, t)
    ensures Leaving(t.reader) && t.scopes == s.scopes && |t.forwarders| == |s.forwarders|
    ensures ReadSteps(run) + WayOut(t.reader) == WayOut(s.reader)
    decreases |run|
  {
    hide Enabled, Next;
    if run != [] {
      LeavingStep(c, s, run[0]);
      LeavingRun(c, Next(c, s, run[0]), run[1..], t);
    }
  }

  /** The first error ends the read loop: in every run from then on it allocates no scope and submits no request,
      it makes at most four more steps, and when it has none left it has closed the stop channel. */
  lemma FirstErrorEnds(c: Config, before: seq<Action>, s: State, a: ReaderStep, after: seq<Action>, t: State)
    requires c.Valid() && Reaches(c, Init(c), before, s) && ReaderEnabled(s, a) && GivesUp(a)
    requires Reaches(c, ReaderNext(c, s, a), after, t)
    ensures t.scopes == s.scopes && |t.forwarders| == |s.forwarders| && ReadSteps(after) <= 4
    ensures (forall x :: !ReaderEnabled(t, x)) ==> t.reader.Gone? && t.stop.chClosed
    ensures Winding(ReaderNext(c, s, a))
  {
    InitInv(c);
    InvRun(c, Init(c), before, s);
    var u := ReaderNext(c, s, a);
    assert u == Next(c, s, ReadLoop(a));
    InvStep(c, s, ReadLoop(a));
    InvRun(c, u, after, t);
    assert t.reader.Gone? ==> t.stop.chClosed;
    hide Inv, Reaches;
    LeavingRun(c, u, after, t);
    if !t.reader.Gone? {
      var _ := ReaderMoves(t);
    }
  }

  lemma ReturnedStep(c: Config, s: State, a: Action)
    requires (s.returned != [] ==> WayOut(s.reader) <= 2 && Leaving(s.reader)) && Enabled(c, s, a)
    ensures Next(c, s, a).returned != [] ==> WayOut(Next(c, s, a).reader) <= 2 && Leaving(Next(c, s, a).reader)
  {
  }

  lemma {:induction false} ReturnedRun(c: Config, s: State, run: seq<Action>, t: State)
    requires (s.returned != [] ==> WayOut(s.reader) <= 2 && Leaving(s.reader)) && Reaches(c, s, run, t)
    ensures t.returned != [] ==> WayOut(t.reader) <= 2 && Leaving(t.reader)
    decreases |run|
  {
    hide Enabled, Next;
    if run != [] {
      ReturnedStep(c, s, run[0]);
      ReturnedRun(c, Next(c, s, run[0]), run[1..], t);
    }
  }

  /** In every run the read loop gives back a scope at most once, and is behind its loop from then on. */
  lemma GivesBackLast(c: Config, run: seq<Action>, t: State)
    requires Reaches(c, Init(c), run, t)
    ensures t.returned != [] ==> t.reader.Ending? || t.reader.Closing? || t.reader.Gone?
  {
    ReturnedRun(c, Init(c), run, t);
  }

  lemma {:induction false} EndedRun(c: Config, s: State, run: seq<Action>, t: State)
    requires s.writer.pc.Ended? && Reaches(c, s, run, t)
    ensures t.writer == s.writer
    decreases |run|
  {
    hide Next;
    if run != [] {
      EndedStep(c, s, run[0]);
      EndedRun(c, Next(c, s, run[0]), run[1..], t);
    }
  }

  lemma EndedStep(c: Config, s: State, a: Action)
    requires s.writer.pc.Ended? && Enabled(c, s, a)
    ensures Next(c, s, a).writer == s.writer
  {
  }

  /** A session that was given nothing to read with reads nothing, and one without a writer writes nothing. */
  lemma LoopMissing(c: Config, run: seq<Action>, t: State)
    requires Reaches(c, Init(c), run, t)
    ensures !c.readable ==> t.scopes == 0 && t.forwarders == []
    ensures !c.writable ==> t.writer.taken == [] && t.writer.pc == Ended(false)
  {
    hide Reaches;
    if !c.readable {
      LeavingRun(c, Init(c), run, t);
    }
    if !c.writable {
      EndedRun(c, Init(c), run, t);
    }
  }
}
