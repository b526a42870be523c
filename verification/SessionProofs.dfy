/** What every run of a session keeps. */
module SessionProofs {
  import opened Counting
  import opened SessionModel

  /** Every scope allocated so far is in exactly one place, any other nowhere. */
  ghost predicate ScopeAt(s: State, x: Scope) {
    Places(s, x) == One(x < s.scopes)
  }

  ghost predicate Scoped(s: State) {
    forall x :: ScopeAt(s, x)
  }

  /** The read loop is through the gate and has not yet counted its request. */
  predicate Admitted(pc: ReaderPc) {
    pc.NeedScope? || pc.Reading? || pc.Read?
  }

  /** The counter is the number of live forwarders and the read loop's own request, and the gate holds. */
  ghost predicate Gated(c: Config, reader: ReaderPc, inflight: int, fs: seq<Forwarder>) {
    && inflight == Live(fs) + One(reader.Submitting? || reader.Uncounting?)
    && inflight + One(Admitted(reader)) <= c.maxInFlight
  }

  ghost predicate StopOrder(stop: StopState, reader: ReaderPc, fs: seq<Forwarder>) {
    && (stop.chClosed ==> stop.flag)
    && (stop.closed ==> stop.chClosed)
    && (reader.Closing? ==> stop.flag)
    && (reader.Gone? ==> stop.chClosed)
    && forall k | 0 <= k < |fs| :: WasRefused(fs[k]) ==> stop.flag
  }

  /** The batch is the end of what was taken; what came before it has its scopes released. */
  ghost predicate Batched(w: Writer) {
    && |w.batch| <= |w.taken|
    && var n := |w.taken| - |w.batch|;
       w.batch == w.taken[n..] && w.released == Scopes(w.taken[..n])
  }

  /** What was written and flushed, by the place where the write loop is. */
  ghost predicate Progress(w: Writer) {
    && w.written <= w.taken && |w.taken| <= |w.written| + 1 && w.flushed <= |w.written|
    && match w.pc
       case Writing => w.batch != [] && |w.taken| == |w.written| + 1 && w.flushed == |w.taken| - |w.batch|
       case Draining => w.batch != [] && w.taken == w.written && w.flushed == |w.taken| - |w.batch|
       case Flushing => w.batch != [] && w.taken == w.written && w.flushed == |w.taken| - |w.batch|
       case Releasing(failed) =>
         if failed then w.batch != [] && w.flushed == |w.taken| - |w.batch|
         else w.taken == w.written && w.flushed == |w.taken|
       case Ended(failed) => w.batch == [] && (!failed ==> w.taken == w.written && w.flushed == |w.taken|)
       case _ => w.batch == [] && w.taken == w.written && w.flushed == |w.taken|
  }

  ghost predicate Written(w: Writer, queue: seq<Response>, accepted: seq<Response>) {
    && accepted == w.taken + queue && |queue| <= ResponseQueueSize
    && Batched(w) && Progress(w)
  }

  /** A forwarder carries its own request's result, and every accepted response is some forwarder's. */
  ghost predicate Genuine(c: Config, fs: seq<Forwarder>, accepted: seq<Response>) {
    && (forall k | 0 <= k < |fs| :: (fs[k].pc.Holding? || fs[k].pc.Offering?) ==> fs[k].pc.value == c.exec(fs[k].req))
    && (forall i | 0 <= i < |accepted| :: IsAnswer(c, fs, accepted[i]))
  }

  ghost predicate IsAnswer(c: Config, fs: seq<Forwarder>, a: Response) {
    exists k :: 0 <= k < |fs| && AnsweredBy(c, fs[k], a)
  }

  predicate AnsweredBy(c: Config, f: Forwarder, a: Response) {
    WasSent(f) && a == Answer(c, f)
  }

  /** With one request at a time: only the last forwarder is live, no response is sent after one was
      refused, and the accepted ones answer the first requests. */
  ghost predicate Serial(c: Config, fs: seq<Forwarder>, accepted: seq<Response>) {
    && (forall i | 0 <= i < |fs| - 1 :: !IsLive(fs[i]))
    && (forall i, j | 0 <= i < j < |fs| :: WasRefused(fs[i]) ==> !WasSent(fs[j]) && !fs[j].pc.Offering?)
    && |accepted| <= |fs|
    && accepted == Answers(c, fs[..|accepted|])
    && forall i | 0 <= i < |fs| :: WasSent(fs[i]) <==> i < |accepted|
  }

  /** A write loop that has ended well was stopped. */
  predicate EndedStopped(c: Config, pc: WriterPc, stop: StopState) {
    pc == Ended(false) && c.writable ==> stop.chClosed
  }

  ghost predicate Inv(c: Config, s: State) {
    && c.Valid() && Scoped(s) && EndedStopped(c, s.writer.pc, s.stop)
    && Gated(c, s.reader, s.inflight, s.forwarders) && StopOrder(s.stop, s.reader, s.forwarders)
    && Written(s.writer, s.queue, s.accepted)
    && Genuine(c, s.forwarders, s.accepted)
    && (c.maxInFlight == 1 ==> Serial(c, s.forwarders, s.accepted))
  }

  lemma InitInv(c: Config)
    requires c.Valid()
    ensures Inv(c, Init(c))
  {
    var s := Init(c);
    assert Written(s.writer, s.queue, s.accepted);
    hide Written;
    forall x
      ensures ScopeAt(s, x)
    {
    }
  }

  // Counting forwarders and responses.

  lemma {:induction false} LiveNat(fs: seq<Forwarder>)
    ensures 0 <= Live(fs)
    ensures forall k | 0 <= k < |fs| :: IsLive(fs[k]) ==> 0 < Live(fs)
  {
    hide IsLive;
    if fs != [] {
      LiveNat(fs[1..]);
      forall k | 0 <= k < |fs| && IsLive(fs[k])
        ensures 0 < Live(fs)
      {
        assert k == 0 || fs[k] == fs[1..][k - 1];
      }
    }
  }

  lemma {:induction false} ForwardersUpdate(fs: seq<Forwarder>, k: nat, f: Forwarder, x: Scope)
    requires k < |fs|
    ensures Live(fs[k := f]) == Live(fs) - One(IsLive(fs[k])) + One(IsLive(f))
    ensures Carriers(fs[k := f], x) == Carriers(fs, x) - One(Carries(fs[k], x)) + One(Carries(f, x))
  {
    hide IsLive, Carries;
    if k == 0 {
      assert fs[k := f][1..] == fs[1..];
    } else {
      ForwardersUpdate(fs[1..], k - 1, f, x);
      assert fs[k := f][1..] == fs[1..][k - 1 := f];
    }
  }

  lemma {:induction false} ForwardersSnoc(fs: seq<Forwarder>, f: Forwarder, x: Scope)
    ensures Live(fs + [f]) == Live(fs) + One(IsLive(f))
    ensures Carriers(fs + [f], x) == Carriers(fs, x) + One(Carries(f, x))
  {
    hide IsLive, Carries;
    if fs == [] {
      assert fs + [f] == [f] && [f][1..] == [];
    } else {
      ForwardersSnoc(fs[1..], f, x);
      assert (fs + [f])[1..] == fs[1..] + [f];
    }
  }

  lemma {:induction false} PendingSnoc(q: seq<Response>, a: Response, x: Scope)
    ensures Pending(q + [a], x) == Pending(q, x) + One(a.scope == x)
  {
    if q == [] {
      assert q + [a] == [a] && [a][1..] == [];
    } else {
      PendingSnoc(q[1..], a, x);
      assert (q + [a])[1..] == q[1..] + [a];
    }
  }

  lemma PendingTail(q: seq<Response>, x: Scope)
    requires q != []
    ensures Pending(q, x) == One(q[0].scope == x) + Pending(q[1..], x)
  {
  }

  lemma {:induction false} PendingScopes(q: seq<Response>, x: Scope)
    ensures Occurs(Scopes(q), x) == Pending(q, x)
  {
    if q != [] {
      PendingScopes(q[1..], x);
      assert Scopes(q)[1..] == Scopes(q[1..]);
    }
  }

  // Scopes.

  lemma ReaderKeepsScope(c: Config, s: State, a: ReaderStep, x: Scope)
    requires ScopeAt(s, x) && ReaderEnabled(s, a)
    ensures ScopeAt(ReaderNext(c, s, a), x)
  {
    hide Carriers, Pending, Occurs;
    match a
    case SubmitOk => ForwardersSnoc(s.forwarders, Forwarder(s.reader.req, s.reader.scope, Awaiting), x);
    case GiveBack => OccursSnoc(s.returned, s.reader.scope, x);
    case _ =>
  }

  lemma ForwarderKeepsScope(c: Config, s: State, k: nat, a: ForwarderStep, x: Scope)
    requires ScopeAt(s, x) && ForwarderEnabled(c, s, k, a)
    ensures ScopeAt(ForwarderNext(c, s, k, a), x)
  {
    hide Carriers, Pending, Occurs, Live;
    var f := s.forwarders[k];
    var t := ForwarderNext(c, s, k, a);
    ForwardersUpdate(s.forwarders, k, t.forwarders[k], x);
    if t.dropped != s.dropped {
      OccursSnoc(s.dropped, f.scope, x);
    }
    if a.Accept? {
      PendingSnoc(s.queue, Response(f.pc.value, f.scope), x);
    }
  }

  lemma WriterKeepsScope(s: State, a: WriterStep, x: Scope)
    requires ScopeAt(s, x) && WriterEnabled(s, a) && (a.Take? ==> s.writer.batch == [])
    ensures ScopeAt(WriterNext(s, a), x)
  {
    assert Pending([], x) == 0;
    hide Carriers, Pending, Occurs;
    match a
    case Take =>
      PendingTail(s.queue, x);
      PendingSnoc(s.writer.batch, s.queue[0], x);
      assert s.writer.batch + [s.queue[0]] == [s.queue[0]];
    case More =>
      PendingTail(s.queue, x);
      PendingSnoc(s.writer.batch, s.queue[0], x);
    case Release =>
      PendingScopes(s.writer.batch, x);
      OccursAppend(s.writer.released, Scopes(s.writer.batch), x);
    case _ =>
  }

  // The gate.

  lemma ReaderKeepsGate(c: Config, s: State, a: ReaderStep)
    requires Gated(c, s.reader, s.inflight, s.forwarders) && ReaderEnabled(s, a)
    ensures var t := ReaderNext(c, s, a); Gated(c, t.reader, t.inflight, t.forwarders)
  {
    hide Live;
    if a.SubmitOk? {
      ForwardersSnoc(s.forwarders, Forwarder(s.reader.req, s.reader.scope, Awaiting), 0);
    }
  }

  /** In particular decrementInflight never finds a counter that is not positive. */
  lemma ForwarderKeepsGate(c: Config, s: State, k: nat, a: ForwarderStep)
    requires Gated(c, s.reader, s.inflight, s.forwarders) && ForwarderEnabled(c, s, k, a)
    ensures var t := ForwarderNext(c, s, k, a); Gated(c, t.reader, t.inflight, t.forwarders)
    ensures a.Load? ==> 0 < s.inflight
  {
    hide Live;
    LiveNat(s.forwarders);
    ForwardersUpdate(s.forwarders, k, ForwarderNext(c, s, k, a).forwarders[k], 0);
  }

  // Stopping.

  lemma ReaderKeepsStopOrder(c: Config, s: State, a: ReaderStep)
    requires StopOrder(s.stop, s.reader, s.forwarders) && ReaderEnabled(s, a)
    ensures var t := ReaderNext(c, s, a); StopOrder(t.stop, t.reader, t.forwarders)
  {
  }

  lemma ForwarderKeepsStopOrder(c: Config, s: State, k: nat, a: ForwarderStep)
    requires StopOrder(s.stop, s.reader, s.forwarders) && ForwarderEnabled(c, s, k, a)
    ensures var t := ForwarderNext(c, s, k, a); StopOrder(t.stop, t.reader, t.forwarders)
  {
  }

  // The write loop.

  lemma TakenKeepsBatch(w: Writer, v: Writer, a: Response)
    requires Batched(w) && v.batch == w.batch + [a] && v.taken == w.taken + [a] && v.released == w.released
    ensures Batched(v)
  {
    var n := |w.taken| - |w.batch|;
    hide Scopes;
    assert v.taken[..n] == w.taken[..n];
  }

  lemma ReleaseKeepsBatch(w: Writer, v: Writer)
    requires Batched(w) && v.batch == [] && v.taken == w.taken && v.released == w.released + Scopes(w.batch)
    ensures Batched(v)
  {
    var n := |w.taken| - |w.batch|;
    assert w.taken[..|w.taken|] == w.taken == w.taken[..n] + w.batch;
    assert Scopes(w.taken) == Scopes(w.taken[..n]) + Scopes(w.batch);
  }

  lemma WriterKeepsBatch(s: State, a: WriterStep)
    requires Batched(s.writer) && WriterEnabled(s, a) && (a.Take? ==> s.writer.batch == [])
    ensures Batched(WriterNext(s, a).writer)
  {
    match a
    case Take => TakenKeepsBatch(s.writer, WriterNext(s, a).writer, s.queue[0]);
    case More => TakenKeepsBatch(s.writer, WriterNext(s, a).writer, s.queue[0]);
    case Release => ReleaseKeepsBatch(s.writer, WriterNext(s, a).writer);
    case _ => hide Scopes;
  }

  lemma WriterKeepsProgress(s: State, a: WriterStep)
    requires Written(s.writer, s.queue, s.accepted) && WriterEnabled(s, a)
    ensures Progress(WriterNext(s, a).writer)
  {
    hide Scopes;
  }

  lemma WriterKeepsWritten(s: State, a: WriterStep)
    requires Written(s.writer, s.queue, s.accepted) && WriterEnabled(s, a)
    ensures var t := WriterNext(s, a); Written(t.writer, t.queue, t.accepted)
  {
    assert a.Take? ==> s.writer.batch == [];
    WriterKeepsBatch(s, a);
    WriterKeepsProgress(s, a);
    hide Batched, Progress;
  }

  lemma ForwarderKeepsWritten(c: Config, s: State, k: nat, a: ForwarderStep)
    requires Written(s.writer, s.queue, s.accepted) && ForwarderEnabled(c, s, k, a)
    ensures var t := ForwarderNext(c, s, k, a); Written(t.writer, t.queue, t.accepted)
  {
    hide Batched, Progress;
  }

  // Results.

  lemma AnswerKept(c: Config, fs: seq<Forwarder>, gs: seq<Forwarder>, a: Response)
    requires IsAnswer(c, fs, a) && |fs| <= |gs|
    requires forall k | 0 <= k < |fs| :: AnsweredBy(c, fs[k], a) ==> AnsweredBy(c, gs[k], a)
    ensures IsAnswer(c, gs, a)
  {
    var k :| 0 <= k < |fs| && AnsweredBy(c, fs[k], a);
    assert AnsweredBy(c, gs[k], a);
  }

  lemma ForwarderKeepsGenuine(c: Config, s: State, k: nat, a: ForwarderStep)
    requires Genuine(c, s.forwarders, s.accepted) && ForwarderEnabled(c, s, k, a)
    ensures var t := ForwarderNext(c, s, k, a); Genuine(c, t.forwarders, t.accepted)
  {
    var t := ForwarderNext(c, s, k, a);
    forall i | 0 <= i < |t.accepted|
      ensures IsAnswer(c, t.forwarders, t.accepted[i])
    {
      if i < |s.accepted| {
        AnswerKept(c, s.forwarders, t.forwarders, s.accepted[i]);
      } else {
        assert AnsweredBy(c, t.forwarders[k], t.accepted[i]);
      }
    }
  }

  lemma ReaderKeepsGenuine(c: Config, s: State, a: ReaderStep)
    requires Genuine(c, s.forwarders, s.accepted) && ReaderEnabled(s, a)
    ensures var t := ReaderNext(c, s, a); Genuine(c, t.forwarders, t.accepted)
  {
    var t := ReaderNext(c, s, a);
    assert t.accepted == s.accepted && s.forwarders <= t.forwarders && |t.forwarders| <= |s.forwarders| + 1;
    assert |t.forwarders| > |s.forwarders| ==> t.forwarders[|s.forwarders|].pc.Awaiting?;
    hide ReaderNext, ReaderEnabled, WasSent;
    forall i | 0 <= i < |t.accepted|
      ensures IsAnswer(c, t.forwarders, t.accepted[i])
    {
      AnswerKept(c, s.forwarders, t.forwarders, s.accepted[i]);
    }
  }

  // Order.

  lemma ReaderKeepsSerial(c: Config, s: State, a: ReaderStep)
    requires Serial(c, s.forwarders, s.accepted) && Gated(c, s.reader, s.inflight, s.forwarders) && c.maxInFlight == 1 && ReaderEnabled(s, a)
    ensures var t := ReaderNext(c, s, a); Serial(c, t.forwarders, t.accepted)
  {
    hide Live;
    LiveNat(s.forwarders);
    if a.SubmitOk? {
      var t := ReaderNext(c, s, a);
      assert t.forwarders[..|s.accepted|] == s.forwarders[..|s.accepted|];
    }
  }

  lemma SendKeepsSerial(c: Config, s: State, k: nat)
    requires Serial(c, s.forwarders, s.accepted) && Genuine(c, s.forwarders, s.accepted) && ForwarderEnabled(c, s, k, Accept)
    ensures var t := ForwarderNext(c, s, k, Accept); Serial(c, t.forwarders, t.accepted)
  {
    var t := ForwarderNext(c, s, k, Accept);
    assert IsLive(s.forwarders[k]) && k == |s.forwarders| - 1;
    assert forall i | 0 <= i < k :: !WasRefused(s.forwarders[i]);
    assert |s.accepted| == k by {
      assert !WasSent(s.forwarders[k]);
      assert k > 0 ==> WasSent(s.forwarders[k - 1]);
    }
    assert t.forwarders[..k] == s.forwarders[..k];
    assert t.forwarders[..k + 1] == t.forwarders[..k] + [t.forwarders[k]];
    assert t.accepted == Answers(c, t.forwarders[..k + 1]);
  }

  lemma ForwarderKeepsSerial(c: Config, s: State, k: nat, a: ForwarderStep)
    requires Serial(c, s.forwarders, s.accepted) && Genuine(c, s.forwarders, s.accepted) && StopOrder(s.stop, s.reader, s.forwarders) && ForwarderEnabled(c, s, k, a)
    ensures var t := ForwarderNext(c, s, k, a); Serial(c, t.forwarders, t.accepted)
  {
    if a.Accept? {
      SendKeepsSerial(c, s, k);
    } else {
      hide Gated, IsAnswer;
      var t := ForwarderNext(c, s, k, a);
      assert IsLive(s.forwarders[k]) && k == |s.forwarders| - 1;
      assert t.accepted == s.accepted && WasSent(t.forwarders[k]) == WasSent(s.forwarders[k]);
      assert t.forwarders[k].pc.Offering? || WasSent(t.forwarders[k]) ==>
          forall i | 0 <= i < k :: !WasRefused(s.forwarders[i]);
      assert forall i | 0 <= i < |s.forwarders| :: Answer(c, t.forwarders[i]) == Answer(c, s.forwarders[i]);
      assert Answers(c, t.forwarders[..|s.accepted|]) == Answers(c, s.forwarders[..|s.accepted|]);
    }
  }

  // The invariant, goroutine by goroutine.

  lemma ReaderKeeps(c: Config, s: State, a: ReaderStep)
    requires Inv(c, s) && ReaderEnabled(s, a)
    ensures Inv(c, ReaderNext(c, s, a))
  {
    hide Gated, StopOrder, Genuine, Serial, Written, ScopeAt;
    var t := ReaderNext(c, s, a);
    ReaderKeepsGate(c, s, a);
    ReaderKeepsStopOrder(c, s, a);
    ReaderKeepsGenuine(c, s, a);
    if c.maxInFlight == 1 {
      ReaderKeepsSerial(c, s, a);
    }
    forall x
      ensures ScopeAt(t, x)
    {
      assert ScopeAt(s, x);
      ReaderKeepsScope(c, s, a, x);
    }
  }

  lemma ForwarderKeeps(c: Config, s: State, k: nat, a: ForwarderStep)
    requires Inv(c, s) && ForwarderEnabled(c, s, k, a)
    ensures Inv(c, ForwarderNext(c, s, k, a))
  {
    hide Gated, StopOrder, Genuine, Serial, Written, ScopeAt;
    var t := ForwarderNext(c, s, k, a);
    ForwarderKeepsGate(c, s, k, a);
    ForwarderKeepsStopOrder(c, s, k, a);
    ForwarderKeepsGenuine(c, s, k, a);
    ForwarderKeepsWritten(c, s, k, a);
    if c.maxInFlight == 1 {
      ForwarderKeepsSerial(c, s, k, a);
    }
    forall x
      ensures ScopeAt(t, x)
    {
      assert ScopeAt(s, x);
      ForwarderKeepsScope(c, s, k, a, x);
    }
  }

  lemma WriterKeeps(c: Config, s: State, a: WriterStep)
    requires Inv(c, s) && WriterEnabled(s, a)
    ensures Inv(c, WriterNext(s, a))
  {
    assert a.Take? ==> s.writer.batch == [];
    hide Gated, StopOrder, Genuine, Serial, Written, ScopeAt;
    var t := WriterNext(s, a);
    WriterKeepsWritten(s, a);
    forall x
      ensures ScopeAt(t, x)
    {
      assert ScopeAt(s, x);
      WriterKeepsScope(s, a, x);
    }
  }

  lemma StopperKeeps(c: Config, s: State, a: StopStep)
    requires Inv(c, s) && StopperEnabled(s, a)
    ensures Inv(c, StopperNext(s, a))
  {
    hide Gated, Genuine, Serial, Written, Carriers, Pending, Occurs;
    var t := StopperNext(s, a);
    forall x
      ensures ScopeAt(t, x)
    {
      assert ScopeAt(s, x);
    }
  }

  lemma InvStep(c: Config, s: State, a: Action)
    requires Inv(c, s) && Enabled(c, s, a)
    ensures Inv(c, Next(c, s, a))
  {
    hide Inv;
    match a
    case ReadLoop(x) => ReaderKeeps(c, s, x);
    case Forward(k, x) => ForwarderKeeps(c, s, k, x);
    case WriteLoop(x) => WriterKeeps(c, s, x);
    case Stopper(x) => StopperKeeps(c, s, x);
  }

  lemma {:induction false} InvRun(c: Config, s: State, run: seq<Action>, t: State)
    requires Inv(c, s) && Reaches(c, s, run, t)
    ensures Inv(c, t)
    decreases |run|
  {
    hide Inv, Enabled, Next;
    if run != [] {
      InvStep(c, s, run[0]);
      InvRun(c, Next(c, s, run[0]), run[1..], t);
    }
  }
}
