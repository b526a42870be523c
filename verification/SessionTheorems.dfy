/** What a session promises over whole runs: the in-flight bound, conservation of responses, the discipline
    of scopes, and the order of answers. */
module SessionTheorems {
  import opened Counting
  import opened SessionModel
  import opened SessionProofs
  import opened SessionRuns

  /** The counter stays within the limit and is what it should be, although the gate is checked before the
      counter is raised; and decrementInflight never gives up. */
  lemma InFlightBound(c: Config, run: seq<Action>, t: State)
    requires c.Valid() && Reaches(c, Init(c), run, t)
    ensures 0 <= t.inflight <= c.maxInFlight
    ensures t.inflight == Live(t.forwarders) + One(t.reader.Submitting? || t.reader.Uncounting?)
    ensures forall k | 0 <= k < |t.forwarders| :: IsLive(t.forwarders[k]) ==> 0 < t.inflight
  {
    InitInv(c);
    InvRun(c, Init(c), run, t);
    LiveNat(t.forwarders);
  }

  /** The bound is tight: the read loop goes on submitting until the limit is reached. */
  lemma LimitReached(c: Config) returns (run: seq<Action>, t: State)
    requires c.Valid() && c.readable
    ensures Reaches(c, Init(c), run, t) && t.inflight == c.maxInFlight == |t.forwarders|
  {
    run, t := Rounds(c, Init(c), c.maxInFlight);
    PlainlyReaches(c, Init(c), run, t);
  }

  /** The write loop has met a failing Write or Flush. */
  predicate Failed(w: Writer) {
    w.pc == Releasing(true) || w.pc == Ended(true)
  }

  /** The response that is being written. */
  function InHand(w: Writer): seq<Response> {
    if w.pc.Writing? && w.batch != [] then [w.batch[|w.batch| - 1]] else []
  }

  /** Responses are written in the order in which they were accepted; until the writer fails, those that are
      not written are the one being written and those in the queue. */
  lemma Conservation(c: Config, run: seq<Action>, t: State)
    requires c.Valid() && Reaches(c, Init(c), run, t)
    ensures t.writer.written <= t.accepted
    ensures !Failed(t.writer) ==> t.accepted == t.writer.written + InHand(t.writer) + t.queue
    ensures t.writer.pc == Ended(false) ==> t.writer.flushed == |t.writer.written|
    ensures |t.queue| <= ResponseQueueSize
  {
    InitInv(c);
    InvRun(c, Init(c), run, t);
    WrittenConserved(t);
  }

  lemma SuffixLast(b: seq<Response>, t: seq<Response>)
    requires b != [] && |b| <= |t| && b == t[|t| - |b|..]
    ensures b[|b| - 1] == t[|t| - 1]
  {
  }

  lemma PrefixLast(w: seq<Response>, t: seq<Response>)
    requires w <= t && |t| == |w| + 1
    ensures t == w + [t[|t| - 1]]
  {
  }

  lemma PrefixOfSum(w: seq<Response>, t: seq<Response>, q: seq<Response>)
    requires w <= t
    ensures w <= t + q
  {
  }

  lemma WrittenConserved(t: State)
    requires Written(t.writer, t.queue, t.accepted)
    ensures t.writer.written <= t.accepted
    ensures !Failed(t.writer) ==> t.accepted == t.writer.written + InHand(t.writer) + t.queue
  {
    hide Scopes;
    var w := t.writer;
    PrefixOfSum(w.written, w.taken, t.queue);
    if w.pc.Writing? {
      SuffixLast(w.batch, w.taken);
      PrefixLast(w.written, w.taken);
    } else if !Failed(w) {
      assert w.written + InHand(w) == w.written;
    }
  }

  /** When the write loop returns because the session stops, all that was accepted so far is written and
      flushed, and all its scopes are released. */
  lemma NormalExit(c: Config, run: seq<Action>, s: State)
    requires c.Valid() && Reaches(c, Init(c), run, s) && WriterEnabled(s, Exit)
    ensures var t := WriterNext(s, Exit);
            t.writer.written == t.accepted && t.writer.flushed == |t.accepted| && t.writer.released == Scopes(t.accepted)
  {
    InitInv(c);
    InvRun(c, Init(c), run, s);
    assert s.writer.taken[..|s.writer.taken|] == s.writer.taken == s.accepted;
  }

  /** A flush covers everything: when the write loop begins one, all that was accepted so far has been written,
      and is in a batch that was flushed before or in the one to be flushed now. */
  lemma FlushCovers(c: Config, run: seq<Action>, s: State)
    requires c.Valid() && Reaches(c, Init(c), run, s) && WriterEnabled(s, Enough)
    ensures var t := WriterNext(s, Enough);
            && t.writer.pc.Flushing? && t.writer.written == t.accepted
            && t.writer.flushed <= |t.accepted| && t.accepted == t.accepted[..t.writer.flushed] + t.writer.batch
  {
    InitInv(c);
    InvRun(c, Init(c), run, s);
    assert s.accepted == s.writer.taken + [] == s.writer.taken;
  }

  /** No scope is released or given back twice, or while somebody may still use it. */
  lemma ReleasedOnce(c: Config, run: seq<Action>, t: State, x: Scope)
    requires c.Valid() && Reaches(c, Init(c), run, t)
    ensures Occurs(t.writer.released, x) + Occurs(t.returned, x) + Occurs(t.dropped, x) <= 1
    ensures x in t.writer.released || x in t.returned ==>
              && x < t.scopes && x !in t.dropped && !ReaderHolds(t.reader, x)
              && (forall k | 0 <= k < |t.forwarders| :: !Carries(t.forwarders[k], x))
              && (forall i | 0 <= i < |t.queue| :: t.queue[i].scope != x)
              && (forall i | 0 <= i < |t.writer.batch| :: t.writer.batch[i].scope != x)
  {
    InitInv(c);
    InvRun(c, Init(c), run, t);
    ScopeOnce(t, x);
  }

  lemma ScopeOnce(t: State, x: Scope)
    requires Scoped(t)
    ensures Occurs(t.writer.released, x) + Occurs(t.returned, x) + Occurs(t.dropped, x) <= 1
    ensures 0 <= Occurs(t.dropped, x)
    ensures x in t.writer.released || x in t.returned ==>
              && x < t.scopes && x !in t.dropped && !ReaderHolds(t.reader, x)
              && (forall k | 0 <= k < |t.forwarders| :: !Carries(t.forwarders[k], x))
              && (forall i | 0 <= i < |t.queue| :: t.queue[i].scope != x)
              && (forall i | 0 <= i < |t.writer.batch| :: t.writer.batch[i].scope != x)
  {
    assert ScopeAt(t, x);
    hide Scoped;
    CarriersNat(t.forwarders, x);
    PendingNat(t.queue, x);
    PendingNat(t.writer.batch, x);
    OccursNat(t.writer.released, x);
    OccursNat(t.returned, x);
    OccursNat(t.dropped, x);
  }

  lemma {:induction false} CarriersNat(fs: seq<Forwarder>, x: Scope)
    ensures 0 <= Carriers(fs, x)
    ensures Carriers(fs, x) == 0 ==> forall k | 0 <= k < |fs| :: !Carries(fs[k], x)
  {
    hide Carries;
    if fs != [] {
      CarriersNat(fs[1..], x);
    }
  }

  lemma {:induction false} PendingNat(q: seq<Response>, x: Scope)
    ensures 0 <= Pending(q, x)
    ensures Pending(q, x) == 0 ==> forall i | 0 <= i < |q| :: q[i].scope != x
  {
    if q != [] {
      PendingNat(q[1..], x);
    }
  }

  /** The write loop releases the scopes of what it took, in that order, each only after its batch was
      flushed, unless a Write or Flush failed; outside a batch, it has released them all. */
  lemma ReleasedAfterFlush(c: Config, run: seq<Action>, t: State)
    requires c.Valid() && Reaches(c, Init(c), run, t)
    ensures t.writer.released <= Scopes(t.writer.taken) && t.writer.taken <= t.accepted
    ensures t.writer.pc != Ended(true) ==> |t.writer.released| <= t.writer.flushed <= |t.writer.written|
    ensures t.writer.pc.Top? || t.writer.pc.Selecting? || t.writer.pc.Ended? ==> t.writer.released == Scopes(t.writer.taken)
  {
    InitInv(c);
    InvRun(c, Init(c), run, t);
    ReleasedInOrder(t);
  }

  lemma ReleasedInOrder(t: State)
    requires Written(t.writer, t.queue, t.accepted)
    ensures t.writer.released <= Scopes(t.writer.taken) && t.writer.taken <= t.accepted
    ensures t.writer.pc != Ended(true) ==> |t.writer.released| <= t.writer.flushed <= |t.writer.written|
    ensures t.writer.pc.Top? || t.writer.pc.Selecting? || t.writer.pc.Ended? ==> t.writer.released == Scopes(t.writer.taken)
  {
    var w := t.writer;
    assert w.taken[..|w.taken|] == w.taken;
    var n := |w.taken| - |w.batch|;
    assert Scopes(w.taken)[..n] == Scopes(w.taken[..n]);
  }

  /** Every response that is written is the result of one request of this session with that request's scope. */
  lemma OwnAnswers(c: Config, run: seq<Action>, t: State, i: nat)
    requires c.Valid() && Reaches(c, Init(c), run, t) && i < |t.writer.written|
    ensures IsAnswer(c, t.forwarders, t.writer.written[i])
  {
    InitInv(c);
    InvRun(c, Init(c), run, t);
    Conservation(c, run, t);
    assert t.writer.written[i] == t.accepted[i];
  }

  lemma SerialAnswers(c: Config, t: State)
    requires Inv(c, t) && c.maxInFlight == 1
    ensures t.writer.written <= t.accepted <= Answers(c, t.forwarders)
  {
    WrittenConserved(t);
    var n := |t.accepted|;
    assert Answers(c, t.forwarders)[..n] == Answers(c, t.forwarders[..n]);
  }

  /** With one request in flight, the responses written are a prefix of the answers to the requests, in the
      order of the requests, each with its own request's scope; stopping at any time does not change that. */
  lemma AnswersInOrder(c: Config, run: seq<Action>, t: State)
    requires c.Valid() && c.maxInFlight == 1 && Reaches(c, Init(c), run, t)
    ensures t.writer.written <= t.accepted <= Answers(c, t.forwarders)
  {
    InitInv(c);
    InvRun(c, Init(c), run, t);
    SerialAnswers(c, t);
  }

  predicate AcceptedInOrder(c: Config, s: State) {
    s.accepted <= Answers(c, s.forwarders)
  }

  predicate InOrder(c: Config, s: State) {
    s.writer.written <= Answers(c, s.forwarders)
  }

  predicate Runs(c: Config, run: seq<Action>, t: State) {
    Reaches(c, Init(c), run, t)
  }

  /** With more than one request in flight, the second can be answered first, and be written first. */
  lemma SecondFirst(c: Config) returns (run: seq<Action>, t: State)
    requires c.Valid() && c.readable && 2 <= c.maxInFlight
    ensures Plainly(c, Init(c), run, t)
    ensures !AcceptedInOrder(c, t) && (c.writable ==> !InOrder(c, t))
  {
    var s := Init(c);
    var run1, s1 := OneRound(c, s);
    var run2, s2 := OneRound(c, s1);
    var run3, s3 := OneAnswer(c, s2, 1);
    Joined(c, s1, run2, s2, run3, s3);
    Joined(c, s, run1, s1, run2 + run3, s3);
    run, t := run1 + (run2 + run3), s3;
    assert s2.forwarders == [Forwarder(0, 0, Awaiting), Forwarder(1, 1, Awaiting)];
    if c.writable {
      var run4, s4 := OneWrite(c, s3);
      Joined(c, s, run, s3, run4, s4);
      run, t := run + run4, s4;
    }
    NotFirst(c, t);
  }

  lemma NotFirst(c: Config, t: State)
    requires |t.forwarders| == 2 && t.forwarders[0].scope == 0
    requires |t.accepted| == 1 && t.accepted[0].scope == 1
    ensures !AcceptedInOrder(c, t) && (t.writer.written == t.accepted ==> !InOrder(c, t))
  {
    assert Answers(c, t.forwarders)[0].scope == 0;
  }

  /** Responses are accepted, and written, in the order of the requests in every run if and only if the limit
      is one. */
  lemma OrderExactly(c: Config)
    requires c.Valid() && c.readable
    ensures (forall run, t | Runs(c, run, t) :: AcceptedInOrder(c, t)) <==> c.maxInFlight == 1
    ensures c.writable ==> ((forall run, t | Runs(c, run, t) :: InOrder(c, t)) <==> c.maxInFlight == 1)
  {
    if c.maxInFlight == 1 {
      forall run, t | Runs(c, run, t)
        ensures AcceptedInOrder(c, t) && InOrder(c, t)
      {
        AnswersInOrder(c, run, t);
      }
    } else {
      var run, t := SecondFirst(c);
      PlainlyReaches(c, Init(c), run, t);
      assert Runs(c, run, t);
    }
  }

  // Steps that are open.

  lemma ForwarderMoves(c: Config, s: State, k: nat)
    requires s.stop.chClosed && k < |s.forwarders|
    ensures s.forwarders[k].pc.Awaiting? || s.forwarders[k].pc.Finished? || exists a :: ForwarderEnabled(c, s, k, a)
  {
    match s.forwarders[k].pc
    case Holding(_) => assert ForwarderEnabled(c, s, k, CheckStop);
    case Offering(_) => assert ForwarderEnabled(c, s, k, Refuse);
    case Lowering(_) => assert ForwarderEnabled(c, s, k, Load);
    case Swapping(_, _) => assert ForwarderEnabled(c, s, k, Swap);
    case _ =>
  }

  lemma WriterMoves(s: State)
    requires Written(s.writer, s.queue, s.accepted) && (s.stop.chClosed || s.queue != []) && !s.writer.pc.Ended?
    ensures exists a :: WriterEnabled(s, a)
  {
    hide Batched;
    var some := s.queue != [];
    match s.writer.pc
    case Top => assert WriterEnabled(s, if some then Pass else Exit);
    case Selecting => assert WriterEnabled(s, if some then Take else Exit);
    case Writing => assert WriterEnabled(s, WriteOk);
    case Draining => assert WriterEnabled(s, if some then More else Enough);
    case Flushing => assert WriterEnabled(s, FlushOk);
    case Releasing(_) => assert WriterEnabled(s, Release);
  }

  /** When a write loop that is not being stopped has no step, it waits for a response, having flushed all it took. */
  lemma WriterWaits(s: State)
    requires Written(s.writer, s.queue, s.accepted) && !s.stop.chClosed && !s.writer.pc.Ended?
    requires forall a :: !WriterEnabled(s, a)
    ensures s.writer.pc.Selecting? && s.queue == []
    ensures s.writer.written == s.accepted && s.writer.flushed == |s.accepted|
  {
    if s.queue != [] {
      WriterMoves(s);
    }
    assert s.writer.pc.Top? ==> WriterEnabled(s, Pass);
    assert s.writer.pc.Writing? ==> WriterEnabled(s, WriteOk);
    assert s.writer.pc.Draining? ==> WriterEnabled(s, Enough);
    assert s.writer.pc.Flushing? ==> WriterEnabled(s, FlushOk);
    assert s.writer.pc.Releasing? ==> WriterEnabled(s, Release);
  }

  /** A step of the read loop that asks nothing new of the connection; it waits for nobody but its submitter. */
  lemma ReaderMoves(s: State) returns (a: ReaderStep)
    requires !s.reader.Gone?
    ensures ReaderEnabled(s, a) && !a.ReadOk? && !a.SubmitErr? && (a.SubmitOk? ==> s.reader.Submitting?)
  {
    match s.reader
    case AtTop => a := Check;
    case Gate => a := CheckGate;
    case Gauge => a := Measure;
    case Asleep => a := Tick;
    case NeedScope => a := Allocate;
    case Reading(_) => a := ReadFail;
    case Read(_, _) => a := Count;
    case Submitting(_, _) => a := SubmitOk;
    case Uncounting(_) => a := Uncount;
    case GivingBack(_) => a := GiveBack;
    case Ending => a := SetFlag;
    case Closing => a := CloseCh;
  }
}
