/** Building runs of a session step by step. */
module SessionRuns {
  import opened SessionModel

  /** A step that any dispatcher and the writer of a connection allow: the request read is new (it has the number
      of its scope), its submission succeeds, and no write fails. */
  predicate IsPlain(s: State, a: Action) {
    match a
    case ReadLoop(x) => x != SubmitErr && (x.ReadOk? && s.reader.Reading? ==> x.req == s.reader.scope)
    case WriteLoop(x) => x != WriteFail
    case _ => true
  }

  /** `t` is reached from `s` by plain steps. */
  predicate Plainly(c: Config, s: State, run: seq<Action>, t: State)
    decreases |run|
  {
    if run == [] then s == t
    else Enabled(c, s, run[0]) && IsPlain(s, run[0]) && Plainly(c, Next(c, s, run[0]), run[1..], t)
  }

  lemma {:induction false} PlainlyReaches(c: Config, s: State, run: seq<Action>, t: State)
    requires Plainly(c, s, run, t)
    ensures Reaches(c, s, run, t) && WriteLoop(WriteFail) !in run
    decreases |run|
  {
    hide Enabled, Next;
    if run != [] {
      PlainlyReaches(c, Next(c, s, run[0]), run[1..], t);
      assert run == [run[0]] + run[1..];
    }
  }

  lemma Prepend(c: Config, s: State, a: Action, run: seq<Action>, t: State)
    requires Enabled(c, s, a) && IsPlain(s, a) && Plainly(c, Next(c, s, a), run, t)
    ensures Plainly(c, s, [a] + run, t)
  {
    assert ([a] + run)[1..] == run;
  }

  lemma {:induction false} Joined(c: Config, s: State, run: seq<Action>, t: State, rest: seq<Action>, u: State)
    requires Plainly(c, s, run, t) && Plainly(c, t, rest, u)
    ensures Plainly(c, s, run + rest, u)
    decreases |run|
  {
    hide Enabled, Next;
    if run == [] {
      assert run + rest == rest;
    } else {
      Joined(c, Next(c, s, run[0]), run[1..], t, rest, u);
      assert (run + rest)[1..] == run[1..] + rest;
    }
  }

  lemma ThroughGate(c: Config, s: State) returns (run: seq<Action>, t: State)
    requires s.reader.AtTop? && !ShouldStop(s) && s.inflight < c.maxInFlight
    ensures Plainly(c, s, run, t) && t == s.(reader := NeedScope)
  {
    var s1 := ReaderNext(c, s, Check);
    var s2 := ReaderNext(c, s1, CheckGate);
    t := ReaderNext(c, s2, Measure);
    Prepend(c, s2, ReadLoop(Measure), [], t);
    run := [ReadLoop(Measure)];
    Prepend(c, s1, ReadLoop(CheckGate), run, t);
    run := [ReadLoop(CheckGate)] + run;
    Prepend(c, s, ReadLoop(Check), run, t);
    run := [ReadLoop(Check)] + run;
  }

  lemma AndSubmit(c: Config, s: State) returns (run: seq<Action>, t: State)
    requires s.reader.NeedScope?
    ensures Plainly(c, s, run, t)
    ensures t == s.(reader := AtTop, inflight := s.inflight + 1, scopes := s.scopes + 1,
                    forwarders := s.forwarders + [Forwarder(s.scopes, s.scopes, Awaiting)])
  {
    var r := s.scopes;
    var s4 := ReaderNext(c, s, Allocate);
    var s5 := ReaderNext(c, s4, ReadOk(r));
    var s6 := ReaderNext(c, s5, Count);
    t := ReaderNext(c, s6, SubmitOk);
    Prepend(c, s6, ReadLoop(SubmitOk), [], t);
    run := [ReadLoop(SubmitOk)];
    Prepend(c, s5, ReadLoop(Count), run, t);
    run := [ReadLoop(Count)] + run;
    Prepend(c, s4, ReadLoop(ReadOk(r)), run, t);
    run := [ReadLoop(ReadOk(r))] + run;
    Prepend(c, s, ReadLoop(Allocate), run, t);
    run := [ReadLoop(Allocate)] + run;
  }

  /** The read loop takes a request through the gate and submits it. */
  lemma OneRound(c: Config, s: State) returns (run: seq<Action>, t: State)
    requires s.reader.AtTop? && !ShouldStop(s) && s.inflight < c.maxInFlight
    ensures Plainly(c, s, run, t)
    ensures t == s.(inflight := s.inflight + 1, scopes := s.scopes + 1,
                    forwarders := s.forwarders + [Forwarder(s.scopes, s.scopes, Awaiting)])
  {
    var gate, s1 := ThroughGate(c, s);
    run, t := AndSubmit(c, s1);
    Joined(c, s, gate, s1, run, t);
    run := gate + run;
  }

  /** And so with several requests, as many as the limit admits. */
  lemma {:induction false} Rounds(c: Config, s: State, n: nat) returns (run: seq<Action>, t: State)
    requires s.reader.AtTop? && !ShouldStop(s) && s.inflight + n <= c.maxInFlight
    ensures Plainly(c, s, run, t)
    ensures t.inflight == s.inflight + n && |t.forwarders| == |s.forwarders| + n
    decreases n
  {
    if n == 0 {
      return [], s;
    }
    var first, s1 := OneRound(c, s);
    hide Plainly;
    run, t := Rounds(c, s1, n - 1);
    Joined(c, s, first, s1, run, t);
    run := first + run;
  }

  /** A forwarder gets its result and comes before the response queue. */
  lemma OneOffer(c: Config, s: State, k: nat) returns (run: seq<Action>, t: State)
    requires k < |s.forwarders| && s.forwarders[k].pc.Awaiting? && !ShouldStop(s)
    ensures Plainly(c, s, run, t)
    ensures t == s.(forwarders := s.forwarders[k := s.forwarders[k].(pc := Offering(c.exec(s.forwarders[k].req)))])
  {
    var v := c.exec(s.forwarders[k].req);
    var s1 := ForwarderNext(c, s, k, Receive(v));
    t := ForwarderNext(c, s1, k, CheckStop);
    Prepend(c, s1, Forward(k, CheckStop), [], t);
    Prepend(c, s, Forward(k, Receive(v)), [Forward(k, CheckStop)], t);
    run := [Forward(k, Receive(v))] + [Forward(k, CheckStop)];
  }

  /** A forwarder brings its response into the queue. */
  lemma OneAnswer(c: Config, s: State, k: nat) returns (run: seq<Action>, t: State)
    requires k < |s.forwarders| && s.forwarders[k].pc.Awaiting? && !ShouldStop(s) && |s.queue| < ResponseQueueSize
    ensures Plainly(c, s, run, t)
    ensures t == s.(forwarders := s.forwarders[k := s.forwarders[k].(pc := Lowering(true))],
                    queue := s.queue + [Answer(c, s.forwarders[k])], accepted := s.accepted + [Answer(c, s.forwarders[k])])
  {
    var offer, s1 := OneOffer(c, s, k);
    t := ForwarderNext(c, s1, k, Accept);
    Prepend(c, s1, Forward(k, Accept), [], t);
    Joined(c, s, offer, s1, [Forward(k, Accept)], t);
    run := offer + [Forward(k, Accept)];
  }

  /** A forwarder takes its request out of the counter. */
  lemma OneLowering(c: Config, s: State, k: nat) returns (run: seq<Action>, t: State)
    requires k < |s.forwarders| && s.forwarders[k].pc.Lowering? && 0 < s.inflight
    ensures Plainly(c, s, run, t)
    ensures t == s.(forwarders := s.forwarders[k := s.forwarders[k].(pc := Finished(s.forwarders[k].pc.sent))], inflight := s.inflight - 1)
  {
    var s1 := ForwarderNext(c, s, k, Load);
    t := ForwarderNext(c, s1, k, Swap);
    Prepend(c, s1, Forward(k, Swap), [], t);
    Prepend(c, s, Forward(k, Load), [Forward(k, Swap)], t);
    run := [Forward(k, Load)] + [Forward(k, Swap)];
  }

  /** The write loop writes the only response in the queue. */
  lemma OneWrite(c: Config, s: State) returns (run: seq<Action>, t: State)
    requires s.writer.pc.Top? && |s.queue| == 1
    ensures Plainly(c, s, run, t)
    ensures t == s.(queue := [], writer := t.writer) && t.writer.pc.Draining? && t.writer.written == s.writer.written + s.queue
  {
    var s1 := WriterNext(s, Pass);
    var s2 := WriterNext(s1, Take);
    t := WriterNext(s2, WriteOk);
    Prepend(c, s2, WriteLoop(WriteOk), [], t);
    run := [WriteLoop(WriteOk)];
    Prepend(c, s1, WriteLoop(Take), run, t);
    run := [WriteLoop(Take)] + run;
    Prepend(c, s, WriteLoop(Pass), run, t);
    run := [WriteLoop(Pass)] + run;
  }

  /** Then it fails to flush, and ends. */
  lemma OneFailure(c: Config, s: State) returns (run: seq<Action>, t: State)
    requires s.writer.pc.Draining? && s.queue == []
    ensures Plainly(c, s, run, t)
    ensures t == s.(writer := t.writer) && t.writer.pc == Ended(true)
  {
    var s4 := WriterNext(s, Enough);
    var s5 := WriterNext(s4, FlushFail);
    t := WriterNext(s5, Release);
    Prepend(c, s5, WriteLoop(Release), [], t);
    run := [WriteLoop(Release)];
    Prepend(c, s4, WriteLoop(FlushFail), run, t);
    run := [WriteLoop(FlushFail)] + run;
    Prepend(c, s, WriteLoop(Enough), run, t);
    run := [WriteLoop(Enough)] + run;
  }
}
