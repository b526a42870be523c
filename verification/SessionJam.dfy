/** What a failing flush does to its session. */
module SessionJam {
  import opened SessionModel
  import opened SessionRuns

  /** The queue is full, the write loop has ended, and nobody has closed the stop channel. */
  predicate Jammed(s: State) {
    |s.queue| == ResponseQueueSize && s.writer.pc.Ended? && !s.stop.chClosed
  }

  lemma JammedKept(c: Config, s: State, k: nat, a: Action)
    requires Jammed(s) && k < |s.forwarders| && s.forwarders[k].pc.Offering? && Enabled(c, s, a)
    ensures var t := Next(c, s, a);
            t.stop.chClosed || (Jammed(t) && k < |t.forwarders| && t.forwarders[k] == s.forwarders[k])
  {
    match a
    case ReadLoop(x) =>
    case Forward(j, x) =>
    case WriteLoop(x) =>
    case Stopper(x) =>
  }

  lemma StaysClosed(c: Config, s: State, a: Action)
    requires s.stop.chClosed && Enabled(c, s, a)
    ensures Next(c, s, a).stop.chClosed
  {
  }

  lemma {:induction false} RunStaysClosed(c: Config, s: State, run: seq<Action>, t: State)
    requires s.stop.chClosed && Reaches(c, s, run, t)
    ensures t.stop.chClosed
    decreases |run|
  {
    hide Enabled, Next;
    if run != [] {
      StaysClosed(c, s, run[0]);
      RunStaysClosed(c, Next(c, s, run[0]), run[1..], t);
    }
  }

  /** A write loop that fails does not stop its session: in every run from then on, a forwarder in its select
      stays there as long as nobody has closed the stop channel. */
  lemma {:induction false} JammedUntilStopped(c: Config, s: State, k: nat, run: seq<Action>, t: State)
    requires Jammed(s) && k < |s.forwarders| && s.forwarders[k].pc.Offering? && Reaches(c, s, run, t)
    ensures t.stop.chClosed || (Jammed(t) && k < |t.forwarders| && t.forwarders[k] == s.forwarders[k])
    decreases |run|
  {
    hide Enabled, Next, Jammed;
    if run != [] {
      var u := Next(c, s, run[0]);
      JammedKept(c, s, k, run[0]);
      if u.stop.chClosed {
        RunStaysClosed(c, u, run[1..], t);
      } else {
        JammedUntilStopped(c, u, k, run[1..], t);
      }
    }
  }

  /** The session runs, is not being stopped, and has nothing in flight. */
  predicate Resting(s: State) {
    s.reader.AtTop? && !ShouldStop(s) && !s.stop.chClosed && s.inflight == 0
  }

  /** A whole request, from the read loop into the response queue. */
  lemma OneRequest(c: Config, s: State) returns (run: seq<Action>, t: State)
    requires c.Valid() && Resting(s) && |s.queue| < ResponseQueueSize
    ensures Plainly(c, s, run, t)
    ensures Resting(t) && t.writer == s.writer && |t.queue| == |s.queue| + 1
  {
    var run1, s1 := OneRound(c, s);
    var k := |s.forwarders|;
    assert s1.forwarders[k] == Forwarder(s.scopes, s.scopes, Awaiting);
    var run2, s2 := OneAnswer(c, s1, k);
    var run3, s3 := OneLowering(c, s2, k);
    Joined(c, s1, run2, s2, run3, s3);
    Joined(c, s, run1, s1, run2 + run3, s3);
    run, t := run1 + (run2 + run3), s3;
  }

  lemma {:induction false} Fill(c: Config, s: State) returns (run: seq<Action>, t: State)
    requires c.Valid() && Resting(s) && |s.queue| <= ResponseQueueSize
    ensures Plainly(c, s, run, t)
    ensures Resting(t) && t.writer == s.writer && |t.queue| == ResponseQueueSize
    decreases ResponseQueueSize - |s.queue|
  {
    if |s.queue| == ResponseQueueSize {
      run, t := [], s;
    } else {
      var run1, s1 := OneRequest(c, s);
      var run2, s2 := Fill(c, s1);
      Joined(c, s, run1, s1, run2, s2);
      run, t := run1 + run2, s2;
    }
  }

  /** Every session can come to that, whatever its limit: one failed flush, as many further requests as the
      queue has room for, and one more, whose forwarder is then stuck. No write fails: the connection's writer
      only fails to flush. */
  lemma CanJam(c: Config) returns (run: seq<Action>, t: State, k: nat)
    requires c.Valid() && c.readable && c.writable
    ensures Plainly(c, Init(c), run, t)
    ensures Reaches(c, Init(c), run, t) && WriteLoop(WriteFail) !in run
    ensures Jammed(t) && k < |t.forwarders| && t.forwarders[k].pc.Offering?
  {
    var run1, s1 := OneRequest(c, Init(c));
    var run2, s2 := OneWrite(c, s1);
    var run3, s3 := OneFailure(c, s2);
    var run4, s4 := Fill(c, s3);
    var run5, s5 := OneRound(c, s4);
    k := |s4.forwarders|;
    assert s5.forwarders[k] == Forwarder(s4.scopes, s4.scopes, Awaiting);
    run, t := OneOffer(c, s5, k);
    Joined(c, s4, run5, s5, run, t);
    Joined(c, s3, run4, s4, run5 + run, t);
    Joined(c, s2, run3, s3, run4 + (run5 + run), t);
    Joined(c, s1, run2, s2, run3 + (run4 + (run5 + run)), t);
    Joined(c, Init(c), run1, s1, run2 + (run3 + (run4 + (run5 + run))), t);
    run := run1 + (run2 + (run3 + (run4 + (run5 + run))));
    PlainlyReaches(c, Init(c), run, t);
  }
}
