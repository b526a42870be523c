/** A session over a real writer and a real sink: what internal/conn and server.go hand to the write loop. */
module Connection {
  import opened Bytes
  import opened Int64
  import opened Views
  import opened SessionModel
  import Values
  import Grammar
  import Streams
  import SessionProofs
  import SessionTheorems
  import Session
  import Wire
  import W = Writer

  /** The lengths inside a value are Go ints. */
  predicate Sized(v: Values.Value)
    decreases v
  {
    match v
    case BulkString(d) => |d| <= MAX
    case Array(es) => |es| <= MAX && forall e | e in es :: Sized(e)
    case _ => true
  }

  /** Makes a value in memory, as a command does with the constructors of types.go. */
  method Build(v: Values.Value) returns (r: RespValue)
    requires Sized(v)
    ensures Views.Valid(r) && W.Fits(r) && Contents(r) == v
    ensures forall a | a in Arrays(r) :: fresh(a)
    decreases v, 1
  {
    match v
    case SimpleString(t) => r := SimpleString(t);
    case Error(t) => r := Error(t);
    case Integer(n) => r := Integer(n);
    case BulkString(d) =>
      var arr := new byte[|d|](i requires 0 <= i < |d| => d[i]);
      r := BulkString(Slice(arr, 0, |d|));
      assert arr[0..|d|] == d;
    case NilBulk => r := NilBulk;
    case Array(es) => r := BuildArray(es);
    case NilArray => r := NilArray;
    case Null => r := Null;
    case Unknown(t) => r := Unknown(t);
  }

  method BuildArray(es: seq<Values.Value>) returns (r: RespValue)
    requires |es| <= MAX && forall e | e in es :: Sized(e)
    ensures Views.Valid(r) && W.Fits(r) && Contents(r) == Values.Array(es)
    ensures forall a | a in Arrays(r) :: fresh(a)
    decreases es, 0
  {
    hide Views.Contents, Views.ContentsAll, Views.Arrays, Views.ArraysAll, Views.Valid;
    var arr: seq<RespValue> := [];
    NoElements();
    assert es[..0] == [];
    for i := 0 to |es|
      invariant (forall e | e in arr :: Views.Valid(e) && W.Fits(e)) && ContentsAll(arr) == es[..i]
      invariant forall a | a in ArraysAll(arr) :: fresh(a)
    {
      ArraysAllAllocated(arr);
      label before:
      var e := Build(es[i]);
      ContentsAllFrame@before(arr);
      assert es[..i + 1] == es[..i] + [es[i]];
      ContentsAllSnoc(arr, e);
      arr := arr + [e];
    }
    assert es[..|es|] == es;
    ArrayContents(arr);
    r := Array(arr);
    assert |arr| == |es|;
  }

  lemma InHandIsAccepted(s: State)
    requires SessionProofs.Written(s.writer, s.queue, s.accepted) && s.writer.pc.Writing?
    ensures s.writer.batch != [] && 0 < |s.writer.taken| <= |s.accepted|
    ensures s.writer.batch[|s.writer.batch| - 1] == s.accepted[|s.writer.taken| - 1]
  {
    hide Scopes;
    SessionTheorems.SuffixLast(s.writer.batch, s.writer.taken);
  }

  lemma AcceptedIsResult(c: Config, s: State, i: nat)
    requires SessionProofs.Genuine(c, s.forwarders, s.accepted) && i < |s.accepted|
    ensures exists r :: s.accepted[i].value == c.exec(r)
  {
    assert SessionProofs.IsAnswer(c, s.forwarders, s.accepted[i]);
    var k :| 0 <= k < |s.forwarders| && SessionProofs.AnsweredBy(c, s.forwarders[k], s.accepted[i]);
    assert s.accepted[i].value == c.exec(s.forwarders[k].req);
  }

  /** What is being written is some request's result. */
  lemma InHandIsResult(c: Config, s: State)
    requires SessionProofs.Inv(c, s) && s.writer.pc.Writing?
    ensures s.writer.batch != [] && exists r :: s.writer.batch[|s.writer.batch| - 1].value == c.exec(r)
  {
    hide SessionProofs.Scoped, SessionProofs.Gated, SessionProofs.StopOrder, SessionProofs.Serial,
         SessionProofs.Written, SessionProofs.Genuine;
    InHandIsAccepted(s);
    AcceptedIsResult(c, s, |s.writer.taken| - 1);
  }

  /** Makes a value and writes it. */
  method Put(w: W.Writer, v: Values.Value)
    requires Sized(v)
    modifies w
    ensures w.buf == old(w.buf) + Values.Ser(v)
  {
    hide Views.Contents, Views.Valid, Views.Arrays, W.Fits, Values.Ser;
    var r := Build(v);
    ArraysAllocated(r);
    label built:
    w.Write(r);
    ContentsFrame@built(r);
  }

  /** The session's step and what it did to its wire. */
  lemma Stepped(c: Config, s: State, a: Action, w: Wire.Wire, v: Wire.Wire)
    requires SessionProofs.Inv(c, s) && Enabled(c, s, a) && Wire.Wired(s.writer, w) && Wire.WireStep(s.writer, a, w, v)
    ensures Wire.Wired(Next(c, s, a).writer, v)
  {
    hide Wire.Wired, Wire.WireStep;
    Wire.WiredStep(c, s, a, w, v);
  }

  /** The write loop writes the response it holds. */
  method WriteResponse(s: Session.Session, w: W.Writer, dst: W.Sink)
    requires s.Valid() && s.writer.Writing? && forall r :: Sized(s.config.exec(r))
    requires Wire.Wired(s.View().writer, Wire.Wire(w.buf, dst.out))
    modifies s, w
    ensures s.Valid() && Wire.Wired(s.View().writer, Wire.Wire(w.buf, dst.out))
    ensures Enabled(s.config, old(s.View()), WriteLoop(WriteOk)) && s.View() == Next(s.config, old(s.View()), WriteLoop(WriteOk))
  {
    ghost var c, view, wire := s.config, s.View(), Wire.Wire(w.buf, dst.out);
    InHandIsResult(c, view);
    hide SessionProofs.Inv, Wire.Wired, Sized, Values.Ser, Next;
    Put(w, s.batch[|s.batch| - 1].value);
    var moved := s.Step(WriteLoop(WriteOk));
    Stepped(c, view, WriteLoop(WriteOk), wire, Wire.Wire(w.buf, dst.out));
  }

  /** There is something to flush. */
  lemma BufferedForFlush(d: SessionModel.Writer, queue: seq<Response>, accepted: seq<Response>, w: Wire.Wire)
    requires SessionProofs.Written(d, queue, accepted) && d.pc.Flushing? && Wire.Wired(d, w)
    ensures w.buf != []
  {
    hide Scopes, Values.SerAll;
    Values.SerAllLength(Wire.ValuesOf(d.written[d.flushed..]));
  }

  /** The write loop flushes: the sink gets the whole buffer in one call, the flush fails exactly if that call does,
      and the loop sees which. */
  method FlushResponses(s: Session.Session, w: W.Writer, dst: W.Sink) returns (failed: bool)
    requires s.Valid() && s.writer.Flushing?
    requires Wire.Wired(s.View().writer, Wire.Wire(w.buf, dst.out))
    modifies s, w, dst
    ensures s.Valid() && Wire.Wired(s.View().writer, Wire.Wire(w.buf, dst.out))
    ensures Enabled(s.config, old(s.View()), Flushed(failed)) && s.View() == Next(s.config, old(s.View()), Flushed(failed))
    ensures w.buf == [] && failed == W.Fails(old(dst.plan))
    ensures dst.out == old(dst.out) + W.Taken(old(dst.plan), old(w.buf)) && dst.plan == W.Later(old(dst.plan))
  {
    ghost var c, view, wire := s.config, s.View(), Wire.Wire(w.buf, dst.out);
    BufferedForFlush(view.writer, view.queue, view.accepted, wire);
    hide SessionProofs.Inv, Wire.Wired;
    failed := w.Flush(dst);
    assert wire.out <= dst.out <= wire.out + wire.buf by {
      assert wire.out + wire.buf == dst.out + wire.buf[|W.Taken(old(dst.plan), wire.buf)|..];
    }
    var moved := s.Step(Flushed(failed));
    Stepped(c, view, Flushed(failed), wire, Wire.Wire(w.buf, dst.out));
  }

  /** How the write loop goes on after a flush. */
  function Flushed(failed: bool): Action {
    WriteLoop(if failed then FlushFail else FlushOk)
  }

  /** No call of the sink will fail. */
  predicate Sound(plan: seq<W.Answer>) {
    forall x | x in plan :: x.Takes?
  }

  lemma SoundCall(plan: seq<W.Answer>)
    requires Sound(plan)
    ensures !W.Fails(plan) && Sound(W.Later(plan))
  {
    assert plan != [] ==> plan[0] in plan;
  }

  /** The write loop of a session fails only where its writer does. */
  lemma FailsByWriter(c: Config, s: State, a: Action)
    requires Enabled(c, s, a)
    ensures a != WriteLoop(WriteFail) && a != WriteLoop(FlushFail) && SessionTheorems.Failed(Next(c, s, a).writer) ==> SessionTheorems.Failed(s.writer)
  {
  }

  /** A step of the write loop that uses its writer, if it is before one. */
  method WriterTurn(s: Session.Session, w: W.Writer, dst: W.Sink, a: Action) returns (moved: bool)
    requires s.Valid() && forall r :: Sized(s.config.exec(r))
    requires a == WriteLoop(WriteOk) || a == WriteLoop(FlushOk) || a == WriteLoop(FlushFail)
    requires Wire.Wired(s.View().writer, Wire.Wire(w.buf, dst.out))
    modifies s, w, dst
    ensures s.Valid() && Wire.Wired(s.View().writer, Wire.Wire(w.buf, dst.out))
    ensures moved ==> exists b :: Enabled(s.config, old(s.View()), b) && s.View() == Next(s.config, old(s.View()), b)
    ensures !moved ==> s.View() == old(s.View())
    ensures Sound(old(dst.plan)) ==>
              Sound(dst.plan) && (SessionTheorems.Failed(s.View().writer) ==> SessionTheorems.Failed(old(s.View()).writer))
  {
    ghost var c, view, plan := s.config, s.View(), dst.plan;
    hide SessionProofs.Inv, Wire.Wired, Sized, Next, Enabled, Sound, W.Fails, W.Taken, W.Later, SessionTheorems.Failed;
    if Sound(plan) {
      SoundCall(plan);
    }
    moved := false;
    if s.writer.Writing? && a == WriteLoop(WriteOk) {
      WriteResponse(s, w, dst);
      FailsByWriter(c, view, a);
      moved := true;
    } else if s.writer.Flushing? && a != WriteLoop(WriteOk) {
      var failed := FlushResponses(s, w, dst);
      FailsByWriter(c, view, Flushed(failed));
      moved := true;
    }
  }

  /** One step of the session, its writer and its sink. What the write loop's writer answers is not the
      schedule's choice: Write never fails, and Flush fails exactly if the sink does. */
  method Turn(s: Session.Session, w: W.Writer, dst: W.Sink, a: Action) returns (moved: bool)
    requires s.Valid() && forall r :: Sized(s.config.exec(r))
    requires Wire.Wired(s.View().writer, Wire.Wire(w.buf, dst.out))
    modifies s, w, dst
    ensures s.Valid() && Wire.Wired(s.View().writer, Wire.Wire(w.buf, dst.out))
    ensures moved ==> exists b :: Enabled(s.config, old(s.View()), b) && s.View() == Next(s.config, old(s.View()), b)
    ensures !moved ==> s.View() == old(s.View())
    ensures Sound(old(dst.plan)) ==>
              Sound(dst.plan) && (SessionTheorems.Failed(s.View().writer) ==> SessionTheorems.Failed(old(s.View()).writer))
  {
    ghost var c, view, wire := s.config, s.View(), Wire.Wire(w.buf, dst.out);
    hide SessionProofs.Inv, Wire.Wired, Sized, Next, Enabled, Sound, W.Fails, W.Taken, W.Later, SessionTheorems.Failed;
    if a == WriteLoop(WriteFail) {
      return false;
    }
    if a == WriteLoop(WriteOk) || a == WriteLoop(FlushOk) || a == WriteLoop(FlushFail) {
      moved := WriterTurn(s, w, dst, a);
      return;
    }
    moved := s.Step(a);
    if moved {
      Stepped(c, view, a, wire, wire);
      FailsByWriter(c, view, a);
    }
  }

  /** Any schedule, from a new session: what the client finds when it parses the bytes its connection received
      are the first responses written; with one request in flight, these are the results of its first requests.
      The write loop fails only if a call of the sink does, and until then the client has all that was flushed. */
  method Serve(s: Session.Session, w: W.Writer, dst: W.Sink, schedule: seq<Action>) returns (ghost run: seq<Action>)
    requires s.Valid() && s.View() == Init(s.config) && w.buf == [] && dst.out == [] && forall r :: Sized(s.config.exec(r))
    modifies s, w, dst
    ensures s.Valid() && Reaches(s.config, old(s.View()), run, s.View())
    ensures Wire.Wired(s.View().writer, Wire.Wire(w.buf, dst.out))
    ensures Sound(old(dst.plan)) ==> !SessionTheorems.Failed(s.View().writer)
    ensures |Wire.Encoded(s.output)| <= MAX ==>
              && var b := Grammar.ParseAll(dst.out, 0);
              && |b.values| <= |s.output|
              && (forall k | 0 <= k < |b.values| :: b.values[k] == Values.Norm(s.output[k].value))
              && (!SessionTheorems.Failed(s.View().writer) ==>
                    s.flushed <= |s.output| && |b.values| == Streams.Readable(Wire.ValuesOf(s.output[..s.flushed])))
    ensures s.config.maxInFlight == 1 ==> s.output <= Answers(s.config, s.forwarders)
  {
    run := [];
    assert Wire.Wired(s.View().writer, Wire.Wire(w.buf, dst.out));
    assert !SessionTheorems.Failed(s.View().writer);
    hide SessionProofs.Inv, Wire.Wired, Wire.Encoded, Sized, Sound, Enabled, Next, Init, Grammar.ParseAll, Values.Norm, Streams.Readable, SessionTheorems.Failed;
    for i := 0 to |schedule|
      invariant s.Valid() && Reaches(s.config, old(s.View()), run, s.View())
      invariant Wire.Wired(s.View().writer, Wire.Wire(w.buf, dst.out))
      invariant Sound(old(dst.plan)) ==> Sound(dst.plan) && !SessionTheorems.Failed(s.View().writer)
    {
      ghost var view := s.View();
      var moved := Turn(s, w, dst, schedule[i]);
      if moved {
        ghost var b :| Enabled(s.config, view, b) && s.View() == Next(s.config, view, b);
        Session.ReachesSnoc(s.config, old(s.View()), run, view, b);
        run := run + [b];
      }
    }
    if |Wire.Encoded(s.output)| <= MAX {
      Wire.PeerReads(s.View().writer, Wire.Wire(w.buf, dst.out));
    }
    if s.config.maxInFlight == 1 {
      SessionTheorems.SerialAnswers(s.config, s.View());
    }
  }
}
