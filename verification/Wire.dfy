/** What the write loop of a session and the writer of its connection put on the wire. */
module Wire {
  import opened Bytes
  import opened Int64
  import Values
  import Grammar
  import Laws
  import Streams
  import S = SessionModel
  import SP = SessionProofs
  import ST = SessionTheorems

  /** The buffer of the connection's writer, and the bytes its peer has received. */
  datatype Wire = Wire(buf: bytes, out: bytes)

  function ValuesOf(rs: seq<S.Response>): (vs: seq<Values.Value>)
    ensures |vs| == |rs| && forall i | 0 <= i < |rs| :: vs[i] == rs[i].value
  {
    seq(|rs|, i requires 0 <= i < |rs| => rs[i].value)
  }

  /** The encoding of some responses, one after the other. */
  function Encoded(rs: seq<S.Response>): bytes {
    Values.SerAll(ValuesOf(rs))
  }

  /** What a step of the session does to its wire. Write puts the response into the buffer and does not fail;
      Flush hands on the buffer, or a part of it when it fails, and clears it. */
  predicate WireStep(d: S.Writer, a: S.Action, w: Wire, v: Wire) {
    if !a.WriteLoop? then v == w
    else
      match a.write
      case WriteOk => d.batch != [] && v == Wire(w.buf + Values.Ser(d.batch[|d.batch| - 1].value), w.out)
      case WriteFail => false
      case FlushOk => v == Wire([], w.out + w.buf)
      case FlushFail => v.buf == [] && w.out <= v.out <= w.out + w.buf
      case _ => v == w
  }

  /** The peer has the responses that were flushed, the buffer those written since; after a failed flush the
      peer may have a part of the rest. */
  predicate Wired(d: S.Writer, w: Wire) {
    && d.flushed <= |d.written|
    && if ST.Failed(d) then w.buf == [] && Encoded(d.written[..d.flushed]) <= w.out <= Encoded(d.written)
       else w.out == Encoded(d.written[..d.flushed]) && w.buf == Encoded(d.written[d.flushed..])
  }

  lemma EncodedAppend(rs: seq<S.Response>, r: S.Response)
    ensures Encoded(rs + [r]) == Encoded(rs) + Values.Ser(r.value)
  {
    Values.SerAllAppend(ValuesOf(rs), r.value);
    assert ValuesOf(rs + [r]) == ValuesOf(rs) + [r.value];
  }

  lemma {:induction false} EncodedConcat(rs: seq<S.Response>, ts: seq<S.Response>)
    ensures Encoded(rs + ts) == Encoded(rs) + Encoded(ts)
  {
    hide Encoded;
    if ts == [] {
      assert rs + ts == rs;
      EncodedNone();
    } else {
      var n := |ts| - 1;
      EncodedConcat(rs, ts[..n]);
      EncodedAppend(rs + ts[..n], ts[n]);
      EncodedAppend(ts[..n], ts[n]);
      assert rs + ts == (rs + ts[..n]) + [ts[n]] && ts == ts[..n] + [ts[n]];
      Streams.Associative(Encoded(rs), Encoded(ts[..n]), Values.Ser(ts[n].value));
    }
  }

  lemma EncodedNone()
    ensures Encoded([]) == []
  {
  }

  lemma WriteWired(d: S.Writer, w: Wire, r: S.Response)
    requires Wired(d, w) && !ST.Failed(d)
    ensures Wired(d.(pc := S.Draining, written := d.written + [r]), w.(buf := w.buf + Values.Ser(r.value)))
  {
    hide Encoded;
    var rs := d.written + [r];
    EncodedAppend(d.written[d.flushed..], r);
    assert rs[..d.flushed] == d.written[..d.flushed] && rs[d.flushed..] == d.written[d.flushed..] + [r];
  }

  lemma FlushWired(d: S.Writer, w: Wire, v: Wire)
    requires Wired(d, w) && !ST.Failed(d) && v.buf == []
    ensures v.out == w.out + w.buf ==> Wired(d.(pc := S.Releasing(false), flushed := |d.written|), v)
    ensures w.out <= v.out <= w.out + w.buf ==> Wired(d.(pc := S.Releasing(true)), v)
  {
    hide Encoded;
    EncodedConcat(d.written[..d.flushed], d.written[d.flushed..]);
    EncodedNone();
    assert d.written[..d.flushed] + d.written[d.flushed..] == d.written;
    assert d.written[..|d.written|] == d.written && d.written[|d.written|..] == [];
  }

  lemma WiredStep(c: S.Config, s: S.State, a: S.Action, w: Wire, v: Wire)
    requires SP.Written(s.writer, s.queue, s.accepted) && S.Enabled(c, s, a)
    requires Wired(s.writer, w) && WireStep(s.writer, a, w, v)
    ensures Wired(S.Next(c, s, a).writer, v)
  {
    hide Encoded, Values.Ser, SP.Batched;
    var d := s.writer;
    match a
    case WriteLoop(x) =>
      match x {
        case WriteOk => WriteWired(d, w, d.batch[|d.batch| - 1]);
        case FlushOk => FlushWired(d, w, v);
        case FlushFail => FlushWired(d, w, v);
        case _ =>
      }
    case _ =>
  }

  lemma OutIsPart(d: S.Writer, w: Wire)
    requires Wired(d, w)
    ensures Laws.Extends(w.out, Encoded(d.written))
  {
    hide Encoded;
    EncodedConcat(d.written[..d.flushed], d.written[d.flushed..]);
    assert d.written[..d.flushed] + d.written[d.flushed..] == d.written;
  }

  lemma EncodedReads(rs: seq<S.Response>)
    requires |Encoded(rs)| <= MAX
    ensures var k := Streams.Readable(ValuesOf(rs));
            var b := Grammar.ParseAll(Encoded(rs), 0);
            !b.panicked && b.values == Values.NormAll(ValuesOf(rs)[..k])
  {
    hide Values.SerAll, Values.NormAll, Values.NoNilArray, Grammar.ParseAll;
    var sent, vs := Encoded(rs), ValuesOf(rs);
    assert sent[0..|sent|] == sent;
    Streams.SerAllReads(vs, sent, 0);
    assert vs[..|vs|] == vs;
  }

  /** What the peer finds when it parses what it has received: the first responses written, as they read on the
      wire; and unless the writer failed, all that were flushed, up to the first with a nil array inside. */
  lemma PeerReads(d: S.Writer, w: Wire)
    requires Wired(d, w) && |Encoded(d.written)| <= MAX
    ensures var b := Grammar.ParseAll(w.out, 0);
            && |b.values| <= |d.written|
            && (forall k | 0 <= k < |b.values| :: b.values[k] == Values.Norm(d.written[k].value))
            && (!ST.Failed(d) ==> !b.panicked && |b.values| == Streams.Readable(ValuesOf(d.written[..d.flushed])))
  {
    hide Encoded, Values.Norm, Values.NoNilArray, Grammar.ParseAll, Laws.Extends, Streams.Readable;
    EncodedReads(d.written);
    OutIsPart(d, w);
    Streams.PartParses(w.out, Encoded(d.written));
    if !ST.Failed(d) {
      assert |w.out| <= MAX by {
        assert Laws.Extends(w.out, Encoded(d.written));
        OutIsShorter(w.out, Encoded(d.written));
      }
      EncodedReads(d.written[..d.flushed]);
    }
  }

  lemma OutIsShorter(s: bytes, t: bytes)
    requires Laws.Extends(s, t)
    ensures |s| <= |t|
  {
  }
}
