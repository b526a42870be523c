/** Buffers that hold several values: whole-buffer parsing, and reading a stream in arbitrary pieces. */
module Streams {
  import opened Bytes
  import opened Int64
  import opened Values
  import opened Grammar
  import opened Laws
  import Inline
  import InlineSpelling

  /** Whole-buffer parsing decodes everything up to where it stops, and stops only where no value is. */
  lemma {:induction false} ParseAllDecodes(s: bytes, p: nat)
    requires p <= |s|
    ensures var b := ParseAll(s, p);
            && Decodes(s, p, b.values, b.next)
            && !ParseNext(s, b.next).Complete?
            && b.panicked == ParseNext(s, b.next).Panic?
    decreases |s| - p
  {
    hide ParseNext;
    var r := ParseNext(s, p);
    if r.Complete? {
      ParseAllDecodes(s, r.next);
      assert ParseAll(s, p).values[1..] == ParseAll(s, r.next).values;
    }
  }

  /** Decoded values are what whole-buffer parsing finds first; the rest is what it finds after them. */
  lemma {:induction false} DecodesIsPrefix(s: bytes, p: nat, vs: seq<Value>, q: nat)
    requires p <= |s| && Decodes(s, p, vs, q)
    ensures p <= q <= |s|
    ensures ParseAll(s, p) == ParseAll(s, q).(values := vs + ParseAll(s, q).values)
    decreases |s| - p
  {
    hide ParseNext;
    if vs == [] {
      assert [] + ParseAll(s, q).values == ParseAll(s, q).values;
    } else {
      var n := ParseNext(s, p).next;
      DecodesIsPrefix(s, n, vs[1..], q);
      assert vs + ParseAll(s, q).values == [vs[0]] + (vs[1..] + ParseAll(s, q).values);
    }
  }

  lemma {:induction false} DecodesConcat(s: bytes, p: nat, vs: seq<Value>, q: nat, ws: seq<Value>, r: nat)
    requires p <= |s| && q <= |s| && Decodes(s, p, vs, q) && Decodes(s, q, ws, r)
    ensures Decodes(s, p, vs + ws, r)
    decreases |s| - p
  {
    hide ParseNext;
    if vs == [] {
      assert vs + ws == ws;
    } else {
      DecodesConcat(s, ParseNext(s, p).next, vs[1..], q, ws, r);
      assert (vs + ws)[1..] == vs[1..] + ws;
    }
  }

  /** Parse is ParseOne repeated on what is left: restarting at any position on a buffer cut there
      finds the same values and consumes the same lengths. */
  lemma {:induction false} ParseAllIsRepeatedParseOne(s: bytes, p: nat)
    requires p <= |s| <= MAX
    ensures ParseAll(s, p).values == ParseAll(s[p..], 0).values
    ensures ParseAll(s, p).next == p + ParseAll(s[p..], 0).next
    decreases |s| - p
  {
    hide ParseNext;
    var u := s[p..];
    if ParseNext(s, p).Complete? {
      var k := ParseNext(s, p).next - p;
      assert SameWindow(s, p, u, 0, k) by { SliceOfSlice(s, p, |u|, 0, k); }
      Window(s, p, u, 0, k);
      ParseAllIsRepeatedParseOne(s, p + k);
      ParseAllIsRepeatedParseOne(u, k);
      assert u[k..] == s[p + k..];
    } else if ParseNext(u, 0).Complete? {
      var k := ParseNext(u, 0).next;
      assert SameWindow(u, 0, s, p, k) by { SliceOfSlice(s, p, |u|, 0, k); }
      Window(u, 0, s, p, k);
      assert false;
    }
  }

  /** Whole-buffer parsing runs out of its buffer exactly when the value it stops at gives up at a bulk header
      that overflows the index. */
  lemma ParseAllPanicsExactly(s: bytes, p: nat)
    requires p <= |s|
    ensures ParseAll(s, p).panicked <==> OverflowingBulk(s, GivesUpAt(s, ParseAll(s, p).next))
  {
    hide ParseNext, ParseAll, OverflowingBulk, GivesUpAt;
    ParseAllDecodes(s, p);
    PanicsExactly(s, ParseAll(s, p).next);
  }

  /** The number of values before the first one with a nil array inside. */
  function Readable(vs: seq<Value>): (k: nat)
    ensures k <= |vs|
    ensures (forall v | v in vs :: NoNilArray(v)) ==> k == |vs|
  {
    if vs == [] || !NoNilArray(vs[0]) then 0 else 1 + Readable(vs[1..])
  }

  /** Values serialized one after the other into one buffer parse back, in order, up to the first one with a
      nil array inside; the parser stops there or at the end of the buffer. */
  lemma {:induction false} SerAllReads(vs: seq<Value>, s: bytes, p: nat)
    requires |s| <= MAX && HasAt(s, p, SerAll(vs))
    ensures var k := Readable(vs);
            var q := p + |SerAll(vs[..k])|;
            && Decodes(s, p, NormAll(vs[..k]), q)
            && (k < |vs| || q == |s| ==> ParseAll(s, p) == Batch(NormAll(vs[..k]), q, false))
    decreases vs
  {
    hide ParseNext, Ser, Norm, HasAt, NoNilArray, SerAll, NormAll, ParseAll, Decodes, Readable;
    SerAllTake(vs);
    if vs == [] {
      assert p <= |s| by { HasAtSplit(s, p, [], []); }
      DecodesNone(s, p);
      AtEnd(s);
    } else {
      var q := p + |Ser(vs[0])|;
      HasAtSplit(s, p, Ser(vs[0]), SerAll(vs[1..]));
      assert p <= |s| by { HasAtSplit(s, p, [], Ser(vs[0])); }
      RoundTrip(vs[0], s, p);
      if NoNilArray(vs[0]) {
        SerAllReads(vs[1..], s, q);
        var k := Readable(vs[1..]);
        DecodesCons(s, p, Norm(vs[0]), NormAll(vs[1..][..k]), q + |SerAll(vs[1..][..k])|);
        ParseAllStep(s, p);
      } else {
        DecodesNone(s, p);
      }
    }
  }

  lemma DecodesNone(s: bytes, p: nat)
    requires p <= |s|
    ensures Decodes(s, p, [], p)
    ensures ParseNext(s, p) == Incomplete ==> ParseAll(s, p) == Batch([], p, false)
  {
    hide ParseNext;
  }

  lemma ParseAllStep(s: bytes, p: nat)
    requires p <= |s| && ParseNext(s, p).Complete?
    ensures var r := ParseNext(s, p);
            var b := ParseAll(s, r.next);
            ParseAll(s, p) == Batch([r.value] + b.values, b.next, b.panicked)
  {
    hide ParseNext;
  }

  lemma SerAllTake(vs: seq<Value>)
    ensures var k := Readable(vs);
            if k == 0 then SerAll(vs[..k]) == [] && NormAll(vs[..k]) == []
            else
              var ws := vs[1..][..k - 1];
              && SerAll(vs[..k]) == Ser(vs[0]) + SerAll(ws)
              && NormAll(vs[..k]) == [Norm(vs[0])] + NormAll(ws) && NormAll(vs[..k])[1..] == NormAll(ws)
    ensures vs == [] ==> SerAll(vs) == [] && Readable(vs) == 0
    ensures vs != [] ==> Readable(vs) == if NoNilArray(vs[0]) then 1 + Readable(vs[1..]) else 0
    ensures vs != [] ==> SerAll(vs) == Ser(vs[0]) + SerAll(vs[1..])
  {
    hide Ser, Norm, NoNilArray, SerAll, NormAll;
    var k := Readable(vs);
    SerAllSteps(vs[..k]);
    SerAllSteps(vs);
    if k > 0 {
      assert vs[..k][0] == vs[0] && vs[..k][1..] == vs[1..][..k - 1];
    }
  }

  lemma SerAllSteps(vs: seq<Value>)
    ensures vs == [] ==> SerAll(vs) == [] && NormAll(vs) == []
    ensures vs != [] ==> SerAll(vs) == Ser(vs[0]) + SerAll(vs[1..])
    ensures vs != [] ==> NormAll(vs) == [Norm(vs[0])] + NormAll(vs[1..]) && NormAll(vs)[1..] == NormAll(vs[1..])
  {
    hide Ser, Norm;
  }

  /** Without nil arrays they all parse back, and nothing is left. */
  lemma SerAllParsesBack(vs: seq<Value>, s: bytes, p: nat)
    requires forall v | v in vs :: NoNilArray(v)
    requires |s| <= MAX && HasAt(s, p, SerAll(vs))
    ensures Decodes(s, p, NormAll(vs), p + |SerAll(vs)|)
    ensures p + |SerAll(vs)| == |s| ==> ParseAll(s, p) == Batch(NormAll(vs), |s|, false)
  {
    hide ParseNext, ParseAll, Decodes, NormAll, SerAll, HasAt, NoNilArray;
    SerAllReads(vs, s, p);
    assert vs[..|vs|] == vs;
  }

  /** What is decoded from a buffer is decoded from any longer one that starts with it. */
  lemma {:induction false} DecodesMore(s: bytes, s': bytes, p: nat, vs: seq<Value>, q: nat)
    requires Extends(s, s') && |s'| <= MAX && p <= |s| && Decodes(s, p, vs, q)
    ensures Decodes(s', p, vs, q)
    decreases |s| - p
  {
    hide ParseNext, Extends;
    ExtendsWindow(s, s', p, |s| - p);
    if vs != [] {
      var n := ParseNext(s, p).next;
      ExtendsWindow(s, s', p, n - p);
      Window(s, p, s', p, n - p);
      DecodesMore(s, s', n, vs[1..], q);
    }
  }

  /** Whatever part of a stream has arrived, its values are the first ones of the stream. */
  lemma PartParses(s: bytes, s': bytes)
    requires Extends(s, s') && |s'| <= MAX
    ensures ParseAll(s, 0).values <= ParseAll(s', 0).values
  {
    hide ParseNext, Decodes, Extends;
    var b := ParseAll(s, 0);
    ParseAllDecodes(s, 0);
    DecodesMore(s, s', 0, b.values, b.next);
    DecodesIsPrefix(s', 0, b.values, b.next);
  }

  lemma AtEnd(s: bytes)
    ensures ParseNext(s, |s|) == Incomplete
  {
  }

  /** An inline command, spelled in any way on one line that starts with no type byte, parses to exactly its
      arguments, whatever follows. */
  lemma InlineRoundTrip(l: InlineSpelling.Line, tail: bytes)
    requires l.Fits(true) && NoCrlf(l.Text()) && (l.Text() != [] ==> !IsTyped(l.Text()[0]))
    ensures var args := l.Arguments();
            ParseNext(l.Text() + CRLF + tail, 0) ==
            Complete(if args == [] then NilArray else Array(Bulks(args)), |l.Text()| + 2)
  {
    hide Inline.Tokens, ParseNext;
    InlineSpelling.LineReads(l, true);
    var s := l.Text() + CRLF + tail;
    assert HasAt(s, 0, l.Text() + CRLF);
    InlineMeans(s, 0, l.Text());
  }

  /** In particular one that is printed with every argument quoted. */
  lemma PrintRoundTrip(args: seq<bytes>, q: byte, tail: bytes)
    requires Inline.IsQuote(q)
    ensures var text := InlineSpelling.Print(args, q, true).Text() + CRLF;
            ParseNext(text + tail, 0) == Complete(if args == [] then NilArray else Array(Bulks(args)), |text|)
  {
    hide ParseNext;
    var l := InlineSpelling.Print(args, q, true);
    InlineSpelling.PrintSpells(args, q, true);
    assert args != [] ==> l.Text()[0] == q;
    InlineRoundTrip(l, tail);
  }

  /** What one Reader.Read call saw and did: the bytes its source delivered, then either a value, or
      an error that came along with the last `late` of those bytes. */
  datatype ReadEvent =
    | Got(value: Value, data: bytes)
    | Failed(data: bytes, late: nat)

  /** The event is one the reader can have on the buffer `buf`. */
  predicate IsRead(buf: bytes, e: ReadEvent) {
    var all := buf + e.data;
    match e
    case Got(v, _) => ParseNext(all, 0).Complete? && ParseNext(all, 0).value == v
    case Failed(d, late) => late <= |d| && ParseNext(all[..|all| - late], 0) == Incomplete
  }

  /** The reader's buffer after the event. */
  function BufferAfter(buf: bytes, e: ReadEvent): bytes
    requires IsRead(buf, e)
  {
    var all := buf + e.data;
    if e.Got? then all[ParseNext(all, 0).next..] else all
  }

  predicate IsHistory(buf: bytes, es: seq<ReadEvent>)
    decreases |es|
  {
    es == [] || (IsRead(buf, es[0]) && IsHistory(BufferAfter(buf, es[0]), es[1..]))
  }

  function FinalBuffer(buf: bytes, es: seq<ReadEvent>): bytes
    requires IsHistory(buf, es)
    decreases |es|
  {
    if es == [] then buf else FinalBuffer(BufferAfter(buf, es[0]), es[1..])
  }

  function Received(es: seq<ReadEvent>): bytes {
    if es == [] then [] else es[0].data + Received(es[1..])
  }

  function Returned(es: seq<ReadEvent>): seq<Value> {
    if es == [] then []
    else if es[0].Got? then [es[0].value] + Returned(es[1..])
    else Returned(es[1..])
  }

  /** The bytes of a stream that a buffer and further deliveries make up, after a value is taken off. */
  lemma TakeOff(total: bytes, p: nat, all: bytes, rest: bytes, n: nat)
    requires p <= |total| && total[p..] == all + rest && n <= |all|
    ensures p + n <= |total| && total[p + n..] == all[n..] + rest
    ensures SameWindow(all, 0, total, p, n)
  {
    var u := total[p..];
    assert |u| == |all| + |rest|;
    assert total[p + n..] == u[n..] == all[n..] + rest;
    SliceOfSlice(total, p, |u|, 0, n);
    assert u[0..n] == all[0..n];
  }

  lemma HistoryStep(buf: bytes, es: seq<ReadEvent>)
    requires IsHistory(buf, es) && es != []
    ensures IsRead(buf, es[0]) && IsHistory(BufferAfter(buf, es[0]), es[1..])
    ensures FinalBuffer(buf, es) == FinalBuffer(BufferAfter(buf, es[0]), es[1..])
    ensures Received(es) == es[0].data + Received(es[1..])
    ensures Returned(es) == if es[0].Got? then [es[0].value] + Returned(es[1..]) else Returned(es[1..])
    ensures var all := buf + es[0].data;
            if es[0].Got? then ParseNext(all, 0).Complete? && ParseNext(all, 0).value == es[0].value
                               && BufferAfter(buf, es[0]) == all[ParseNext(all, 0).next..]
            else BufferAfter(buf, es[0]) == all
  {
    hide ParseNext;
  }

  lemma HistoryNone(buf: bytes, total: bytes, p: nat)
    requires p <= |total|
    ensures IsHistory(buf, []) && FinalBuffer(buf, []) == buf && Received([]) == [] && Returned([]) == []
    ensures Decodes(total, p, [], p)
  {
  }

  /** A history goes on with any read the buffer it leaves allows. */
  lemma {:induction false} HistorySnoc(buf: bytes, es: seq<ReadEvent>, e: ReadEvent)
    requires IsHistory(buf, es) && IsRead(FinalBuffer(buf, es), e)
    ensures IsHistory(buf, es + [e])
    ensures FinalBuffer(buf, es + [e]) == BufferAfter(FinalBuffer(buf, es), e)
    ensures Received(es + [e]) == Received(es) + e.data
    ensures Returned(es + [e]) == if e.Got? then Returned(es) + [e.value] else Returned(es)
    decreases |es|
  {
    hide ParseNext, IsRead, BufferAfter;
    if es == [] {
      assert [] + [e] == [e];
      assert IsHistory(BufferAfter(buf, e), []);
    } else {
      HistoryStep(buf, es);
      HistorySnoc(BufferAfter(buf, es[0]), es[1..], e);
      Associative(es[0].data, Received(es[1..]), e.data);
      assert (es + [e])[1..] == es[1..] + [e];
    }
  }

  /** Returning a value takes at least one byte. */
  lemma BufferShrinks(buf: bytes, e: ReadEvent)
    requires IsRead(buf, e) && e.Got?
    ensures |BufferAfter(buf, e)| < |buf| + |e.data|
  {
    hide ParseNext;
  }

  lemma DecodesCons(s: bytes, p: nat, v: Value, vs: seq<Value>, q: nat)
    requires p <= |s| && ParseNext(s, p).Complete? && ParseNext(s, p).value == v
    requires Decodes(s, ParseNext(s, p).next, vs, q)
    ensures Decodes(s, p, [v] + vs, q)
  {
    hide ParseNext;
    assert ([v] + vs)[1..] == vs;
  }

  /** Along any history, from position `p` of the whole stream on: the bytes consumed are exactly
      the values returned, and the buffer is all of the stream that was not consumed. */
  lemma {:induction false} HistoryDecodes(total: bytes, p: nat, buf: bytes, es: seq<ReadEvent>)
    requires IsHistory(buf, es)
    requires p <= |total| <= MAX && total[p..] == buf + Received(es)
    ensures Accounted(total, p, Returned(es), FinalBuffer(buf, es))
    decreases |es|, 1
  {
    hide ParseNext, IsHistory, IsRead, BufferAfter, FinalBuffer, Received, Returned, Decodes;
    if es == [] {
      HistoryNone(buf, total, p);
      assert buf + [] == buf;
    } else {
      HistoryStep(buf, es);
      Associative(buf, es[0].data, Received(es[1..]));
      if es[0].Got? {
        HistoryDecodesGot(total, p, buf, es);
      } else {
        HistoryDecodes(total, p, buf + es[0].data, es[1..]);
      }
    }
  }

  lemma {:induction false} HistoryDecodesGot(total: bytes, p: nat, buf: bytes, es: seq<ReadEvent>)
    requires IsHistory(buf, es) && es != [] && es[0].Got?
    requires p <= |total| <= MAX && total[p..] == (buf + es[0].data) + Received(es[1..])
    ensures Accounted(total, p, Returned(es), FinalBuffer(buf, es))
    decreases |es|, 0
  {
    hide ParseNext, SameWindow, IsHistory, IsRead, BufferAfter, FinalBuffer, Received, Returned, Decodes;
    HistoryStep(buf, es);
    var all := buf + es[0].data;
    var n := ParseNext(all, 0).next;
    TakeOff(total, p, all, Received(es[1..]), n);
    Window(all, 0, total, p, n);
    HistoryDecodes(total, p + n, all[n..], es[1..]);
    DecodesCons(total, p, es[0].value, Returned(es[1..]), |total| - |FinalBuffer(buf, es)|);
  }

  lemma Associative(a: bytes, b: bytes, c: bytes)
    ensures a + (b + c) == (a + b) + c
  {
  }

  /** From `p` on, `total` is exactly the values `vs` followed by `rest`. */
  predicate Accounted(total: bytes, p: nat, vs: seq<Value>, rest: bytes)
    requires p <= |total|
  {
    var q := |total| - |rest|;
    p <= q && total[q..] == rest && Decodes(total, p, vs, q)
  }

  /** From any buffer the reader starts with, and with more bytes received than were yet parsed: the values
      returned are the first ones of all these bytes; and if the buffer that they leave starts with no complete
      value, they are all there are. */
  lemma HistoryParses(buf: bytes, es: seq<ReadEvent>, more: bytes)
    requires IsHistory(buf, es) && |buf + Received(es) + more| <= MAX
    ensures var b := ParseAll(buf + Received(es) + more, 0);
            var r := ParseNext(FinalBuffer(buf, es) + more, 0);
            && Returned(es) <= b.values
            && (!r.Complete? ==> b.values == Returned(es))
            && (r.Panic? ==> b.panicked)
  {
    hide ParseNext, ParseAll, IsHistory, FinalBuffer, Received, Returned, Decodes, Extends;
    var part, vs, rest := buf + Received(es), Returned(es), FinalBuffer(buf, es);
    var total := part + more;
    assert part[0..] == part;
    HistoryDecodes(part, 0, buf, es);
    var q := |part| - |rest|;
    LongerExtends(part, more);
    DecodesMore(part, total, 0, vs, q);
    DecodesIsPrefix(total, 0, vs, q);
    var left := rest + more;
    assert total[q..] == left;
    if !ParseNext(left, 0).Complete? {
      ParseAllIsRepeatedParseOne(total, q);
      ParseAllStops(left, 0);
      assert vs + [] == vs;
    }
    if ParseNext(left, 0).Panic? {
      PanicStable(left, 0, total, q);
      ParseAllStops(total, q);
    }
  }

  /** What a part of a stream decides at its start, the whole stream does. */
  lemma PartDecides(s: bytes, more: bytes)
    requires |s + more| <= MAX && ParseNext(s, 0) != Incomplete
    ensures ParseNext(s + more, 0) == ParseNext(s, 0)
  {
    hide ParseNext, Extends;
    LongerExtends(s, more);
    ExtendsWindow(s, s + more, 0, |s|);
    match ParseNext(s, 0)
    case Complete(_, n) =>
      ExtendsWindow(s, s + more, 0, n);
      Window(s, 0, s + more, 0, n);
    case Panic => PanicStable(s, 0, s + more, 0);
  }

  lemma LongerExtends(s: bytes, more: bytes)
    ensures Extends(s, s + more)
  {
  }

  lemma ParseAllStops(s: bytes, p: nat)
    requires p <= |s| && !ParseNext(s, p).Complete?
    ensures ParseAll(s, p) == Batch([], p, ParseNext(s, p).Panic?)
  {
  }

  /** The last read failed and brought no data with its error. */
  predicate EndsDry(es: seq<ReadEvent>) {
    es != [] && es[|es| - 1].Failed? && es[|es| - 1].late == 0
  }

  /** Chunking independence: however the stream is cut into reads, the values returned are the
      first ones whole-buffer parsing finds in the bytes received so far, and consumed bytes followed
      by the buffer are the bytes received; once a read fails without bringing data the values are
      all there are, and the buffer is exactly what parsing leaves over. */
  lemma ChunkingIndependence(es: seq<ReadEvent>)
    requires IsHistory([], es) && |Received(es)| <= MAX
    ensures |FinalBuffer([], es)| <= |Received(es)|
    ensures Received(es)[|Received(es)| - |FinalBuffer([], es)|..] == FinalBuffer([], es)
    ensures Returned(es) <= ParseAll(Received(es), 0).values
    ensures EndsDry(es) ==> Returned(es) == ParseAll(Received(es), 0).values
    ensures EndsDry(es) ==> FinalBuffer([], es) == Received(es)[ParseAll(Received(es), 0).next..]
  {
    hide ParseNext, IsHistory, FinalBuffer, Received, Returned, Decodes;
    var total := Received(es);
    assert total[0..] == [] + total;
    HistoryDecodes(total, 0, [], es);
    var q := |total| - |FinalBuffer([], es)|;
    DecodesIsPrefix(total, 0, Returned(es), q);
    if EndsDry(es) {
      FailedLeavesNothing([], es);
      ParseAllIsRepeatedParseOne(total, q);
    }
  }

  /** After a failure that brought no data the buffer holds no complete value. */
  lemma {:induction false} FailedLeavesNothing(buf: bytes, es: seq<ReadEvent>)
    requires IsHistory(buf, es) && EndsDry(es)
    ensures ParseNext(FinalBuffer(buf, es), 0) == Incomplete
    decreases |es|
  {
    hide ParseNext;
    if |es| == 1 {
      assert es[1..] == [];
      var all := buf + es[0].data;
      assert all[..|all|] == all;
      assert FinalBuffer(all, es[1..]) == all;
    } else {
      FailedLeavesNothing(BufferAfter(buf, es[0]), es[1..]);
    }
  }

  /** Two ways of cutting the same stream agree on every value and on the bytes left over. */
  lemma CutsAgree(es: seq<ReadEvent>, fs: seq<ReadEvent>)
    requires IsHistory([], es) && IsHistory([], fs)
    requires Received(es) == Received(fs) && |Received(es)| <= MAX
    requires EndsDry(es) && EndsDry(fs)
    ensures Returned(es) == Returned(fs) && FinalBuffer([], es) == FinalBuffer([], fs)
  {
    ChunkingIndependence(es);
    ChunkingIndependence(fs);
  }
}
