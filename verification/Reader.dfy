/** The incremental reader of internal/protocol/parser.go over an arbitrary source and a memory scope. */
module Reader {
  import opened Bytes
  import opened Int64
  import opened Views
  import Grammar
  import Streams
  import P = Parser

  const DEFAULT_READ_BUFFER_SIZE: nat := 4096

  /** A memory scope: it hands out fresh memory of at least the requested size. */
  class Scope {
    constructor ()
    {
    }

    method Get(n: nat) returns (a: array<byte>)
      ensures fresh(a) && n <= a.Length
    {
      var spare :| 0 <= spare;
      a := new byte[n + spare];
    }
  }

  /** Some bytes of a source, and whether an error comes with the last of them. */
  datatype Delivery = Delivery(data: bytes, failed: bool)

  function Stream(ds: seq<Delivery>): bytes {
    if ds == [] then [] else ds[0].data + Stream(ds[1..])
  }

  lemma {:induction false} StreamConcat(ds: seq<Delivery>, es: seq<Delivery>)
    ensures Stream(ds + es) == Stream(ds) + Stream(es)
  {
    StreamStep(ds);
    StreamStep(ds + es);
    hide Stream;
    if ds == [] {
      assert ds + es == es;
    } else {
      StreamConcat(ds[1..], es);
      assert (ds + es)[1..] == ds[1..] + es;
      Streams.Associative(ds[0].data, Stream(ds[1..]), Stream(es));
    }
  }

  lemma StreamStep(ds: seq<Delivery>)
    ensures Stream(ds) == if ds == [] then [] else ds[0].data + Stream(ds[1..])
  {
  }

  lemma StreamSnoc(ds: seq<Delivery>, d: Delivery)
    ensures Stream(ds + [d]) == Stream(ds) + d.data
  {
    StreamConcat(ds, [d]);
    assert [d][1..] == [] && d.data + [] == d.data;
  }

  /** None of the deliveries comes with an error; only the last one does. */
  predicate Clean(ds: seq<Delivery>) {
    forall i | 0 <= i < |ds| :: !ds[i].failed
  }

  predicate Failing(ds: seq<Delivery>) {
    ds != [] && ds[|ds| - 1].failed && Clean(ds[..|ds| - 1])
  }

  /** An error comes at the end only, and without bytes. */
  predicate Healthy(ds: seq<Delivery>) {
    forall i | 0 <= i < |ds| :: ds[i].failed ==> i == |ds| - 1 && ds[i].data == []
  }

  /** An io.Reader: a byte stream cut up in any way, with errors anywhere, and an error at its end. The log holds
      what each call returned. */
  class Source {
    var deliveries: seq<Delivery>
    ghost var log: seq<Delivery>

    constructor (ds: seq<Delivery>)
      ensures deliveries == ds && log == []
    {
      deliveries := ds;
      log := [];
    }

    method Read(chunk: array<byte>) returns (n: nat, failed: bool)
      requires 0 < chunk.Length
      modifies this, chunk
      ensures n <= chunk.Length && log == old(log) + [Delivery(chunk[..n], failed)]
      ensures old(Stream(deliveries)) == chunk[..n] + Stream(deliveries)
      ensures failed <==> old(deliveries) == [] || (old(deliveries)[0].failed && |old(deliveries)[0].data| <= chunk.Length)
      ensures Healthy(old(deliveries)) ==> Healthy(deliveries) && (failed ==> deliveries == [] && n == 0)
      ensures |deliveries| < old(|deliveries|) || |Stream(deliveries)| < old(|Stream(deliveries)|) || old(deliveries) == []
      ensures |deliveries| <= old(|deliveries|)
    {
      if deliveries == [] {
        assert chunk[..0] == [];
        log := log + [Delivery([], true)];
        return 0, true;
      }
      var d := deliveries[0];
      n := if |d.data| <= chunk.Length then |d.data| else chunk.Length;
      forall i | 0 <= i < n {
        chunk[i] := d.data[i];
      }
      assert chunk[..n] == d.data[..n];
      if n == |d.data| {
        failed := d.failed;
        deliveries := deliveries[1..];
        assert d.data[..n] == d.data;
      } else {
        failed := false;
        assert d.data == d.data[..n] + d.data[n..];
        deliveries := [Delivery(d.data[n..], d.failed)] + deliveries[1..];
        assert deliveries[1..] == old(deliveries)[1..];
      }
      log := log + [Delivery(d.data[..n], failed)];
    }
  }

  /** Copies the memory a value refers to into the scope. */
  method CopyValueIntoScope(scope: Scope, v: RespValue) returns (w: RespValue)
    requires Valid(v)
    ensures Valid(w) && Contents(w) == old(Contents(v))
    ensures forall a | a in Arrays(w) :: fresh(a)
    decreases v, 1
  {
    match v
    case BulkString(b) =>
      var dup := scope.Get(b.hi - b.lo);
      forall i | 0 <= i < b.hi - b.lo {
        dup[i] := b.arr[b.lo + i];
      }
      w := BulkString(Slice(dup, 0, b.hi - b.lo));
      assert w.bulk.Bytes() == old(b.Bytes());
    case Array(es) =>
      if |es| == 0 {
        return v;
      }
      w := CopyElements(scope, es);
    case _ =>
      w := v;
  }

  method CopyElements(scope: Scope, es: seq<RespValue>) returns (w: RespValue)
    requires forall e | e in es :: Valid(e)
    ensures Valid(w) && Contents(w) == old(Contents(Array(es)))
    ensures forall a | a in Arrays(w) :: fresh(a)
    decreases es, 0
  {
    hide Views.Contents, Views.ContentsAll, Views.Arrays, Views.ArraysAll, Views.Valid;
    var arr: seq<RespValue> := [];
    NoElements();
    assert es[..0] == [];
    ArraysAllAllocated(es);
    for i := 0 to |es|
      invariant (forall e | e in arr :: Valid(e)) && ContentsAll(arr) == ContentsAll(es[..i])
      invariant forall a | a in ArraysAll(arr) :: fresh(a)
    {
      ArraysAllAllocated(arr);
      ArraysAllPrefix(es, i);
      label before:
      var e := CopyValueIntoScope(scope, es[i]);
      ContentsAllFrame@before(arr);
      ContentsAllFrame@before(es[..i]);
      assert es[..i + 1] == es[..i] + [es[i]];
      ContentsAllSnoc(arr, e);
      ContentsAllSnoc(es[..i], es[i]);
      ArraysAllPrefix(es, i + 1);
      ContentsFrame@before(es[i]);
      arr := arr + [e];
    }
    assert es[..|es|] == es;
    ArrayContents(es);
    ArrayContents(arr);
    ContentsFrame(Array(es));
    w := Array(arr);
  }

  /** What one call of Read came to. */
  datatype ReadOutcome = Parsed(value: RespValue) | Failed | NoScope | Panicked

  /** The content of the value read, if there is one. */
  ghost function Content(out: ReadOutcome): Value
    reads if out.Parsed? then Arrays(out.value) else {}
  {
    if out.Parsed? && Views.Valid(out.value) then Contents(out.value) else Values.Null
  }

  class Reader {
    var parser: P.Parser
    var buf: array<byte>
    var len: nat

    ghost predicate Valid()
      reads this
    {
      len <= buf.Length && len < MAX
    }

    ghost function Buffered(): bytes
      requires Valid()
      reads this, buf
    {
      buf[..len]
    }

    constructor ()
      ensures Valid() && Buffered() == []
      ensures fresh(parser) && fresh(buf)
    {
      parser := new P.Parser();
      buf := new byte[0];
      len := 0;
    }

    /** Drops the first `consumed` bytes of the buffer, shifting the rest down in place. */
    method Compact(consumed: nat)
      requires Valid() && consumed <= len
      modifies this`len, buf
      ensures Valid() && Buffered() == old(Buffered())[consumed..]
    {
      if consumed >= len {
        len := 0;
        return;
      }
      var rest := len - consumed;
      ghost var was := Buffered();
      var i := 0;
      while i < rest
        invariant 0 <= i <= rest && len == old(len) && |was| == len
        invariant forall j | 0 <= j < i :: buf[j] == was[consumed + j]
        invariant forall j | i <= j < len :: buf[j] == was[j]
      {
        buf[i] := buf[consumed + i];
        i := i + 1;
      }
      len := rest;
      assert forall j | 0 <= j < rest :: was[consumed..][j] == was[consumed + j];
    }

    /** Appends the first `n` bytes of `chunk`, in place or, when they do not fit, in a new array. */
    method Append(chunk: array<byte>, n: nat)
      requires Valid() && n <= chunk.Length && len + n < MAX && chunk != buf
      modifies this`len, this`buf, buf
      ensures Valid() && Buffered() == old(Buffered()) + chunk[..n]
      ensures buf == old(buf) || fresh(buf)
    {
      ghost var was := Buffered();
      if buf.Length < len + n {
        var bigger := new byte[2 * len + n];
        forall i | 0 <= i < len {
          bigger[i] := buf[i];
        }
        buf := bigger;
        assert buf[..len] == was;
      }
      forall i | 0 <= i < n {
        buf[len + i] := chunk[i];
      }
      len := len + n;
      assert buf[..len] == was + chunk[..n];
    }

    /** Copies a parsed value out of the buffer, then drops its bytes. */
    method TakeOut(scope: Scope, v: RespValue, consumed: nat) returns (value: RespValue)
      requires Valid() && consumed <= len && Views.Valid(v)
      modifies this`len, buf
      ensures Valid() && Buffered() == old(Buffered())[consumed..]
      ensures Views.Valid(value) && Contents(value) == old(Contents(v))
      ensures forall a | a in Arrays(value) :: fresh(a) && a != buf
    {
      hide Views.Contents, Views.Arrays, Views.Valid;
      value := CopyValueIntoScope(scope, v);
      ArraysAllocated(value);
      assert forall a | a in Arrays(value) :: a != buf;
      label copied:
      Compact(consumed);
      ContentsFrame@copied(value);
    }

    /** Reads one more piece of the source and appends it to the buffer. */
    method Refill(src: Source, scope: Scope) returns (failed: bool, ghost piece: bytes)
      requires Valid() && len + |Stream(src.deliveries)| < MAX
      modifies this`len, this`buf, buf, src
      ensures Valid() && (buf == old(buf) || fresh(buf))
      ensures Buffered() == old(Buffered()) + piece
      ensures src.log == old(src.log) + [Delivery(piece, failed)]
      ensures old(Stream(src.deliveries)) == piece + Stream(src.deliveries)
      ensures Healthy(old(src.deliveries)) ==> Healthy(src.deliveries) && (failed ==> src.deliveries == [] && piece == [])
      ensures failed || |src.deliveries| < old(|src.deliveries|) ||
              (|src.deliveries| == old(|src.deliveries|) && |Stream(src.deliveries)| < old(|Stream(src.deliveries)|))
    {
      hide Stream, Healthy;
      var chunk := scope.Get(DEFAULT_READ_BUFFER_SIZE);
      var n;
      n, failed := src.Read(chunk);
      piece := chunk[..n];
      if 0 < n {
        Append(chunk, n);
      }
    }

    /** Parses one value from the buffer, and takes it out if there is one. */
    method TakeNext(scope: Scope) returns (st: P.Status, value: RespValue)
      requires Valid()
      modifies this`len, buf, parser
      ensures Valid()
      ensures var r := Grammar.ParseNext(old(Buffered()), 0);
              match st
              case NeedMore => r == Grammar.Incomplete && Buffered() == old(Buffered())
              case Panicked => r == Grammar.Panic
              case Done =>
                && Views.Valid(value) && r.Complete? && r.value == Contents(value) && Buffered() == old(Buffered())[r.next..]
                && forall a | a in Arrays(value) :: fresh(a) && a != buf
    {
      hide Grammar.ParseNext, Views.Contents, Views.Arrays, Views.Valid;
      value := Null;
      var v, consumed;
      st, v, consumed := parser.ParseOne(buf, len);
      if st == P.Done {
        value := TakeOut(scope, v, consumed);
      }
    }

    /** Reads the next value; `got` is what the calls of `src` returned meanwhile. The source is read only while
        the buffer holds no complete value, and an error is returned exactly when one of these calls, the last,
        brought it. So with a source whose errors come at its end, the outcome is the one that the buffer and
        all that the source will deliver determine. */
    method Read(src: Source, scope: Scope?) returns (out: ReadOutcome, ghost got: seq<Delivery>)
      requires Valid() && len + |Stream(src.deliveries)| < MAX
      modifies this, buf, parser, src
      ensures Valid() && (buf == old(buf) || fresh(buf)) && parser == old(parser)
      ensures src.log == old(src.log) + got && Needed(old(Buffered()), got)
      ensures old(Stream(src.deliveries)) == Stream(got) + Stream(src.deliveries)
      ensures out.NoScope? <==> scope == null
      ensures Ended(out, Content(out), old(Buffered()), got, Buffered())
      ensures out.Parsed? ==> Views.Valid(out.value) && forall a | a in Arrays(out.value) :: fresh(a) && a != buf
      ensures Healthy(old(src.deliveries)) ==> Healthy(src.deliveries)
      ensures Healthy(old(src.deliveries)) && scope != null ==>
                match Grammar.ParseNext(old(Buffered()) + old(Stream(src.deliveries)), 0)
                case Complete(v, _) => out.Parsed? && Contents(out.value) == v
                case Panic => out.Panicked?
                case Incomplete => out.Failed? && src.deliveries == [] && got[|got| - 1].data == []
    {
      if scope == null {
        NeededNone(Buffered(), Stream(src.deliveries));
        return NoScope, [];
      }
      hide Grammar.ParseNext, Stream, Healthy, Needed, Views.Contents, Views.Arrays, Views.Valid;
      out, got := ReadLoop(src, scope);
      Settled(old(Buffered()), got, Stream(src.deliveries), out, Content(out), Buffered());
    }

    /** The loop of Read. */
    method ReadLoop(src: Source, scope: Scope) returns (out: ReadOutcome, ghost got: seq<Delivery>)
      requires Valid() && len + |Stream(src.deliveries)| < MAX
      modifies this, buf, parser, src
      ensures Valid() && (buf == old(buf) || fresh(buf)) && parser == old(parser)
      ensures src.log == old(src.log) + got && Needed(old(Buffered()), got)
      ensures old(Stream(src.deliveries)) == Stream(got) + Stream(src.deliveries)
      ensures !out.NoScope? && Ended(out, Content(out), old(Buffered()), got, Buffered())
      ensures out.Parsed? ==> Views.Valid(out.value) && forall a | a in Arrays(out.value) :: fresh(a) && a != buf
      ensures Healthy(old(src.deliveries)) ==>
                Healthy(src.deliveries) && (out.Failed? ==> src.deliveries == [] && got[|got| - 1].data == [])
    {
      NeededNone(Buffered(), Stream(src.deliveries));
      hide Grammar.ParseNext, Stream, Healthy, Needed, Clean, Failing, Ended, Views.Contents, Views.Arrays, Views.Valid;
      got := [];
      ghost var before := Buffered();
      while true
        invariant Valid() && (buf == old(buf) || fresh(buf)) && parser == old(parser)
        invariant src.log == old(src.log) + got && Needed(before, got) && Clean(got)
        invariant Buffered() == before + Stream(got)
        invariant old(Stream(src.deliveries)) == Stream(got) + Stream(src.deliveries)
        invariant Healthy(old(src.deliveries)) ==> Healthy(src.deliveries)
        decreases |src.deliveries|, |Stream(src.deliveries)|
      {
        var st, value := TakeNext(scope);
        if st == P.Panicked {
          EndedByPanic(before, got, Buffered());
          return Panicked, got;
        }
        if st == P.Done {
          EndedByValue(before, got, value, Contents(value));
          return Parsed(value), got;
        }
        var failed, piece := Refill(src, scope);
        NeededSnoc(before, got, Delivery(piece, failed));
        got := got + [Delivery(piece, failed)];
        if failed {
          EndedByError(before, got);
          return Failed, got;
        }
      }
    }
  }

  /** How a read ends, with which value and which buffer, by what the source returned during it. */
  ghost predicate Ended(out: ReadOutcome, w: Value, before: bytes, got: seq<Delivery>, after: bytes) {
    match out
    case NoScope => got == [] && after == before
    case Panicked => Clean(got) && Grammar.ParseNext(before + Stream(got), 0) == Grammar.Panic
    case Failed =>
      && Failing(got) && after == before + Stream(got)
      && ReadTo(before, Streams.Failed(Stream(got), |got[|got| - 1].data|), after)
    case Parsed(_) => Clean(got) && ReadTo(before, Streams.Got(w, Stream(got)), after)
  }

  lemma Settled(before: bytes, got: seq<Delivery>, rest: bytes, out: ReadOutcome, w: Value, after: bytes)
    requires Needed(before, got) && Ended(out, w, before, got, after) && |before + Stream(got) + rest| <= MAX
    ensures var r := Grammar.ParseNext(before + (Stream(got) + rest), 0);
            match out
            case NoScope => true
            case Panicked => r == Grammar.Panic
            case Failed => rest == [] && got[|got| - 1].data == [] ==> r == Grammar.Incomplete
            case Parsed(_) => r.Complete? && r.value == w
  {
    hide Grammar.ParseNext, Stream, Views.Contents, Views.Arrays, Views.Valid;
    match out
    case Failed =>
      var n := |got| - 1;
      assert got == got[..n] + [got[n]];
      StreamSnoc(got[..n], got[n]);
      StreamNone(Stream(got[..n]));
    case NoScope =>
    case _ => Decided(before, Stream(got), rest);
  }

  /** Reads value after value until a read does not return one; all of them are held at the end. The calls of
      `src` returned `got` and, during the last read, `last`. */
  method ReadValues(r: Reader, src: Source, scope: Scope)
    returns (values: seq<RespValue>, out: ReadOutcome, ghost es: seq<Streams.ReadEvent>, ghost got: seq<Delivery>, ghost last: seq<Delivery>)
    requires r.Valid() && r.len + |Stream(src.deliveries)| < MAX
    modifies r, r.buf, r.parser, src
    ensures r.Valid() && (out.Failed? || out.Panicked?)
    ensures forall v | v in values :: Views.Valid(v)
    ensures forall a | a in ArraysAll(values) :: fresh(a) && a != r.buf
    ensures Streams.IsHistory(old(r.Buffered()), es) && ContentsAll(values) == Streams.Returned(es)
    ensures Clean(got) && Stream(got) == Streams.Received(es)
    ensures src.log == old(src.log) + got + last
    ensures old(Stream(src.deliveries)) == (Stream(got) + Stream(last)) + Stream(src.deliveries)
    ensures Needed(Streams.FinalBuffer(old(r.Buffered()), es), last)
    ensures out.Failed? ==> Failing(last) && r.Buffered() == Streams.FinalBuffer(old(r.Buffered()), es) + Stream(last)
    ensures out.Panicked? ==>
              Clean(last) && Grammar.ParseNext(Streams.FinalBuffer(old(r.Buffered()), es) + Stream(last), 0) == Grammar.Panic
    ensures Healthy(old(src.deliveries)) && out.Failed? ==> src.deliveries == [] && last[|last| - 1].data == []
  {
    hide Stream, Healthy, Needed, Views.Contents, Views.ContentsAll, Views.Arrays, Views.ArraysAll, Views.Valid,
         Streams.IsHistory, Streams.Received, Streams.Returned, Streams.FinalBuffer, Streams.IsRead, Streams.BufferAfter,
         Grammar.ParseNext, Grammar.ParseAll;
    values := [];
    es := [];
    got := [];
    NoElements();
    Streams.HistoryNone(r.Buffered(), [], 0);
    StreamNone(Stream(src.deliveries));
    while true
      invariant r.Valid() && (r.buf == old(r.buf) || fresh(r.buf)) && r.parser == old(r.parser)
      invariant (forall v | v in values :: Views.Valid(v)) && ContentsAll(values) == Streams.Returned(es)
      invariant forall a | a in ArraysAll(values) :: fresh(a) && a != r.buf
      invariant Streams.IsHistory(old(r.Buffered()), es)
      invariant r.Buffered() == Streams.FinalBuffer(old(r.Buffered()), es)
      invariant Clean(got) && Stream(got) == Streams.Received(es) && src.log == old(src.log) + got
      invariant old(Stream(src.deliveries)) == Stream(got) + Stream(src.deliveries)
      invariant Healthy(old(src.deliveries)) ==> Healthy(src.deliveries)
      invariant r.len + |Stream(src.deliveries)| < MAX
      decreases r.len + |Stream(src.deliveries)|
    {
      ArraysAllAllocated(values);
      label before:
      out, last := r.Read(src, scope);
      ContentsAllFrame@before(values);
      Streams.Associative(Stream(got), Stream(last), Stream(src.deliveries));
      if !out.Parsed? {
        return;
      }
      ghost var e := Streams.Got(Contents(out.value), Stream(last));
      Streams.HistorySnoc(old(r.Buffered()), es, e);
      Streams.BufferShrinks(old@before(r.Buffered()), e);
      es := es + [e];
      StreamConcat(got, last);
      got := got + last;
      ContentsAllSnoc(values, out.value);
      values := values + [out.value];
    }
  }

  /** So whatever the source delivers, the values held at the end are all there are in the bytes that arrived before
      the call of the source that failed, or before the parser panicked, and the first ones of all that arrived;
      with a source whose errors come at its end, they are all that its whole stream holds. */
  method ReadAll(r: Reader, src: Source, scope: Scope)
    returns (values: seq<RespValue>, out: ReadOutcome, ghost got: seq<Delivery>)
    requires r.Valid() && r.len + |Stream(src.deliveries)| < MAX
    modifies r, r.buf, r.parser, src
    ensures r.Valid() && (out.Failed? || out.Panicked?)
    ensures forall v | v in values :: Views.Valid(v)
    ensures forall a | a in ArraysAll(values) :: fresh(a) && a != r.buf
    ensures src.log == old(src.log) + got && old(Stream(src.deliveries)) == Stream(got) + Stream(src.deliveries)
    ensures ContentsAll(values) <= Grammar.ParseAll(old(r.Buffered()) + Stream(got), 0).values
    ensures out.Failed? ==>
              Failing(got) && ContentsAll(values) == Grammar.ParseAll(old(r.Buffered()) + Stream(got[..|got| - 1]), 0).values
    ensures out.Panicked? ==>
              var b := Grammar.ParseAll(old(r.Buffered()) + Stream(got), 0);
              Clean(got) && b.panicked && ContentsAll(values) == b.values
    ensures Healthy(old(src.deliveries)) ==>
              ContentsAll(values) == Grammar.ParseAll(old(r.Buffered()) + old(Stream(src.deliveries)), 0).values
  {
    hide Stream, Healthy, Needed, Views.Contents, Views.ContentsAll, Views.Arrays, Views.ArraysAll, Views.Valid,
         Streams.IsHistory, Streams.Received, Streams.Returned, Streams.FinalBuffer, Grammar.ParseNext, Grammar.ParseAll;
    ghost var es, last;
    values, out, es, got, last := ReadValues(r, src, scope);
    AllParsed(old(r.Buffered()), es, got, last, Stream(src.deliveries), out.Failed?);
    got := got + last;
    StreamNone(Stream(got));
    assert out.Failed? ==> got[|got| - 1] == last[|last| - 1];
  }

  lemma AllParsed(buf: bytes, es: seq<Streams.ReadEvent>, got: seq<Delivery>, last: seq<Delivery>, rest: bytes, failed: bool)
    requires Streams.IsHistory(buf, es) && Stream(got) == Streams.Received(es) && Clean(got)
    requires |buf| + |Stream(got)| + |Stream(last)| + |rest| <= MAX && Needed(Streams.FinalBuffer(buf, es), last)
    requires if failed then Failing(last)
             else Clean(last) && Grammar.ParseNext(Streams.FinalBuffer(buf, es) + Stream(last), 0) == Grammar.Panic
    ensures var all := got + last;
            var vs := Streams.Returned(es);
            var b := Grammar.ParseAll(buf + Stream(all), 0);
            && Stream(all) == Stream(got) + Stream(last)
            && vs <= b.values
            && (failed ==> Failing(all) && vs == Grammar.ParseAll(buf + Stream(all[..|all| - 1]), 0).values)
            && (failed && all[|all| - 1].data == [] ==> vs == b.values)
            && (!failed ==> Clean(all) && b.panicked && vs == b.values
                            && vs == Grammar.ParseAll(buf + (Stream(all) + rest), 0).values)
  {
    hide Stream, Streams.IsHistory, Streams.Received, Streams.Returned, Streams.FinalBuffer, Grammar.ParseNext, Grammar.ParseAll;
    var all := got + last;
    StreamConcat(got, last);
    Streams.Associative(buf, Stream(got), Stream(last));
    Streams.HistoryParses(buf, es, Stream(last));
    if failed {
      var n := |last| - 1;
      var init, d := last[..n], last[n];
      assert last == init + [d] && all[..|all| - 1] == got + init;
      StreamSnoc(init, d);
      StreamConcat(got, init);
      Streams.Associative(buf, Stream(got), Stream(init));
      Streams.HistoryParses(buf, es, Stream(init));
      StreamNone(Stream(init));
    } else {
      var left := Streams.FinalBuffer(buf, es) + Stream(last);
      FinalShorter(buf, es);
      Streams.PartDecides(left, rest);
      Streams.Associative(Streams.FinalBuffer(buf, es), Stream(last), rest);
      Streams.Associative(buf, Stream(got), Stream(last) + rest);
      Streams.Associative(Stream(got), Stream(last), rest);
      Streams.HistoryParses(buf, es, Stream(last) + rest);
    }
  }

  lemma FinalShorter(buf: bytes, es: seq<Streams.ReadEvent>)
    requires Streams.IsHistory(buf, es) && |buf + Streams.Received(es)| <= MAX
    ensures |Streams.FinalBuffer(buf, es)| <= |buf + Streams.Received(es)|
  {
    hide Streams.IsHistory, Streams.Received, Streams.Returned, Streams.FinalBuffer;
    var total := buf + Streams.Received(es);
    assert total[0..] == total;
    Streams.HistoryDecodes(total, 0, buf, es);
  }

  /** The reader's buffer goes from `before` to `after` by the event `e`. */
  ghost predicate ReadTo(before: bytes, e: Streams.ReadEvent, after: bytes) {
    Streams.IsRead(before, e) && after == Streams.BufferAfter(before, e)
  }

  /** Before each of the calls that returned `got`, the buffer held no complete value. */
  ghost predicate Needed(before: bytes, got: seq<Delivery>) {
    forall i | 0 <= i < |got| :: Grammar.ParseNext(before + Stream(got[..i]), 0) == Grammar.Incomplete
  }

  lemma EndedByPanic(before: bytes, got: seq<Delivery>, after: bytes)
    requires Clean(got) && Grammar.ParseNext(before + Stream(got), 0) == Grammar.Panic
    ensures forall w :: Ended(Panicked, w, before, got, after)
  {
  }

  lemma EndedByValue(before: bytes, got: seq<Delivery>, v: RespValue, w: Value)
    requires var r := Grammar.ParseNext(before + Stream(got), 0); Clean(got) && r.Complete? && r.value == w
    ensures Ended(Parsed(v), w, before, got, (before + Stream(got))[Grammar.ParseNext(before + Stream(got), 0).next..])
  {
    hide Grammar.ParseNext, Stream;
  }

  lemma EndedByError(before: bytes, got: seq<Delivery>)
    requires Needed(before, got) && Failing(got)
    ensures got != [] && forall w :: Ended(Failed, w, before, got, before + Stream(got))
  {
    hide Grammar.ParseNext, Stream;
    var n := |got| - 1;
    assert got == got[..n] + [got[n]];
    StreamSnoc(got[..n], got[n]);
    assert (before + Stream(got))[..|before| + |Stream(got[..n])|] == before + Stream(got[..n]);
  }

  lemma NeededSnoc(before: bytes, got: seq<Delivery>, d: Delivery)
    requires Needed(before, got) && Clean(got) && Grammar.ParseNext(before + Stream(got), 0) == Grammar.Incomplete
    ensures Needed(before, got + [d]) && Stream(got + [d]) == Stream(got) + d.data
    ensures before + Stream(got + [d]) == (before + Stream(got)) + d.data
    ensures forall rest :: Stream(got) + (d.data + rest) == Stream(got + [d]) + rest
    ensures if d.failed then Failing(got + [d]) else Clean(got + [d])
  {
    hide Grammar.ParseNext, Stream;
    StreamSnoc(got, d);
    assert (got + [d])[..|got|] == got;
    forall i | 0 <= i < |got|
      ensures (got + [d])[..i] == got[..i]
    {
    }
    forall rest
      ensures Stream(got) + (d.data + rest) == Stream(got + [d]) + rest
    {
      Streams.Associative(Stream(got), d.data, rest);
    }
  }

  lemma Decided(before: bytes, data: bytes, rest: bytes)
    requires |before + data + rest| <= MAX && Grammar.ParseNext(before + data, 0) != Grammar.Incomplete
    ensures Grammar.ParseNext(before + (data + rest), 0) == Grammar.ParseNext(before + data, 0)
  {
    hide Grammar.ParseNext;
    Streams.Associative(before, data, rest);
    Streams.PartDecides(before + data, rest);
  }

  lemma NeededNone(before: bytes, coming: bytes)
    ensures Needed(before, []) && Clean([]) && before + Stream([]) == before && coming == Stream([]) + coming
  {
  }

  lemma StreamNone(s: bytes)
    ensures Stream([]) == [] && [] + s == s && s + [] == s
  {
  }
}
