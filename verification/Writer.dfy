/** The buffering serializer of internal/protocol/writer.go. */
module Writer {
  import opened Bytes
  import opened Int64
  import opened Views
  import Values
  import Grammar
  import Streams

  function Replace(s: bytes, c: byte): (r: bytes)
    ensures |r| == |s|
    ensures forall i | 0 <= i < |s| :: r[i] == if s[i] == c then SPACE else s[i]
  {
    if s == [] then [] else [if s[0] == c then SPACE else s[0]] + Replace(s[1..], c)
  }

  lemma {:induction false} StripAt(s: bytes, i: nat)
    requires i < |s|
    ensures Values.Strip(s)[i] == if s[i] == CR || s[i] == LF then SPACE else s[i]
  {
    if i > 0 {
      StripAt(s[1..], i - 1);
    }
  }

  /** Scans for a newline; both kinds are replaced as soon as one is seen. */
  method StripNewlines(s: bytes) returns (r: bytes)
    ensures r == Values.Strip(s)
  {
    r := s;
    var i := 0;
    while i < |r|
      invariant i <= |r| && r == s
      invariant CR !in s[..i] && LF !in s[..i]
    {
      if r[i] == CR || r[i] == LF {
        r := Replace(r, CR);
        r := Replace(r, LF);
        forall j | 0 <= j < |s|
          ensures r[j] == Values.Strip(s)[j]
        {
          StripAt(s, j);
        }
        return;
      }
      assert s[..i + 1] == s[..i] + [s[i]];
      i := i + 1;
    }
    assert s[..i] == s;
  }

  /** Appends a type byte, a number and CRLF; one digit needs no conversion. */
  method AppendPrefix(b: bytes, c: byte, n: int64) returns (r: bytes)
    ensures r == b + Values.Line(c, Format(n))
  {
    if 0 <= n <= 9 {
      return b + [c, ZERO + n, CR, LF];
    }
    r := b + [c];
    r := r + Format(n);
    r := r + CRLF;
    assert r == b + ([c] + Format(n) + CRLF);
  }

  method AppendLine(b: bytes, c: byte, s: bytes) returns (r: bytes)
    ensures r == b + Values.Line(c, Values.Strip(s))
  {
    r := b + [c];
    var t := StripNewlines(s);
    r := r + t;
    r := r + CRLF;
    assert r == b + ([c] + t + CRLF);
  }

  method AppendBulk(b: bytes, data: bytes) returns (r: bytes)
    requires |data| <= MAX
    ensures r == b + Values.Ser(Values.BulkString(data))
  {
    r := AppendPrefix(b, DOLLAR, |data|);
    r := r + data;
    r := r + CRLF;
    assert r == b + (Values.Line(DOLLAR, Format(|data|)) + data + CRLF);
  }

  /** The lengths inside a value are Go ints. */
  predicate Fits(v: RespValue)
    decreases v
  {
    match v
    case BulkString(b) => b.hi - b.lo <= MAX
    case Array(es) => |es| <= MAX && forall e | e in es :: Fits(e)
    case _ => true
  }

  method AppendValue(b: bytes, v: RespValue) returns (r: bytes)
    requires Valid(v) && Fits(v)
    ensures r == b + Values.Ser(Contents(v))
    decreases v, 0
  {
    match v
    case SimpleString(s) => r := AppendLine(b, PLUS, s);
    case Error(s) => r := AppendLine(b, MINUS, s);
    case Integer(n) => r := AppendPrefix(b, COLON, n);
    case BulkString(d) => r := AppendBulk(b, d.Bytes());
    case NilBulk => r := b + Values.NULL_BULK;
    case Array(es) => r := AppendElements(b, es);
    case NilArray => r := b + Values.NIL_ARRAY;
    case Null => r := b + Values.NULL_BULK;
    case Unknown(_) => r := b + Values.NULL_BULK;
  }

  method AppendElements(b: bytes, es: seq<RespValue>) returns (r: bytes)
    requires |es| <= MAX && forall e | e in es :: Valid(e) && Fits(e)
    ensures r == b + Values.Ser(Values.Array(ContentsAll(es)))
    decreases es, 1
  {
    hide Views.Contents, Views.ContentsAll, Views.Valid, Fits, Values.Line, Values.SerAll;
    r := AppendPrefix(b, STAR, |es|);
    ghost var head := Values.Line(STAR, Format(|es|));
    r := AppendAll(r, es);
    Streams.Associative(b, head, Values.SerAll(ContentsAll(es)));
  }

  /** Values appended one after the other. */
  method AppendAll(b: bytes, es: seq<RespValue>) returns (r: bytes)
    requires forall e | e in es :: Valid(e) && Fits(e)
    ensures r == b + Values.SerAll(ContentsAll(es))
    decreases es, 0
  {
    hide Views.Contents, Views.ContentsAll, Views.Valid, Fits, Values.SerAll, Values.Ser;
    r := b;
    ghost var vs := ContentsAll(es);
    Values.NoneToSerialize();
    assert vs[..0] == [] && b + [] == b;
    ArraysAllAllocated(es);
    for i := 0 to |es|
      invariant r == b + Values.SerAll(vs[..i])
    {
      r := AppendValue(r, es[i]);
      ContentsAllFrame(es);
      ContentsAllAt(es, i);
      assert vs[..i + 1] == vs[..i] + [vs[i]];
      Values.SerAllAppend(vs[..i], vs[i]);
      Streams.Associative(b, Values.SerAll(vs[..i]), Values.Ser(vs[i]));
    }
    ContentsAllFrame(es);
    assert vs[..|es|] == vs;
  }

  /** How a sink answers one call: it takes all of what it is given, or fails after some bytes of it. */
  datatype Answer = Takes | Breaks(after: nat)

  /** Whether the next call fails, what it takes of `b`, and how the calls after it will be answered. */
  predicate Fails(plan: seq<Answer>) {
    plan != [] && plan[0].Breaks?
  }

  function Taken(plan: seq<Answer>, b: bytes): (t: bytes)
    ensures t <= b
  {
    if Fails(plan) && plan[0].after <= |b| then b[..plan[0].after] else b
  }

  function Later(plan: seq<Answer>): seq<Answer> {
    if plan == [] then [] else plan[1..]
  }

  /** An io.Writer. Its plan says which of its calls will fail; beyond the plan none does. */
  class Sink {
    var out: bytes
    var plan: seq<Answer>

    constructor (plan: seq<Answer>)
      ensures out == [] && this.plan == plan
    {
      out, this.plan := [], plan;
    }

    method Write(b: bytes) returns (failed: bool)
      modifies this
      ensures failed == Fails(old(plan))
      ensures out == old(out) + Taken(old(plan), b) && plan == Later(old(plan))
    {
      failed := Fails(plan);
      out := out + Taken(plan, b);
      plan := Later(plan);
    }
  }

  class Writer {
    var buf: bytes

    constructor (initialSize: nat)
      ensures buf == []
    {
      buf := [];
    }

    method Serialize(v: RespValue) returns (b: bytes)
      requires Valid(v) && Fits(v)
      modifies this
      ensures buf == old(buf) + Values.Ser(Contents(v)) && b == buf
      ensures Contents(v) == old(Contents(v))
    {
      hide Views.Contents, Views.Arrays, Views.Valid, Fits, Values.Ser;
      ArraysAllocated(v);
      label before:
      var r := AppendValue(buf, v);
      buf, b := r, r;
      ContentsFrame@before(v);
    }

    method Write(v: RespValue)
      requires Valid(v) && Fits(v)
      modifies this
      ensures buf == old(buf) + Values.Ser(Contents(v))
    {
      var _ := Serialize(v);
    }

    method Reset()
      modifies this
      ensures buf == []
    {
      buf := [];
    }

    /** Hands the whole buffer to `dst` in one call and clears it, whether or not `dst` takes it; an empty
        buffer is not handed over. */
    method Flush(dst: Sink) returns (failed: bool)
      modifies this, dst
      ensures buf == []
      ensures old(buf) == [] ==> !failed && dst.out == old(dst.out) && dst.plan == old(dst.plan)
      ensures old(buf) != [] ==>
                && failed == Fails(old(dst.plan))
                && dst.out == old(dst.out) + Taken(old(dst.plan), old(buf)) && dst.plan == Later(old(dst.plan))
    {
      if |buf| == 0 {
        return false;
      }
      failed := dst.Write(buf);
      Reset();
    }

    /** Appends a batch of values to the buffer, as the session's write loop does before it flushes. */
    method WriteAll(vs: seq<RespValue>)
      requires forall v | v in vs :: Valid(v) && Fits(v)
      modifies this
      ensures buf == old(buf) + Values.SerAll(ContentsAll(vs))
    {
      hide Views.Contents, Views.ContentsAll, Views.Valid, Fits, Values.SerAll, Values.Ser;
      ghost var ws := ContentsAll(vs);
      Values.NoneToSerialize();
      assert ws[..0] == [] && buf + [] == buf;
      ArraysAllAllocated(vs);
      for i := 0 to |vs|
        invariant buf == old(buf) + Values.SerAll(ws[..i])
      {
        Write(vs[i]);
        ContentsAllFrame(vs);
        ContentsAllAt(vs, i);
        assert ws[..i + 1] == ws[..i] + [ws[i]];
        Values.SerAllAppend(ws[..i], ws[i]);
        Streams.Associative(old(buf), Values.SerAll(ws[..i]), Values.Ser(ws[i]));
      }
      ContentsAllFrame(vs);
      assert ws[..|vs|] == ws;
    }

    /** Writes a batch of values and flushes once, which fails exactly when there is something to flush and the
        sink fails. What a peer then reads are those values, in order, as they read on the wire, and nothing else;
        after a failed flush it has what the sink took of that. */
    method WriteBatch(vs: seq<RespValue>, dst: Sink) returns (failed: bool, ghost sent: bytes)
      requires buf == [] && forall v | v in vs :: Valid(v) && Fits(v)
      modifies this, dst
      ensures dst.out == old(dst.out) + sent && buf == []
      ensures failed <==> vs != [] && Fails(old(dst.plan))
      ensures sent == if failed then Taken(old(dst.plan), Values.SerAll(old(ContentsAll(vs)))) else Values.SerAll(old(ContentsAll(vs)))
      ensures !failed && |sent| <= MAX && (forall v | v in old(ContentsAll(vs)) :: Values.NoNilArray(v)) ==>
                Grammar.ParseAll(sent, 0) == Grammar.Batch(Values.NormAll(old(ContentsAll(vs))), |sent|, false)
    {
      hide Views.Contents, Views.ContentsAll, Views.Valid, Fits, Values.SerAll, Values.Ser, Values.NoNilArray, Grammar.ParseAll;
      ghost var ws := ContentsAll(vs);
      ArraysAllAllocated(vs);
      WriteAll(vs);
      ContentsAllFrame(vs);
      ghost var all := Values.SerAll(ws);
      assert buf == all;
      Values.SerAllLength(ws);
      Values.NoneToSerialize();
      failed := Flush(dst);
      sent := dst.out[|old(dst.out)|..];
      if !failed && |sent| <= MAX && (forall v | v in ws :: Values.NoNilArray(v)) {
        assert sent == all && HasAt(sent, 0, all);
        Streams.SerAllParsesBack(ws, sent, 0);
      }
    }
  }

  /** SerializeValue and AppendSerialized: a fresh writer on an empty or a given buffer. */
  method SerializeValue(v: RespValue) returns (b: bytes)
    requires Valid(v) && Fits(v)
    ensures b == Values.Ser(Contents(v))
  {
    var w := new Writer(64);
    b := w.Serialize(v);
    assert [] + Values.Ser(Contents(v)) == Values.Ser(Contents(v));
  }
}
