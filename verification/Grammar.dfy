/** The grammar the RESP parser of internal/protocol accepts, as a function of the buffer. */
module Grammar {
  import opened Bytes
  import opened Int64
  import opened Values
  import Inline

  /** `Incomplete` is the source's ok == false, for unfinished and malformed input alike.
      `Panic` is an index out of range, where a declared bulk length overflows the buffer index. */
  datatype Outcome<+T> = Complete(value: T, next: nat) | Incomplete | Panic

  /** Index of the LF of the first CRLF at or after `p`, or -1. */
  function FindCrlf(s: bytes, p: nat): (r: int)
    ensures r == -1 || (p < r < |s| && s[r - 1] == CR && s[r] == LF)
    ensures forall i | p < i < (if r < 0 then |s| else r) :: !(s[i - 1] == CR && s[i] == LF)
    decreases |s| - p
  {
    if p + 1 >= |s| then -1
    else if s[p] == CR && s[p + 1] == LF then p + 1
    else FindCrlf(s, p + 1)
  }

  predicate IsTyped(c: byte) {
    c == STAR || c == PLUS || c == MINUS || c == COLON || c == DOLLAR
  }

  /** The bulk payload of declared length `len` that starts at `p`. */
  function ParseBulk(s: bytes, p: nat, len: Option<int64>): (r: Outcome<Value>)
    requires p <= |s|
    ensures r.Complete? ==> p <= r.next <= |s|
  {
    match len
    case None => Incomplete
    case Some(n) =>
      if n == -1 then Complete(Null, p)
      else if n < 0 then Incomplete
      else if p + n + 2 > MAX then Panic
      else if p + n + 2 > |s| then Incomplete
      else if s[p + n] != CR || s[p + n + 1] != LF then Incomplete
      else Complete(BulkString(s[p..p + n]), p + n + 2)
  }

  /** An inline command: a line split into bulk strings; no arguments make a nil array. */
  function InlineValue(line: bytes): Value {
    var args := Inline.InlineArgs(line);
    if args == [] then NilArray else Array(Bulks(args))
  }

  function Bulks(args: seq<bytes>): (r: seq<Value>)
    ensures |r| == |args|
    ensures forall i | 0 <= i < |args| :: r[i] == BulkString(args[i])
  {
    seq(|args|, i requires 0 <= i < |args| => BulkString(args[i]))
  }

  /** The header line of a typed value: the text between the type byte and CRLF, and where it ends. */
  datatype Header = NoHeader | Header(text: bytes, next: nat)

  function ParseHeader(s: bytes, p: nat): (h: Header)
    requires p < |s|
    ensures h.Header? ==> p < h.next <= |s|
  {
    var e := FindCrlf(s, p + 1);
    if e < 0 then NoHeader else Header(s[p + 1..e - 1], e + 1)
  }

  function ParseInline(s: bytes, p: nat): (r: Outcome<Value>)
    requires p < |s|
    ensures !r.Panic? && (r.Complete? ==> p < r.next <= |s|)
  {
    var e := FindCrlf(s, p);
    if e < 0 then Incomplete else Complete(InlineValue(s[p..e - 1]), e + 1)
  }

  function IntegerValue(n: Option<int64>, next: nat): (r: Outcome<Value>)
    ensures r.Complete? ==> r.next == next
  {
    if n.Some? then Complete(Integer(n.value), next) else Incomplete
  }

  /** A value whose type byte `c` has a header and is not an array's. */
  function ParseScalar(c: byte, s: bytes, h: Header): (r: Outcome<Value>)
    requires h.Header? ==> h.next <= |s|
    ensures r.Complete? ==> h.Header? && h.next <= r.next <= |s|
  {
    if h.NoHeader? then Incomplete
    else if c == PLUS then Complete(SimpleString(h.text), h.next)
    else if c == MINUS then Complete(Error(h.text), h.next)
    else if c == COLON then IntegerValue(ParseInt(h.text), h.next)
    else ParseBulk(s, h.next, ParseInt(h.text))
  }

  /** The element count an array header declares; a negative or unreadable one is malformed. */
  function Count(h: Header): Option<nat> {
    if h.NoHeader? then None
    else
      match ParseInt(h.text)
      case None => None
      case Some(n) => if n < 0 then None else Some(n)
  }

  function ArrayOf(r: Outcome<seq<Value>>): Outcome<Value> {
    match r
    case Complete(es, q) => Complete(Array(es), q)
    case Incomplete => Incomplete
    case Panic => Panic
  }

  /** The value that stands at position `p`. */
  function ParseNext(s: bytes, p: nat): (r: Outcome<Value>)
    requires p <= |s|
    ensures r.Complete? ==> p < r.next <= |s|
    decreases |s| - p, 1
  {
    if p == |s| then Incomplete
    else if !IsTyped(s[p]) then ParseInline(s, p)
    else
      var h := ParseHeader(s, p);
      if s[p] != STAR then ParseScalar(s[p], s, h)
      else
        var k := Count(h);
        if k.None? then Incomplete else ArrayOf(ParseElems(s, h.next, k.value))
  }

  /** The `k` values that stand one after the other from position `p`. */
  function ParseElems(s: bytes, p: nat, k: nat): (r: Outcome<seq<Value>>)
    requires p <= |s|
    ensures r.Complete? ==> p <= r.next <= |s| && |r.value| == k
    decreases |s| - p, 2
  {
    if k == 0 then Complete([], p)
    else
      match ParseNext(s, p)
      case Incomplete => Incomplete
      case Panic => Panic
      case Complete(v, n) =>
        match ParseElems(s, n, k - 1)
        case Incomplete => Incomplete
        case Panic => Panic
        case Complete(vs, q) => Complete([v] + vs, q)
  }

  /** All the values from `p` on, where the scan stopped, and why. */
  datatype Batch = Batch(values: seq<Value>, next: nat, panicked: bool)

  function ParseAll(s: bytes, p: nat): (b: Batch)
    requires p <= |s|
    ensures p <= b.next <= |s|
    decreases |s| - p
  {
    match ParseNext(s, p)
    case Incomplete => Batch([], p, false)
    case Panic => Batch([], p, true)
    case Complete(v, n) =>
      var b := ParseAll(s, n);
      b.(values := [v] + b.values)
  }

  /** The bytes of `s` from `p` up to `q` are exactly the values `vs`. */
  predicate Decodes(s: bytes, p: nat, vs: seq<Value>, q: nat)
    requires p <= |s|
    decreases |s| - p
  {
    if vs == [] then p == q
    else
      var r := ParseNext(s, p);
      r.Complete? && r.value == vs[0] && Decodes(s, r.next, vs[1..], q)
  }
}
