/** Laws of the RESP grammar: locality, prefix-freeness, and the round trip through the serializer. */
module Laws {
  import opened Bytes
  import opened Int64
  import opened Values
  import opened Grammar
  import Inline

  /** A CRLF found inside a window is found at the same place in any equal window. */
  lemma {:induction false} FindCrlfWindow(s: bytes, p: nat, s': bytes, p': nat, k: nat)
    requires SameWindow(s, p, s', p', k)
    requires 0 <= FindCrlf(s, p) < p + k
    ensures FindCrlf(s', p') == p' + (FindCrlf(s, p) - p)
    decreases k
  {
    WindowIndex(s, p, s', p', k, 0);
    WindowIndex(s, p, s', p', k, 1);
    if FindCrlf(s, p) != p + 1 {
      SubWindow(s, p, s', p', k, 1, k);
      FindCrlfWindow(s, p + 1, s', p' + 1, k - 1);
    }
  }

  lemma HeaderWindow(s: bytes, p: nat, s': bytes, p': nat, k: nat)
    requires p < |s| && p' < |s'|
    requires SameWindow(s, p, s', p', k)
    requires ParseHeader(s, p).Header? && ParseHeader(s, p).next <= p + k
    ensures ParseHeader(s', p') == Header(ParseHeader(s, p).text, p' + (ParseHeader(s, p).next - p))
  {
    hide FindCrlf;
    var e := FindCrlf(s, p + 1);
    SubWindow(s, p, s', p', k, 1, k);
    FindCrlfWindow(s, p + 1, s', p' + 1, k - 1);
    SubWindow(s, p, s', p', k, 1, e - 1 - p);
  }

  lemma InlineWindow(s: bytes, p: nat, s': bytes, p': nat, k: nat)
    requires p < |s| && p' < |s'|
    requires ParseInline(s, p).Complete? && ParseInline(s, p).next == p + k
    requires SameWindow(s, p, s', p', k)
    ensures ParseInline(s', p') == Complete(ParseInline(s, p).value, p' + k)
  {
    hide InlineValue, FindCrlf;
    FindCrlfWindow(s, p, s', p', k);
    SubWindow(s, p, s', p', k, 0, k - 2);
  }

  lemma BulkWindow(s: bytes, p: nat, s': bytes, p': nat, len: Option<int64>, k: nat)
    requires p <= |s| && p' <= |s'| <= MAX
    requires ParseBulk(s, p, len).Complete? && ParseBulk(s, p, len).next == p + k
    requires SameWindow(s, p, s', p', k)
    ensures ParseBulk(s', p', len) == Complete(ParseBulk(s, p, len).value, p' + k)
  {
    var n := len.value;
    if n != -1 {
      SubWindow(s, p, s', p', k, 0, n);
      WindowIndex(s, p, s', p', k, n);
      WindowIndex(s, p, s', p', k, n + 1);
    }
  }

  /** A complete value depends on nothing but its own bytes: wherever they stand, in whatever
      buffer a Go slice can be, they parse to the same value. */
  lemma {:induction false} Window(s: bytes, p: nat, s': bytes, p': nat, k: nat)
    requires p <= |s| && p' <= |s'| <= MAX
    requires ParseNext(s, p).Complete? && ParseNext(s, p).next == p + k
    requires SameWindow(s, p, s', p', k)
    ensures ParseNext(s', p') == Complete(ParseNext(s, p).value, p' + k)
    decreases |s| - p, 1
  {
    hide ParseInt, ParseInline, ParseHeader, ParseBulk, SameWindow;
    WindowIndex(s, p, s', p', k, 0);
    if !IsTyped(s[p]) {
      InlineWindow(s, p, s', p', k);
    } else {
      var h := ParseHeader(s, p);
      var d := h.next - p;
      HeaderWindow(s, p, s', p', k);
      SubWindow(s, p, s', p', k, d, k);
      if s[p] == DOLLAR {
        BulkWindow(s, p + d, s', p' + d, ParseInt(h.text), k - d);
      } else if s[p] == STAR {
        ElemsWindow(s, p + d, s', p' + d, Count(h).value, k - d);
      }
    }
  }

  lemma {:induction false} ElemsWindow(s: bytes, p: nat, s': bytes, p': nat, n: nat, k: nat)
    requires p <= |s| && p' <= |s'| <= MAX
    requires ParseElems(s, p, n).Complete? && ParseElems(s, p, n).next == p + k
    requires SameWindow(s, p, s', p', k)
    ensures ParseElems(s', p', n) == Complete(ParseElems(s, p, n).value, p' + k)
    decreases |s| - p, 2
  {
    hide ParseNext, SameWindow;
    if n > 0 {
      var d := ParseNext(s, p).next - p;
      SubWindow(s, p, s', p', k, 0, d);
      Window(s, p, s', p', d);
      SubWindow(s, p, s', p', k, d, k);
      ElemsWindow(s, p + d, s', p' + d, n - 1, k - d);
    }
  }

  /** `s'` is `s` with bytes appended. */
  predicate Extends(s: bytes, s': bytes) {
    |s| <= |s'| && s'[..|s|] == s
  }

  lemma ExtendsWindow(s: bytes, s': bytes, p: nat, k: nat)
    requires Extends(s, s') && p + k <= |s|
    ensures SameWindow(s, p, s', p, k)
  {
    SliceOfSlice(s', 0, |s|, p, p + k);
    assert s'[0..0 + |s|] == s;
  }

  /** An index panic is final: it stays when bytes are appended, and when the text stands later in a buffer. */
  lemma {:induction false} PanicStable(s: bytes, p: nat, s': bytes, p': nat)
    requires p <= |s| && p <= p' && |s'| <= MAX && SameWindow(s, p, s', p', |s| - p)
    requires ParseNext(s, p) == Panic
    ensures p' <= |s'| && ParseNext(s', p') == Panic
    decreases |s| - p, 1
  {
    hide ParseInt, ParseInline, FindCrlf, SameWindow;
    var k := |s| - p;
    WindowIndex(s, p, s', p', k, 0);
    HeaderWindow(s, p, s', p', k);
    var h := ParseHeader(s, p);
    if s[p] == STAR {
      SubWindow(s, p, s', p', k, h.next - p, k);
      PanicStableElems(s, h.next, s', p' + (h.next - p), Count(h).value);
    }
  }

  lemma {:induction false} PanicStableElems(s: bytes, p: nat, s': bytes, p': nat, n: nat)
    requires p <= |s| && p <= p' && |s'| <= MAX && SameWindow(s, p, s', p', |s| - p)
    requires ParseElems(s, p, n) == Panic
    ensures p' <= |s'| && ParseElems(s', p', n) == Panic
    decreases |s| - p, 2
  {
    hide ParseNext, SameWindow;
    SubWindow(s, p, s', p', |s| - p, 0, |s| - p);
    if ParseNext(s, p) == Panic {
      PanicStable(s, p, s', p');
    } else {
      var k := ParseNext(s, p).next - p;
      SubWindow(s, p, s', p', |s| - p, 0, k);
      Window(s, p, s', p', k);
      SubWindow(s, p, s', p', |s| - p, k, |s| - p);
      PanicStableElems(s, p + k, s', p' + k, n - 1);
    }
  }

  /** Locality: a complete value is decided by its own bytes, so any buffer that starts with them,
      shorter or longer, gives the same value and the same length; and prefix-freeness: every
      shorter piece of it is incomplete. */
  lemma Locality(s: bytes, s': bytes)
    requires |s| <= MAX && |s'| <= MAX
    requires ParseNext(s, 0).Complete?
    ensures Extends(s[..ParseNext(s, 0).next], s') ==> ParseNext(s', 0) == ParseNext(s, 0)
    ensures Extends(s', s) && |s'| < ParseNext(s, 0).next ==> ParseNext(s', 0) == Incomplete
  {
    hide ParseNext;
    var k := ParseNext(s, 0).next;
    if Extends(s[..k], s') {
      Window(s, 0, s', 0, k);
    }
    if Extends(s', s) && |s'| < k {
      match ParseNext(s', 0)
      case Panic =>
        ExtendsWindow(s', s, 0, |s'|);
        PanicStable(s', 0, s, 0);
      case Incomplete =>
      case Complete(_, n) =>
        ExtendsWindow(s', s, 0, n);
        Window(s', 0, s, 0, n);
        assert false;
    }
  }

  /** No CRLF stands in the text. */
  predicate NoCrlf(t: bytes) {
    forall i | 1 <= i < |t| :: !(t[i - 1] == CR && t[i] == LF)
  }

  /** A CRLF that follows a text without one is the first one. */
  lemma {:induction false} FindCrlfAfter(s: bytes, p: nat, t: bytes)
    requires NoCrlf(t) && HasAt(s, p, t + CRLF)
    ensures FindCrlf(s, p) == p + |t| + 1
    decreases |t|
  {
    HasAtIndex(s, p, t + CRLF, 0);
    HasAtIndex(s, p, t + CRLF, 1);
    if t != [] {
      assert t + CRLF == [t[0]] + (t[1..] + CRLF);
      HasAtSplit(s, p, [t[0]], t[1..] + CRLF);
      FindCrlfAfter(s, p + 1, t[1..]);
    }
  }

  lemma HeaderAt(s: bytes, p: nat, c: byte, t: bytes)
    requires NoCrlf(t) && HasAt(s, p, Line(c, t))
    ensures s[p] == c && ParseHeader(s, p) == Header(t, p + |Line(c, t)|)
  {
    hide FindCrlf;
    assert Line(c, t) == [c] + (t + CRLF);
    HasAtSplit(s, p, [c], t + CRLF);
    HasAtIndex(s, p, [c], 0);
    HasAtSplit(s, p + 1, t, CRLF);
    FindCrlfAfter(s, p + 1, t);
  }

  lemma BulkAt(s: bytes, p: nat, d: bytes)
    requires |s| <= MAX && HasAt(s, p, d + CRLF)
    ensures ParseBulk(s, p, Some(|d|)) == Complete(BulkString(d), p + |d| + 2)
  {
    HasAtSplit(s, p, d, CRLF);
    HasAtIndex(s, p + |d|, CRLF, 0);
    HasAtIndex(s, p + |d|, CRLF, 1);
  }

  lemma NullAt(s: bytes, p: nat)
    requires HasAt(s, p, NULL_BULK)
    ensures ParseNext(s, p) == Complete(Null, p + 5)
  {
    hide FindCrlf, Wrap;
    var t := [MINUS, ZERO + 1];
    assert NULL_BULK == Line(DOLLAR, t);
    HeaderAt(s, p, DOLLAR, t);
    assert t[1..] == [ZERO + 1];
    assert DigitsValue([ZERO + 1]) == 1 by { assert [ZERO + 1][..0] == []; }
    assert ParseInt(t) == Some(-1);
  }

  lemma NilArrayAt(s: bytes, p: nat)
    requires HasAt(s, p, NIL_ARRAY)
    ensures ParseNext(s, p) == Incomplete
  {
    hide FindCrlf, Wrap;
    var t := [MINUS, ZERO + 1];
    assert NIL_ARRAY == Line(STAR, t);
    HeaderAt(s, p, STAR, t);
    assert t[1..] == [ZERO + 1];
    assert DigitsValue([ZERO + 1]) == 1 by { assert [ZERO + 1][..0] == []; }
    assert ParseInt(t) == Some(-1);
  }

  /** The round trip: wherever the encoding of a value stands in a buffer, parsing it there consumes exactly
      the encoding and gives back the value as it reads on the wire, if and only if no nil array is inside;
      with one, the parser takes the encoding for unfinished input. */
  lemma {:induction false} RoundTrip(v: Value, s: bytes, p: nat)
    requires |s| <= MAX && HasAt(s, p, Ser(v))
    ensures ParseNext(s, p) == Complete(Norm(v), p + |Ser(v)|) <==> NoNilArray(v)
    ensures !NoNilArray(v) ==> ParseNext(s, p) == Incomplete
    decreases v
  {
    hide ParseInt, Wrap, FindCrlf, Format, Strip, Line, ParseInline;
    match v
    case SimpleString(t) => HeaderAt(s, p, PLUS, Strip(t));
    case Error(t) => HeaderAt(s, p, MINUS, Strip(t));
    case Integer(n) =>
      FormatHasNoCR(n);
      ParseIntFormat(n);
      HeaderAt(s, p, COLON, Format(n));
    case BulkString(d) => RoundTripBulk(d, s, p);
    case Array(es) => RoundTripArray(es, s, p);
    case NilArray => NilArrayAt(s, p);
    case _ => NullAt(s, p);
  }

  lemma RoundTripBulk(d: bytes, s: bytes, p: nat)
    requires |s| <= MAX && HasAt(s, p, Ser(BulkString(d)))
    ensures ParseNext(s, p) == Complete(BulkString(d), p + |Ser(BulkString(d))|)
  {
    hide ParseInt, Wrap, FindCrlf, Format, ParseInline, ParseBulk;
    var l := Line(DOLLAR, Format(|d|));
    assert Ser(BulkString(d)) == l + (d + CRLF);
    HasAtSplit(s, p, l, d + CRLF);
    FormatHasNoCR(|d|);
    ParseIntFormat(|d|);
    HeaderAt(s, p, DOLLAR, Format(|d|));
    BulkAt(s, p + |l|, d);
  }

  lemma {:induction false} RoundTripArray(es: seq<Value>, s: bytes, p: nat)
    requires |s| <= MAX && HasAt(s, p, Ser(Array(es)))
    ensures NoNilArray(Array(es)) ==> ParseNext(s, p) == Complete(Array(NormAll(es)), p + |Ser(Array(es))|)
    ensures !NoNilArray(Array(es)) ==> ParseNext(s, p) == Incomplete
    decreases es, 1
  {
    hide ParseInt, Wrap, FindCrlf, Format, ParseInline, ParseBulk, ParseScalar, ParseElems, SerAll, Line, HasAt;
    var l := Line(STAR, Format(|es|));
    HasAtSplit(s, p, l, SerAll(es));
    SerAllLength(es);
    FormatHasNoCR(|es|);
    ParseIntFormat(|es|);
    HeaderAt(s, p, STAR, Format(|es|));
    RoundTripAll(es, s, p + |l|);
  }

  lemma {:induction false} RoundTripAll(vs: seq<Value>, s: bytes, p: nat)
    requires |s| <= MAX && HasAt(s, p, SerAll(vs))
    ensures p <= |s|
    ensures (forall v | v in vs :: NoNilArray(v)) ==> ParseElems(s, p, |vs|) == Complete(NormAll(vs), p + |SerAll(vs)|)
    ensures !(forall v | v in vs :: NoNilArray(v)) ==> ParseElems(s, p, |vs|) == Incomplete
    decreases vs, 0
  {
    hide ParseNext, Ser, Norm, HasAt, NoNilArray;
    if vs != [] {
      HasAtSplit(s, p, Ser(vs[0]), SerAll(vs[1..]));
      RoundTrip(vs[0], s, p);
      assert forall v :: v in vs <==> v == vs[0] || v in vs[1..];
      if NoNilArray(vs[0]) {
        RoundTripAll(vs[1..], s, p + |Ser(vs[0])|);
      }
    } else {
      assert p <= |s| by { HasAtSplit(s, p, [], []); }
    }
  }

  /** What a header line means, whatever text without CRLF it holds: lines are taken as they are, an integer is
      a signed decimal, and an array has as many elements behind its header as that announces. */
  lemma LineMeans(s: bytes, p: nat, c: byte, t: bytes)
    requires NoCrlf(t) && HasAt(s, p, Line(c, t))
    ensures var q := p + |t| + 3;
            && (c == PLUS ==> ParseNext(s, p) == Complete(SimpleString(t), q))
            && (c == MINUS ==> ParseNext(s, p) == Complete(Error(t), q))
            && (c == COLON ==> forall n :: ParseInt(t) == Some(n) ==> ParseNext(s, p) == Complete(Integer(n), q))
            && (c == COLON && ParseInt(t) == None ==> ParseNext(s, p) == Incomplete)
            && (c == STAR ==> forall es, r :: ParseNext(s, p) == Complete(Array(es), r) <==>
                                ParseInt(t) == Some(|es|) && Decodes(s, q, es, r))
            && (c == STAR && (ParseInt(t).None? || ParseInt(t).value < 0) ==> ParseNext(s, p) == Incomplete)
            && (c == DOLLAR ==> ParseNext(s, p) == ParseBulk(s, q, ParseInt(t)))
  {
    hide ParseInt, FindCrlf, ParseBulk, ParseInline, ParseElems, Decodes;
    HeaderAt(s, p, c, t);
    var q := p + |t| + 3;
    if c == STAR {
      forall es, r
        ensures ParseNext(s, p) == Complete(Array(es), r) <==> ParseInt(t) == Some(|es|) && Decodes(s, q, es, r)
      {
        ElemsAreDecoded(s, q, es, r);
      }
    }
  }

  /** Elements are complete exactly when that many values stand one after the other. */
  lemma {:induction false} ElemsAreDecoded(s: bytes, p: nat, es: seq<Value>, q: nat)
    requires p <= |s|
    ensures ParseElems(s, p, |es|) == Complete(es, q) <==> Decodes(s, p, es, q)
    decreases es
  {
    hide ParseNext;
    if es != [] && ParseNext(s, p).Complete? {
      ElemsAreDecoded(s, ParseNext(s, p).next, es[1..], q);
      assert es == [es[0]] + es[1..];
      var r := ParseElems(s, ParseNext(s, p).next, |es| - 1);
      assert r.Complete? ==> ([ParseNext(s, p).value] + r.value)[1..] == r.value;
    }
  }

  /** A line that starts with no type byte means the arguments it splits into; without any, or with misplaced
      quotes, it means a nil array. */
  lemma InlineMeans(s: bytes, p: nat, t: bytes)
    requires NoCrlf(t) && HasAt(s, p, t + CRLF) && (t != [] ==> !IsTyped(t[0]))
    ensures var r := Inline.Tokens(t);
            ParseNext(s, p) == Complete(if r.None? || r.value == [] then NilArray else Array(Bulks(r.value)), p + |t| + 2)
  {
    hide ParseNext, ParseInline, FindCrlf, NoCrlf, HasAt, IsTyped, Inline.Tokens;
    InlineAt(s, p, t);
  }

  lemma InlineAt(s: bytes, p: nat, t: bytes)
    requires NoCrlf(t) && HasAt(s, p, t + CRLF) && (t != [] ==> !IsTyped(t[0]))
    ensures p < |s| && ParseNext(s, p) == Complete(InlineValue(t), p + |t| + 2)
  {
    hide FindCrlf, NoCrlf, HasAt, InlineValue, ParseHeader, ParseScalar, ParseElems, Count;
    FindCrlfAfter(s, p, t);
    InlineStart(s, p, t);
  }

  lemma InlineStart(s: bytes, p: nat, t: bytes)
    requires HasAt(s, p, t + CRLF) && (t != [] ==> !IsTyped(t[0]))
    ensures p + |t| < |s| && s[p..p + |t|] == t && !IsTyped(s[p])
  {
    assert !IsTyped(CR);
    hide IsTyped;
    HasAtSplit(s, p, t, CRLF);
    HasAtIndex(s, p, t + CRLF, 0);
  }

  /** Where no CRLF is there is no value yet. */
  lemma NoLineNoValue(s: bytes, p: nat)
    requires p <= |s|
    ensures NoCrlf(s[p..]) ==> ParseNext(s, p) == Incomplete
  {
    hide FindCrlf;
    if p < |s| {
      CrlfIsIn(s, p, FindCrlf(s, p));
      CrlfIsIn(s, p, FindCrlf(s, p + 1));
    }
  }

  lemma CrlfIsIn(s: bytes, p: nat, e: int)
    requires p < e < |s| ==> s[e - 1] == CR && s[e] == LF
    ensures p < e < |s| ==> !NoCrlf(s[p..])
  {
    if p < e < |s| {
      assert s[p..][e - p - 1] == CR && s[p..][e - p] == LF;
    }
  }

  /** A bulk header at `p` declares a length whose end overflows the buffer index. */
  predicate OverflowingBulk(s: bytes, p: nat) {
    p < |s| && s[p] == DOLLAR &&
    var h := ParseHeader(s, p);
    h.Header? && ParseInt(h.text).Some? && 0 <= ParseInt(h.text).value && h.next + ParseInt(h.text).value + 2 > MAX
  }

  /** What the bulk branch accepts: the announced number of bytes and CRLF, or a null. */
  lemma BulkMeans(s: bytes, p: nat, len: Option<int64>)
    requires p <= |s| <= MAX
    ensures forall d, q :: ParseBulk(s, p, len) == Complete(BulkString(d), q) <==>
              len == Some(|d|) && HasAt(s, p, d + CRLF) && q == p + |d| + 2
    ensures forall q :: ParseBulk(s, p, len) == Complete(Null, q) <==> len == Some(-1) && q == p
    ensures ParseBulk(s, p, len) == Panic <==> len.Some? && 0 <= len.value && p + len.value + 2 > MAX
  {
    forall d, q
      ensures ParseBulk(s, p, len) == Complete(BulkString(d), q) <==>
                len == Some(|d|) && HasAt(s, p, d + CRLF) && q == p + |d| + 2
    {
      if len == Some(|d|) && HasAt(s, p, d + CRLF) {
        BulkAt(s, p, d);
      }
      if ParseBulk(s, p, len) == Complete(BulkString(d), q) {
        assert s[p + |d|..p + |d| + 2] == CRLF;
        assert s[p..p + |d| + 2] == s[p..p + |d|] + s[p + |d|..p + |d| + 2];
      }
    }
  }

  /** On a bulk string the index panic happens exactly on an overflowing header. */
  lemma BulkPanicsExactly(s: bytes, p: nat)
    requires p < |s| && s[p] == DOLLAR
    ensures ParseNext(s, p) == Panic <==> OverflowingBulk(s, p)
  {
    hide ParseInt, FindCrlf;
  }

  /** Where the parser gives up on the value at `p`: the innermost value that it does not get through. */
  function GivesUpAt(s: bytes, p: nat): (q: nat)
    requires p <= |s|
    ensures p <= q <= |s|
    decreases |s| - p, 1
  {
    if p == |s| || s[p] != STAR || ParseNext(s, p).Complete? then p
    else
      var h := ParseHeader(s, p);
      var k := Count(h);
      if k.None? then p else GivesUpInElems(s, h.next, k.value)
  }

  function GivesUpInElems(s: bytes, p: nat, k: nat): (q: nat)
    requires p <= |s|
    ensures p <= q <= |s|
    decreases |s| - p, 2
  {
    if k > 0 && ParseNext(s, p).Complete? then GivesUpInElems(s, ParseNext(s, p).next, k - 1) else GivesUpAt(s, p)
  }

  /** The parser runs out of its buffer exactly when the innermost value that it does not get through is a
      bulk string whose header overflows the index. */
  lemma {:induction false} PanicsExactly(s: bytes, p: nat)
    requires p <= |s|
    ensures ParseNext(s, p) == Panic <==> OverflowingBulk(s, GivesUpAt(s, p))
    decreases |s| - p, 1
  {
    hide ParseInt, FindCrlf, OverflowingBulk;
    if p < |s| && s[p] == DOLLAR {
      BulkPanicsExactly(s, p);
    } else if p < |s| && s[p] == STAR && ParseHeader(s, p).Header? && Count(ParseHeader(s, p)).Some? && !ParseNext(s, p).Complete? {
      var h := ParseHeader(s, p);
      PanicsExactlyInElems(s, h.next, Count(h).value);
    } else {
      assert !OverflowingBulk(s, p) by {
        NoBulk(s, p);
      }
    }
  }

  lemma NoBulk(s: bytes, p: nat)
    requires p <= |s| && (p < |s| ==> s[p] != DOLLAR)
    ensures !OverflowingBulk(s, p)
  {
  }

  lemma {:induction false} PanicsExactlyInElems(s: bytes, p: nat, k: nat)
    requires p <= |s| && !ParseElems(s, p, k).Complete?
    ensures ParseElems(s, p, k) == Panic <==> OverflowingBulk(s, GivesUpInElems(s, p, k))
    decreases |s| - p, 2
  {
    hide ParseNext, OverflowingBulk;
    if ParseNext(s, p).Complete? {
      PanicsExactlyInElems(s, ParseNext(s, p).next, k - 1);
    } else {
      PanicsExactly(s, p);
    }
  }

  /** So a buffer without such a header is never left. */
  lemma PanicNeedsOverflow(s: bytes, p: nat)
    requires p <= |s| && ParseNext(s, p) == Panic
    ensures exists q :: p <= q && OverflowingBulk(s, q)
  {
    hide ParseNext, OverflowingBulk;
    PanicsExactly(s, p);
  }

  /** Index safety is false of the source: the largest length that can be declared is enough. */
  lemma LargestBulkPanics(s: bytes)
    requires s == Line(DOLLAR, Format(MAX))
    ensures ParseNext(s, 0) == Panic
  {
    hide ParseInt, FindCrlf, Format;
    assert HasAt(s, 0, s);
    FormatHasNoCR(MAX);
    ParseIntFormat(MAX);
    HeaderAt(s, 0, DOLLAR, Format(MAX));
    BulkPanicsExactly(s, 0);
  }
}
