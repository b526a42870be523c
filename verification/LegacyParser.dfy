/** The array parser of internal/resp/parser.go, which keeps marks instead of recursing. */
module LegacyParser {
  import opened Bytes
  import opened Int64
  import Values
  import Grammar
  import P = Parser

  type Status = P.Status

  /** A `$` element as the marking loop takes it: a null or any other value is refused. */
  function BulkElem(s: bytes, p: nat): (r: Grammar.Outcome<bytes>)
    requires p <= |s|
    ensures r.Complete? ==> p < r.next <= |s|
  {
    if p == |s| || s[p] != DOLLAR then Grammar.Incomplete
    else
      var h := Grammar.ParseHeader(s, p);
      if h.NoHeader? then Grammar.Incomplete
      else
        match Int64.ParseInt(h.text)
        case None => Grammar.Incomplete
        case Some(n) =>
          if n < 0 then Grammar.Incomplete
          else
            match Grammar.ParseBulk(s, h.next, Some(n))
            case Complete(v, q) => if v.BulkString? then Grammar.Complete(v.data, q) else Grammar.Incomplete
            case Incomplete => Grammar.Incomplete
            case Panic => Grammar.Panic
  }

  function BulkElems(s: bytes, p: nat, k: nat): (r: Grammar.Outcome<seq<bytes>>)
    requires p <= |s|
    ensures r.Complete? ==> p <= r.next <= |s| && |r.value| == k
    decreases k
  {
    if k == 0 then Grammar.Complete([], p)
    else
      match BulkElem(s, p)
      case Incomplete => Grammar.Incomplete
      case Panic => Grammar.Panic
      case Complete(d, n) =>
        match BulkElems(s, n, k - 1)
        case Incomplete => Grammar.Incomplete
        case Panic => Grammar.Panic
        case Complete(ds, q) => Grammar.Complete([d] + ds, q)
  }

  /** On one element: this parser takes it exactly when the recursive one reads a bulk string there. */
  lemma BulkElemAgrees(s: bytes, p: nat)
    requires p <= |s|
    ensures var r := Grammar.ParseNext(s, p);
            && (BulkElem(s, p).Complete? <==> r.Complete? && r.value.BulkString?)
            && (BulkElem(s, p).Complete? ==> r == Grammar.Complete(Values.BulkString(BulkElem(s, p).value), BulkElem(s, p).next))
            && (BulkElem(s, p).Panic? ==> r.Panic?)
  {
    hide Int64.ParseInt, Grammar.FindCrlf, Grammar.Bulks;
  }

  lemma {:induction false} BulkElemsAgree(s: bytes, p: nat, k: nat)
    requires p <= |s|
    ensures var r := Grammar.ParseElems(s, p, k);
            && (BulkElems(s, p, k).Complete? <==> r.Complete? && forall v | v in r.value :: v.BulkString?)
            && (BulkElems(s, p, k).Complete? ==> r == Grammar.Complete(Grammar.Bulks(BulkElems(s, p, k).value), BulkElems(s, p, k).next))
            && (BulkElems(s, p, k).Panic? ==> r.Panic?)
    decreases k
  {
    hide Grammar.ParseNext, BulkElem;
    if k > 0 {
      BulkElemAgrees(s, p);
      if Grammar.ParseNext(s, p).Complete? {
        var v, n := Grammar.ParseNext(s, p).value, Grammar.ParseNext(s, p).next;
        BulkElemsAgree(s, n, k - 1);
        var r := Grammar.ParseElems(s, n, k - 1);
        if r.Complete? {
          assert forall w :: w in [v] + r.value <==> w == v || w in r.value;
          if BulkElems(s, p, k).Complete? {
            BulksCons(BulkElem(s, p).value, BulkElems(s, n, k - 1).value);
          }
        }
      }
    }
  }

  lemma BulksCons(d: bytes, ds: seq<bytes>)
    ensures Grammar.Bulks([d] + ds) == [Values.BulkString(d)] + Grammar.Bulks(ds)
  {
  }

  /** What the array parser of this file finds at `p`, in the terms of the recursive parser. */
  ghost predicate AgreesWithRecursive(s: bytes, p: nat, st: Status, args: seq<bytes>, next: nat)
    requires p <= |s|
  {
    var r := Grammar.ParseNext(s, p);
    && (st == P.Done <==> r.Complete? && r.value.Array? && forall v | v in r.value.elems :: v.BulkString?)
    && (st == P.Done ==> r == Grammar.Complete(Values.Array(Grammar.Bulks(args)), next))
    && (st == P.Panicked ==> r.Panic?)
  }

  ghost function After(ds: seq<bytes>, r: Grammar.Outcome<seq<bytes>>): Grammar.Outcome<seq<bytes>> {
    match r
    case Complete(es, n) => Grammar.Complete(ds + es, n)
    case Incomplete => Grammar.Incomplete
    case Panic => Grammar.Panic
  }

  lemma AfterStep(ds: seq<bytes>, s: bytes, p: nat, k: nat)
    requires p <= |s| && 0 < k
    ensures match BulkElem(s, p)
            case Complete(d, n) => After(ds, BulkElems(s, p, k)) == After(ds + [d], BulkElems(s, n, k - 1))
            case Incomplete => After(ds, BulkElems(s, p, k)) == Grammar.Incomplete
            case Panic => After(ds, BulkElems(s, p, k)) == Grammar.Panic
  {
    hide BulkElem;
    if BulkElem(s, p).Complete? {
      var d, r := BulkElem(s, p).value, BulkElems(s, BulkElem(s, p).next, k - 1);
      if r.Complete? {
        assert ds + ([d] + r.value) == ds + [d] + r.value;
      }
    }
  }

  lemma AfterEnds(ds: seq<bytes>, s: bytes, p: nat, r: Grammar.Outcome<seq<bytes>>)
    requires p <= |s|
    ensures After([], r) == r && After(ds, BulkElems(s, p, 0)) == Grammar.Complete(ds, p)
  {
    assert ds + [] == ds;
    if r.Complete? {
      assert [] + r.value == r.value;
    }
  }

  /** The header of an array, taken apart as both parsers do. */
  lemma ArrayNext(s: bytes, p: nat, e: int)
    requires p < |s| && s[p] == STAR && e == Grammar.FindCrlf(s, p + 1)
    ensures e < 0 ==> Grammar.ParseNext(s, p) == Grammar.Incomplete
    ensures 0 <= e ==> p + 1 < e < |s|
    ensures 0 <= e ==>
              var n := Int64.ParseInt(s[p + 1..e - 1]);
              if n.None? || n.value < 0 then Grammar.ParseNext(s, p) == Grammar.Incomplete
              else
                var r := BulkElems(s, e + 1, n.value);
                && AgreesWithRecursive(s, p, if r.Complete? then P.Done else if r.Panic? then P.Panicked else P.NeedMore,
                                       if r.Complete? then r.value else [], if r.Complete? then r.next else 0)
  {
    hide Int64.ParseInt, Grammar.FindCrlf, Grammar.ParseNext, BulkElems, Grammar.Bulks;
    P.TypedNext(s, p, e);
    if 0 <= e {
      var n := Int64.ParseInt(s[p + 1..e - 1]);
      if n.Some? && 0 <= n.value {
        BulkElemsAgree(s, e + 1, n.value);
      }
    }
  }

  /** The element a header ending at `e` introduces. */
  lemma BulkElemAt(s: bytes, p: nat, e: int)
    requires p < |s| < MAX && s[p] == DOLLAR && e == Grammar.FindCrlf(s, p + 1)
    ensures e < 0 ==> BulkElem(s, p) == Grammar.Incomplete
    ensures 0 <= e ==> p + 1 < e < |s|
    ensures 0 <= e ==>
              var n := Int64.ParseInt(s[p + 1..e - 1]);
              if n.None? || n.value < 0 then BulkElem(s, p) == Grammar.Incomplete
              else
                var start, end := e + 1, Wrap(e + 1 + n.value);
                && (Wrap(end + 2) > |s| ==> BulkElem(s, p) == Grammar.Incomplete)
                && (Wrap(end + 2) <= |s| && !(0 <= end < |s|) ==> BulkElem(s, p) == Grammar.Panic)
                && (Wrap(end + 2) <= |s| && 0 <= end < |s| ==>
                      && start <= end && end + 1 < |s|
                      && BulkElem(s, p) == if s[end] == CR && s[end + 1] == LF
                                           then Grammar.Complete(s[start..end], end + 2) else Grammar.Incomplete)
  {
    hide Int64.ParseInt, Grammar.FindCrlf, Wrap, Grammar.ParseBulk;
    if 0 <= e {
      var n := Int64.ParseInt(s[p + 1..e - 1]);
      if n.Some? && 0 <= n.value {
        P.BulkCases(s, e + 1, n.value);
      }
    }
  }

  /** The arguments that lie between consecutive pairs of marks. */
  ghost function Marked(s: bytes, marks: seq<nat>): (r: seq<bytes>)
    requires |marks| % 2 == 0
    requires forall i | 0 <= 2 * i < |marks| :: marks[2 * i] <= marks[2 * i + 1] <= |s|
    ensures |r| == |marks| / 2
    ensures forall i | 0 <= i < |r| :: r[i] == s[marks[2 * i]..marks[2 * i + 1]]
  {
    seq(|marks| / 2, i requires 0 <= i < |marks| / 2 => s[marks[2 * i]..marks[2 * i + 1]])
  }

  class Parser {
    var buf: bytes
    var pos: nat
    var marks: seq<nat>

    ghost predicate Valid()
      reads this
    {
      pos <= |buf| < MAX
    }

    constructor (b: bytes)
      requires |b| < MAX
      ensures Valid() && buf == b && pos == 0
    {
      buf := b;
      pos := 0;
      marks := [];
    }

    method FindCRLF(from: nat) returns (i: int)
      requires Valid() && from <= |buf|
      ensures i == Grammar.FindCrlf(buf, from)
    {
      var j := from;
      while j < |buf| - 1
        invariant from <= j <= |buf|
        invariant Grammar.FindCrlf(buf, from) == Grammar.FindCrlf(buf, j)
      {
        if buf[j] == CR && buf[j + 1] == LF {
          return j + 1;
        }
        j := j + 1;
      }
      return -1;
    }

    /** Parses an array of bulk strings. On failure the position is wherever the scan had got to. */
    method ParseArray() returns (st: Status, raw: bytes, args: seq<bytes>)
      requires Valid() && pos < |buf| && buf[pos] == STAR
      modifies this`pos, this`marks
      ensures Valid()
      ensures AgreesWithRecursive(buf, old(pos), st, args, pos)
      ensures st == P.Done ==> old(pos) < pos && raw == buf[old(pos)..pos]
    {
      hide Int64.ParseInt, Grammar.FindCrlf, Grammar.ParseNext, BulkElems;
      var start := pos;
      raw, args := [], [];
      marks := [];
      var lineEnd := FindCRLF(pos + 1);
      ArrayNext(buf, pos, lineEnd);
      if lineEnd == -1 {
        return P.NeedMore, [], [];
      }
      var count := ParseInt64(buf[pos + 1..lineEnd - 1]);
      if count.None? || count.value < 0 {
        return P.NeedMore, [], [];
      }
      pos := lineEnd + 1;
      st := MarkElements(count.value);
      if st != P.Done {
        return st, [], [];
      }
      raw := buf[start..pos];
      args := Args();
    }

    /** The arguments, cut out of the buffer at the marks. */
    method Args() returns (args: seq<bytes>)
      requires Valid() && GoodMarks()
      ensures args == Marked(buf, marks)
    {
      args := [];
      var i := 0;
      while i < |marks|
        invariant i % 2 == 0 && i <= |marks| && |args| == i / 2
        invariant args == Marked(buf, marks)[..i / 2]
      {
        assert i == 2 * (i / 2);
        args := args + [buf[marks[i]..marks[i + 1]]];
        i := i + 2;
      }
      assert args == Marked(buf, marks);
    }

    ghost predicate GoodMarks()
      reads this
    {
      && |marks| % 2 == 0
      && forall i | 0 <= 2 * i < |marks| :: marks[2 * i] <= marks[2 * i + 1] <= |buf|
    }

    /** The marking loop: after it, the marks delimit the elements. */
    method MarkElements(count: nat) returns (st: Status)
      requires Valid() && marks == [] && 0 < pos
      modifies this`pos, this`marks
      ensures Valid() && GoodMarks() && old(pos) <= pos
      ensures match BulkElems(buf, old(pos), count)
              case Complete(ds, n) => st == P.Done && pos == n && Marked(buf, marks) == ds
              case Incomplete => st == P.NeedMore
              case Panic => st == P.Panicked
    {
      hide BulkElems, BulkElem, Marked;
      NoMarks(buf);
      ghost var all := BulkElems(buf, pos, count);
      ghost var ds: seq<bytes> := [];
      AfterEnds(ds, buf, pos, all);
      var i := 0;
      while i < count
        invariant i <= count && Valid() && old(pos) <= pos
        invariant GoodMarks() && Marked(buf, marks) == ds
        invariant all == After(ds, BulkElems(buf, pos, count - i))
      {
        AfterStep(ds, buf, pos, count - i);
        var status, d := MarkElement();
        if status != P.Done {
          return status;
        }
        ds := ds + [d];
        i := i + 1;
      }
      AfterEnds(ds, buf, pos, all);
      return P.Done;
    }

    /** One round of the marking loop. */
    method MarkElement() returns (st: Status, ghost d: bytes)
      requires Valid() && GoodMarks()
      modifies this`pos, this`marks
      ensures Valid() && GoodMarks() && old(pos) <= pos
      ensures match BulkElem(buf, old(pos))
              case Complete(e, n) => st == P.Done && pos == n && d == e && Marked(buf, marks) == old(Marked(buf, marks)) + [d]
              case Incomplete => st == P.NeedMore
              case Panic => st == P.Panicked
    {
      hide Int64.ParseInt, Grammar.FindCrlf, BulkElem, Wrap, Marked;
      d := [];
      if pos >= |buf| || buf[pos] != DOLLAR {
        NoElem(buf, pos);
        return P.NeedMore, d;
      }
      var lineEnd := FindCRLF(pos + 1);
      BulkElemAt(buf, pos, lineEnd);
      if lineEnd == -1 {
        return P.NeedMore, d;
      }
      var bulkLen := ParseInt64(buf[pos + 1..lineEnd - 1]);
      if bulkLen.None? || bulkLen.value < 0 {
        return P.NeedMore, d;
      }
      var dataStart := lineEnd + 1;
      var dataEnd := Wrap(dataStart + bulkLen.value);
      if Wrap(dataEnd + 2) > |buf| {
        return P.NeedMore, d;
      }
      if !(0 <= dataEnd < |buf|) {
        return P.Panicked, d;
      }
      if buf[dataEnd] != CR || buf[dataEnd + 1] != LF {
        return P.NeedMore, d;
      }
      MarkedSnoc(buf, marks, dataStart, dataEnd);
      marks := marks + [dataStart, dataEnd];
      pos := dataEnd + 2;
      return P.Done, buf[dataStart..dataEnd];
    }
  }

  lemma NoMarks(s: bytes)
    ensures Marked(s, []) == []
  {
  }

  lemma NoElem(s: bytes, p: nat)
    requires p <= |s| && (p == |s| || s[p] != DOLLAR)
    ensures BulkElem(s, p) == Grammar.Incomplete
  {
  }

  lemma MarkedSnoc(s: bytes, marks: seq<nat>, a: nat, b: nat)
    requires |marks| % 2 == 0 && a <= b <= |s|
    requires forall i | 0 <= 2 * i < |marks| :: marks[2 * i] <= marks[2 * i + 1] <= |s|
    ensures var ms := marks + [a, b];
            && |ms| % 2 == 0
            && (forall i | 0 <= 2 * i < |ms| :: ms[2 * i] <= ms[2 * i + 1] <= |s|)
            && Marked(s, ms) == Marked(s, marks) + [s[a..b]]
  {
    var ms := marks + [a, b];
    forall i | 0 <= 2 * i < |ms|
      ensures ms[2 * i] <= ms[2 * i + 1] <= |s|
    {
      if 2 * i == |marks| {
        assert ms[2 * i] == a && ms[2 * i + 1] == b;
      } else {
        assert ms[2 * i] == marks[2 * i] && ms[2 * i + 1] == marks[2 * i + 1];
      }
    }
  }
}
