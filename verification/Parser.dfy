/** The zero-copy parser of internal/protocol/parser.go, refining the grammar. */
module Parser {
  import opened Bytes
  import opened Int64
  import opened Views
  import Values
  import Grammar
  import Inline

  /** How one attempt to parse a value ended. */
  datatype Status = Done | NeedMore | Panicked

  type Outcome = Grammar.Outcome<Value>

  /** The result of an attempt that ended at `pos` is the outcome the grammar prescribes. */
  ghost predicate Agrees(st: Status, v: RespValue, pos: nat, r: Outcome)
    reads Arrays(v)
  {
    match r
    case Complete(w, n) => st == Done && pos == n && Valid(v) && Contents(v) == w
    case Incomplete => st == NeedMore
    case Panic => st == Panicked
  }

  /** Outcome of parsing further elements after those already parsed. */
  ghost function After(vs: seq<Value>, r: Grammar.Outcome<seq<Value>>): Grammar.Outcome<seq<Value>> {
    match r
    case Complete(ws, n) => Grammar.Complete(vs + ws, n)
    case Incomplete => Grammar.Incomplete
    case Panic => Grammar.Panic
  }

  ghost function Found(vs: seq<Value>, b: Grammar.Batch): Grammar.Batch {
    b.(values := vs + b.values)
  }

  lemma FoundNone(b: Grammar.Batch)
    ensures Found([], b) == b
  {
    assert [] + b.values == b.values;
  }

  lemma FoundStep(vs: seq<Value>, s: bytes, p: nat)
    requires p <= |s|
    ensures var r := Grammar.ParseNext(s, p);
            Found(vs, Grammar.ParseAll(s, p)) ==
            if r.Complete? then Found(vs + [r.value], Grammar.ParseAll(s, r.next))
            else Grammar.Batch(vs, p, r.Panic?)
  {
    hide Grammar.ParseNext;
    var r := Grammar.ParseNext(s, p);
    if r.Complete? {
      var b := Grammar.ParseAll(s, r.next);
      assert vs + ([r.value] + b.values) == vs + [r.value] + b.values;
    } else {
      assert vs + [] == vs;
    }
  }

  lemma AfterNone(r: Grammar.Outcome<seq<Value>>)
    ensures After([], r) == r
  {
    if r.Complete? {
      assert [] + r.value == r.value;
    }
  }

  lemma AfterStep(vs: seq<Value>, s: bytes, p: nat, k: nat)
    requires p <= |s| && 0 < k
    ensures match Grammar.ParseNext(s, p)
            case Complete(v, n) => After(vs, Grammar.ParseElems(s, p, k)) == After(vs + [v], Grammar.ParseElems(s, n, k - 1))
            case Incomplete => After(vs, Grammar.ParseElems(s, p, k)) == Grammar.Incomplete
            case Panic => After(vs, Grammar.ParseElems(s, p, k)) == Grammar.Panic
  {
    hide Grammar.ParseNext;
    if Grammar.ParseNext(s, p).Complete? {
      var v, n := Grammar.ParseNext(s, p).value, Grammar.ParseNext(s, p).next;
      var r := Grammar.ParseElems(s, n, k - 1);
      if r.Complete? {
        assert vs + ([v] + r.value) == vs + [v] + r.value;
      }
    }
  }

  lemma AfterZero(vs: seq<Value>, s: bytes, p: nat)
    requires p <= |s|
    ensures After(vs, Grammar.ParseElems(s, p, 0)) == Grammar.Complete(vs, p)
  {
    assert vs + [] == vs;
  }

  /** The grammar of a typed value, once its header line ends at `e`. */
  lemma TypedNext(s: bytes, p: nat, e: int)
    requires p < |s| && Grammar.IsTyped(s[p]) && e == Grammar.FindCrlf(s, p + 1)
    ensures e < 0 ==> Grammar.ParseNext(s, p) == Grammar.Incomplete
    ensures 0 <= e ==> p + 1 < e < |s|
    ensures 0 <= e ==>
              var t := s[p + 1..e - 1];
              Grammar.ParseNext(s, p) ==
              if s[p] == PLUS then Grammar.Complete(Values.SimpleString(t), e + 1)
              else if s[p] == MINUS then Grammar.Complete(Values.Error(t), e + 1)
              else if s[p] == COLON then Grammar.IntegerValue(Int64.ParseInt(t), e + 1)
              else if s[p] == DOLLAR then Grammar.ParseBulk(s, e + 1, Int64.ParseInt(t))
              else if Int64.ParseInt(t).None? || Int64.ParseInt(t).value < 0 then Grammar.Incomplete
              else Grammar.ArrayOf(Grammar.ParseElems(s, e + 1, Int64.ParseInt(t).value))
  {
    hide Int64.ParseInt, Grammar.FindCrlf;
  }

  lemma InlineNext(s: bytes, p: nat, e: int)
    requires p < |s| && !Grammar.IsTyped(s[p]) && e == Grammar.FindCrlf(s, p)
    ensures Grammar.ParseNext(s, p) ==
            if e < 0 then Grammar.Incomplete else Grammar.Complete(Grammar.InlineValue(s[p..e - 1]), e + 1)
  {
    hide Grammar.InlineValue;
  }

  class Parser {
    var buf: array<byte>
    var len: nat
    var pos: nat
    ghost var text: bytes

    /** The buffer is the first `len` bytes of `buf`, spelling `text`; `len` is a Go int. */
    ghost predicate Valid()
      reads this, buf
    {
      pos <= len <= buf.Length && len < MAX && |text| == len && buf[..len] == text
    }

    lemma TextSlice(a: nat, b: nat)
      requires Valid() && a <= b <= len
      ensures text[a..b] == buf[a..b]
    {
    }

    constructor ()
      ensures Valid() && text == [] && fresh(buf)
    {
      buf := new byte[0];
      len := 0;
      pos := 0;
      text := [];
    }

    /** Index of the LF of the first CRLF at or after `from`, or -1. */
    method FindCRLF(from: nat) returns (i: int)
      requires Valid() && from <= len
      ensures i == Grammar.FindCrlf(text, from)
      ensures i == -1 || (from < i < len && buf[i - 1] == CR && buf[i] == LF)
    {
      var j := from;
      while j < len - 1
        invariant from <= j <= len
        invariant Grammar.FindCrlf(text, from) == Grammar.FindCrlf(text, j)
      {
        if buf[j] == CR && buf[j + 1] == LF {
          return j + 1;
        }
        j := j + 1;
      }
      return -1;
    }

    /** Parses the first complete value of the first `n` bytes of `b`. */
    method ParseOne(b: array<byte>, n: nat) returns (st: Status, v: RespValue, consumed: nat)
      requires n <= b.Length && n < MAX
      modifies this
      ensures Valid() && buf == b && text == b[..n]
      ensures Agrees(st, v, consumed, Grammar.ParseNext(b[..n], 0))
      ensures st == NeedMore ==> consumed == 0
      ensures st == Done ==> forall a | a in Arrays(v) :: a == b || fresh(a)
    {
      buf := b;
      len := n;
      pos := 0;
      text := b[..n];
      st, v := ParseNext();
      consumed := if st == Done then pos else 0;
    }

    /** Parses all the complete values of the first `n` bytes of `b`. */
    method Parse(b: array<byte>, n: nat) returns (panicked: bool, values: seq<RespValue>, consumed: nat)
      requires n <= b.Length && n < MAX
      modifies this
      ensures Valid() && buf == b && text == b[..n]
      ensures panicked == Grammar.ParseAll(b[..n], 0).panicked
      ensures !panicked ==>
                && (forall v | v in values :: Views.Valid(v))
                && ContentsAll(values) == Grammar.ParseAll(b[..n], 0).values
                && consumed == Grammar.ParseAll(b[..n], 0).next
      ensures forall a | a in ArraysAll(values) :: a == b || fresh(a)
    {
      hide Grammar.ParseNext, Grammar.ParseAll, Views.Contents, Views.ContentsAll, Views.Arrays, Views.ArraysAll, Views.Valid;
      NoElements();
      buf := b;
      len := n;
      pos := 0;
      text := b[..n];
      values := [];
      panicked := false;
      FoundNone(Grammar.ParseAll(text, 0));
      while pos < len
        invariant Valid() && buf == b && len == n && text == b[..n]
        invariant !panicked && forall v | v in values :: Views.Valid(v)
        invariant forall a | a in ArraysAll(values) :: a == b || fresh(a)
        invariant Grammar.ParseAll(text, 0) == Found(ContentsAll(values), Grammar.ParseAll(text, pos))
        decreases len - pos
      {
        ArraysAllAllocated(values);
        FoundStep(ContentsAll(values), text, pos);
        label before:
        var st, v := ParseNext();
        ContentsAllFrame@before(values);
        if st == Panicked {
          return true, values, pos;
        }
        if st == NeedMore {
          break;
        }
        ContentsAllSnoc(values, v);
        values := values + [v];
      }
      AtEnd(text);
      FoundStep(ContentsAll(values), text, pos);
      return false, values, pos;
    }

    method ParseNext() returns (st: Status, v: RespValue)
      requires Valid()
      modifies this`pos
      ensures Valid()
      ensures Agrees(st, v, pos, Grammar.ParseNext(text, old(pos)))
      ensures st == NeedMore ==> pos == old(pos)
      ensures st == Done ==> old(pos) < pos
      ensures st == Done ==> forall a | a in Arrays(v) :: a == buf || fresh(a)
      decreases len - pos, 1
    {
      if pos >= len {
        return NeedMore, Null;
      }
      if buf[pos] == STAR {
        st, v := ParseArray();
      } else if buf[pos] == PLUS {
        st, v := ParseSimpleString();
      } else if buf[pos] == MINUS {
        st, v := ParseError();
      } else if buf[pos] == COLON {
        st, v := ParseInt();
      } else if buf[pos] == DOLLAR {
        st, v := ParseBulkString();
      } else {
        st, v := ParseInlineCommand();
      }
    }

    method ParseArray() returns (st: Status, v: RespValue)
      requires Valid() && pos < len && buf[pos] == STAR
      modifies this`pos
      ensures Valid()
      ensures Agrees(st, v, pos, Grammar.ParseNext(text, old(pos)))
      ensures st == NeedMore ==> pos == old(pos)
      ensures st == Done ==> old(pos) < pos
      ensures st == Done ==> forall a | a in Arrays(v) :: a == buf || fresh(a)
      decreases len - pos, 0
    {
      hide Int64.ParseInt, Int64.Wrap, Grammar.FindCrlf, Grammar.ParseNext, Grammar.ParseElems,
           Views.Contents, Views.ContentsAll, Views.Arrays, Views.ArraysAll, Views.Valid;
      var start := pos;
      var lineEnd := FindCRLF(pos + 1);
      TypedNext(text, pos, lineEnd);
      if lineEnd == -1 {
        return NeedMore, Null;
      }
      TextSlice(pos + 1, lineEnd - 1);
      var count := ParseInt64(buf[pos + 1..lineEnd - 1]);
      if count.None? || count.value < 0 {
        return NeedMore, Null;
      }
      if count.value == -1 {
        assert false;
      }
      pos := lineEnd + 1;
      var status, elements := ParseElements(start, count.value);
      if status != Done {
        return status, Null;
      }
      ArrayContents(elements);
      return Done, Array(elements);
    }

    /** The element loop of parseArray; a failure restores the position of the array. */
    method ParseElements(start: nat, count: nat) returns (st: Status, elements: seq<RespValue>)
      requires Valid() && start < pos
      modifies this`pos
      ensures Valid()
      ensures match Grammar.ParseElems(text, old(pos), count)
              case Complete(vs, n) =>
                st == Done && pos == n && (forall e | e in elements :: Views.Valid(e)) && ContentsAll(elements) == vs
              case Incomplete => st == NeedMore && pos == start
              case Panic => st == Panicked
      ensures st == Done ==> start < pos
      ensures forall a | a in ArraysAll(elements) :: a == buf || fresh(a)
      decreases len - pos, 2
    {
      hide Grammar.ParseNext, Grammar.ParseElems, Views.Contents, Views.ContentsAll, Views.Arrays, Views.ArraysAll, Views.Valid;
      ghost var all := Grammar.ParseElems(text, pos, count);
      ghost var vals: seq<Value> := [];
      elements := [];
      NoElements();
      AfterNone(all);
      var i := 0;
      while i < count
        invariant i <= count && Valid() && start < pos && old(pos) <= pos
        invariant (forall e | e in elements :: Views.Valid(e)) && ContentsAll(elements) == vals
        invariant forall a | a in ArraysAll(elements) :: a == buf || fresh(a)
        invariant all == After(vals, Grammar.ParseElems(text, pos, count - i))
      {
        AfterStep(vals, text, pos, count - i);
        ArraysAllAllocated(elements);
        label before:
        var status, elem := ParseNext();
        ContentsAllFrame@before(elements);
        if status == Panicked {
          return Panicked, elements;
        }
        if status == NeedMore {
          pos := start;
          return NeedMore, elements;
        }
        ContentsAllSnoc(elements, elem);
        vals := vals + [Contents(elem)];
        elements := elements + [elem];
        i := i + 1;
      }
      AfterZero(vals, text, pos);
      return Done, elements;
    }

    method ParseSimpleString() returns (st: Status, v: RespValue)
      requires Valid() && pos < len && buf[pos] == PLUS
      modifies this`pos
      ensures Valid()
      ensures Agrees(st, v, pos, Grammar.ParseNext(text, old(pos)))
      ensures st == NeedMore ==> pos == old(pos)
      ensures st == Done ==> old(pos) < pos && Arrays(v) == {}
    {
      hide Grammar.FindCrlf, Grammar.ParseNext;
      var lineEnd := FindCRLF(pos + 1);
      TypedNext(text, pos, lineEnd);
      if lineEnd == -1 {
        return NeedMore, Null;
      }
      var s := buf[pos + 1..lineEnd - 1];
      TextSlice(pos + 1, lineEnd - 1);
      pos := lineEnd + 1;
      return Done, SimpleString(s);
    }

    method ParseError() returns (st: Status, v: RespValue)
      requires Valid() && pos < len && buf[pos] == MINUS
      modifies this`pos
      ensures Valid()
      ensures Agrees(st, v, pos, Grammar.ParseNext(text, old(pos)))
      ensures st == NeedMore ==> pos == old(pos)
      ensures st == Done ==> old(pos) < pos && Arrays(v) == {}
    {
      hide Grammar.FindCrlf, Grammar.ParseNext;
      var lineEnd := FindCRLF(pos + 1);
      TypedNext(text, pos, lineEnd);
      if lineEnd == -1 {
        return NeedMore, Null;
      }
      var s := buf[pos + 1..lineEnd - 1];
      TextSlice(pos + 1, lineEnd - 1);
      pos := lineEnd + 1;
      return Done, Error(s);
    }

    method ParseInt() returns (st: Status, v: RespValue)
      requires Valid() && pos < len && buf[pos] == COLON
      modifies this`pos
      ensures Valid()
      ensures Agrees(st, v, pos, Grammar.ParseNext(text, old(pos)))
      ensures st == NeedMore ==> pos == old(pos)
      ensures st == Done ==> old(pos) < pos && Arrays(v) == {}
    {
      hide Int64.ParseInt, Int64.Wrap, Grammar.FindCrlf, Grammar.ParseNext;
      var lineEnd := FindCRLF(pos + 1);
      TypedNext(text, pos, lineEnd);
      if lineEnd == -1 {
        return NeedMore, Null;
      }
      TextSlice(pos + 1, lineEnd - 1);
      var n := ParseInt64(buf[pos + 1..lineEnd - 1]);
      if n.None? {
        return NeedMore, Null;
      }
      pos := lineEnd + 1;
      return Done, Integer(n.value);
    }

    method ParseBulkString() returns (st: Status, v: RespValue)
      requires Valid() && pos < len && buf[pos] == DOLLAR
      modifies this`pos
      ensures Valid()
      ensures Agrees(st, v, pos, Grammar.ParseNext(text, old(pos)))
      ensures st == NeedMore ==> pos == old(pos)
      ensures st == Done ==> old(pos) < pos && Arrays(v) <= {buf}
    {
      hide Int64.ParseInt, Int64.Wrap, Grammar.FindCrlf, Grammar.ParseNext, Grammar.ParseBulk,
           Views.Contents, Views.Arrays, Views.Valid;
      NilArrayContents();
      var lineEnd := FindCRLF(pos + 1);
      TypedNext(text, pos, lineEnd);
      if lineEnd == -1 {
        return NeedMore, Null;
      }
      TextSlice(pos + 1, lineEnd - 1);
      var bulkLen := ParseInt64(buf[pos + 1..lineEnd - 1]);
      if bulkLen.None? {
        NoBulkLength(text, lineEnd + 1);
        return NeedMore, Null;
      }
      BulkCases(text, lineEnd + 1, bulkLen.value);
      if bulkLen.value == -1 {
        pos := lineEnd + 1;
        return Done, Null;
      }
      if bulkLen.value < 0 {
        return NeedMore, Null;
      }
      st, v := ParseBulkBody(lineEnd + 1, bulkLen.value);
    }

    /** The payload of a bulk string of length `n`, by the source's wrapping index arithmetic. */
    method ParseBulkBody(dataStart: nat, n: int64) returns (st: Status, v: RespValue)
      requires Valid() && pos < dataStart <= len && 0 <= n
      modifies this`pos
      ensures Valid()
      ensures Agrees(st, v, pos, Grammar.ParseBulk(text, dataStart, Some(n)))
      ensures st == NeedMore ==> pos == old(pos)
      ensures st == Done ==> old(pos) < pos && Arrays(v) <= {buf}
    {
      hide Int64.Wrap, Grammar.ParseBulk, Views.Contents, Views.Arrays, Views.Valid;
      BulkCases(text, dataStart, n);
      var dataEnd := Wrap(dataStart + n);
      if Wrap(dataEnd + 2) > len {
        return NeedMore, Null;
      }
      if !(0 <= dataEnd < len) {
        return Panicked, Null;
      }
      if buf[dataEnd] != CR || buf[dataEnd + 1] != LF {
        return NeedMore, Null;
      }
      TextSlice(dataStart, dataEnd);
      v := BulkString(Slice(buf, dataStart, dataEnd));
      SliceContents(Slice(buf, dataStart, dataEnd));
      pos := dataEnd + 2;
      return Done, v;
    }

    method ParseInlineCommand() returns (st: Status, v: RespValue)
      requires Valid() && pos < len && !Grammar.IsTyped(buf[pos])
      modifies this`pos
      ensures Valid()
      ensures Agrees(st, v, pos, Grammar.ParseNext(text, old(pos)))
      ensures st == NeedMore ==> pos == old(pos)
      ensures st == Done ==> old(pos) < pos
      ensures st == Done ==> forall a | a in Arrays(v) :: a == buf || fresh(a)
    {
      hide Inline.InlineArgs, Grammar.FindCrlf, Grammar.ParseNext, Grammar.Bulks, Views.Contents, Views.Arrays, Views.Valid,
           ValidSlices, SliceArrays, SliceBytes;
      NilArrayContents();
      var newlinePos := FindCRLF(pos);
      if newlinePos == -1 {
        InlineNext(text, pos, newlinePos);
        return NeedMore, Null;
      }
      var end := newlinePos - 1;
      if !(newlinePos > pos && buf[newlinePos - 1] == CR) {
        assert false;
      }
      TextSlice(pos, end);
      InlineNext(text, pos, newlinePos);
      var args := ParseInlineArgs(pos, end);
      pos := newlinePos + 1;
      if |args| == 0 {
        return Done, NilArray;
      }
      v := BulkArray(args);
      return Done, v;
    }

    /** The inner loop of the tokenizer: scans on to the byte that ends a word or a quotation, or to the end of
        the line, and collects the bytes before it. */
    static method ScanArg(line: bytes, quote: bool, quotech: byte) returns (i: nat, nline: bytes)
      ensures i <= |line|
      ensures !quote ==> nline == line[..i] && Inline.IsPlain(nline)
      ensures !quote && i < |line| ==> line[i] == SPACE || Inline.IsQuote(line[i])
      ensures quote ==> Inline.Quoted(line, quotech) ==
                        if i < |line| then Inline.Closed(nline, line[i + 1..]) else Inline.Unclosed
    {
      hide Inline.Quoted, Inline.Escaped, Inline.PushAll, Inline.Unescape, Inline.IsPlain;
      nline := [];
      i := 0;
      var escape := false;
      assert line[0..] == line && line[..0] == [];
      Inline.PlainStart(line);
      Inline.QuotedStart(line, quotech);
      while i < |line|
        invariant i <= |line|
        invariant !quote ==> !escape && nline == line[..i] && Inline.IsPlain(nline)
        invariant quote ==> Inline.Quoted(line, quotech) ==
                            Inline.PushAll(nline, if escape then Inline.Escaped(line[i..], quotech) else Inline.Quoted(line[i..], quotech))
      {
        var c := line[i];
        assert line[i..][0] == c && line[i..][1..] == line[i + 1..];
        if !quote {
          Inline.PlainStep(line, i);
          if c == SPACE || c == DQUOTE || c == SQUOTE {
            return;
          }
        } else {
          Inline.QuotedStep(nline, line[i..], quotech);
          if escape {
            escape := false;
            c := Inline.Unescape(c);
          } else if c == quotech {
            return;
          } else if c == BACKSLASH {
            escape := true;
            i := i + 1;
            continue;
          }
        }
        nline := nline + [c];
        i := i + 1;
      }
      assert line[|line|..] == [];
      Inline.NoTokens(quotech);
    }

    /** Splits the bytes of the buffer from `from` up to `end` into arguments. */
    method ParseInlineArgs(from: nat, end: nat) returns (args: seq<Slice>)
      requires from <= end <= buf.Length
      ensures ValidSlices(args)
      ensures forall a | a in SliceArrays(args) :: a == buf || fresh(a)
      ensures SliceBytes(args) == Inline.InlineArgs(buf[from..end])
    {
      hide Inline.Tokens, Inline.QuotedTokens, Inline.Quoted, Inline.Prepend, Inline.IsPlain, SliceBytes, SliceArrays, ValidSlices;
      NoSlices();
      args := [];
      ghost var done: seq<bytes> := [];
      var line := buf[from..end];
      ghost var whole := Inline.Tokens(line);
      var start := from;
      var quote, quotech := false, 0;
      Inline.PrependNone(whole);
      while start < end
        invariant from <= start <= end && line == buf[start..end]
        invariant ValidSlices(args) && SliceBytes(args) == done
        invariant forall a | a in SliceArrays(args) :: a == buf || fresh(a)
        invariant whole == Inline.Prepend(done, if quote then Inline.QuotedTokens(line, quotech) else Inline.Tokens(line))
        decreases end - start
      {
        var i, nline := ScanArg(line, quote, quotech);
        if i == |line| {
          if quote {
            Inline.QuoteStaysOpen(done, line, quotech);
            return [];
          }
          assert line[..|line|] == line;
          Inline.LineEnds(done, line);
          SliceBytesSnoc(args, Slice(buf, start, end));
          args := args + [Slice(buf, start, end)];
          done := done + [line];
          line, start := [], end;
          break;
        }
        ghost var rest := line[i + 1..];
        if quote {
          Inline.QuoteCloses(done, line, quotech, nline, rest);
          quote := false;
          args := AddOwned(args, nline);
          done := done + [nline];
          if |line| > i + 1 && line[i + 1] != SPACE {
            return [];
          }
        } else if line[i] == SPACE {
          Inline.WordEnds(done, line, i);
          if |nline| > 0 {
            args := AddOwned(args, nline);
            done := done + [nline];
          }
        } else {
          Inline.QuoteOpens(done, line, i);
          if i != 0 {
            return [];
          }
          quotech := line[i];
          quote := true;
        }
        line, start := line[i + 1..], start + i + 1;
      }
      assert line == [];
      Inline.NoTokens(quotech);
      Inline.PrependDone(done);
    }
  }

  /** The bulk branch by the wrapping index arithmetic of the source: either no sum wraps, or a wrapped
      sum passes the bounds check and the index is outside the buffer. */
  lemma BulkCases(s: bytes, p: nat, n: int64)
    requires p <= |s| < MAX
    ensures var end := Wrap(p + n);
            var r := Grammar.ParseBulk(s, p, Some(n));
            && (n == -1 ==> r == Grammar.Complete(Values.Null, p))
            && (n < -1 ==> r == Grammar.Incomplete)
            && (0 <= n && Wrap(end + 2) > |s| ==> r == Grammar.Incomplete)
            && (0 <= n && Wrap(end + 2) <= |s| && !(0 <= end < |s|) ==> r == Grammar.Panic)
            && (0 <= n && Wrap(end + 2) <= |s| && 0 <= end < |s| ==>
                  && p <= end && end + 1 < |s|
                  && r == if s[end] == CR && s[end + 1] == LF
                          then Grammar.Complete(Values.BulkString(s[p..end]), end + 2) else Grammar.Incomplete)
  {
  }

  lemma NoBulkLength(s: bytes, p: nat)
    requires p <= |s|
    ensures Grammar.ParseBulk(s, p, None) == Grammar.Incomplete
  {
  }

  lemma AtEnd(s: bytes)
    ensures Grammar.ParseNext(s, |s|) == Grammar.Incomplete
  {
  }

  ghost predicate ValidSlices(args: seq<Slice>) {
    forall a | a in args :: a.Valid()
  }

  ghost function SliceArrays(args: seq<Slice>): set<array<byte>> {
    set a | a in args :: a.arr
  }

  ghost function SliceBytes(args: seq<Slice>): (r: seq<bytes>)
    requires ValidSlices(args)
    reads SliceArrays(args)
    ensures |r| == |args|
    ensures forall i | 0 <= i < |args| :: r[i] == args[i].Bytes()
  {
    if args == [] then []
    else
      assert forall a | a in args[..|args| - 1] :: a in args;
      SliceBytes(args[..|args| - 1]) + [args[|args| - 1].Bytes()]
  }

  lemma SliceBytesSnoc(args: seq<Slice>, s: Slice)
    requires ValidSlices(args) && s.Valid()
    ensures ValidSlices(args + [s]) && SliceArrays(args + [s]) == SliceArrays(args) + {s.arr}
    ensures SliceBytes(args + [s]) == SliceBytes(args) + [s.Bytes()]
  {
    assert (args + [s])[..|args|] == args;
  }

  lemma NoSlices()
    ensures ValidSlices([]) && SliceArrays([]) == {} && SliceBytes([]) == []
  {
  }

  lemma SlicesAllocated(args: seq<Slice>)
    ensures forall a | a in SliceArrays(args) :: allocated(a)
  {
  }

  twostate lemma SliceBytesFrame(args: seq<Slice>)
    requires ValidSlices(args)
    requires forall a | a in SliceArrays(args) :: old(allocated(a)) && unchanged(a)
    ensures SliceBytes(args) == old(SliceBytes(args))
  {
  }

  /** The argument list with one more argument, held in memory of its own. */
  method AddOwned(args: seq<Slice>, t: bytes) returns (r: seq<Slice>)
    requires ValidSlices(args)
    ensures ValidSlices(r) && SliceBytes(r) == old(SliceBytes(args)) + [t]
    ensures forall a | a in SliceArrays(r) :: a in SliceArrays(args) || fresh(a)
  {
    hide SliceBytes, SliceArrays, ValidSlices;
    SlicesAllocated(args);
    var arr := new byte[|t|](i requires 0 <= i < |t| => t[i]);
    SliceBytesFrame(args);
    var s := Slice(arr, 0, |t|);
    assert s.Bytes() == t;
    SliceBytesSnoc(args, s);
    r := args + [s];
  }

  lemma SliceContents(s: Slice)
    requires s.Valid()
    ensures Valid(BulkString(s)) && Arrays(BulkString(s)) == {s.arr}
    ensures Contents(BulkString(s)) == Values.BulkString(s.Bytes())
  {
  }

  lemma NilArrayContents()
    ensures Valid(NilArray) && Arrays(NilArray) == {} && Contents(NilArray) == Values.NilArray
    ensures Valid(Null) && Arrays(Null) == {} && Contents(Null) == Values.Null
  {
  }

  lemma BulksSnoc(args: seq<bytes>, a: bytes)
    ensures Grammar.Bulks(args + [a]) == Grammar.Bulks(args) + [Values.BulkString(a)]
  {
  }

  /** The array of bulk strings made of inline arguments. */
  method BulkArray(args: seq<Slice>) returns (v: RespValue)
    requires ValidSlices(args)
    ensures Valid(v) && Arrays(v) == SliceArrays(args)
    ensures Contents(v) == Values.Array(Grammar.Bulks(SliceBytes(args)))
  {
    hide SliceBytes, SliceArrays, Grammar.Bulks, Views.ContentsAll, Views.ArraysAll, Views.Contents, Views.Arrays, Views.Valid;
    var elements: seq<RespValue> := [];
    NoElements();
    NoSlices();
    NoBulks();
    assert args[..0] == [];
    for i := 0 to |args|
      invariant (forall e | e in elements :: Views.Valid(e)) && ValidSlices(args[..i])
      invariant ArraysAll(elements) == SliceArrays(args[..i])
      invariant ContentsAll(elements) == Grammar.Bulks(SliceBytes(args[..i]))
    {
      assert args[..i + 1] == args[..i] + [args[i]];
      SliceBytesSnoc(args[..i], args[i]);
      BulksSnoc(SliceBytes(args[..i]), args[i].Bytes());
      SliceContents(args[i]);
      ContentsAllSnoc(elements, BulkString(args[i]));
      elements := elements + [BulkString(args[i])];
    }
    assert args[..|args|] == args;
    ArrayContents(elements);
    v := Array(elements);
  }

  lemma NoBulks()
    ensures Grammar.Bulks([]) == []
  {
  }
}
