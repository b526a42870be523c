/** Inline commands: splitting a line into arguments, and a printer whose output it splits back. */
module Inline {
  import opened Bytes

  predicate IsQuote(c: byte) {
    c == DQUOTE || c == SQUOTE
  }

  function Unescape(c: byte): byte {
    if c == 110 then LF else if c == 114 then CR else if c == 116 then TAB else c
  }

  /** A quoted argument and what follows its closing quote. */
  datatype Quote = Unclosed | Closed(arg: bytes, rest: bytes)

  function Push(c: byte, q: Quote): Quote {
    if q.Closed? then Closed([c] + q.arg, q.rest) else Unclosed
  }

  /** Scan the inside of a quotation opened by `q`. */
  function Quoted(s: bytes, q: byte): (r: Quote)
    ensures r.Closed? ==> |r.rest| < |s|
  {
    if s == [] then Unclosed
    else if s[0] == q then Closed([], s[1..])
    else if s[0] == BACKSLASH then Escaped(s[1..], q)
    else Push(s[0], Quoted(s[1..], q))
  }

  /** Scan on from just after a backslash. */
  function Escaped(s: bytes, q: byte): (r: Quote)
    ensures r.Closed? ==> |r.rest| < |s|
  {
    if s == [] then Unclosed else Push(Unescape(s[0]), Quoted(s[1..], q))
  }

  /** Length of the unquoted word at the head of `s`. */
  function WordLength(s: bytes): (k: nat)
    ensures k <= |s|
    ensures forall i | 0 <= i < k :: s[i] != SPACE && !IsQuote(s[i])
    ensures k < |s| ==> s[k] == SPACE || IsQuote(s[k])
  {
    if s == [] || s[0] == SPACE || IsQuote(s[0]) then 0 else 1 + WordLength(s[1..])
  }

  function Cons(a: bytes, r: Option<seq<bytes>>): Option<seq<bytes>> {
    if r.Some? then Some([a] + r.value) else None
  }

  /** The arguments of a line; None when its quotes are misplaced. */
  function Tokens(s: bytes): Option<seq<bytes>>
    decreases |s|
  {
    if s == [] then Some([])
    else if s[0] == SPACE then Tokens(s[1..])
    else if IsQuote(s[0]) then QuotedTokens(s[1..], s[0])
    else
      var k := WordLength(s);
      if k == |s| then Some([s])
      else if s[k] == SPACE then Cons(s[..k], Tokens(s[k + 1..]))
      else None
  }

  /** The arguments of a line whose first one is open. A quote that ends the line opens nothing:
      it is dropped without complaint. */
  function QuotedTokens(s: bytes, q: byte): Option<seq<bytes>>
    decreases |s|
  {
    if s == [] then Some([])
    else
      match Quoted(s, q)
      case Unclosed => None
      case Closed(a, rest) => if rest != [] && rest[0] != SPACE then None else Cons(a, Tokens(rest))
  }

  /** What parseInlineArgs returns: a misquoted line has no arguments at all. */
  function InlineArgs(line: bytes): seq<bytes> {
    match Tokens(line)
    case None => []
    case Some(args) => args
  }

  /** Arguments already taken, put before those still to be found. */
  function Prepend(done: seq<bytes>, r: Option<seq<bytes>>): Option<seq<bytes>> {
    if r.Some? then Some(done + r.value) else None
  }

  /** Bytes already taken from a quotation, put before what is still to be scanned. */
  function PushAll(t: bytes, q: Quote): Quote {
    if q.Closed? then Closed(t + q.arg, q.rest) else Unclosed
  }

  lemma PrependNone(r: Option<seq<bytes>>)
    ensures Prepend([], r) == r
  {
    if r.Some? {
      assert [] + r.value == r.value;
    }
  }

  lemma PrependCons(done: seq<bytes>, a: bytes, r: Option<seq<bytes>>)
    ensures Prepend(done, Cons(a, r)) == Prepend(done + [a], r)
  {
    if r.Some? {
      assert done + ([a] + r.value) == done + [a] + r.value;
    }
  }

  predicate IsPlain(t: bytes) {
    forall i | 0 <= i < |t| :: t[i] != SPACE && !IsQuote(t[i])
  }

  lemma PlainStart(s: bytes)
    ensures IsPlain(s[..0])
  {
  }

  lemma PlainStep(s: bytes, i: nat)
    requires i < |s|
    ensures s[..i + 1] == s[..i] + [s[i]]
    ensures IsPlain(s[..i]) && s[i] != SPACE && !IsQuote(s[i]) ==> IsPlain(s[..i + 1])
  {
  }

  lemma {:induction false} WordLengthIs(s: bytes, k: nat)
    requires k <= |s| && IsPlain(s[..k])
    requires k < |s| ==> s[k] == SPACE || IsQuote(s[k])
    ensures WordLength(s) == k
    decreases k
  {
    if k > 0 {
      assert s[0] == s[..k][0];
      assert s[1..][..k - 1] == s[..k][1..];
      WordLengthIs(s[1..], k - 1);
    }
  }

  /** How a line splits at its first space or quote, `k` bytes in. */
  lemma TokensAt(s: bytes, k: nat)
    requires s != [] && k <= |s| && IsPlain(s[..k])
    requires k < |s| ==> s[k] == SPACE || IsQuote(s[k])
    ensures k == |s| ==> Tokens(s) == Some([s])
    ensures k < |s| && s[k] == SPACE ==> Tokens(s) == if k == 0 then Tokens(s[k + 1..]) else Cons(s[..k], Tokens(s[k + 1..]))
    ensures k < |s| && IsQuote(s[k]) ==> Tokens(s) == if k == 0 then QuotedTokens(s[k + 1..], s[k]) else None
  {
    WordLengthIs(s, k);
    if k > 0 {
      assert s[0] == s[..k][0];
    }
  }

  /** One byte of a quotation, taken the way the scanning loop takes it. */
  lemma QuotedStep(t: bytes, s: bytes, q: byte)
    requires s != []
    ensures s[0] != q && s[0] != BACKSLASH ==> PushAll(t, Quoted(s, q)) == PushAll(t + [s[0]], Quoted(s[1..], q))
    ensures s[0] != q && s[0] == BACKSLASH ==> PushAll(t, Quoted(s, q)) == PushAll(t, Escaped(s[1..], q))
    ensures s[0] == q ==> PushAll(t, Quoted(s, q)) == Closed(t, s[1..])
    ensures PushAll(t, Escaped(s, q)) == PushAll(t + [Unescape(s[0])], Quoted(s[1..], q))
    ensures Unescape(s[0]) == match s[0] as char case 'n' => 10 case 'r' => 13 case 't' => 9 case _ => s[0]
  {
    assert Unescape(s[0]) == match s[0] as char case 'n' => 10 case 'r' => 13 case 't' => 9 case _ => s[0];
    hide Unescape;
    assert t + [] == t;
    var r := Quoted(s[1..], q);
    if r.Closed? {
      assert t + ([s[0]] + r.arg) == t + [s[0]] + r.arg;
      assert t + ([Unescape(s[0])] + r.arg) == t + [Unescape(s[0])] + r.arg;
    }
  }

  lemma QuotedTokensAt(s: bytes, q: byte)
    requires s != []
    ensures QuotedTokens(s, q) ==
            if Quoted(s, q).Unclosed? then None
            else if Quoted(s, q).rest != [] && Quoted(s, q).rest[0] != SPACE then None
            else Cons(Quoted(s, q).arg, Tokens(Quoted(s, q).rest))
  {
  }

  lemma QuotedStart(s: bytes, q: byte)
    ensures PushAll([], Quoted(s, q)) == Quoted(s, q)
  {
    var r := Quoted(s, q);
    if r.Closed? {
      assert [] + r.arg == r.arg;
    }
  }

  lemma NoTokens(q: byte)
    ensures Tokens([]) == Some([]) && QuotedTokens([], q) == Some([])
    ensures Escaped([], q) == Unclosed && Quoted([], q) == Unclosed
    ensures forall t :: PushAll(t, Unclosed) == Unclosed
  {
  }

  // The turns of the loop that splits a line, with the arguments found before.

  lemma WordEnds(done: seq<bytes>, s: bytes, k: nat)
    requires k < |s| && IsPlain(s[..k]) && s[k] == SPACE
    ensures Prepend(done, Tokens(s)) == Prepend(if k == 0 then done else done + [s[..k]], Tokens(s[k + 1..]))
  {
    hide Tokens, IsPlain;
    TokensAt(s, k);
    PrependCons(done, s[..k], Tokens(s[k + 1..]));
  }

  lemma QuoteOpens(done: seq<bytes>, s: bytes, k: nat)
    requires k < |s| && IsPlain(s[..k]) && IsQuote(s[k])
    ensures Prepend(done, Tokens(s)) == if k == 0 then Prepend(done, QuotedTokens(s[k + 1..], s[k])) else None
  {
    hide Tokens, QuotedTokens, IsPlain;
    TokensAt(s, k);
  }

  lemma QuoteCloses(done: seq<bytes>, s: bytes, q: byte, a: bytes, rest: bytes)
    requires s != [] && Quoted(s, q) == Closed(a, rest)
    ensures Prepend(done, QuotedTokens(s, q)) ==
            if rest != [] && rest[0] != SPACE then None else Prepend(done + [a], Tokens(rest))
  {
    hide Tokens, QuotedTokens, Quoted;
    QuotedTokensAt(s, q);
    PrependCons(done, a, Tokens(rest));
  }

  lemma QuoteStaysOpen(done: seq<bytes>, s: bytes, q: byte)
    requires s != [] && Quoted(s, q) == Unclosed
    ensures Prepend(done, QuotedTokens(s, q)) == None
  {
  }

  lemma LineEnds(done: seq<bytes>, s: bytes)
    requires s != [] && IsPlain(s)
    ensures Prepend(done, Tokens(s)) == Prepend(done + [s], Tokens([]))
  {
    hide Tokens, IsPlain;
    assert s[..|s|] == s;
    TokensAt(s, |s|);
    NoTokens(DQUOTE);
    PrependDone(done + [s]);
  }

  lemma PrependDone(done: seq<bytes>)
    ensures Prepend(done, Some([])) == Some(done) && Prepend(done, None) == None
  {
    assert done + [] == done;
  }

  // Which lines are refused: a reading of the line one byte at a time, without its arguments.

  /** Between arguments, in a word, in a quotation, after a backslash in one, or behind its closing quote. */
  datatype Place = Between | InWord | InQuotes(q: byte) | Escaping(q: byte) | Behind

  /** Quotes may only stand at the start of an argument; behind a closing quote only a space may follow; a
      quotation must be closed, unless the quote that opens it is the last byte. */
  predicate WellQuoted(p: Place, s: bytes)
    decreases |s|
  {
    if s == [] then !p.InQuotes? && !p.Escaping?
    else
      var c, rest := s[0], s[1..];
      match p
      case Between =>
        if IsQuote(c) then rest == [] || WellQuoted(InQuotes(c), rest)
        else WellQuoted(if c == SPACE then Between else InWord, rest)
      case InWord => !IsQuote(c) && WellQuoted(if c == SPACE then Between else InWord, rest)
      case InQuotes(q) => WellQuoted(if c == q then Behind else if c == BACKSLASH then Escaping(q) else InQuotes(q), rest)
      case Escaping(q) => WellQuoted(InQuotes(q), rest)
      case Behind => c == SPACE && WellQuoted(Between, rest)
  }

  lemma {:induction false} WordEndsWell(s: bytes)
    ensures var k := WordLength(s);
            WellQuoted(InWord, s) <==> k == |s| || (s[k] == SPACE && WellQuoted(Between, s[k + 1..]))
    decreases |s|
  {
    if s != [] && s[0] != SPACE && !IsQuote(s[0]) {
      WordEndsWell(s[1..]);
      var k := WordLength(s);
      assert k == 1 + WordLength(s[1..]);
      if k < |s| {
        assert s[1..][k - 1] == s[k] && s[1..][k..] == s[k + 1..];
      }
    }
  }

  lemma {:induction false} QuoteEndsWell(s: bytes, q: byte)
    ensures WellQuoted(InQuotes(q), s) <==> Quoted(s, q).Closed? && WellQuoted(Behind, Quoted(s, q).rest)
    ensures WellQuoted(Escaping(q), s) <==> Escaped(s, q).Closed? && WellQuoted(Behind, Escaped(s, q).rest)
    decreases |s|
  {
    if s != [] {
      QuoteEndsWell(s[1..], q);
    }
  }

  /** A line is refused, as having no arguments, exactly when its quotes are not well placed. */
  lemma {:induction false} RefusedExactly(s: bytes)
    ensures Tokens(s).None? <==> !WellQuoted(Between, s)
    decreases |s|
  {
    if s != [] {
      var rest := s[1..];
      if s[0] == SPACE {
        RefusedExactly(rest);
      } else if IsQuote(s[0]) {
        if rest != [] {
          QuoteEndsWell(rest, s[0]);
          QuotedTokensAt(rest, s[0]);
          var r := Quoted(rest, s[0]);
          if r.Closed? {
            RefusedBehind(r.rest);
          }
        }
      } else {
        WordEndsWell(s);
        var k := WordLength(s);
        if k < |s| {
          RefusedExactly(s[k + 1..]);
        }
      }
    }
  }

  lemma {:induction false} RefusedBehind(s: bytes)
    ensures WellQuoted(Behind, s) <==> s == [] || (s[0] == SPACE && Tokens(s).Some?)
    decreases |s|
  {
    if s != [] && s[0] == SPACE {
      RefusedExactly(s[1..]);
    }
  }

  lemma TokensSpace(rest: bytes)
    ensures Tokens([SPACE] + rest) == Tokens(rest)
  {
    assert ([SPACE] + rest)[1..] == rest;
  }
}
