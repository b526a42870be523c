/** All the ways to spell a list of arguments as an inline command: a line splits into the arguments that it
    spells, and into no others. */
module InlineSpelling {
  import opened Bytes
  import opened Inline

  /** A byte inside a quotation: as it is, behind a backslash, or as one of the three letters that stand for a
      control character behind one. */
  datatype Glyph = Itself(c: byte) | Slashed(c: byte) | Newline | Return | Tab {
    /** The quote and the backslash need a backslash; n, r and t mean something else behind one. */
    predicate Fits(q: byte) {
      match this
      case Itself(c) => c != q && c != BACKSLASH
      case Slashed(c) => c as char !in "nrt"
      case _ => true
    }

    function Text(): bytes {
      match this
      case Itself(c) => [c]
      case Slashed(c) => [BACKSLASH, c]
      case Newline => [BACKSLASH, 'n' as byte]
      case Return => [BACKSLASH, 'r' as byte]
      case Tab => [BACKSLASH, 't' as byte]
    }

    function Meaning(): byte {
      match this
      case Itself(c) => c
      case Slashed(c) => c
      case Newline => 10
      case Return => 13
      case Tab => 9
    }
  }

  /** An argument: a word without spaces and quotes, or a quotation. */
  datatype Word = Bare(word: bytes) | Quotation(q: byte, glyphs: seq<Glyph>) {
    predicate Fits() {
      match this
      case Bare(t) => t != [] && IsPlain(t)
      case Quotation(q, gs) => IsQuote(q) && forall g | g in gs :: g.Fits(q)
    }

    function Text(): bytes {
      match this
      case Bare(t) => t
      case Quotation(q, gs) => [q] + (Texts(gs) + [q])
    }

    function Meaning(): bytes {
      match this
      case Bare(t) => t
      case Quotation(_, gs) => Meanings(gs)
    }
  }

  function Texts(gs: seq<Glyph>): bytes {
    if gs == [] then [] else gs[0].Text() + Texts(gs[1..])
  }

  function Meanings(gs: seq<Glyph>): bytes {
    if gs == [] then [] else [gs[0].Meaning()] + Meanings(gs[1..])
  }

  /** A line: words, each with the number of spaces before it; then spaces, and perhaps a single quote. */
  datatype Line = End(spaces: nat, quote: bytes) | Next(spaces: nat, word: Word, rest: Line) {
    /** Words are well formed, and between two of them, or before the single quote, there is a space. */
    predicate Fits(start: bool) {
      match this
      case End(n, t) => t == [] || (|t| == 1 && IsQuote(t[0]) && (start || 0 < n))
      case Next(n, w, l) => w.Fits() && (start || 0 < n) && l.Fits(false)
    }

    function Text(): bytes {
      match this
      case End(n, t) => Blank(n) + t
      case Next(n, w, l) => Blank(n) + (w.Text() + l.Text())
    }

    function Arguments(): seq<bytes> {
      match this
      case End(_, _) => []
      case Next(_, w, l) => [w.Meaning()] + l.Arguments()
    }
  }

  function Blank(n: nat): bytes {
    if n == 0 then [] else [SPACE] + Blank(n - 1)
  }

  ghost predicate Spells(s: bytes, args: seq<bytes>) {
    exists l: Line :: l.Fits(true) && l.Text() == s && l.Arguments() == args
  }

  // What a spelling spells is read.

  lemma {:induction false} TokensBlank(n: nat, s: bytes)
    ensures Tokens(Blank(n) + s) == Tokens(s)
  {
    if n == 0 {
      assert Blank(n) + s == s;
    } else {
      TokensBlank(n - 1, s);
      TokensSpace(Blank(n - 1) + s);
      assert Blank(n) + s == [SPACE] + (Blank(n - 1) + s);
    }
  }

  lemma GlyphReads(g: Glyph, q: byte, s: bytes)
    requires IsQuote(q) && g.Fits(q)
    ensures Quoted(g.Text() + s, q) == Push(g.Meaning(), Quoted(s, q))
  {
    var t := g.Text();
    if |t| == 1 {
      assert (t + s)[1..] == s;
    } else {
      assert (t + s)[1..] == [t[1]] + s && ([t[1]] + s)[1..] == s;
    }
  }

  lemma {:induction false} GlyphsRead(gs: seq<Glyph>, q: byte, rest: bytes)
    requires IsQuote(q) && forall g | g in gs :: g.Fits(q)
    ensures Quoted(Texts(gs) + [q] + rest, q) == Closed(Meanings(gs), rest)
  {
    if gs == [] {
      assert Texts(gs) + [q] + rest == [q] + rest && ([q] + rest)[1..] == rest;
    } else {
      GlyphsRead(gs[1..], q, rest);
      GlyphReads(gs[0], q, Texts(gs[1..]) + [q] + rest);
      assert Texts(gs) + [q] + rest == gs[0].Text() + (Texts(gs[1..]) + [q] + rest);
    }
  }

  lemma WordReads(w: Word, rest: bytes)
    requires w.Fits() && (rest != [] ==> rest[0] == SPACE)
    ensures Tokens(w.Text() + rest) == Cons(w.Meaning(), Tokens(rest))
  {
    hide Tokens;
    match w
    case Bare(t) =>
      var s, k := t + rest, |t|;
      assert s[..k] == t && s[k..] == rest;
      TokensAt(s, k);
      if rest == [] {
        NoTokens(DQUOTE);
        assert s == t && [t] + [] == [t];
      } else {
        assert s[k + 1..] == rest[1..] && rest == [SPACE] + rest[1..];
        TokensSpace(rest[1..]);
      }
    case Quotation(q, gs) =>
      var s := Texts(gs) + [q] + rest;
      GlyphsRead(gs, q, rest);
      QuotedTokensAt(s, q);
      assert w.Text() + rest == [q] + s && ([q] + s)[1..] == s;
      assert ([q] + s)[..0] == [];
      TokensAt([q] + s, 0);
  }

  lemma {:induction false} LineReads(l: Line, start: bool)
    requires l.Fits(start)
    ensures Tokens(l.Text()) == Some(l.Arguments())
    decreases l
  {
    hide Tokens;
    match l
    case End(n, t) =>
      TokensBlank(n, t);
      NoTokens(DQUOTE);
      if t != [] {
        assert t[..0] == [] && t[1..] == [];
        TokensAt(t, 0);
        NoTokens(t[0]);
      }
    case Next(n, w, rest) =>
      TokensBlank(n, w.Text() + rest.Text());
      LineReads(rest, false);
      StartsBlank(rest);
      WordReads(w, rest.Text());
  }

  lemma StartsBlank(l: Line)
    requires l.Fits(false)
    ensures l.Text() != [] ==> l.Text()[0] == SPACE
  {
    assert 0 < l.spaces ==> Blank(l.spaces)[0] == SPACE;
  }

  // What is read was spelled.

  lemma {:induction false} QuotedSpelled(s: bytes, q: byte) returns (gs: seq<Glyph>)
    requires IsQuote(q) && Quoted(s, q).Closed?
    ensures forall g | g in gs :: g.Fits(q)
    ensures s == Texts(gs) + [q] + Quoted(s, q).rest && Quoted(s, q).arg == Meanings(gs)
    decreases |s|
  {
    var r := Quoted(s, q);
    if s[0] == q {
      gs := [];
      assert s == [q] + s[1..];
    } else {
      hide Quoted, IsQuote, Glyph.Fits;
      var g, rest := FirstGlyph(s, q);
      var others := QuotedSpelled(rest, q);
      GlyphReads(g, q, rest);
      gs := [g] + others;
      assert gs[1..] == others;
      assert Texts(gs) + [q] + r.rest == g.Text() + (Texts(others) + [q] + r.rest);
    }
  }

  lemma FirstGlyph(s: bytes, q: byte) returns (g: Glyph, rest: bytes)
    requires IsQuote(q) && Quoted(s, q).Closed? && s[0] != q
    ensures g.Fits(q) && s == g.Text() + rest && |rest| < |s| && Quoted(rest, q).Closed?
  {
    if s[0] != BACKSLASH {
      g, rest := Itself(s[0]), s[1..];
    } else {
      var c := s[1] as char;
      g := if c == 'n' then Newline else if c == 'r' then Return else if c == 't' then Tab else Slashed(s[1]);
      rest := s[2..];
      assert s[1..][1..] == rest;
    }
    assert s == g.Text() + rest;
  }

  lemma {:induction false} ReadIsSpelled(s: bytes) returns (l: Line)
    requires Tokens(s).Some?
    ensures l.Fits(true) && l.Text() == s && Some(l.Arguments()) == Tokens(s)
    ensures s == [] || s[0] == SPACE ==> l.Fits(false)
    decreases |s|
  {
    hide Tokens, QuotedTokens, Quoted;
    if s == [] {
      NoTokens(DQUOTE);
      return End(0, []);
    }
    assert s[..0] == [];
    if s[0] == SPACE {
      TokensAt(s, 0);
      var rest := ReadIsSpelled(s[1..]);
      l := match rest case End(n, t) => End(n + 1, t) case Next(n, w, r) => Next(n + 1, w, r);
      MoreBlank(rest, l);
      assert s == [SPACE] + s[1..];
    } else if IsQuote(s[0]) {
      l := QuotationIsSpelled(s);
    } else {
      l := WordIsSpelled(s);
    }
  }

  lemma MoreBlank(rest: Line, l: Line)
    requires rest.Fits(true)
    requires l == match rest case End(n, t) => End(n + 1, t) case Next(n, w, r) => Next(n + 1, w, r)
    ensures l.Fits(false) && l.Fits(true) && l.Text() == [SPACE] + rest.Text() && l.Arguments() == rest.Arguments()
  {
    hide Texts, Meanings, IsPlain;
    var n := rest.spaces;
    var after := match rest case End(_, t) => t case Next(_, w, r) => w.Text() + r.Text();
    assert Blank(n + 1) == [SPACE] + Blank(n);
    assert [SPACE] + Blank(n) + after == [SPACE] + (Blank(n) + after);
  }

  lemma FirstWord(w: Word, r: Line)
    requires w.Fits() && r.Fits(false)
    ensures var l := Next(0, w, r);
            l.Fits(true) && l.Text() == w.Text() + r.Text() && l.Arguments() == [w.Meaning()] + r.Arguments()
  {
    hide Word.Text;
    assert Blank(0) + (w.Text() + r.Text()) == w.Text() + r.Text();
  }

  lemma {:induction false} QuotationIsSpelled(s: bytes) returns (l: Line)
    requires s != [] && IsQuote(s[0]) && Tokens(s).Some?
    ensures l.Fits(true) && l.Text() == s && Some(l.Arguments()) == Tokens(s)
    decreases |s|, 0
  {
    hide Tokens, QuotedTokens, Quoted;
    var q, inside := s[0], s[1..];
    assert s[..0] == [] && s == [q] + inside;
    TokensAt(s, 0);
    if inside == [] {
      NoTokens(q);
      return End(0, [q]);
    }
    QuotedTokensAt(inside, q);
    hide IsQuote, Glyph.Fits, Texts, Meanings, Line.Text, Line.Arguments, Line.Fits;
    var gs := QuotedSpelled(inside, q);
    var rest := Quoted(inside, q).rest;
    var r := ReadIsSpelled(rest);
    l := Next(0, Quotation(q, gs), r);
    FirstWord(Quotation(q, gs), r);
    assert s == [q] + (Texts(gs) + [q]) + rest;
  }

  lemma {:induction false} WordIsSpelled(s: bytes) returns (l: Line)
    requires s != [] && s[0] != SPACE && !IsQuote(s[0]) && Tokens(s).Some?
    ensures l.Fits(true) && l.Text() == s && Some(l.Arguments()) == Tokens(s)
    decreases |s|, 0
  {
    hide Tokens, QuotedTokens, Quoted;
    var k := WordLength(s);
    TokensAt(s, k);
    assert s == s[..k] + s[k..];
    if k < |s| {
      assert s[k..] == [SPACE] + s[k + 1..];
      TokensSpace(s[k + 1..]);
    } else {
      NoTokens(DQUOTE);
      assert s[..k] == s && s[k..] == [] && [s] + [] == [s];
    }
    var r := ReadIsSpelled(s[k..]);
    l := Next(0, Bare(s[..k]), r);
  }

  /** A line splits into exactly the arguments that it spells, and is refused if and only if it spells none. */
  lemma TokensExactly(s: bytes, args: seq<bytes>)
    ensures Tokens(s) == Some(args) <==> Spells(s, args)
    ensures Tokens(s) == None <==> forall l: Line :: l.Fits(true) ==> l.Text() != s
  {
    hide Tokens;
    forall l: Line | l.Fits(true) && l.Text() == s
      ensures Tokens(s) == Some(l.Arguments())
    {
      LineReads(l, true);
    }
    if Tokens(s).Some? {
      var l := ReadIsSpelled(s);
    }
  }

  // A printer of inline commands: quotations, with the quote, the backslash, CR and LF escaped.

  function GlyphFor(c: byte, q: byte): Glyph {
    if c == LF then Newline
    else if c == CR then Return
    else if c == q || c == BACKSLASH then Slashed(c)
    else Itself(c)
  }

  function GlyphsFor(a: bytes, q: byte): (gs: seq<Glyph>)
    ensures |gs| == |a|
    ensures forall i | 0 <= i < |a| :: gs[i] == GlyphFor(a[i], q)
  {
    seq(|a|, i requires 0 <= i < |a| => GlyphFor(a[i], q))
  }

  function Print(args: seq<bytes>, q: byte, start: bool): Line {
    if args == [] then End(0, [])
    else Next(if start then 0 else 1, Quotation(q, GlyphsFor(args[0], q)), Print(args[1..], q, false))
  }

  predicate OneLine(t: bytes) {
    CR !in t && LF !in t
  }

  lemma {:induction false} GlyphsMean(a: bytes, q: byte, gs: seq<Glyph>)
    requires IsQuote(q) && gs == GlyphsFor(a, q)
    ensures (forall g | g in gs :: g.Fits(q)) && Meanings(gs) == a && OneLine(Texts(gs))
  {
    if a != [] {
      GlyphsMean(a[1..], q, gs[1..]);
    }
  }

  /** Whatever bytes the arguments hold, the printed line is one line and spells them. */
  lemma {:induction false} PrintSpells(args: seq<bytes>, q: byte, start: bool)
    requires IsQuote(q)
    ensures var l := Print(args, q, start); l.Fits(start) && l.Arguments() == args && OneLine(l.Text())
  {
    if args != [] {
      hide IsQuote;
      GlyphsMean(args[0], q, GlyphsFor(args[0], q));
      PrintSpells(args[1..], q, false);
      assert Blank(1) == [SPACE] + Blank(0);
    }
  }

  /** Splitting a printed list gives the list back. */
  lemma TokensUndoPrint(args: seq<bytes>, q: byte)
    requires IsQuote(q)
    ensures Tokens(Print(args, q, true).Text()) == Some(args)
  {
    hide Tokens;
    PrintSpells(args, q, true);
    LineReads(Print(args, q, true), true);
  }
}
