/** writeLegacyValue of pubsub.go: the second serializer, made of calls on a connection. */
module LegacyWriter {
  import opened Bytes
  import opened Int64
  import opened Values
  import Grammar
  import Laws

  /** How a value of undeclared type is spelled by fmt.Sprint. */
  type Spelling = Value -> bytes

  /** The bytes writeLegacyValue emits: as Ser, except that a nil array is an empty one, and that a value of
      undeclared type goes to WriteAny, which writes its spelling as a bulk string. */
  function LegacySer(v: Value, spell: Spelling): bytes
    decreases v
  {
    match v
    case NilArray => Line(STAR, Format(0))
    case Array(es) => Line(STAR, Format(|es|)) + LegacySerAll(es, spell)
    case Unknown(_) => Ser(BulkString(spell(v)))
    case _ => Ser(v)
  }

  function LegacySerAll(vs: seq<Value>, spell: Spelling): bytes
    decreases vs
  {
    if vs == [] then [] else LegacySer(vs[0], spell) + LegacySerAll(vs[1..], spell)
  }

  /** What the legacy writer takes a value for: nil arrays are empty ones, and values of undeclared type are their
      spelling, at any depth. */
  function Plain(v: Value, spell: Spelling): Value
    decreases v
  {
    match v
    case NilArray => Array([])
    case Unknown(_) => BulkString(spell(v))
    case Array(es) => Array(PlainAll(es, spell))
    case _ => v
  }

  function PlainAll(vs: seq<Value>, spell: Spelling): (r: seq<Value>)
    ensures |r| == |vs|
    decreases vs
  {
    if vs == [] then [] else [Plain(vs[0], spell)] + PlainAll(vs[1..], spell)
  }

  lemma {:induction false} LegacySerIs(v: Value, spell: Spelling)
    ensures LegacySer(v, spell) == Ser(Plain(v, spell)) && NoNilArray(Plain(v, spell))
    decreases v
  {
    match v
    case NilArray =>
    case Array(es) => LegacySerAllIs(es, spell);
    case _ =>
  }

  lemma {:induction false} LegacySerAllIs(vs: seq<Value>, spell: Spelling)
    ensures LegacySerAll(vs, spell) == SerAll(PlainAll(vs, spell))
    ensures forall e | e in PlainAll(vs, spell) :: NoNilArray(e)
    decreases vs
  {
    hide Ser, LegacySer, NoNilArray, Plain;
    if vs != [] {
      LegacySerIs(vs[0], spell);
      LegacySerAllIs(vs[1..], spell);
      assert PlainAll(vs, spell)[1..] == PlainAll(vs[1..], spell);
    }
  }

  /** So, unlike Writer's, whatever the legacy writer emits is read back, as what it takes the value for. */
  lemma LegacyRoundTrip(v: Value, spell: Spelling, s: bytes, p: nat)
    requires |s| <= MAX && HasAt(s, p, LegacySer(v, spell))
    ensures Grammar.ParseNext(s, p) == Grammar.Complete(Norm(Plain(v, spell)), p + |LegacySer(v, spell)|)
  {
    hide Grammar.ParseNext, Ser, LegacySer, Plain, Norm, NoNilArray;
    LegacySerIs(v, spell);
    Laws.RoundTrip(Plain(v, spell), s, p);
  }

  /** Neither a nil array nor a value of undeclared type is inside. */
  predicate Common(v: Value)
    decreases v
  {
    match v
    case NilArray => false
    case Unknown(_) => false
    case Array(es) => forall e | e in es :: Common(e)
    case _ => true
  }

  lemma {:induction false} CommonMeans(v: Value)
    ensures Common(v) <==> NoNilArray(v) && Declared(v)
    decreases v
  {
    if v.Array? {
      forall e | e in v.elems
        ensures Common(e) <==> NoNilArray(e) && Declared(e)
      {
        CommonMeans(e);
      }
    }
  }

  lemma {:induction false} CommonAgrees(v: Value, spell: Spelling)
    requires Common(v)
    ensures LegacySer(v, spell) == Ser(v)
    decreases v
  {
    if v.Array? {
      CommonAllAgrees(v.elems, spell);
    }
  }

  lemma {:induction false} CommonAllAgrees(vs: seq<Value>, spell: Spelling)
    requires forall v | v in vs :: Common(v)
    ensures LegacySerAll(vs, spell) == SerAll(vs)
    decreases vs
  {
    hide Ser, LegacySer;
    if vs != [] {
      CommonAgrees(vs[0], spell);
      CommonAllAgrees(vs[1..], spell);
    }
  }

  lemma DigitFirst(c: byte, n: nat, rest: bytes)
    ensures |Line(c, Format(n)) + rest| > 1 && (Line(c, Format(n)) + rest)[1] != MINUS
  {
    FormatNatValue(n);
    assert Line(c, Format(n))[1] == Format(n)[0];
  }

  /** Otherwise the encodings differ, whatever follows them. */
  lemma {:induction false} OthersDiffer(v: Value, spell: Spelling, r: bytes, r': bytes)
    requires !Common(v)
    ensures LegacySer(v, spell) + r != Ser(v) + r'
    decreases v
  {
    match v
    case NilArray =>
      DigitFirst(STAR, 0, r);
      assert (NIL_ARRAY + r')[1] == MINUS;
    case Unknown(_) =>
      var d := spell(v);
      DigitFirst(DOLLAR, |d|, d + CRLF + r);
      assert Ser(BulkString(d)) + r == Line(DOLLAR, Format(|d|)) + (d + CRLF + r);
      assert (NULL_BULK + r')[1] == MINUS;
    case Array(es) =>
      var l := Line(STAR, Format(|es|));
      SomeDiffer(es, spell, r, r');
      Cancel(l, LegacySerAll(es, spell) + r, SerAll(es) + r');
      assert LegacySer(v, spell) + r == l + (LegacySerAll(es, spell) + r);
      assert Ser(v) + r' == l + (SerAll(es) + r');
  }

  lemma {:induction false} SomeDiffer(vs: seq<Value>, spell: Spelling, r: bytes, r': bytes)
    requires !(forall v | v in vs :: Common(v))
    ensures LegacySerAll(vs, spell) + r != SerAll(vs) + r'
    decreases vs
  {
    hide Ser, LegacySer, Common;
    var a, b := LegacySerAll(vs[1..], spell), SerAll(vs[1..]);
    assert LegacySerAll(vs, spell) + r == LegacySer(vs[0], spell) + (a + r);
    assert SerAll(vs) + r' == Ser(vs[0]) + (b + r');
    if Common(vs[0]) {
      assert forall v | v in vs :: v == vs[0] || v in vs[1..];
      CommonAgrees(vs[0], spell);
      SomeDiffer(vs[1..], spell, r, r');
      Cancel(Ser(vs[0]), a + r, b + r');
    } else {
      OthersDiffer(vs[0], spell, a + r, b + r');
    }
  }

  lemma Cancel(x: bytes, a: bytes, b: bytes)
    requires a != b
    ensures x + a != x + b
  {
    assert (x + a)[|x|..] == a && (x + b)[|x|..] == b;
  }

  /** The two serializers agree on exactly the values of declared type with no nil array inside. */
  lemma SerializersAgree(v: Value, spell: Spelling)
    ensures LegacySer(v, spell) == Ser(v) <==> NoNilArray(v) && Declared(v)
  {
    hide Ser, LegacySer;
    CommonMeans(v);
    if Common(v) {
      CommonAgrees(v, spell);
    } else {
      OthersDiffer(v, spell, [], []);
      assert LegacySer(v, spell) + [] == LegacySer(v, spell) && Ser(v) + [] == Ser(v);
    }
  }

  /** The connection the legacy writer drives: every primitive emits one RESP fragment, until the
      connection breaks. */
  class Conn {
    const spell: Spelling
    var out: bytes
    var strength: nat

    constructor (spell: Spelling, strength: nat)
      ensures out == [] && this.spell == spell && this.strength == strength
    {
      this.spell := spell;
      out := [];
      this.strength := strength;
    }

    /** Emits a fragment, or fails without emitting any of it. */
    method Emit(fragment: bytes) returns (failed: bool)
      requires fragment != []
      modifies this
      ensures Emitted(old(strength), old(out), fragment, failed)
    {
      if strength == 0 {
        return true;
      }
      strength := strength - 1;
      out := out + fragment;
      return false;
    }

    /** One primitive call came to this, from the given state of the connection. */
    ghost predicate Emitted(strength0: nat, out0: bytes, fragment: bytes, failed: bool)
      reads this
    {
      && failed == (strength0 == 0)
      && strength == (if failed then 0 else strength0 - 1)
      && out == (if failed then out0 else out0 + fragment)
      && out0 < out0 + fragment
    }

    method WriteArray(n: nat) returns (failed: bool)
      modifies this
      ensures Emitted(old(strength), old(out), Line(STAR, Format(n)), failed)
    {
      failed := Emit(Line(STAR, Format(n)));
    }

    method WriteBulk(d: bytes) returns (failed: bool)
      modifies this
      ensures Emitted(old(strength), old(out), Line(DOLLAR, Format(|d|)) + d + CRLF, failed)
    {
      failed := Emit(Line(DOLLAR, Format(|d|)) + d + CRLF);
    }

    method WriteInt(n: int64) returns (failed: bool)
      modifies this
      ensures Emitted(old(strength), old(out), Line(COLON, Format(n)), failed)
    {
      failed := Emit(Line(COLON, Format(n)));
    }

    method WriteString(s: bytes) returns (failed: bool)
      modifies this
      ensures Emitted(old(strength), old(out), Line(PLUS, Strip(s)), failed)
    {
      failed := Emit(Line(PLUS, Strip(s)));
    }

    method WriteError(s: bytes) returns (failed: bool)
      modifies this
      ensures Emitted(old(strength), old(out), Line(MINUS, Strip(s)), failed)
    {
      failed := Emit(Line(MINUS, Strip(s)));
    }

    method WriteNull() returns (failed: bool)
      modifies this
      ensures Emitted(old(strength), old(out), NULL_BULK, failed)
    {
      failed := Emit(NULL_BULK);
    }

    /** The default case of appendAny, the only one that a value of this type comes to. */
    method WriteAny(v: Value) returns (failed: bool)
      modifies this
      ensures Emitted(old(strength), old(out), Ser(BulkString(spell(v))), failed)
    {
      failed := WriteBulk(spell(v));
    }
  }

  /** Number of primitive calls a value takes. */
  function Calls(v: Value): nat
    decreases v
  {
    match v
    case Array(es) => 1 + CallsAll(es)
    case _ => 1
  }

  function CallsAll(vs: seq<Value>): nat
    decreases vs
  {
    if vs == [] then 0 else Calls(vs[0]) + CallsAll(vs[1..])
  }

  /** Emits a value. It fails exactly when the connection breaks before the last
      fragment, and what was emitted by then is a proper beginning of the encoding. */
  method WriteLegacyValue(conn: Conn, v: Value) returns (failed: bool)
    modifies conn
    ensures failed <==> old(conn.strength) < Calls(v)
    ensures !failed ==> conn.out == old(conn.out) + LegacySer(v, conn.spell) && conn.strength == old(conn.strength) - Calls(v)
    ensures failed ==> old(conn.out) <= conn.out < old(conn.out) + LegacySer(v, conn.spell) && conn.strength == 0
    decreases v, 0
  {
    match v
    case Array(es) => failed := WriteLegacyArray(conn, es);
    case NilArray => failed := conn.WriteArray(0);
    case BulkString(d) => failed := conn.WriteBulk(d);
    case NilBulk => failed := conn.WriteNull();
    case Integer(n) => failed := conn.WriteInt(n);
    case SimpleString(s) => failed := conn.WriteString(s);
    case Error(s) => failed := conn.WriteError(s);
    case Null => failed := conn.WriteNull();
    case Unknown(_) => failed := conn.WriteAny(v);
  }

  method WriteLegacyArray(conn: Conn, es: seq<Value>) returns (failed: bool)
    modifies conn
    ensures failed <==> old(conn.strength) < 1 + CallsAll(es)
    ensures !failed ==> conn.out == old(conn.out) + LegacySer(Array(es), conn.spell) && conn.strength == old(conn.strength) - 1 - CallsAll(es)
    ensures failed ==> old(conn.out) <= conn.out < old(conn.out) + LegacySer(Array(es), conn.spell) && conn.strength == 0
    decreases es, 1
  {
    hide Line, LegacySerAll, CallsAll;
    var head := Line(STAR, Format(|es|));
    failed := conn.WriteArray(|es|);
    if failed {
      return;
    }
    failed := WriteLegacyAll(conn, es);
    assert old(conn.out) + (head + LegacySerAll(es, conn.spell)) == old(conn.out) + head + LegacySerAll(es, conn.spell);
  }

  method WriteLegacyAll(conn: Conn, es: seq<Value>) returns (failed: bool)
    modifies conn
    ensures failed <==> old(conn.strength) < CallsAll(es)
    ensures !failed ==> conn.out == old(conn.out) + LegacySerAll(es, conn.spell) && conn.strength == old(conn.strength) - CallsAll(es)
    ensures failed ==> old(conn.out) <= conn.out < old(conn.out) + LegacySerAll(es, conn.spell) && conn.strength == 0
    decreases es, 0
  {
    hide LegacySer, Calls;
    failed := false;
    ghost var start := conn.out;
    assert es[0..] == es && start + [] == start;
    for i := 0 to |es|
      invariant !failed
      invariant start + LegacySerAll(es, conn.spell) == conn.out + LegacySerAll(es[i..], conn.spell)
      invariant start <= conn.out
      invariant conn.strength + CallsAll(es) == old(conn.strength) + CallsAll(es[i..])
    {
      assert es[i..][0] == es[i] && es[i..][1..] == es[i + 1..];
      ghost var before := conn.out;
      assert before + (LegacySer(es[i], conn.spell) + LegacySerAll(es[i + 1..], conn.spell)) == before + LegacySer(es[i], conn.spell) + LegacySerAll(es[i + 1..], conn.spell);
      failed := WriteLegacyValue(conn, es[i]);
      if failed {
        assert conn.out < start + LegacySerAll(es, conn.spell);
        return;
      }
    }
    assert es[|es|..] == [] && conn.out + [] == conn.out;
  }
}
