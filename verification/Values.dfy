/** RESP values as the protocol means them, and their wire format. */
module Values {
  import opened Bytes
  import opened Int64

  /** A RESP value by its content. The nil slices of the source are constructors of their own;
      `Unknown` stands for a type byte that is none of the six declared ones. */
  datatype Value =
    | SimpleString(str: bytes)
    | Error(msg: bytes)
    | Integer(n: int64)
    | BulkString(data: bytes)
    | NilBulk
    | Array(elems: seq<Value>)
    | NilArray
    | Null
    | Unknown(tag: byte)

  const NULL_BULK: bytes := [DOLLAR, MINUS, ZERO + 1, CR, LF]
  const NIL_ARRAY: bytes := [STAR, MINUS, ZERO + 1, CR, LF]

  /** CR and LF turned into spaces, as stripNewlines does. */
  function Strip(t: bytes): (r: bytes)
    ensures |r| == |t| && CR !in r && LF !in r
    ensures CR !in t && LF !in t ==> r == t
  {
    if t == [] then [] else [if t[0] == CR || t[0] == LF then SPACE else t[0]] + Strip(t[1..])
  }

  function Line(c: byte, t: bytes): bytes {
    [c] + t + CRLF
  }

  /** The RESP encoding of a value. */
  function Ser(v: Value): bytes
    decreases v
  {
    match v
    case SimpleString(t) => Line(PLUS, Strip(t))
    case Error(t) => Line(MINUS, Strip(t))
    case Integer(n) => Line(COLON, Format(n))
    case BulkString(d) => Line(DOLLAR, Format(|d|)) + d + CRLF
    case NilBulk => NULL_BULK
    case Array(es) => Line(STAR, Format(|es|)) + SerAll(es)
    case NilArray => NIL_ARRAY
    case Null => NULL_BULK
    case Unknown(_) => NULL_BULK
  }

  /** The encodings of a sequence of values, one after the other. */
  function SerAll(vs: seq<Value>): bytes
    decreases vs
  {
    if vs == [] then [] else Ser(vs[0]) + SerAll(vs[1..])
  }

  /** What a value becomes on the wire: newlines blanked, and one null for all its spellings. */
  function Norm(v: Value): Value
    decreases v
  {
    match v
    case SimpleString(t) => SimpleString(Strip(t))
    case Error(t) => Error(Strip(t))
    case Array(es) => Array(NormAll(es))
    case NilBulk => Null
    case Unknown(_) => Null
    case _ => v
  }

  function NormAll(vs: seq<Value>): (r: seq<Value>)
    ensures |r| == |vs|
    ensures forall i | 0 <= i < |vs| :: r[i] == Norm(vs[i])
    decreases vs
  {
    if vs == [] then [] else [Norm(vs[0])] + NormAll(vs[1..])
  }

  predicate NoNilArray(v: Value)
    decreases v
  {
    match v
    case NilArray => false
    case Array(es) => forall e | e in es :: NoNilArray(e)
    case _ => true
  }

  predicate Declared(v: Value)
    decreases v
  {
    match v
    case Unknown(_) => false
    case Array(es) => forall e | e in es :: Declared(e)
    case _ => true
  }

  lemma NoneToSerialize()
    ensures SerAll([]) == []
  {
  }

  lemma {:induction false} SerAllAppend(vs: seq<Value>, v: Value)
    ensures SerAll(vs + [v]) == SerAll(vs) + Ser(v)
  {
    hide Ser;
    if vs == [] {
      assert SerAll([]) == [];
      assert SerAll([v]) == Ser(v) + SerAll([]);
    } else {
      SerAllAppend(vs[1..], v);
      assert (vs + [v])[1..] == vs[1..] + [v];
      assert SerAll(vs + [v]) == Ser(vs[0]) + (SerAll(vs[1..]) + Ser(v));
    }
  }

  /** A missing array or value is announced with the length -1, in the only text that Format gives it. */
  lemma NilTexts(tag: byte)
    ensures Ser(NilArray) == Line(STAR, Format(-1))
    ensures Ser(NilBulk) == Ser(Null) == Ser(Unknown(tag)) == Line(DOLLAR, Format(-1))
    ensures ParseInt(Format(-1)) == Some(-1)
  {
    ParseIntFormat(-1);
    assert FormatNat(1) == [ZERO + 1];
  }

  lemma {:induction false} SerAllLength(vs: seq<Value>)
    ensures |vs| <= |SerAll(vs)|
  {
    if vs != [] {
      SerAllLength(vs[1..]);
      SerNonEmpty(vs[0]);
    }
  }

  lemma SerNonEmpty(v: Value)
    ensures 3 <= |Ser(v)|
  {
    match v
    case Integer(n) => FormatHasNoCR(n);
    case BulkString(d) => FormatHasNoCR(|d|);
    case Array(es) => FormatHasNoCR(|es|);
    case _ =>
  }

  /** The comparison of types.go: nil and empty slices are alike, and an undeclared type equals nothing. */
  predicate Equal(v: Value, w: Value)
    decreases v
  {
    match v
    case SimpleString(t) => w.SimpleString? && t == w.str
    case Error(t) => w.Error? && t == w.msg
    case Integer(n) => w.Integer? && n == w.n
    case BulkString(d) => if w.NilBulk? then d == [] else w.BulkString? && d == w.data
    case NilBulk => w.NilBulk? || (w.BulkString? && w.data == [])
    case Array(es) => if w.NilArray? then es == [] else w.Array? && EqualAll(es, w.elems)
    case NilArray => w.NilArray? || (w.Array? && w.elems == [])
    case Null => w.Null?
    case Unknown(_) => false
  }

  predicate EqualAll(vs: seq<Value>, ws: seq<Value>)
    decreases vs
  {
    |vs| == |ws| && (vs == [] || (Equal(vs[0], ws[0]) && EqualAll(vs[1..], ws[1..])))
  }

  /** Nil slices replaced by empty ones, at any depth. */
  function FillNil(v: Value): Value
    decreases v
  {
    match v
    case NilBulk => BulkString([])
    case NilArray => Array([])
    case Array(es) => Array(FillNilAll(es))
    case _ => v
  }

  function FillNilAll(vs: seq<Value>): (r: seq<Value>)
    ensures |r| == |vs|
    decreases vs
  {
    if vs == [] then [] else [FillNil(vs[0])] + FillNilAll(vs[1..])
  }

  /** Equal holds exactly between values that are the same once nil slices are filled in, and of
      declared type throughout. Symmetry and transitivity follow; reflexivity is lost on undeclared types. */
  lemma {:induction false} EqualMeans(v: Value, w: Value)
    ensures Equal(v, w) <==> Declared(v) && FillNil(v) == FillNil(w)
    decreases v
  {
    if v.Array? && w.Array? {
      EqualAllMeans(v.elems, w.elems);
    } else if v.Array? && w.NilArray? {
      assert FillNil(w) == Array([]);
    }
  }

  lemma {:induction false} EqualAllMeans(vs: seq<Value>, ws: seq<Value>)
    ensures EqualAll(vs, ws) <==> (forall e | e in vs :: Declared(e)) && FillNilAll(vs) == FillNilAll(ws)
    decreases vs
  {
    if |vs| == |ws| && vs != [] {
      EqualMeans(vs[0], ws[0]);
      EqualAllMeans(vs[1..], ws[1..]);
      var a, b := FillNilAll(vs), FillNilAll(ws);
      assert a[0] == FillNil(vs[0]) && b[0] == FillNil(ws[0]);
      assert a[1..] == FillNilAll(vs[1..]) && b[1..] == FillNilAll(ws[1..]);
      assert a == b <==> a[0] == b[0] && a[1..] == b[1..];
      assert forall e :: e in vs <==> e == vs[0] || e in vs[1..];
    }
  }
}
