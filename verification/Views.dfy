/** RESP values as the program holds them: bulk strings are slices of some byte array. */
module Views {
  import opened Bytes
  import opened Int64
  import Values

  type Value = Values.Value

  /** A Go byte slice, without its capacity. */
  datatype Slice = Slice(arr: array<byte>, lo: nat, hi: nat) {
    predicate Valid() {
      lo <= hi <= arr.Length
    }

    function Bytes(): bytes
      requires Valid()
      reads arr
    {
      arr[lo..hi]
    }
  }

  datatype RespValue =
    | SimpleString(str: bytes)
    | Error(msg: bytes)
    | Integer(n: int64)
    | BulkString(bulk: Slice)
    | NilBulk
    | Array(elems: seq<RespValue>)
    | NilArray
    | Null
    | Unknown(tag: byte)

  predicate Valid(v: RespValue)
    decreases v
  {
    match v
    case BulkString(b) => b.Valid()
    case Array(es) => forall e | e in es :: Valid(e)
    case _ => true
  }

  /** The memory a value refers to. */
  ghost function Arrays(v: RespValue): set<array<byte>>
    decreases v
  {
    match v
    case BulkString(b) => {b.arr}
    case Array(es) => ArraysAll(es)
    case _ => {}
  }

  ghost function ArraysAll(vs: seq<RespValue>): set<array<byte>>
    decreases vs
  {
    if vs == [] then {} else ArraysAll(vs[..|vs| - 1]) + Arrays(vs[|vs| - 1])
  }

  /** The value as the memory it refers to spells it now. */
  ghost function Contents(v: RespValue): Value
    requires Valid(v)
    reads Arrays(v)
    decreases v
  {
    match v
    case SimpleString(t) => Values.SimpleString(t)
    case Error(t) => Values.Error(t)
    case Integer(n) => Values.Integer(n)
    case BulkString(b) => Values.BulkString(b.Bytes())
    case NilBulk => Values.NilBulk
    case Array(es) => Values.Array(ContentsAll(es))
    case NilArray => Values.NilArray
    case Null => Values.Null
    case Unknown(t) => Values.Unknown(t)
  }

  ghost function ContentsAll(vs: seq<RespValue>): (r: seq<Value>)
    requires forall v | v in vs :: Valid(v)
    reads ArraysAll(vs)
    ensures |r| == |vs|
    decreases vs
  {
    if vs == [] then [] else ContentsAll(vs[..|vs| - 1]) + [Contents(vs[|vs| - 1])]
  }

  lemma NoElements()
    ensures ArraysAll([]) == {} && ContentsAll([]) == []
  {
  }

  lemma ArrayContents(es: seq<RespValue>)
    requires forall e | e in es :: Valid(e)
    ensures Valid(Array(es)) && Arrays(Array(es)) == ArraysAll(es)
    ensures Contents(Array(es)) == Values.Array(ContentsAll(es))
  {
  }

  lemma ContentsAllSnoc(vs: seq<RespValue>, v: RespValue)
    requires Valid(v) && forall w | w in vs :: Valid(w)
    ensures ArraysAll(vs + [v]) == ArraysAll(vs) + Arrays(v)
    ensures forall w | w in vs + [v] :: Valid(w)
    ensures ContentsAll(vs + [v]) == ContentsAll(vs) + [Contents(v)]
  {
    assert (vs + [v])[..|vs|] == vs;
  }

  lemma ContentsAllAt(vs: seq<RespValue>, i: nat)
    requires i < |vs| && forall v | v in vs :: Valid(v)
    ensures Arrays(vs[i]) <= ArraysAll(vs)
    ensures ContentsAll(vs)[i] == Contents(vs[i])
    decreases |vs|
  {
    if i < |vs| - 1 {
      ContentsAllAt(vs[..|vs| - 1], i);
    }
  }

  lemma ArraysAllocated(v: RespValue)
    ensures forall a | a in Arrays(v) :: allocated(a)
    decreases v
  {
    if v.Array? {
      ArraysAllAllocated(v.elems);
    }
  }

  lemma ArraysAllAllocated(vs: seq<RespValue>)
    ensures forall a | a in ArraysAll(vs) :: allocated(a)
    decreases vs
  {
    if vs != [] {
      ArraysAllAllocated(vs[..|vs| - 1]);
      ArraysAllocated(vs[|vs| - 1]);
    }
  }

  /** A value spells the same as long as the memory it refers to is left alone. */
  twostate lemma ContentsAllFrame(vs: seq<RespValue>)
    requires forall v | v in vs :: Valid(v)
    requires forall a | a in ArraysAll(vs) :: old(allocated(a)) && unchanged(a)
    ensures old(allocated(vs)) ==> ContentsAll(vs) == old(ContentsAll(vs))
  {
  }

  twostate lemma ContentsFrame(v: RespValue)
    requires Valid(v)
    requires forall a | a in Arrays(v) :: old(allocated(a)) && unchanged(a)
    ensures Contents(v) == old(Contents(v))
  {
  }

  lemma ArraysAllPrefix(vs: seq<RespValue>, i: nat)
    requires i <= |vs|
    ensures ArraysAll(vs[..i]) <= ArraysAll(vs)
    decreases |vs| - i
  {
    if i < |vs| {
      assert vs[..i + 1][..i] == vs[..i];
      ArraysAllPrefix(vs, i + 1);
    } else {
      assert vs[..i] == vs;
    }
  }
}
