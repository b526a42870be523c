/** Two's-complement 64-bit integers and the hand-written decimal conversions. */
module Int64 {
  import opened Bytes

  const TWO_63: int := 0x8000_0000_0000_0000
  const TWO_64: int := 0x1_0000_0000_0000_0000
  const MAX: int := 0x7fff_ffff_ffff_ffff
  const MIN: int := -0x8000_0000_0000_0000

  type int64 = n: int | MIN <= n <= MAX

  /** The 64-bit two's-complement integer congruent to `n`; Turns says by how many turns they differ. */
  function Wrap(n: int): (r: int64)
    ensures MIN <= n <= MAX ==> r == n
  {
    var m := n % TWO_64;
    if m < TWO_63 then m else m - TWO_64
  }

  /** Wrapping forgets exactly the multiples of 2^64. */
  lemma WrapPlus(n: int, k: int)
    ensures Wrap(n + k * TWO_64) == Wrap(n)
  {
  }

  function Turns(n: int): (k: int)
    ensures Wrap(n) == n + k * TWO_64
  {
    (Wrap(n) - n) / TWO_64
  }

  /** Accumulating a digit on the wrapped value is accumulating it on the exact one. */
  lemma WrapStep(a: int, d: int)
    ensures Wrap(Wrap(a) * 10 + d) == Wrap(a * 10 + d)
  {
    WrapPlus(a * 10 + d, 10 * Turns(a));
  }

  lemma WrapNegate(a: int)
    ensures Wrap(0 - Wrap(a)) == Wrap(0 - a)
  {
    WrapPlus(0 - a, 0 - Turns(a));
  }

  predicate IsDigit(b: byte) {
    ZERO <= b <= NINE
  }

  predicate AllDigits(t: bytes) {
    forall i | 0 <= i < |t| :: IsDigit(t[i])
  }

  /** The natural number a string of digits denotes. */
  function DigitsValue(t: bytes): (n: nat)
    requires AllDigits(t)
  {
    if t == [] then 0 else DigitsValue(t[..|t| - 1]) * 10 + (t[|t| - 1] - ZERO)
  }

  /** The integer a signed decimal text denotes: an optional sign, then at least one digit. */
  function SignedDecimal(t: bytes): Option<int> {
    var signed := t != [] && (t[0] == MINUS || t[0] == PLUS);
    var digits := if signed then t[1..] else t;
    if digits == [] || !AllDigits(digits) then None
    else if signed && t[0] == MINUS then Some(0 - DigitsValue(digits))
    else Some(DigitsValue(digits))
  }

  /** What parseInt64 and parseIntBuf return: the denoted integer, reduced to 64 bits. */
  function ParseInt(t: bytes): Option<int64> {
    match SignedDecimal(t)
    case None => None
    case Some(n) => Some(Wrap(n))
  }

  /** The digit loop of the parsers: wrapping accumulation, refusing anything but digits. */
  method ParseDigits(b: bytes) returns (r: Option<int64>)
    ensures r == if AllDigits(b) then Some(Wrap(DigitsValue(b))) else None
  {
    var n: int64 := 0;
    var i := 0;
    while i < |b|
      invariant i <= |b|
      invariant AllDigits(b[..i])
      invariant n == Wrap(DigitsValue(b[..i]))
    {
      if !IsDigit(b[i]) {
        return None;
      }
      DigitsValueSnoc(b, i);
      WrapStep(DigitsValue(b[..i]), b[i] - ZERO);
      n := Wrap(n * 10 + (b[i] - ZERO));
      i := i + 1;
    }
    assert b[..i] == b;
    return Some(n);
  }

  method ParseInt64(b: bytes) returns (r: Option<int64>)
    ensures r == ParseInt(b)
  {
    if |b| == 0 {
      return None;
    }
    if |b| == 1 && IsDigit(b[0]) {
      assert DigitsValue(b[..0]) == 0;
      return Some(b[0] - ZERO);
    }
    var sign := false;
    var i := 0;
    if b[0] == MINUS {
      sign := true;
      i := i + 1;
    } else if b[0] == PLUS {
      i := i + 1;
    }
    if i >= |b| {
      return None;
    }
    assert b[0..] == b;
    r := ParseDigits(b[i..]);
    if sign && r.Some? {
      WrapNegate(DigitsValue(b[i..]));
      r := Some(Wrap(r.value * -1));
    }
  }

  lemma DigitsValueSnoc(t: bytes, k: nat)
    requires k < |t| && AllDigits(t[..k]) && IsDigit(t[k])
    ensures AllDigits(t[..k + 1])
    ensures DigitsValue(t[..k + 1]) == DigitsValue(t[..k]) * 10 + (t[k] - ZERO)
  {
    assert t[..k + 1][..k] == t[..k];
  }

  /** Decimal digits of a natural number, as strconv.AppendInt writes them. */
  function FormatNat(n: nat): bytes {
    if n < 10 then [n + ZERO] else FormatNat(n / 10) + [n % 10 + ZERO]
  }

  /** The decimal text of an integer. */
  function Format(n: int): bytes {
    if n < 0 then [MINUS] + FormatNat(0 - n) else FormatNat(n)
  }

  lemma {:induction false} FormatNatValue(n: nat)
    ensures 0 < |FormatNat(n)| && AllDigits(FormatNat(n))
    ensures DigitsValue(FormatNat(n)) == n
  {
    var t := FormatNat(n);
    if 10 <= n {
      FormatNatValue(n / 10);
      assert t[..|t| - 1] == FormatNat(n / 10);
    } else {
      assert t[..0] == [];
    }
  }

  lemma FormatHasNoCR(n: int)
    ensures CR !in Format(n) && 0 < |Format(n)|
  {
    FormatNatValue(if n < 0 then 0 - n else n);
  }

  /** Reading back the text of any 64-bit integer, the minimum included, gives that integer. */
  lemma ParseIntFormat(n: int64)
    ensures ParseInt(Format(n)) == Some(n)
  {
    if n < 0 {
      var t := FormatNat(0 - n);
      FormatNatValue(0 - n);
      assert Format(n)[1..] == t;
    } else {
      var t := FormatNat(n);
      FormatNatValue(n);
      assert IsDigit(t[0]);
    }
  }

  /** The texts that denote an integer, and what they denote: digits, alone or behind a plus sign, their value;
      behind a minus sign its opposite; all others nothing. */
  lemma NumbersExactly(t: bytes)
    ensures forall d | d != [] && AllDigits(d) ::
              && ParseInt(d) == ParseInt([PLUS] + d) == Some(Wrap(DigitsValue(d)))
              && ParseInt([MINUS] + d) == Some(Wrap(0 - DigitsValue(d)))
    ensures ParseInt(t) == None <==> forall d | d != [] && AllDigits(d) :: t != d && t != [PLUS] + d && t != [MINUS] + d
  {
    hide Wrap, DigitsValue;
    forall d | d != [] && AllDigits(d)
      ensures ParseInt(d) == ParseInt([PLUS] + d) == Some(Wrap(DigitsValue(d)))
      ensures ParseInt([MINUS] + d) == Some(Wrap(0 - DigitsValue(d)))
    {
      assert IsDigit(d[0]);
      assert ([PLUS] + d)[1..] == d && ([MINUS] + d)[1..] == d;
    }
    if ParseInt(t).Some? && !AllDigits(t) {
      assert t == [t[0]] + t[1..];
    }
  }

  /** The text of a number is its shortest: a minus sign if it is negative, then digits without a zero in front. */
  lemma FormatShortest(n: int)
    ensures var t := Format(n);
            && (t[0] == MINUS <==> n < 0)
            && AllDigits(if n < 0 then t[1..] else t)
            && (t[0] == ZERO ==> t == [ZERO]) && (n < 0 ==> t[1] != ZERO)
  {
    var m := if n < 0 then 0 - n else n;
    FormatNatValue(m);
    FormatNatLeads(m);
    assert IsDigit(FormatNat(m)[0]);
    assert n < 0 ==> Format(n)[1..] == FormatNat(m);
  }

  lemma {:induction false} FormatNatLeads(n: nat)
    ensures FormatNat(n)[0] == ZERO ==> n == 0
  {
    if 10 <= n {
      FormatNatLeads(n / 10);
      FormatNatValue(n / 10);
    }
  }

  function Pow10(k: nat): (r: nat)
    ensures 1 <= r
  {
    if k == 0 then 1 else 10 * Pow10(k - 1)
  }

  /** The digit loop of int64ToBytes: fills `buf` from its end and leaves room for a sign. */
  method WriteDigits(buf: array<byte>, m: int) returns (i: nat)
    requires m <= MAX && buf.Length == 20
    modifies buf
    ensures 1 <= i <= buf.Length
    ensures buf[i..] == if m <= 0 then [] else FormatNat(m)
  {
    hide Pow10, FormatNat;
    var n := m;
    i := buf.Length;
    MaxBelowPow10(i - 1);
    while 0 < n
      invariant 1 <= i <= buf.Length
      invariant m <= 0 ==> n == m && i == buf.Length
      invariant 0 < m ==> 0 <= n < Pow10(i - 1)
      invariant 0 < m ==> (if n == 0 then [] else FormatNat(n)) + buf[i..] == FormatNat(m)
    {
      ghost var tail := buf[i..];
      Pow10Quotient(n, i - 1);
      FormatNatStep(n, tail);
      i := i - 1;
      buf[i] := ZERO + n % 10;
      assert buf[i + 1..] == tail;
      assert buf[i..] == [ZERO + n % 10] + tail;
      n := n / 10;
    }
  }

  /** What int64ToBytes writes: the decimal text, except that the minimum gives a lone "-". */
  method Int64ToBytes(n0: int64) returns (t: bytes)
    ensures n0 != MIN ==> t == Format(n0)
    ensures n0 == MIN ==> t == [MINUS]
  {
    hide Wrap, FormatNat;
    if n0 == 0 {
      FormatZero();
      return [ZERO];
    }
    var n: int := n0;
    var neg := n < 0;
    if neg {
      NegateWraps(n0);
      n := Wrap(0 - n);
    }
    var buf := new byte[20];
    var i := WriteDigits(buf, n);
    if neg {
      ghost var tail := buf[i..];
      i := i - 1;
      buf[i] := MINUS;
      assert buf[i + 1..] == tail;
      assert buf[i..] == [MINUS] + tail;
    }
    t := buf[i..];
  }

  lemma FormatZero()
    ensures FormatNat(0) == [ZERO]
  {
  }

  /** Negation wraps on the minimum only, which it maps to itself. */
  lemma NegateWraps(n: int64)
    ensures Wrap(0 - n) == if n == MIN then MIN else 0 - n
  {
  }

  /** The lone "-" is no integer's text and no parser reads it. */
  lemma LoneSignIsNoNumber(n: int)
    ensures Format(n) != [MINUS] && ParseInt([MINUS]) == None
  {
    FormatNatValue(if n < 0 then 0 - n else n);
    assert n >= 0 ==> IsDigit(Format(n)[0]);
  }

  /** Peeling the last digit of a positive number off its text. */
  lemma FormatNatStep(n: nat, tail: bytes)
    requires 0 < n
    ensures FormatNat(n) + tail == (if n / 10 == 0 then [] else FormatNat(n / 10)) + ([ZERO + n % 10] + tail)
  {
  }

  /** A positive number below 10^k has a quotient by ten below 10^(k-1). */
  lemma Pow10Quotient(n: nat, k: nat)
    requires 0 < n < Pow10(k)
    ensures 1 <= k && n / 10 < Pow10(k - 1)
  {
  }

  lemma Pow10Plus4(k: nat)
    ensures Pow10(k + 4) == 10_000 * Pow10(k)
  {
    assert Pow10(k + 2) == 100 * Pow10(k);
    assert Pow10(k + 4) == 100 * Pow10(k + 2);
  }

  lemma MaxBelowPow10(k: nat)
    requires k == 19
    ensures MAX < Pow10(k)
  {
    assert Pow10(3) == 1000;
    hide Pow10;
    Pow10Plus4(k - 4);
    Pow10Plus4(k - 8);
    Pow10Plus4(k - 12);
    Pow10Plus4(k - 16);
  }
}
