/** Bytes, optional results, and the few facts about slices of byte strings that the codec needs. */
module Bytes {
  type byte = b: int | 0 <= b < 256
  type bytes = seq<byte>

  const CR: byte := 13
  const LF: byte := 10
  const TAB: byte := 9
  const SPACE: byte := 32
  const DQUOTE: byte := 34
  const SQUOTE: byte := 39
  const BACKSLASH: byte := 92
  const STAR: byte := 42
  const PLUS: byte := 43
  const MINUS: byte := 45
  const COLON: byte := 58
  const DOLLAR: byte := 36
  const ZERO: byte := 48
  const NINE: byte := 57

  const CRLF: bytes := [CR, LF]

  datatype Option<+T> = None | Some(value: T)

  /** The text `t` stands in `s` at position `p`. */
  predicate HasAt(s: bytes, p: nat, t: bytes) {
    p + |t| <= |s| && s[p..p + |t|] == t
  }

  /** The `k` bytes of `s` from `p` are the `k` bytes of `s'` from `p'`. */
  predicate SameWindow(s: bytes, p: nat, s': bytes, p': nat, k: nat) {
    p + k <= |s| && p' + k <= |s'| && s[p..p + k] == s'[p'..p' + k]
  }

  lemma HasAtSplit(s: bytes, p: nat, a: bytes, b: bytes)
    requires HasAt(s, p, a + b)
    ensures HasAt(s, p, a) && HasAt(s, p + |a|, b)
  {
    var w := s[p..p + |a + b|];
    assert s[p..p + |a|] == w[..|a|] == a;
    assert s[p + |a|..p + |a| + |b|] == w[|a|..] == b;
  }

  lemma HasAtIndex(s: bytes, p: nat, t: bytes, i: nat)
    requires HasAt(s, p, t) && i < |t|
    ensures s[p + i] == t[i]
  {
    assert s[p + i] == s[p..p + |t|][i];
  }

  /** A slice of a slice. */
  lemma SliceOfSlice(s: bytes, p: nat, k: nat, a: nat, b: nat)
    requires a <= b <= k && p + k <= |s|
    ensures s[p..p + k][a..b] == s[p + a..p + b]
  {
    var u, w := s[p..p + k][a..b], s[p + a..p + b];
    forall i | 0 <= i < |u|
      ensures u[i] == w[i]
    {
      assert u[i] == s[p..p + k][a + i];
    }
  }

  lemma SubWindow(s: bytes, p: nat, s': bytes, p': nat, k: nat, a: nat, b: nat)
    requires SameWindow(s, p, s', p', k) && a <= b <= k
    ensures s[p + a..p + b] == s'[p' + a..p' + b]
    ensures SameWindow(s, p + a, s', p' + a, b - a)
  {
    SliceOfSlice(s, p, k, a, b);
    SliceOfSlice(s', p', k, a, b);
    assert (p + a) + (b - a) == p + b && (p' + a) + (b - a) == p' + b;
  }

  lemma WindowIndex(s: bytes, p: nat, s': bytes, p': nat, k: nat, i: nat)
    requires SameWindow(s, p, s', p', k) && i < k
    ensures p + i < |s| && p' + i < |s'| && s[p + i] == s'[p' + i]
  {
    assert s[p + i] == s[p..p + k][i];
    assert s'[p' + i] == s'[p'..p' + k][i];
  }
}
