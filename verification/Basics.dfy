/** Bytes, optional values, and the "text `s` stands at position `p` of `t`" relation. */
module Basics {
  datatype Option<+T> = None | Some(value: T)

  /** One element of a `std::string`, read as `unsigned char`. */
  type byte = b: int | 0 <= b < 256
  type Bytes = seq<byte>

  /** A C++ `int`. */
  type int32 = n: int | -0x8000_0000 <= n < 0x8000_0000

  const QUOTE: byte := 0x22
  const BACKSLASH: byte := 0x5C
  const COLON: byte := 0x3A
  const COMMA: byte := 0x2C
  const LBRACE: byte := 0x7B
  const RBRACE: byte := 0x7D
  const MINUS: byte := 0x2D
  const LETTER_U: byte := 0x75

  /** The bytes of an ASCII literal of the source. */
  function Ascii(s: string): (r: Bytes)
    ensures |r| == |s|
  {
    seq(|s|, i requires 0 <= i < |s| => s[i] as int % 256)
  }

  predicate At(t: Bytes, p: nat, s: Bytes) {
    p + |s| <= |t| && t[p..p + |s|] == s
  }

  lemma AtConcat(t: Bytes, p: nat, a: Bytes, b: Bytes)
    ensures At(t, p, a + b) <==> At(t, p, a) && At(t, p + |a|, b)
  {
    if At(t, p, a + b) {
      assert t[p..p + |a|] == (a + b)[..|a|];
      assert t[p + |a|..p + |a| + |b|] == (a + b)[|a|..];
    }
    if At(t, p, a) && At(t, p + |a|, b) {
      assert t[p..p + |a + b|] == t[p..p + |a|] + t[p + |a|..p + |a| + |b|];
    }
  }

  lemma AtHead(t: Bytes, p: nat, s: Bytes)
    requires At(t, p, s) && s != []
    ensures t[p] == s[0] && At(t, p + 1, s[1..])
  {
    AtConcat(t, p, s[..1], s[1..]);
    assert s == s[..1] + s[1..];
    assert t[p..p + |s|][0] == t[p];
  }

  /** A slice, its first element and the rest. */
  lemma SliceHead(t: Bytes, p: nat, q: nat)
    requires p < q <= |t|
    ensures t[p..q] == [t[p]] + t[p + 1..q]
    ensures t[p..q][0] == t[p] && t[p..q][1..] == t[p + 1..q]
  {
    var s, r := t[p..q], [t[p]] + t[p + 1..q];
    forall i | 0 <= i < |s| ensures s[i] == r[i] {
    }
    forall i | 0 <= i < |s| - 1 ensures s[1..][i] == t[p + 1..q][i] {
    }
  }

  lemma SliceTwo(t: Bytes, p: nat)
    requires p + 2 <= |t|
    ensures t[p..p + 2] == [t[p], t[p + 1]]
  {
    var s := t[p..p + 2];
    assert s[0] == t[p] && s[1] == t[p + 1] && |s| == 2;
  }

  lemma AtOne(t: Bytes, p: nat)
    requires p < |t|
    ensures At(t, p, [t[p]])
  {
    var s := t[p..p + 1];
    assert s[0] == t[p] && |s| == 1;
    assert s == [t[p]];
  }

  lemma AtSlice(t: Bytes, p: nat, q: nat)
    requires p <= q <= |t|
    ensures At(t, p, t[p..q]) && |t[p..q]| == q - p
  {
  }

  lemma AtIsSlice(t: Bytes, p: nat, s: Bytes)
    requires At(t, p, s)
    ensures p + |s| <= |t| && t[p..p + |s|] == s
  {
  }
}
