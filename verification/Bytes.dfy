/** Bytes, NUL-terminated texts and the read cursors over them. */
module Bytes {

  /** One code unit of UTF-8 text: the unsigned view of a C++ `char`. */
  type byte = x: int | 0 <= x < 256

  type bytes = seq<byte>

  // Option is the usual "value or nothing".
  datatype Option<+T> = None | Some(value: T)

  const QUOTE: byte := 0x22
  const BACKSLASH: byte := 0x5C
  const SOLIDUS: byte := 0x2F
  const COMMA: byte := 0x2C
  const COLON: byte := 0x3A
  const LBRACE: byte := 0x7B
  const RBRACE: byte := 0x7D
  const LBRACKET: byte := 0x5B
  const RBRACKET: byte := 0x5D
  const MINUS: byte := 0x2D
  const PLUS: byte := 0x2B
  const DOT: byte := 0x2E
  const ZERO: byte := 0x30
  const NINE: byte := 0x39
  const LETTER_U: byte := 0x75

  /** The byte under the cursor: the text is followed by a NUL terminator. */
  function Peek(t: bytes, i: nat): byte {
    if i < |t| then t[i] else 0
  }

  /** Text `p` stands at position `i` of `t`. */
  predicate At(t: bytes, i: nat, p: bytes) {
    i + |p| <= |t| && t[i..i + |p|] == p
  }

  lemma AtConcat(t: bytes, i: nat, p: bytes, q: bytes)
    ensures At(t, i, p + q) <==> At(t, i, p) && At(t, i + |p|, q)
  {
    if i + |p| + |q| <= |t| {
      assert t[i..i + |p + q|] == t[i..i + |p|] + t[i + |p|..i + |p| + |q|];
      if At(t, i, p + q) {
        assert t[i..i + |p|] == (p + q)[..|p|];
        assert t[i + |p|..i + |p| + |q|] == (p + q)[|p|..];
      }
    }
  }

  lemma AtPeek(t: bytes, i: nat, p: bytes, k: nat)
    requires At(t, i, p) && k < |p|
    ensures i + k < |t| && t[i + k] == p[k] && Peek(t, i + k) == p[k]
  {
    assert t[i..i + |p|][k] == t[i + k];
  }

  lemma AtHas(t: bytes, i: nat, p: bytes, k: nat)
    requires k < |p|
    ensures At(t, i, p) ==> Peek(t, i + k) == p[k]
  {
    if At(t, i, p) {
      AtPeek(t, i, p, k);
    }
  }

  predicate IsDigit(c: byte) {
    ZERO <= c <= NINE
  }

  /** The four characters that JSON calls whitespace. */
  predicate IsSpace(c: byte) {
    c == 0x20 || c == 0x0A || c == 0x0D || c == 0x09
  }

  lemma SliceOfSlice(t: bytes, i: nat, m: nat, a: nat, b: nat)
    requires i <= m <= |t| && a <= b <= m - i
    ensures t[i..m][a..b] == t[i + a..i + b]
  {
    var s, r := t[i..m][a..b], t[i + a..i + b];
    forall k | 0 <= k < b - a
      ensures s[k] == r[k]
    {
      assert s[k] == t[i..m][a + k] == t[i + a + k];
    }
    assert |s| == |r|;
  }

  lemma SplitFirst(t: bytes, i: nat, j: nat)
    requires i < j <= |t|
    ensures t[i..j] == [t[i]] + t[i + 1..j]
  {
  }

  lemma SplitLast(t: bytes, i: nat, j: nat)
    requires i <= j < |t|
    ensures t[i..j + 1] == t[i..j] + [t[j]]
  {
  }

  lemma Associative(a: bytes, b: bytes, c: bytes)
    ensures a + (b + c) == a + b + c
  {
  }

  lemma AppendSlice(acc: bytes, s: bytes, k: nat, n: nat)
    requires k + n <= |s|
    ensures acc + s[k..k + n] + s[k + n..] == acc + s[k..]
  {
    assert s[k..] == s[k..k + n] + s[k + n..];
    Associative(acc, s[k..k + n], s[k + n..]);
  }
}
