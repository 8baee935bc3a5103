/** Machine integers, powers, and the few facts about products that the exact algorithms need. */
module Arithmetic {

  // Every operation on these types carries a proof that it does not wrap.
  newtype uint32 = x: int | 0 <= x < 0x1_0000_0000
  newtype uint64 = x: int | 0 <= x < 0x1_0000_0000_0000_0000

  function Pow(b: nat, n: nat): (p: nat)
    requires b > 0
    ensures p > 0
  {
    if n == 0 then 1 else (PowStep(b, Pow(b, n - 1)); b * Pow(b, n - 1))
  }

  lemma PowStep(a: nat, b: nat)
    requires a > 0 && b > 0
    ensures a * b > 0
  {
  }

  lemma PowGrows(b: nat, m: nat, n: nat)
    requires b > 0 && m <= n
    ensures Pow(b, m) <= Pow(b, n)
  {
    if m < n {
      PowGrows(b, m, n - 1);
      MulGrows(1, b, Pow(b, n - 1));
    }
  }

  lemma MulGrows(a: int, b: int, c: nat)
    requires a <= b
    ensures a * c <= b * c
  {
  }

  lemma PowAdd(b: nat, m: nat, n: nat)
    requires b > 0
    ensures Pow(b, m + n) == Pow(b, m) * Pow(b, n)
  {
    if m > 0 {
      PowAdd(b, m - 1, n);
      MulAssoc(b, Pow(b, m - 1), Pow(b, n));
    }
  }

  lemma MulAssoc(a: int, b: int, c: int)
    ensures a * (b * c) == (a * b) * c
  {
  }

  lemma PowersOfTwo()
    ensures Pow(2, 32) == 0x1_0000_0000
    ensures Pow(2, 60) == 0x1000_0000_0000_0000
    ensures Pow(2, 64) == 0x1_0000_0000_0000_0000
  {
    assert Pow(2, 4) == 16;
    PowAdd(2, 4, 4);
    PowAdd(2, 8, 8);
    PowAdd(2, 16, 16);
    PowAdd(2, 16, 8);
    PowAdd(2, 24, 4);
    PowAdd(2, 32, 28);
    PowAdd(2, 32, 32);
  }

  /** The number that a string of decimal digit characters denotes. */
  function Denoted(s: seq<int>): int {
    if s == [] then 0 else Denoted(s[..|s| - 1]) * 10 + (s[|s| - 1] - 0x30)
  }

  lemma DivMod(a: nat, b: nat)
    requires b > 0
    ensures a == a / b * b + a % b && 0 <= a % b < b
  {
  }

  ghost predicate AreDigits(s: seq<int>) {
    forall k :: 0 <= k < |s| ==> 0x30 <= s[k] <= 0x39
  }

  lemma {:induction false} DenotedBounds(s: seq<int>)
    requires AreDigits(s)
    ensures 0 <= Denoted(s) < Pow(10, |s|)
  {
    if s != [] {
      DenotedBounds(s[..|s| - 1]);
    }
  }

  /** Digits that follow scale the number before them. */
  lemma {:induction false} DenotedConcat(a: seq<int>, b: seq<int>)
    ensures Denoted(a + b) == Denoted(a) * Pow(10, |b|) + Denoted(b)
  {
    if b == [] {
      assert a + b == a;
    } else {
      var c := b[..|b| - 1];
      DenotedConcat(a, c);
      assert (a + b)[..|a + b| - 1] == a + c;
      MulAssoc(Denoted(a), 10, Pow(10, |c|));
    }
  }
}
