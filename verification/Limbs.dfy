/** Little-endian sequences of 64-bit limbs: their value, and what the limb loops compute. */
module Limbs {
  import opened Arithmetic

  const BASE: nat := 0x1_0000_0000_0000_0000

  function Val(s: seq<uint64>): nat {
    if s == [] then 0 else s[0] as int + BASE * Val(s[1..])
  }

  /** No leading zero limb, except in zero itself. */
  predicate Normal(s: seq<uint64>) {
    s != [] && (|s| > 1 ==> s[|s| - 1] != 0)
  }

  // ------------------------------------------------------------------------ order

  lemma {:induction false} ShorterSmaller(s: seq<uint64>, r: seq<uint64>)
    requires |s| < |r| && r[|r| - 1] != 0
    ensures Val(s) < Val(r)
  {
    if s == [] {
      if |r| > 1 {
        ShorterSmaller([], r[1..]);
      }
    } else {
      ShorterSmaller(s[1..], r[1..]);
    }
  }

  lemma {:induction false} TopDecides(s: seq<uint64>, r: seq<uint64>, i: nat)
    requires |s| == |r| && i < |s| && s[i] < r[i] && s[i + 1..] == r[i + 1..]
    ensures Val(s) < Val(r)
  {
    if i > 0 {
      assert s[1..][i..] == s[i + 1..] && r[1..][i..] == r[i + 1..];
      TopDecides(s[1..], r[1..], i - 1);
    }
  }

  /** Two normal forms with the same value are the same limbs. */
  lemma {:induction false} NormalUnique(s: seq<uint64>, r: seq<uint64>)
    requires Normal(s) && Normal(r) && Val(s) == Val(r)
    ensures s == r
  {
    if |s| < |r| {
      ShorterSmaller(s, r);
    } else if |r| < |s| {
      ShorterSmaller(r, s);
    } else {
      SameLengthUnique(s, r);
    }
  }

  lemma {:induction false} SameLengthUnique(s: seq<uint64>, r: seq<uint64>)
    requires |s| == |r| && Val(s) == Val(r)
    ensures s == r
  {
    if s != [] {
      assert s[0] == r[0] && Val(s[1..]) == Val(r[1..]);
      SameLengthUnique(s[1..], r[1..]);
      assert s == [s[0]] + s[1..] && r == [r[0]] + r[1..];
    }
  }

  /** How many limbs a value can need. */
  lemma {:induction false} LengthBound(s: seq<uint64>, n: nat)
    requires s != [] && s[|s| - 1] != 0 && Val(s) < Pow(BASE, n)
    ensures |s| <= n
  {
    if n == 0 {
      ShorterSmaller([], s);
    } else if |s| > 1 {
      LengthBound(s[1..], n - 1);
    }
  }

  // --------------------------------------------------------------------- addition

  function Digit(x: nat): (d: uint64)
    ensures d as int == x % BASE
  {
    (x % BASE) as uint64
  }

  /** Adding a carry into the lowest limb and passing it on. */
  function Add(s: seq<uint64>, c: nat): (r: seq<uint64>)
    requires c < BASE
    ensures |s| <= |r| <= |s| + 1
  {
    if s == [] then (if c == 0 then [] else [c as uint64])
    else
      var x := s[0] as int + c;
      [Digit(x)] + Add(s[1..], x / BASE)
  }

  lemma {:induction false} AddValue(s: seq<uint64>, c: nat)
    requires c < BASE
    ensures Val(Add(s, c)) == Val(s) + c
  {
    if s == [] {
      if c != 0 {
        assert [c as uint64][1..] == [];
      }
    } else {
      var x := s[0] as int + c;
      AddValue(s[1..], x / BASE);
      assert Add(s, c)[1..] == Add(s[1..], x / BASE);
    }
  }

  lemma {:induction false} AddZero(s: seq<uint64>)
    ensures Add(s, 0) == s
  {
    if s != [] {
      AddZero(s[1..]);
      assert s == [s[0]] + s[1..];
    }
  }

  lemma {:induction false} AddNormal(s: seq<uint64>, c: nat)
    requires c < BASE && s != [] && (s[|s| - 1] != 0 || |s| == 1)
    ensures Normal(Add(s, c))
  {
    if |s| > 1 {
      var rest := (s[0] as int + c) / BASE;
      if rest == 0 {
        AddZero(s[1..]);
      } else {
        AddNonZero(s[1..], rest);
      }
      TopStays(s, c, rest);
    } else {
      assert s[1..] == [];
    }
  }

  lemma TopStays(s: seq<uint64>, c: nat, rest: nat)
    requires c < BASE && |s| > 1 && rest == (s[0] as int + c) / BASE
    ensures Add(s, c)[|Add(s, c)| - 1] == Add(s[1..], rest)[|Add(s[1..], rest)| - 1]
  {
  }

  lemma {:induction false} AddNonZero(s: seq<uint64>, c: nat)
    requires c < BASE && s != [] && s[|s| - 1] != 0
    ensures Add(s, c)[|Add(s, c)| - 1] != 0
  {
    var x := s[0] as int + c;
    if |s| == 1 {
      assert s[1..] == [];
    } else {
      AddNonZero(s[1..], x / BASE);
    }
  }

  // --------------------------------------------------------------- multiplication

  /** Multiplying every limb by `u` with a running carry `k`. */
  function Mul(s: seq<uint64>, u: nat, k: nat): (r: seq<uint64>)
    requires u < BASE && k < BASE
    ensures |s| <= |r| <= |s| + 1
  {
    if s == [] then (if k == 0 then [] else [k as uint64])
    else
      var p := s[0] as int * u + k;
      CarryBound(s[0] as int, u, k);
      [Digit(p)] + Mul(s[1..], u, p / BASE)
  }

  lemma CarryBound(a: nat, u: nat, k: nat)
    requires a < BASE && u < BASE && k < BASE
    ensures 0 <= (a * u + k) / BASE < BASE && a * u + k < BASE * BASE
  {
    MulGrows(a, BASE - 1, u);
    MulGrows(0, a, u);
  }

  lemma {:induction false} MulValue(s: seq<uint64>, u: nat, k: nat)
    requires u < BASE && k < BASE
    ensures Val(Mul(s, u, k)) == Val(s) * u + k
  {
    if s == [] {
      if k != 0 {
        assert [k as uint64][1..] == [];
      }
    } else {
      var p := s[0] as int * u + k;
      CarryBound(s[0] as int, u, k);
      MulValue(s[1..], u, p / BASE);
      assert Mul(s, u, k)[1..] == Mul(s[1..], u, p / BASE);
      Distribute(s[0] as int, Val(s[1..]), u);
    }
  }

  lemma Distribute(a: int, b: int, u: int)
    ensures (a + BASE * b) * u == a * u + BASE * (b * u)
  {
  }

  lemma {:induction false} MulNonZero(s: seq<uint64>, u: nat, k: nat)
    requires 0 < u < BASE && k < BASE && s != [] && s[|s| - 1] != 0
    ensures Mul(s, u, k)[|Mul(s, u, k)| - 1] != 0
  {
    var p := s[0] as int * u + k;
    CarryBound(s[0] as int, u, k);
    if |s| == 1 {
      assert s[1..] == [];
      MulGrows(1, s[0] as int, u);
    } else {
      MulNonZero(s[1..], u, p / BASE);
    }
  }

  /** One turn of a multiplication loop over the limbs from `i` on. */
  lemma MulNext(s: seq<uint64>, i: nat, done: seq<uint64>, u: nat, k: nat, lo: uint64, hi: uint64, total: seq<uint64>)
    requires i < |s| && u < BASE && k < BASE && done + Mul(s[i..], u, k) == total
    requires lo as int + BASE * hi as int == s[i] as int * u + k
    ensures done + [lo] + Mul(s[i + 1..], u, hi as int) == total
  {
    hide Mul;
    LimbAndCarry(lo as int, hi as int, s[i] as int * u + k);
    MulFirst(s, i, u, k, lo, hi);
    var rest := Mul(s[i + 1..], u, hi as int);
    assert done + ([lo] + rest) == done + [lo] + rest;
  }

  lemma LimbAndCarry(lo: int, hi: int, p: int)
    requires lo + BASE * hi == p && 0 <= lo < BASE
    ensures p % BASE == lo && p / BASE == hi
  {
  }

  lemma MulFirst(s: seq<uint64>, i: nat, u: nat, k: nat, lo: uint64, hi: uint64)
    requires i < |s| && u < BASE && k < BASE
    requires (s[i] as int * u + k) % BASE == lo as int && (s[i] as int * u + k) / BASE == hi as int
    ensures Mul(s[i..], u, k) == [lo] + Mul(s[i + 1..], u, hi as int)
  {
    assert s[i..][1..] == s[i + 1..] && s[i..][0] == s[i];
  }

  /** The product of a normal form is a normal form, as long as it fits. */
  lemma MulNormal(s: seq<uint64>, u: nat, capacity: nat)
    requires Normal(s) && 0 < u < BASE && 0 < capacity
    requires Val(s) * u < Pow(BASE, capacity)
    ensures Normal(Mul(s, u, 0)) && |Mul(s, u, 0)| <= capacity
  {
    if s[|s| - 1] != 0 {
      MulNonZero(s, u, 0);
      MulValue(s, u, 0);
      LengthBound(Mul(s, u, 0), capacity);
    } else {
      assert s[1..] == [];
      assert s[0] as int * u + 0 == 0;
      assert Mul(s, u, 0) == [0];
    }
  }

  // --------------------------------------------------------------------- shifting

  function Zeros(n: nat): (z: seq<uint64>)
    ensures |z| == n && forall k :: 0 <= k < n ==> z[k] == 0
  {
    seq(n, _ => 0)
  }

  lemma Swap(a: int, b: int, c: int)
    ensures b * (a * c) == a * (b * c)
  {
  }

  lemma {:induction false} ZerosValue(n: nat, s: seq<uint64>)
    ensures Val(Zeros(n) + s) == Val(s) * Pow(BASE, n)
  {
    if n == 0 {
      assert Zeros(0) + s == s;
    } else {
      ZerosValue(n - 1, s);
      assert (Zeros(n) + s)[1..] == Zeros(n - 1) + s;
      Swap(Val(s), BASE, Pow(BASE, n - 1));
    }
  }

  lemma {:induction false} PowBase(n: nat)
    ensures Pow(BASE, n) == Pow(2, 64 * n)
  {
    if n > 0 {
      PowBase(n - 1);
      PowAdd(2, 64, 64 * (n - 1));
      PowersOfTwo();
    }
  }

  /** Low and high part of a limb shifted left by fewer than 64 bits: `x << n` and `x >> (64 - n)`. */
  function Low(x: uint64, n: nat): (r: uint64)
    requires 0 < n < 64
  {
    ((x as int * Pow(2, n)) % BASE) as uint64
  }

  function High(x: uint64, n: nat): (r: uint64)
    requires 0 < n < 64
  {
    DivFits(x as int, Pow(2, 64 - n));
    (x as int / Pow(2, 64 - n)) as uint64
  }

  lemma DivFits(x: nat, v: nat)
    requires v > 0
    ensures 0 <= x / v <= x
  {
    DivMod(x, v);
    if x / v > x {
      MulGrows(x + 1, x / v, v);
      MulGrows(1, v, x);
    }
  }

  lemma SplitProduct(x: int, w: nat, v: nat, h: int, l: int)
    requires x == h * v + l && 0 <= l < v && v * w == BASE
    ensures x * w == h * BASE + l * w && 0 <= l * w <= BASE - w
  {
    MulAssoc(h, v, w);
    assert (h * v + l) * w == h * v * w + l * w;
    MulGrows(l, v - 1, w);
    MulGrows(0, l, w);
    assert (v - 1) * w == v * w - w;
  }

  lemma HighBelow(x: uint64, w: nat, v: nat, h: int, l: int)
    requires x as int == h * v + l && 0 <= l && v * w == BASE && v > 0
    ensures h < w
  {
    assert w * v == v * w;
    if h >= w {
      MulGrows(w, h, v);
    }
  }

  /** A shifted limb splits at the limb boundary; a smaller carry stays below the low part. */
  lemma ShiftSplit(x: uint64, n: nat, c: nat)
    requires 0 < n < 64 && c < Pow(2, n)
    ensures (x as int * Pow(2, n) + c) / BASE == High(x, n) as int < Pow(2, n)
    ensures (x as int * Pow(2, n) + c) % BASE == Low(x, n) as int + c
  {
    hide Pow;
    var w, v := Pow(2, n), Pow(2, 64 - n);
    PowAdd(2, 64 - n, n);
    PowersOfTwo();
    var h, l := x as int / v, x as int % v;
    DivMod(x as int, v);
    SplitProduct(x as int, w, v, h, l);
    HighBelow(x, w, v, h, l);
    Quotient(x as int * w + c, h, l * w + c);
    Quotient(x as int * w, h, l * w);
  }

  lemma Quotient(x: int, h: int, r: int)
    requires x == h * BASE + r && 0 <= r < BASE
    ensures x / BASE == h && x % BASE == r
  {
  }

  /** The limbs of a shifted number: each combines a limb's low part with the high part of the one below. */
  lemma {:induction false} ShiftAt(s: seq<uint64>, n: nat, c: nat, k: nat)
    requires 0 < n < 64 && c < Pow(2, n) < BASE && k < |s|
    ensures var m := Mul(s, Pow(2, n), c);
      && m[k] as int == Low(s[k], n) as int + (if k == 0 then c else High(s[k - 1], n) as int)
      && (if High(s[|s| - 1], n) == 0 then |m| == |s| else |m| == |s| + 1 && m[|s|] == High(s[|s| - 1], n))
  {
    var w := Pow(2, n);
    ShiftSplit(s[0], n, c);
    var h := High(s[0], n) as int;
    assert Mul(s, w, c) == [Digit(s[0] as int * w + c)] + Mul(s[1..], w, h);
    if |s| == 1 {
      assert s[1..] == [];
    } else {
      ShiftAt(s[1..], n, h, if k == 0 then 0 else k - 1);
    }
  }

  // ------------------------------------------------------------------- difference

  function Head(s: seq<uint64>): nat {
    if s == [] then 0 else s[0] as int
  }

  function Rest(s: seq<uint64>): seq<uint64> {
    if s == [] then [] else s[1..]
  }

  /** One limb of the difference, modulo the base. */
  function DiffLimb(a: uint64, b: nat, borrow: nat): uint64
    requires b < BASE && borrow <= 1
  {
    Digit(a as int + 2 * BASE - borrow - b)
  }

  /** The borrow test of the code: a limb that came out larger than the minuend's. */
  function DiffBorrow(a: uint64, b: nat, borrow: nat): (r: nat)
    requires b < BASE && borrow <= 1
    ensures r <= 1
  {
    if DiffLimb(a, b, borrow) > a then 1 else 0
  }

  /** The limbs the difference loop computes. */
  function Diff(a: seq<uint64>, b: seq<uint64>, borrow: nat): (d: seq<uint64>)
    requires |b| <= |a| && borrow <= 1
    ensures |d| == |a|
  {
    if a == [] then []
    else [DiffLimb(a[0], Head(b), borrow)] + Diff(a[1..], Rest(b), DiffBorrow(a[0], Head(b), borrow))
  }

  /** Somewhere a borrow comes into a limb of the subtrahend that is all ones. */
  predicate MeetsFullLimb(a: seq<uint64>, b: seq<uint64>, borrow: nat)
    requires |b| <= |a| && borrow <= 1
  {
    a != [] &&
    (Head(b) + borrow == BASE || MeetsFullLimb(a[1..], Rest(b), DiffBorrow(a[0], Head(b), borrow)))
  }

  /** The total of the borrows that the test misses. */
  function Lost(a: seq<uint64>, b: seq<uint64>, borrow: nat): nat
    requires |b| <= |a| && borrow <= 1
  {
    if a == [] then 0
    else (if Head(b) + borrow == BASE then BASE else 0)
         + BASE * Lost(a[1..], Rest(b), DiffBorrow(a[0], Head(b), borrow))
  }

  /** The weight of a borrow out of the top limb. */
  function Overdrawn(a: seq<uint64>, b: seq<uint64>, borrow: nat): nat
    requires |b| <= |a| && borrow <= 1
  {
    if a == [] then borrow else BASE * Overdrawn(a[1..], Rest(b), DiffBorrow(a[0], Head(b), borrow))
  }

  lemma DiffStep(a: uint64, b: nat, borrow: nat)
    requires b < BASE && borrow <= 1
    ensures DiffLimb(a, b, borrow) as int ==
      a as int - b - borrow + BASE * DiffBorrow(a, b, borrow) + (if b + borrow == BASE then BASE else 0)
  {
    if a as int >= b + borrow {
      Quotient(a as int + 2 * BASE - borrow - b, 2, a as int - borrow - b);
    } else {
      Quotient(a as int + 2 * BASE - borrow - b, 1, a as int + BASE - borrow - b);
    }
  }

  lemma {:induction false} DiffValue(a: seq<uint64>, b: seq<uint64>, borrow: nat)
    requires |b| <= |a| && borrow <= 1
    ensures Val(Diff(a, b, borrow)) == Val(a) - Val(b) - borrow + Lost(a, b, borrow) + Overdrawn(a, b, borrow)
    ensures Overdrawn(a, b, borrow) > 0 ==> Val(Diff(a, b, borrow)) < Overdrawn(a, b, borrow)
  {
    hide DiffLimb, DiffBorrow;
    if a != [] {
      DiffStep(a[0], Head(b), borrow);
      DiffValue(a[1..], Rest(b), DiffBorrow(a[0], Head(b), borrow));
      assert Diff(a, b, borrow)[1..] == Diff(a[1..], Rest(b), DiffBorrow(a[0], Head(b), borrow));
    }
  }

  lemma {:induction false} LostMeetsFullLimb(a: seq<uint64>, b: seq<uint64>, borrow: nat)
    requires |b| <= |a| && borrow <= 1
    ensures Lost(a, b, borrow) > 0 <==> MeetsFullLimb(a, b, borrow)
  {
    hide DiffLimb, DiffBorrow;
    if a != [] {
      LostMeetsFullLimb(a[1..], Rest(b), DiffBorrow(a[0], Head(b), borrow));
    }
  }

  /** At limb `i` the subtrahend is all ones, and the limbs below it borrow. */
  ghost predicate BorrowsAt(a: seq<uint64>, b: seq<uint64>, borrow: nat, i: nat)
    requires |b| <= |a| && i < |b|
  {
    b[i] as int == BASE - 1 && Val(a[..i]) < Val(b[..i]) + borrow
  }

  /** Some all-ones limb of the subtrahend stands above limbs that exceed the same limbs of the minuend. */
  ghost predicate BorrowsIntoFull(a: seq<uint64>, b: seq<uint64>, borrow: nat)
    requires |b| <= |a|
  {
    exists i :: 0 <= i < |b| && BorrowsAt(a, b, borrow, i)
  }

  lemma BorrowsAtNext(a: seq<uint64>, b: seq<uint64>, borrow: nat, i: nat)
    requires 0 < i < |b| <= |a| && borrow <= 1 && b[0] as int + borrow < BASE
    ensures BorrowsAt(a, b, borrow, i) <==> BorrowsAt(a[1..], b[1..], DiffBorrow(a[0], b[0] as int, borrow), i - 1)
  {
    DiffStep(a[0], b[0] as int, borrow);
    assert a[..i][1..] == a[1..][..i - 1] && b[..i][1..] == b[1..][..i - 1];
    hide DiffLimb, DiffBorrow;
    assert Val(a[..i]) == a[0] as int + BASE * Val(a[1..][..i - 1]);
    assert Val(b[..i]) == b[0] as int + BASE * Val(b[1..][..i - 1]);
  }

  /** Where the borrow test is put to a full limb can be told from the operands, without the loop. */
  lemma {:induction false} FullLimbFromOperands(a: seq<uint64>, b: seq<uint64>, borrow: nat)
    requires |b| <= |a| && borrow <= 1
    ensures MeetsFullLimb(a, b, borrow) <==> BorrowsIntoFull(a, b, borrow)
  {
    hide DiffLimb, DiffBorrow, BorrowsAt;
    if a == [] {
    } else {
      FullLimbFromOperands(a[1..], Rest(b), DiffBorrow(a[0], Head(b), borrow));
      if b != [] {
        FullLimbStep(a, b, borrow);
      }
    }
  }

  lemma FullLimbStep(a: seq<uint64>, b: seq<uint64>, borrow: nat)
    requires b != [] && |b| <= |a| && borrow <= 1
    ensures BorrowsIntoFull(a, b, borrow) <==>
      b[0] as int + borrow == BASE || BorrowsIntoFull(a[1..], b[1..], DiffBorrow(a[0], b[0] as int, borrow))
  {
    hide DiffLimb, DiffBorrow;
    FirstLimb(a, b, borrow);
    if b[0] as int + borrow < BASE {
      hide BorrowsAt;
      forall i | 0 < i < |b|
        ensures BorrowsAt(a, b, borrow, i) <==>
          BorrowsAt(a[1..], b[1..], DiffBorrow(a[0], b[0] as int, borrow), i - 1)
      {
        BorrowsAtNext(a, b, borrow, i);
      }
      if BorrowsIntoFull(a[1..], b[1..], DiffBorrow(a[0], b[0] as int, borrow)) {
        var j :| 0 <= j < |b| - 1 && BorrowsAt(a[1..], b[1..], DiffBorrow(a[0], b[0] as int, borrow), j);
        assert BorrowsAt(a, b, borrow, j + 1);
      }
    }
  }

  lemma FirstLimb(a: seq<uint64>, b: seq<uint64>, borrow: nat)
    requires b != [] && |b| <= |a| && borrow <= 1
    ensures BorrowsAt(a, b, borrow, 0) <==> b[0] as int + borrow == BASE
  {
    assert a[..0] == [] && b[..0] == [];
  }

  /** The difference is exact if and only if no borrow comes into an all-ones limb. */
  lemma DiffExactIff(a: seq<uint64>, b: seq<uint64>)
    requires |b| <= |a| && Val(b) < Val(a)
    ensures Val(Diff(a, b, 0)) == Val(a) - Val(b) <==> !BorrowsIntoFull(a, b, 0)
    ensures Val(Diff(a, b, 0)) >= Val(a) - Val(b)
  {
    DiffValue(a, b, 0);
    LostMeetsFullLimb(a, b, 0);
    FullLimbFromOperands(a, b, 0);
  }

  /** 2^128 - (2^128 - 2^64 + 1) comes out as 2^128 + 2^64 - 1 instead of 2^64 - 1. */
  lemma DiffCounterexample()
    ensures var a: seq<uint64>, b: seq<uint64> := [0, 0, 1], [1, 0xFFFF_FFFF_FFFF_FFFF];
      && Normal(a) && Normal(b) && Val(a) - Val(b) == BASE - 1
      && Val(Diff(a, b, 0)) == BASE * BASE + BASE - 1
  {
    var a: seq<uint64>, b: seq<uint64> := [0, 0, 1], [1, 0xFFFF_FFFF_FFFF_FFFF];
    assert a[1..] == [0, 1] && a[1..][1..] == [1] && a[1..][1..][1..] == [];
    assert b[1..] == [0xFFFF_FFFF_FFFF_FFFF] && b[1..][1..] == [];
    assert Val(a[1..][1..]) == 1 && Val(b[1..]) == BASE - 1;
    var r: seq<uint64> := [0xFFFF_FFFF_FFFF_FFFF, 0, 1];
    assert Diff(a[1..][1..], [], 0) == [1];
    assert Diff(a[1..], b[1..], 1) == [0, 1];
    assert Diff(a, b, 0) == r;
    assert r[1..] == [0, 1] && r[1..][1..] == [1] && r[1..][1..][1..] == [];
  }
}
