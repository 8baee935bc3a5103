/** Digit generation of the Grisu2 double printer: exact integer core. */
module Grisu {
  import opened Arithmetic

  /** A significand and a binary exponent: f * 2^e. */
  datatype DiyFp = DiyFp(f: uint64, e: int)

  // ------------------------------------------------------------------- GrisuRound

  function Abs(x: int): nat {
    if x < 0 then -x else x
  }

  /** The distance from the upper bound after `j` steps of size `tenKappa`. */
  function RestAfter(rest: int, tenKappa: nat, j: nat): int {
    rest + j * tenKappa
  }

  lemma RestGrows(rest: int, tenKappa: nat, j: nat, k: nat)
    requires j <= k
    ensures RestAfter(rest, tenKappa, j) <= RestAfter(rest, tenKappa, k)
    ensures RestAfter(rest, tenKappa, j + 1) == RestAfter(rest, tenKappa, j) + tenKappa
    ensures RestAfter(rest, tenKappa, 0) == rest
  {
    MulGrows(j, k, tenKappa);
  }

  /** No admissible number of steps comes closer to the exact value than `n` steps do. */
  ghost predicate Closest(rest: int, tenKappa: nat, delta: int, wpw: int, n: nat) {
    forall j: nat :: RestAfter(rest, tenKappa, j) <= delta ==>
      Abs(RestAfter(rest, tenKappa, n) - wpw) <= Abs(RestAfter(rest, tenKappa, j) - wpw)
  }

  /** `n` steps come strictly closer to the exact value than any smaller number of steps. */
  ghost predicate StrictlyCloser(rest: int, tenKappa: nat, wpw: int, n: nat) {
    forall j: nat :: j < n ==>
      Abs(RestAfter(rest, tenKappa, n) - wpw) < Abs(RestAfter(rest, tenKappa, j) - wpw)
  }

  /** The loop's exit condition makes its step count the best one: the distance is convex in the steps. */
  lemma StopsAtClosest(rest: int, tenKappa: nat, delta: int, wpw: int, n: nat)
    requires n > 0 ==> RestAfter(rest, tenKappa, n - 1) < wpw
    requires n > 0 ==>
      Abs(RestAfter(rest, tenKappa, n) - wpw) < Abs(RestAfter(rest, tenKappa, n - 1) - wpw)
    requires var r := RestAfter(rest, tenKappa, n);
      r >= wpw || delta - r < tenKappa || (r + tenKappa >= wpw && wpw - r <= r + tenKappa - wpw)
    ensures Closest(rest, tenKappa, delta, wpw, n) && StrictlyCloser(rest, tenKappa, wpw, n)
  {
    hide RestAfter;
    RestGrows(rest, tenKappa, n, n);
    forall j: nat | j < n
      ensures Abs(RestAfter(rest, tenKappa, n) - wpw) < Abs(RestAfter(rest, tenKappa, j) - wpw)
    {
      RestGrows(rest, tenKappa, j, n - 1);
    }
    forall j: nat | RestAfter(rest, tenKappa, j) <= delta
      ensures Abs(RestAfter(rest, tenKappa, n) - wpw) <= Abs(RestAfter(rest, tenKappa, j) - wpw)
    {
      if j < n {
        RestGrows(rest, tenKappa, j, n - 1);
      } else if j > n {
        RestGrows(rest, tenKappa, n, j);
        RestGrows(rest, tenKappa, n + 1, j);
      }
    }
  }

  /**
   * Lowers the last digit while that moves the number strictly closer to the exact value and keeps it inside
   * the interval. `rest0` is its distance from the upper bound, `wpw` the distance of the exact value.
   */
  method GrisuRound(buffer: array<int>, len: nat, delta: uint64, rest0: uint64, tenKappa: uint64, wpw: uint64)
    returns (ghost steps: nat)
    requires 0 < len <= buffer.Length && rest0 <= delta && tenKappa > 0
    modifies buffer
    ensures RestAfter(rest0 as int, tenKappa as int, steps) <= delta as int
    ensures Closest(rest0 as int, tenKappa as int, delta as int, wpw as int, steps)
    ensures StrictlyCloser(rest0 as int, tenKappa as int, wpw as int, steps)
    ensures buffer[..] == old(buffer[..])[len - 1 := old(buffer[len - 1]) - steps]
  {
    hide RestAfter, Closest, StrictlyCloser;
    var rest := rest0;
    steps := 0;
    RestGrows(rest0 as int, tenKappa as int, 0, 0);
    ghost var previous := 0;
    while rest < wpw && delta - rest >= tenKappa && (rest + tenKappa < wpw || wpw - rest > rest + tenKappa - wpw)
      invariant rest as int == RestAfter(rest0 as int, tenKappa as int, steps) <= delta as int
      invariant steps > 0 ==> previous == RestAfter(rest0 as int, tenKappa as int, steps - 1) < wpw as int
      invariant steps > 0 ==> Abs(rest as int - wpw as int) < Abs(previous - wpw as int)
      invariant buffer[..] == old(buffer[..])[len - 1 := old(buffer[len - 1]) - steps]
      decreases delta - rest
    {
      RestGrows(rest0 as int, tenKappa as int, steps, steps);
      previous := rest as int;
      buffer[len - 1] := buffer[len - 1] - 1;
      rest := rest + tenKappa;
      steps := steps + 1;
    }
    StopsAtClosest(rest0 as int, tenKappa as int, delta as int, wpw as int, steps);
  }

  // --------------------------------------------------------------------- DigitGen

  const POW10: seq<uint64> := [
    1, 10, 100, 1000, 10000, 100000, 1000000, 10000000, 100000000,
    1000000000, 10000000000, 100000000000, 1000000000000,
    10000000000000, 100000000000000, 1000000000000000,
    10000000000000000, 100000000000000000, 1000000000000000000,
    10000000000000000000]

  lemma Pow10Table(k: nat)
    requires k < 20
    ensures POW10[k] as int == Pow(10, k)
  {
    if k > 0 {
      Pow10Table(k - 1);
    }
  }

  /** The number of decimal digits; numbers of ten digits do not come from `DigitGen` and count as nine. */
  function CountDecimalDigit32(n: uint32): (c: nat)
    ensures 1 <= c <= 9
    ensures n < 1000000000 ==> n as int < Pow(10, c)
    ensures n > 0 ==> Pow(10, c - 1) <= n as int
    ensures n >= 1000000000 ==> c == 9
  {
    if n < 10 then 1
    else if n < 100 then 2
    else if n < 1000 then 3
    else if n < 10000 then 4
    else if n < 100000 then 5
    else if n < 1000000 then 6
    else if n < 10000000 then 7
    else if n < 100000000 then 8
    else 9
  }

  /** The bounds of `1 << -e` for the exponents that `Grisu2` produces. */
  lemma OneBounds(s: nat)
    requires 32 <= s <= 60
    ensures 0x1_0000_0000 <= Pow(2, s) <= 0x1000_0000_0000_0000
  {
    hide Pow;
    PowGrows(2, 32, s);
    PowGrows(2, s, 60);
    PowersOfTwo();
  }

  /** The multiple `n * unit`. */
  function Multiple(n: int, unit: int): int {
    n * unit
  }

  /** `n` units lie in the closed interval of width `delta` below `top`. */
  predicate Inside(n: int, unit: int, top: int, delta: int) {
    top - delta <= Multiple(n, unit) <= top
  }

  /** `digits` units lie in the interval, and no number of units in it lies closer to `exact`. */
  ghost predicate Nearest(digits: int, unit: nat, top: int, delta: int, exact: int) {
    && Inside(digits, unit, top, delta)
    && forall n: int :: Inside(n, unit, top, delta) ==>
         Abs(Multiple(digits, unit) - exact) <= Abs(Multiple(n, unit) - exact)
  }

  /** Every number of units at or below `top` misses the interval; also its lower bound, when it is closed. */
  ghost predicate Misses(unit: nat, top: int, delta: int, closed: bool) {
    forall n: int :: Multiple(n, unit) <= top ==>
      if closed then top - Multiple(n, unit) > delta else top - Multiple(n, unit) >= delta
  }

  /** A remainder beyond `delta` rules a unit out. */
  lemma RemainderRulesOut(unit: nat, top: int, delta: int, quotient: int, remainder: int, closed: bool)
    requires top == Multiple(quotient, unit) + remainder && 0 <= remainder < unit
    requires if closed then remainder > delta else remainder >= delta
    ensures Misses(unit, top, delta, closed)
  {
    forall n: int | Multiple(n, unit) <= top
      ensures top - Multiple(n, unit) >= remainder
    {
      if n > quotient {
        MulGrows(quotient + 1, n, unit);
      } else {
        MulGrows(n, quotient, unit);
      }
    }
  }

  lemma StepsBelow(rest: int, tenKappa: nat, steps: nat, d: nat, delta: int)
    requires RestAfter(rest, tenKappa, steps) <= delta <= RestAfter(rest, tenKappa, d)
    ensures tenKappa > 0 ==> steps <= d
    ensures delta < RestAfter(rest, tenKappa, d) ==> steps < d
  {
    hide RestAfter;
    if d < steps {
      RestGrows(rest, tenKappa, d + 1, steps);
      RestGrows(rest, tenKappa, d, steps);
    }
  }

  /** The step count that is best for the distances gives the digits that are best for the numbers. */
  lemma RoundedIsNearest(
    digits: int, unit: nat, top: int, delta: int, exact: int, rest: int, steps: nat)
    requires top == Multiple(digits, unit) + rest && 0 <= rest < unit
    requires RestAfter(rest, unit, steps) <= delta
    requires Closest(rest, unit, delta, top - exact, steps)
    ensures Nearest(digits - steps, unit, top, delta, exact)
  {
    hide Closest, Multiple, RestAfter;
    MultipleIsRest(digits, unit, top, rest, steps);
    RestGrows(rest, unit, 0, steps);
    forall n: int | Inside(n, unit, top, delta)
      ensures Abs(Multiple(digits - steps, unit) - exact) <= Abs(Multiple(n, unit) - exact)
    {
      NotAboveQuotient(digits, n, unit, top, rest);
      MultipleIsRest(digits, unit, top, rest, digits - n);
      ClosestAt(rest, unit, delta, top - exact, steps, digits - n);
    }
  }

  lemma NotAboveQuotient(digits: int, n: int, unit: nat, top: int, rest: int)
    requires top == Multiple(digits, unit) + rest && 0 <= rest < unit && Multiple(n, unit) <= top
    ensures n <= digits
  {
    if n > digits {
      MulGrows(digits + 1, n, unit);
    }
  }

  lemma ClosestAt(rest: int, tenKappa: nat, delta: int, wpw: int, n: nat, j: nat)
    requires Closest(rest, tenKappa, delta, wpw, n) && RestAfter(rest, tenKappa, j) <= delta
    ensures Abs(RestAfter(rest, tenKappa, n) - wpw) <= Abs(RestAfter(rest, tenKappa, j) - wpw)
  {
  }

  lemma MultipleIsRest(digits: int, unit: nat, top: int, rest: int, j: nat)
    requires top == Multiple(digits, unit) + rest
    ensures Multiple(digits - j, unit) == top - RestAfter(rest, unit, j)
    ensures RestAfter(rest, unit, j) >= rest
  {
    MulGrows(0, j, unit);
    assert (digits - j) * unit == digits * unit - j * unit;
  }

  lemma DenotedLast(s: seq<int>, steps: int)
    requires s != []
    ensures Denoted(s[|s| - 1 := s[|s| - 1] - steps]) == Denoted(s) - steps
  {
    var r := s[|s| - 1 := s[|s| - 1] - steps];
    assert r[..|r| - 1] == s[..|s| - 1];
  }

  lemma DenotedAppend(s: seq<int>, c: int)
    ensures Denoted(s + [c]) == Denoted(s) * 10 + (c - 0x30)
  {
    assert (s + [c])[..|s + [c]| - 1] == s;
  }

  /** The divisor of the `kappa` case of the digit switch. */
  function Divisor(kappa: nat): (w: uint32)
    requires 1 <= kappa <= 9
    ensures w as int == Pow(10, kappa - 1) && w > 0
  {
    Pow10Table(kappa - 1);
    match kappa
    case 9 => 100000000
    case 8 => 10000000
    case 7 => 1000000
    case 6 => 100000
    case 5 => 10000
    case 4 => 1000
    case 3 => 100
    case 2 => 10
    case 1 => 1
  }

  /** `kappa` decimal digits of the integral part are left in `p1`, the fraction is in `p2`. */
  ghost predicate Integral(m: int, one: nat, digits: int, kappa: nat, p1: int, p2: int) {
    && m == (digits * Pow(10, kappa) + p1) * one + p2
    && 0 <= p1 < Pow(10, kappa) && 0 <= p2 < one
  }

  lemma QuotientIsDigit(p1: int, d: int, w: nat, rest: int)
    requires p1 == d * w + rest && 0 <= rest < w && 0 <= p1 < 10 * w
    ensures 0 <= d < 10
  {
    if d < 0 {
      MulGrows(d, -1, w);
    } else if d >= 10 {
      MulGrows(10, d, w);
    }
  }

  /** `(a * 10 + d) * w + rest` in two ways. */
  lemma ShiftDigit(a: int, d: int, w: int, rest: int)
    ensures (a * 10 + d) * w + rest == a * (10 * w) + (d * w + rest)
  {
    MulAssoc(a, 10, w);
  }

  lemma SplitProduct(d: int, w: int, rest: int, one: int)
    ensures (d * w + rest) * one == d * (w * one) + rest * one
  {
    MulAssoc(d, w, one);
  }

  /** Moving one digit from `p1` to the result. */
  lemma IntegralStep(m: int, one: nat, digits: int, kappa: nat, p1: int, p2: int, d: int, rest: int)
    requires kappa > 0 && Integral(m, one, digits, kappa, p1, p2)
    requires p1 == d * Pow(10, kappa - 1) + rest && 0 <= rest < Pow(10, kappa - 1)
    ensures Integral(m, one, digits * 10 + d, kappa - 1, rest, p2) && 0 <= d < 10
    ensures p1 * one + p2 == d * (Pow(10, kappa - 1) * one) + (rest * one + p2)
  {
    var w := Pow(10, kappa - 1);
    assert Pow(10, kappa) == 10 * w;
    QuotientIsDigit(p1, d, w, rest);
    ShiftDigit(digits, d, w, rest);
    SplitProduct(d, w, rest, one);
  }

  /** The unit of the current digit. */
  function UnitOf(kappa: nat, one: nat): (u: nat)
    ensures one > 0 ==> u > 0
  {
    if one > 0 then PowStep(Pow(10, kappa), one); Pow(10, kappa) * one else 0
  }

  /** A distance measured in units of the digit `i` places after the point. */
  function Scaled(x: int, i: nat): int {
    x * Pow(10, i)
  }

  lemma ScaledStep(x: int, i: nat)
    ensures Scaled(x, i + 1) == Scaled(x, i) * 10 && Scaled(x, 0) == x
  {
    MulAssoc(x, 10, Pow(10, i));
    assert x * 10 * Pow(10, i) == x * Pow(10, i) * 10;
  }

  lemma ScaledOrder(x: int, y: int, i: nat)
    requires x <= y
    ensures Scaled(x, i) <= Scaled(y, i)
    ensures Scaled(y - x, i) == Scaled(y, i) - Scaled(x, i)
  {
    MulGrows(x, y, Pow(10, i));
    assert (y - x) * Pow(10, i) == y * Pow(10, i) - x * Pow(10, i);
  }

  /**
   * The digits stand for `digits * 10^kappa`, nearest to `w` of that unit in the closed interval. No coarser unit has a
   * number in it; behind the point, the lower bound itself may be one.
   */
  ghost predicate Best(digits: int, kappa: int, mp: int, w: int, delta: int, one: nat) {
    if kappa >= 0 then
      && Nearest(digits, UnitOf(kappa, one), mp, delta, w)
      && Misses(UnitOf(kappa + 1, one), mp, delta, true)
    else
      && Nearest(digits, one, Scaled(mp, -kappa), Scaled(delta, -kappa), Scaled(w, -kappa))
      && Misses(one, Scaled(mp, -kappa - 1), Scaled(delta, -kappa - 1), false)
      && !Misses(one, Scaled(mp, -kappa), Scaled(delta, -kappa), false)
      && Misses(one, mp, delta, true)
  }

  lemma RemainderBound(m: int, one: nat, digits: int, kappa: nat, p1: int, p2: int)
    requires Integral(m, one, digits, kappa, p1, p2) && digits >= 0
    ensures 0 <= p1 * one + p2 <= m
    ensures m == Multiple(digits, Pow(10, kappa) * one) + (p1 * one + p2)
    ensures p1 * one + p2 < Pow(10, kappa) * one
  {
    hide Pow;
    var w := Pow(10, kappa);
    SplitProduct(digits, w, p1, one);
    RemainderFits(p1, w, p2, one);
    ProductNotNegative(digits, w * one);
  }

  lemma RemainderFits(p1: int, w: nat, p2: int, one: nat)
    requires 0 <= p1 < w && 0 <= p2 < one
    ensures 0 <= p1 * one + p2 < w * one
  {
    MulGrows(0, p1, one);
    MulGrows(p1 + 1, w, one);
  }

  lemma ProductNotNegative(a: int, b: int)
    requires a >= 0 && b >= 0
    ensures a * b >= 0
  {
  }

  /** The digits so far, and none of them a leading zero. */
  ghost predicate Emitted(s: seq<int>, digits: int) {
    && AreDigits(s) && Denoted(s) == digits && digits >= 0
    && (s != [] ==> s[0] != 0x30)
  }

  lemma EmittedAppend(s: seq<int>, digits: int, d: int)
    requires Emitted(s, digits) && 0 <= d < 10 && (s == [] ==> d != 0)
    ensures Emitted(s + [0x30 + d], digits * 10 + d)
  {
    DenotedAppend(s, 0x30 + d);
  }

  /** Rounding lowers only the last digit, by fewer steps than it has room for. */
  lemma EmittedRounded(s: seq<int>, digits: int, d: int, steps: nat)
    requires Emitted(s, digits) && s != [] && s[|s| - 1] == 0x30 + d
    requires if |s| == 1 then steps < d else steps <= d
    ensures Emitted(s[|s| - 1 := s[|s| - 1] - steps], digits - steps)
  {
    DenotedLast(s, steps);
    var r := s[|s| - 1 := s[|s| - 1] - steps];
    assert |r| > 1 ==> r[0] == s[0];
    if |s| > 1 {
      DenotedBounds(r);
    } else {
      assert s[..0] == [];
    }
  }

  lemma EmittedNothing()
    ensures Emitted([], 0)
  {
  }

  lemma EmittedDenotes(s: seq<int>, digits: int)
    requires Emitted(s, digits)
    ensures Denoted(s) == digits
  {
  }

  lemma RestIs(rest: int, unit: nat, d: nat)
    ensures RestAfter(rest, unit, d) == rest + d * unit
  {
  }

  lemma IntegralEnds(m: int, one: nat, digits: int, p1: int, p2: int)
    requires Integral(m, one, digits, 0, p1, p2)
    ensures p1 == 0 && m == digits * one + p2 && Left(p1, p2, one) == p2
  {
  }

  lemma FirstDigit(p1: int, d: int, rest: int, w: int)
    requires p1 == d * w + rest && 0 <= rest < w <= p1
    ensures d > 0
  {
    if d <= 0 {
      MulGrows(d, 0, w);
    }
  }

  /** Stopping in the integral digits: rounding leaves the best number of this length. */
  lemma IntegralDone(m: int, one: nat, delta: int, wpw: int, digits0: int, kappa: nat, before: int, p1: int, p2: int,
                     d: nat, steps: nat)
    requires Integral(m, one, digits0, kappa + 1, before, p2) && digits0 >= 0
    requires Integral(m, one, digits0 * 10 + d, kappa, p1, p2)
    requires Left(p1, p2, one) <= delta < Left(before, p2, one)
    requires RestAfter(Left(p1, p2, one), UnitOf(kappa, one), steps) <= delta
    requires Closest(Left(p1, p2, one), UnitOf(kappa, one), delta, wpw, steps)
    ensures Best(digits0 * 10 + d - steps, kappa, m, m - wpw, delta, one)
  {
    hide Integral, Closest, Nearest, Misses, Pow, RestAfter;
    IntegralOne(m, one, digits0, kappa + 1, before, p2);
    RemainderBound(m, one, digits0 * 10 + d, kappa, p1, p2);
    RemainderBound(m, one, digits0, kappa + 1, before, p2);
    RoundedIsNearest(digits0 * 10 + d, UnitOf(kappa, one), m, delta, m - wpw, Left(p1, p2, one), steps);
    RemainderRulesOut(UnitOf(kappa + 1, one), m, delta, digits0, Left(before, p2, one), true);
  }

  /** The unit that rounding works with fits 64 bits. */
  lemma UnitFits(m: int, one: nat, kappa: nat, kappa0: nat, p10: int, p2: int)
    requires kappa < kappa0 && Pow(10, kappa0 - 1) <= p10 && 0 <= p2
    requires p10 * one + p2 <= m
    ensures Pow(10, kappa) * one <= m
  {
    PowGrows(10, kappa, kappa0 - 1);
    MulGrows(Pow(10, kappa), p10, one);
  }

  /** Appends a digit, leaving leading zeros out. */
  method EmitDigit(buffer: array<int>, len0: nat, d: int, ghost digits: int) returns (len: nat)
    requires len0 < buffer.Length && Emitted(buffer[..len0], digits) && 0 <= d < 10 && (len0 == 0 ==> d != 0)
    modifies buffer
    ensures len == len0 + 1 && buffer[len0] == 0x30 + d
    ensures Emitted(buffer[..len], digits * 10 + d)
  {
    hide Emitted;
    len := len0;
    EmittedAppend(buffer[..len], digits, d);
    if d != 0 || len != 0 {
      buffer[len] := 0x30 + d;
      len := len + 1;
    }
    assert buffer[..len] == old(buffer[..len0]) + [0x30 + d];
  }

  /** Rounds the digits emitted so far; the last digit `d` has room for every step. */
  method RoundLast(buffer: array<int>, len: nat, delta: uint64, rest: uint64, tenKappa: uint64, wpw: uint64,
                   ghost digits: int, ghost d: nat)
    returns (ghost steps: nat)
    requires 0 < len <= buffer.Length && rest <= delta && tenKappa > 0
    requires Emitted(buffer[..len], digits) && buffer[len - 1] == 0x30 + d
    requires delta as int <= RestAfter(rest as int, tenKappa as int, d)
    requires len == 1 ==> delta as int < RestAfter(rest as int, tenKappa as int, d)
    modifies buffer
    ensures RestAfter(rest as int, tenKappa as int, steps) <= delta as int
    ensures Closest(rest as int, tenKappa as int, delta as int, wpw as int, steps)
    ensures Emitted(buffer[..len], digits - steps) && Denoted(buffer[..len]) == digits - steps
  {
    hide Emitted, RestAfter, Closest, StrictlyCloser;
    ghost var text := buffer[..len];
    steps := GrisuRound(buffer, len, delta, rest, tenKappa, wpw);
    StepsBelow(rest as int, tenKappa as int, steps, d, delta as int);
    EmittedRounded(text, digits, d, steps);
    assert buffer[..len] == text[len - 1 := text[len - 1] - steps];
    EmittedDenotes(buffer[..len], digits - steps);
  }

  /** What is left of the number below its current digit. */
  function Left(p1: int, p2: int, one: int): int {
    p1 * one + p2
  }

  /** One turn of the integral loop: a digit goes to the buffer, `left` is what remains of the number. */
  method IntegralDigit(buffer: array<int>, len0: nat, p10: uint32, p2: uint64, one: uint64, kappa: nat,
                       ghost m: int, ghost digits: int)
    returns (len: nat, p1: uint32, left: uint64, ghost d: nat)
    requires len0 < buffer.Length && 1 <= kappa <= 9 && Emitted(buffer[..len0], digits)
    requires Integral(m, one as int, digits, kappa, p10 as int, p2 as int) && m < 0x1_0000_0000_0000_0000
    requires len0 == 0 ==> Pow(10, kappa - 1) <= p10 as int
    modifies buffer
    ensures len == len0 + 1 && buffer[len - 1] == 0x30 + d && (len == 1 ==> d > 0)
    ensures Emitted(buffer[..len], digits * 10 + d)
    ensures Integral(m, one as int, digits * 10 + d, kappa - 1, p1 as int, p2 as int)
    ensures left as int == Left(p1 as int, p2 as int, one as int)
    ensures Left(p10 as int, p2 as int, one as int) == RestAfter(left as int, UnitOf(kappa - 1, one as int), d)
  {
    hide Integral, Emitted, Pow;
    EmittedNonNegative(buffer[..len0], digits);
    var divisor := Divisor(kappa);
    var digit := p10 / divisor;
    DivMod(p10 as int, divisor as int);
    p1 := p10 % divisor;
    d := digit as int;
    if len0 == 0 {
      FirstDigit(p10 as int, d, p1 as int, divisor as int);
    }
    IntegralStep(m, one as int, digits, kappa, p10 as int, p2 as int, d, p1 as int);
    len := EmitDigit(buffer, len0, digit as int, digits);
    RemainderBound(m, one as int, digits * 10 + d, kappa - 1, p1 as int, p2 as int);
    MulGrows(0, p1 as int, one as int);
    left := p1 as uint64 * one + p2;
    RestIs(left as int, Pow(10, kappa - 1) * one as int, d);
    IntegralOne(m, one as int, digits, kappa, p10 as int, p2 as int);
  }

  lemma IntegralOne(m: int, one: nat, digits: int, kappa: nat, p1: int, p2: int)
    requires Integral(m, one, digits, kappa, p1, p2)
    ensures one > 0
  {
  }

  lemma EmittedNonNegative(s: seq<int>, digits: int)
    requires Emitted(s, digits)
    ensures digits >= 0
  {
  }

  /** The integral digits; stops as soon as what is left of the number is no more than `delta`. */
  method GenerateIntegral(buffer: array<int>, p10: uint32, p2: uint64, one: uint64, delta: uint64, wpw: uint64,
                          kappa0: nat, ghost m: int)
    returns (len: nat, done: bool, kappa: nat)
    requires buffer.Length >= 21 && 1 <= kappa0 <= 9 && Pow(10, kappa0 - 1) <= p10 as int
    requires Integral(m, one as int, 0, kappa0, p10 as int, p2 as int) && m < 0x1_0000_0000_0000_0000
    requires 0 < delta as int < m
    modifies buffer
    ensures 0 < len <= kappa0 && Emitted(buffer[..len], Denoted(buffer[..len]))
    ensures done ==> Best(Denoted(buffer[..len]), kappa, m, m - wpw as int, delta as int, one as int)
    ensures !done ==> len == kappa0 && delta < p2
    ensures !done ==> m == Denoted(buffer[..len]) * one as int + p2 as int
  {
    hide Best, Integral, RestAfter, Emitted, Closest, Left, UnitOf, Pow;
    len, kappa, done := 0, kappa0, false;
    var p1 := p10;
    ghost var digits: int := 0;
    assert buffer[..0] == [];
    EmittedNothing();
    LeftAtStart(m, one as int, kappa0, p10 as int, p2 as int);
    while kappa > 0
      invariant 0 <= kappa <= kappa0 && len == kappa0 - kappa
      invariant Integral(m, one as int, digits, kappa, p1 as int, p2 as int)
      invariant Emitted(buffer[..len], digits)
      invariant len == 0 ==> p1 == p10
      invariant delta as int < Left(p1 as int, p2 as int, one as int)
    {
      ghost var before, coarser := p1, digits;
      EmittedNonNegative(buffer[..len], digits);
      var left;
      ghost var d;
      len, p1, left, d := IntegralDigit(buffer, len, p1, p2, one, kappa, m, digits);
      digits := digits * 10 + d;
      kappa := kappa - 1;
      if left <= delta {
        var unit := TenKappa(one, kappa, kappa0, p10, p2, m);
        ghost var steps := RoundLast(buffer, len, delta, left, unit, wpw, digits, d);
        IntegralDone(m, one as int, delta as int, wpw as int, coarser, kappa, before as int, p1 as int, p2 as int,
                     d, steps);
        return len, true, kappa;
      }
    }
    IntegralEnds(m, one as int, digits, p1 as int, p2 as int);
    EmittedDenotes(buffer[..len], digits);
  }

  /** `kPow10[kappa] << -one.e` */
  method TenKappa(one: uint64, kappa: nat, kappa0: nat, ghost p10: uint32, ghost p2: uint64, ghost m: int) returns (unit: uint64)
    requires kappa < kappa0 <= 9 && Pow(10, kappa0 - 1) <= p10 as int && one > 0
    requires Left(p10 as int, p2 as int, one as int) <= m < 0x1_0000_0000_0000_0000
    ensures unit as int == UnitOf(kappa, one as int)
  {
    Pow10Table(kappa);
    UnitFits(m, one as int, kappa, kappa0, p10 as int, p2 as int);
    unit := POW10[kappa] * one;
  }

  lemma LeftAtStart(m: int, one: nat, kappa0: nat, p1: int, p2: int)
    requires Integral(m, one, 0, kappa0, p1, p2)
    ensures Left(p1, p2, one) == m && one > 0
  {
    assert 0 * Pow(10, kappa0) + p1 == p1;
  }

  /** After `i` fractional digits the scaled number is `digits` units of `one` plus `p2`. */
  ghost predicate Fraction(m: int, one: nat, digits: int, i: nat, p2: int) {
    Scaled(m, i) == digits * one + p2 && 0 <= p2 < one
  }

  lemma FractionStep(m: int, one: nat, digits: int, i: nat, p2: int, d: int, rest: int)
    requires Fraction(m, one, digits, i, p2) && one > 0
    requires p2 * 10 == d * one + rest && 0 <= rest < one
    ensures Fraction(m, one, digits * 10 + d, i + 1, rest) && 0 <= d < 10
  {
    ScaledStep(m, i);
    if d < 0 {
      MulGrows(d, -1, one);
    } else if d >= 10 {
      MulGrows(10, d, one);
    }
    assert (digits * 10 + d) * one == digits * one * 10 + d * one;
  }

  /** Few enough digits: neither the scaling table nor the buffer is left. */
  lemma FractionBounds(m: int, one: nat, delta0: int, i: nat, kappa0: nat)
    requires delta0 >= 1 && Scaled(delta0, i) < one <= 0x1000_0000_0000_0000
    requires 1 <= kappa0 && Pow(10, kappa0 - 1) * one <= m < 0x1_0000_0000_0000_0000
    ensures i <= 18 && kappa0 + i + 1 <= 21
  {
    ScaledOrder(1, delta0, i);
    assert Scaled(1, i) == Pow(10, i);
    Pow10Table(19);
    if i >= 19 {
      PowGrows(10, 19, i);
    }
    PowAdd(10, kappa0 - 1, i);
    MulCommutes(Pow(10, kappa0 - 1), Pow(10, i), one);
    assert Pow(10, 20) == 10 * Pow(10, 19);
    if kappa0 - 1 + i >= 20 {
      PowGrows(10, 20, kappa0 - 1 + i);
    }
  }

  lemma MulCommutes(a: nat, b: nat, c: nat)
    requires b <= c
    ensures a * b <= a * c
  {
    MulGrows(b, c, a);
  }

  /** Stopping in the fractional digits: rounding leaves the best number of this length. */
  lemma FractionDone(m: int, one: nat, delta0: int, wpw: int, digits0: int, i: nat, before: int, p2: int,
                     digits: int, steps: nat)
    requires Fraction(m, one, digits0, i, before) && Fraction(m, one, digits, i + 1, p2)
    requires Scaled(delta0, i) <= before && p2 < Scaled(delta0, i + 1) && Misses(one, m, delta0, true)
    requires RestAfter(p2, one, steps) <= Scaled(delta0, i + 1)
    requires Closest(p2, one, Scaled(delta0, i + 1), Scaled(wpw, i + 1), steps)
    ensures Best(digits - steps, -1 - i, m, m - wpw, delta0, one)
  {
    hide Closest, Nearest, Misses, Pow, RestAfter;
    assert Scaled(m - wpw, i + 1) == Scaled(m, i + 1) - Scaled(wpw, i + 1) by {
      ScaledMinus(m, wpw, i + 1);
    }
    RoundedIsNearest(digits, one, Scaled(m, i + 1), Scaled(delta0, i + 1), Scaled(m - wpw, i + 1), p2, steps);
    RemainderRulesOut(one, Scaled(m, i), Scaled(delta0, i), digits0, before, false);
    WithinDelta(one, Scaled(m, i + 1), Scaled(delta0, i + 1), digits, p2);
  }

  lemma WithinDelta(unit: nat, top: int, delta: int, quotient: int, remainder: int)
    requires top == Multiple(quotient, unit) + remainder && 0 <= remainder < delta
    ensures !Misses(unit, top, delta, false)
  {
  }

  lemma ScaledMinus(x: int, y: int, i: nat)
    ensures Scaled(x - y, i) == Scaled(x, i) - Scaled(y, i)
  {
    assert (x - y) * Pow(10, i) == x * Pow(10, i) - y * Pow(10, i);
  }

  /** One turn of the fractional loop. */
  method FractionDigit(buffer: array<int>, len0: nat, p20: uint64, one: uint64, i: nat, ghost m: int, ghost digits: int)
    returns (len: nat, p2: uint64, ghost d: nat)
    requires 0 < len0 < buffer.Length && Emitted(buffer[..len0], digits)
    requires Fraction(m, one as int, digits, i, p20 as int) && 0 < one <= 0x1000_0000_0000_0000
    modifies buffer
    ensures len == len0 + 1 && buffer[len - 1] == 0x30 + d
    ensures Emitted(buffer[..len], digits * 10 + d)
    ensures Fraction(m, one as int, digits * 10 + d, i + 1, p2 as int)
    ensures p20 as int * 10 == RestAfter(p2 as int, one as int, d)
  {
    hide Emitted, Scaled, RestAfter;
    var scaled := p20 * 10;
    DivMod(scaled as int, one as int);
    var digit := scaled / one;
    p2 := scaled % one;
    d := digit as int;
    FractionStep(m, one as int, digits, i, p20 as int, d, p2 as int);
    len := EmitDigit(buffer, len0, digit as int, digits);
    RestIs(p2 as int, one as int, d);
  }

  /** The fractional digits, after all integral ones: at most 21 digits in all. */
  method GenerateFraction(buffer: array<int>, len0: nat, p20: uint64, one: uint64, delta0: uint64, wpw: uint64,
                          ghost m: int)
    returns (len: nat, kappa: int)
    requires buffer.Length >= 21 && 1 <= len0 <= 9 && Emitted(buffer[..len0], Denoted(buffer[..len0]))
    requires m == Denoted(buffer[..len0]) * one as int + p20 as int && p20 < one <= 0x1000_0000_0000_0000
    requires wpw <= delta0 && 0 < delta0 < p20
    requires Pow(10, len0 - 1) * one as int <= m < 0x1_0000_0000_0000_0000
    modifies buffer
    ensures len <= 21 && Emitted(buffer[..len], Denoted(buffer[..len])) && 0 < len
    ensures Best(Denoted(buffer[..len]), kappa, m, m - wpw as int, delta0 as int, one as int)
  {
    hide Best, RestAfter, Emitted, Closest, Scaled, Pow, Denoted, Misses;
    len := len0;
    var i := 0;
    var p2, delta := p20, delta0;
    ghost var digits := Denoted(buffer[..len0]);
    ScaledStep(m, 0);
    ScaledStep(delta0 as int, 0);
    RemainderRulesOut(one as int, m, delta0 as int, digits, p2 as int, true);
    while true
      invariant i <= 19 && len == len0 + i <= 21
      invariant Emitted(buffer[..len], digits)
      invariant Fraction(m, one as int, digits, i, p2 as int)
      invariant delta as int == Scaled(delta0 as int, i) && delta <= p2
      decreases 20 - i
    {
      FractionBounds(m, one as int, delta0 as int, i, len0);
      ghost var before, coarser := p2, digits;
      ghost var d;
      len, p2, d := FractionDigit(buffer, len, p2, one, i, m, digits);
      ScaledStep(delta0 as int, i);
      delta := delta * 10;
      digits := digits * 10 + d;
      i := i + 1;
      if p2 < delta {
        var distance := ScaledDistance(wpw, delta0, delta, i);
        ghost var steps := RoundLast(buffer, len, delta, p2, one, distance, digits, d);
        FractionDone(m, one as int, delta0 as int, wpw as int, coarser, i - 1, before as int, p2 as int, digits, steps);
        return len, -i;
      }
    }
  }

  /** `wp_w.f * kPow10[index]`: the fallback for an index beyond the table is never taken. */
  method ScaledDistance(wpw: uint64, ghost delta0: uint64, ghost delta: uint64, index: nat) returns (r: uint64)
    requires index <= 19 && wpw <= delta0 && delta as int == Scaled(delta0 as int, index)
    ensures r as int == Scaled(wpw as int, index)
  {
    Pow10Table(index);
    ScaledOrder(wpw as int, delta0 as int, index);
    ScaledOrder(0, wpw as int, index);
    r := wpw * POW10[index];
  }

  /**
   * Generates the digits of a short decimal between `Mp - delta` and `Mp`, rounded towards `W`. No operation wraps, at most
   * 21 characters are written, and among the decimals of that unit inside the interval none is closer to `W`. No decimal of
   * a coarser unit lies in the interval, but for `Mp - delta` itself: see `ShortestIff`.
   */
  method DigitGen(W: DiyFp, Mp: DiyFp, delta: uint64, buffer: array<int>, K0: int)
    returns (len: nat, K: int, ghost kappa: int)
    requires W.e == Mp.e && -60 <= Mp.e <= -32
    requires 0 < delta < Mp.f && W.f <= Mp.f && Mp.f - W.f <= delta
    requires 1 <= Mp.f as int / Pow(2, -Mp.e) < 1000000000
    requires buffer.Length >= 21
    modifies buffer
    ensures 0 < len <= 21 && Emitted(buffer[..len], Denoted(buffer[..len]))
    ensures K == K0 + kappa
    ensures Best(Denoted(buffer[..len]), kappa, Mp.f as int, W.f as int, delta as int, Pow(2, -Mp.e))
  {
    hide Best, Emitted, Denoted;
    var shift := -Mp.e;
    OneBounds(shift);
    var one := Pow(2, shift) as uint64;
    var wpw := Mp.f - W.f;
    DivMod(Mp.f as int, one as int);
    var p1 := (Mp.f / one) as uint32;
    var p2 := Mp.f % one;
    var kappa0 := CountDecimalDigit32(p1);
    ghost var m := Mp.f as int;
    assert 0 * Pow(10, kappa0) + p1 as int == p1 as int;
    MulGrows(Pow(10, kappa0 - 1), p1 as int, one as int);
    var done, k;
    len, done, k := GenerateIntegral(buffer, p1, p2, one, delta, wpw, kappa0, m);
    kappa := k;
    K := K0 + k;
    if !done {
      var f;
      len, f := GenerateFraction(buffer, len, p2, one, delta, wpw, m);
      kappa := f;
      K := K0 + f;
    }
  }

  // ---------------------------------------------------------------- the shortest decimal

  /** The decimal `n * 10^e` lies in the closed interval. */
  predicate Decimal(n: int, e: int, mp: int, delta: int, one: nat) {
    if e >= 0 then Inside(n, UnitOf(e, one), mp, delta) else Inside(n, one, Scaled(mp, -e), Scaled(delta, -e))
  }

  /** It is the lower bound of the interval. */
  predicate IsLowerBound(n: int, e: int, mp: int, delta: int, one: nat) {
    if e >= 0 then Multiple(n, UnitOf(e, one)) == mp - delta
    else Multiple(n, one) == Scaled(mp, -e) - Scaled(delta, -e)
  }

  lemma MissesFewerPlaces(one: nat, mp: int, delta: int, i: nat, j: nat, closed: bool)
    requires Misses(one, Scaled(mp, j), Scaled(delta, j), closed) && i <= j
    ensures Misses(one, Scaled(mp, i), Scaled(delta, i), closed)
    decreases j
  {
    hide Misses, Scaled;
    if i < j {
      ScaledStep(mp, j - 1);
      ScaledStep(delta, j - 1);
      MissesTenth(one, Scaled(mp, j - 1), Scaled(delta, j - 1), closed);
      MissesFewerPlaces(one, mp, delta, i, j - 1, closed);
    }
  }

  lemma MissesTenth(unit: nat, top: int, delta: int, closed: bool)
    requires Misses(unit, top * 10, delta * 10, closed)
    ensures Misses(unit, top, delta, closed)
  {
    forall n: int | Multiple(n, unit) <= top
      ensures if closed then top - Multiple(n, unit) > delta else top - Multiple(n, unit) >= delta
    {
      MulAssoc(10, n, unit);
      assert Multiple(10 * n, unit) == 10 * Multiple(n, unit);
    }
  }

  lemma MissesLargerUnit(one: nat, kappa: nat, e: nat, top: int, delta: int)
    requires Misses(UnitOf(kappa, one), top, delta, true) && kappa <= e && one > 0
    ensures Misses(UnitOf(e, one), top, delta, true)
  {
    forall n: int | Multiple(n, UnitOf(e, one)) <= top
      ensures top - Multiple(n, UnitOf(e, one)) > delta
    {
      LargerUnit(n, one, kappa, e);
    }
  }

  lemma LargerUnit(n: int, one: nat, kappa: nat, e: nat)
    requires kappa <= e && one > 0
    ensures Multiple(n, UnitOf(e, one)) == Multiple(n * Pow(10, e - kappa), UnitOf(kappa, one))
  {
    hide Pow;
    PowAdd(10, e - kappa, kappa);
    MulAssoc(Pow(10, e - kappa), Pow(10, kappa), one);
    MulAssoc(n, Pow(10, e - kappa), Pow(10, kappa) * one);
  }

  /** A decimal of a coarser unit than the digits have can only be the lower bound, and then one with a point. */
  lemma OnlyTheLowerBound(digits: int, kappa: int, mp: int, w: int, delta: int, one: nat, n: int, e: int)
    requires one > 0 && Best(digits, kappa, mp, w, delta, one)
    requires e > kappa && Decimal(n, e, mp, delta, one)
    ensures kappa < e < 0 && IsLowerBound(n, e, mp, delta, one)
  {
    hide Nearest, Scaled, Multiple, UnitOf;
    if kappa >= 0 {
      MissesLargerUnit(one, kappa + 1, e, mp, delta);
      assert false;
    } else if e >= 0 {
      UnitOfZero(one);
      MissesLargerUnit(one, 0, e, mp, delta);
      assert false;
    } else {
      MissesFewerPlaces(one, mp, delta, -e, -kappa - 1, false);
    }
  }

  lemma UnitOfZero(one: nat)
    ensures UnitOf(0, one) == one
  {
    assert Pow(10, 0) == 1;
  }

  /** What is below the point exceeds `delta`, and `mp - delta` is a decimal whose last place is still worth more than
      `delta`. */
  ghost predicate LowerBoundIsShort(mp: nat, delta: nat, one: nat)
    requires one > 0
  {
    mp % one > delta && exists j: nat :: j > 0 && EndsAt(mp, delta, one, j)
  }

  /** `mp - delta` has at most `j` places behind the point, and `delta` is less than one unit of the last. */
  predicate EndsAt(mp: int, delta: int, one: nat, j: nat)
    requires one > 0
  {
    Scaled(delta, j) < one && Scaled(mp - delta, j) % one == 0
  }

  /** The digits are the shortest of the closed interval except when its lower bound is a decimal of this kind. */
  lemma ShortestIff(digits: int, kappa: int, mp: nat, w: int, delta: nat, one: nat)
    requires one > 0 && Best(digits, kappa, mp, w, delta, one)
    ensures (exists n: int, e: int :: e > kappa && Decimal(n, e, mp, delta, one)) <==>
      LowerBoundIsShort(mp, delta, one)
  {
    hide Best, Scaled, Decimal;
    if n: int, e: int :| e > kappa && Decimal(n, e, mp, delta, one) {
      ShorterEnds(digits, kappa, mp, w, delta, one, n, e);
    }
    if LowerBoundIsShort(mp, delta, one) {
      var j: nat :| j > 0 && EndsAt(mp, delta, one, j);
      var n, e := EndsShorter(digits, kappa, mp, w, delta, one, j);
    }
  }

  lemma ShorterEnds(digits: int, kappa: int, mp: nat, w: int, delta: nat, one: nat, n: int, e: int)
    requires one > 0 && Best(digits, kappa, mp, w, delta, one)
    requires e > kappa && Decimal(n, e, mp, delta, one)
    ensures e < 0 && mp % one > delta && EndsAt(mp, delta, one, -e)
  {
    hide Scaled, Nearest;
    OnlyTheLowerBound(digits, kappa, mp, w, delta, one, n, e);
    DivMod(mp, one);
    assert Multiple(mp / one, one) <= mp;
    ScaledMinus(mp, delta, -e);
    MultipleMod(n, one, Scaled(mp - delta, -e));
    MissesFewerPlaces(one, mp, delta, -e, -kappa - 1, false);
    ScaledOrder(0, mp, -e);
    ScaledZero(-e);
    DivMod(Scaled(mp, -e), one);
    assert Multiple(Scaled(mp, -e) / one, one) <= Scaled(mp, -e);
  }

  lemma ScaledZero(i: nat)
    ensures Scaled(0, i) == 0
  {
  }

  lemma MultipleMod(n: int, one: nat, x: int)
    requires Multiple(n, one) == x && one > 0
    ensures x % one == 0
  {
    RemainderZero(n, one);
  }

  lemma RemainderZero(n: int, one: nat)
    requires one > 0
    ensures (n * one) % one == 0
  {
    var q, r := (n * one) / one, (n * one) % one;
    assert (n - q) * one == r;
    if n > q {
      MulGrows(1, n - q, one);
    } else {
      MulGrows(n - q, 0, one);
    }
  }

  lemma EndsShorter(digits: int, kappa: int, mp: nat, w: int, delta: nat, one: nat, j: nat) returns (n: int, e: int)
    requires one > 0 && mp % one > delta && j > 0 && EndsAt(mp, delta, one, j)
    requires Best(digits, kappa, mp, w, delta, one)
    ensures kappa < e == 0 - j && Decimal(n, e, mp, delta, one)
  {
    hide Scaled, Misses, Multiple, Best;
    n := EndDigits(mp, delta, one, j);
    e := 0 - j;
    MissesAtLowerBound(mp, delta, one, n, j);
    if kappa >= 0 {
      UnitOfZero(one);
      MissesLargerUnit(one, 0, kappa, mp, delta);
    }
    StopsAfter(digits, kappa, mp, w, delta, one, j);
  }

  lemma EndDigits(mp: nat, delta: nat, one: nat, j: nat) returns (n: int)
    requires one > 0 && EndsAt(mp, delta, one, j)
    ensures Multiple(n, one) == Scaled(mp, j) - Scaled(delta, j) <= Scaled(mp, j)
  {
    hide Scaled;
    ScaledOrder(0, delta, j);
    ScaledZero(j);
    ScaledMinus(mp, delta, j);
    var x := Scaled(mp - delta, j);
    n := x / one;
    assert x == one * (x / one) + x % one;
  }

  lemma MissesAtLowerBound(mp: nat, delta: nat, one: nat, n: int, j: nat)
    requires one > 0 && mp % one > delta && EndsAt(mp, delta, one, j)
    requires Multiple(n, one) == Scaled(mp, j) - Scaled(delta, j)
    ensures Misses(one, mp, delta, true) && Misses(one, Scaled(mp, j), Scaled(delta, j), false)
  {
    hide Scaled, Misses;
    DivMod(mp, one);
    ScaledOrder(0, delta, j);
    ScaledZero(j);
    RemainderRulesOut(one, mp, delta, mp / one, mp % one, true);
    hide Multiple;
    RemainderRulesOut(one, Scaled(mp, j), Scaled(delta, j), n, Scaled(delta, j), false);
  }

  /** The digits have more places behind the point than any unit that misses the interval. */
  lemma StopsAfter(digits: int, kappa: int, mp: nat, w: int, delta: nat, one: nat, j: nat)
    requires Misses(one, Scaled(mp, j), Scaled(delta, j), false)
    requires kappa >= 0 ==> Misses(UnitOf(kappa, one), mp, delta, true)
    requires Best(digits, kappa, mp, w, delta, one)
    ensures kappa + j < 0
  {
    hide Scaled, Multiple;
    if kappa < 0 {
      hide Misses;
      if kappa + j >= 0 {
        MissesFewerPlaces(one, mp, delta, -kappa, j, false);
      }
    }
  }

  /** For 1.5 + 2^-32 and a `delta` of 2^-32 the digits are 1.5000000002 although the lower bound 1.5 is in the interval. */
  lemma NotShortestInput(digits: int, kappa: int)
    requires Best(digits, kappa, 0x1_8000_0001, 0x1_8000_0001, 1, 0x1_0000_0000)
    ensures kappa == -10 && digits == 15000000002
    ensures Decimal(15, -1, 0x1_8000_0001, 1, 0x1_0000_0000)
  {
    var mp, one := 0x1_8000_0001, 0x1_0000_0000;
    Powers();
    assert EndsAt(mp, 1, one, 9);
    var n, e := EndsShorter(digits, kappa, mp, mp, 1, one, 9);
    assert Inside(15000000002, one, Scaled(mp, 10), Scaled(1, 10));
    StopsBefore(digits, kappa, mp, mp, 1, one, 15000000002, 10);
  }

  /** A number well inside the interval ends the digits at its unit. */
  lemma StopsBefore(digits: int, kappa: int, mp: nat, w: int, delta: nat, one: nat, n: int, j: nat)
    requires Scaled(mp, j) - Scaled(delta, j) < Multiple(n, one) <= Scaled(mp, j)
    requires Best(digits, kappa, mp, w, delta, one)
    ensures kappa + j >= 0
  {
    hide Scaled, Multiple;
    if kappa + j < 0 {
      MissesFewerPlaces(one, mp, delta, j, -kappa - 1, false);
    }
  }

  lemma Powers()
    ensures Pow(10, 1) == 10 && Pow(10, 9) == 1000000000 && Pow(10, 10) == 10000000000
  {
    assert Pow(10, 1) == 10 * Pow(10, 0);
    assert Pow(10, 9) == 1000000000;
    assert Pow(10, 10) == 10 * Pow(10, 9);
  }
}
