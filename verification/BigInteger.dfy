/** The fixed-capacity big integer behind full-precision number parsing; every operator works in place. */
module BigIntegers {
  import opened Arithmetic
  import opened Limbs

  /** The number of limbs: the bit count divided by the size of a limb in bytes. */
  const CAPACITY: nat := 3328 / 8

  // ------------------------------------------------------------ 64-bit primitives

  function WrapAdd(x: uint64, y: uint64): uint64 {
    Digit(x as int + y as int)
  }

  lemma WrapAddCarry(x: uint64, y: uint64)
    ensures WrapAdd(x, y) < x <==> x as int + y as int >= BASE
    ensures (x as int + y as int) / BASE == if WrapAdd(x, y) < x then 1 else 0
  {
  }

  /** The four partial products of two 64-bit numbers. */
  lemma PartialProducts(a0: int, a1: int, b0: int, b1: int)
    ensures (a0 + 0x1_0000_0000 * a1) * (b0 + 0x1_0000_0000 * b1) ==
      a0 * b0 + 0x1_0000_0000 * (a0 * b1) + 0x1_0000_0000 * (a1 * b0) + BASE * (a1 * b1)
  {
    assert (a0 + 0x1_0000_0000 * a1) * (b0 + 0x1_0000_0000 * b1) ==
      a0 * (b0 + 0x1_0000_0000 * b1) + 0x1_0000_0000 * a1 * (b0 + 0x1_0000_0000 * b1);
    assert a0 * (b0 + 0x1_0000_0000 * b1) == a0 * b0 + 0x1_0000_0000 * (a0 * b1);
    assert a1 * (b0 + 0x1_0000_0000 * b1) == a1 * b0 + 0x1_0000_0000 * (a1 * b1);
  }

  lemma HalfProduct(a: int, b: int)
    requires 0 <= a < 0x1_0000_0000 && 0 <= b < 0x1_0000_0000
    ensures 0 <= a * b <= 0xFFFF_FFFE_0000_0001
  {
    MulGrows(a, 0xFFFF_FFFF, b);
    MulGrows(b, 0xFFFF_FFFF, 0xFFFF_FFFF);
    MulGrows(0, a, b);
  }

  /** Adding up the partial products with the carries of the portable multiplication. */
  lemma CarryChain(x0: int, x1: int, x2: int, x3: int, y1: int, z1: int, z3: int)
    requires 0 <= x0 && 0 <= x1 && 0 <= x2 && 0 <= x3
    requires y1 == x1 + x0 / 0x1_0000_0000 < BASE && x2 < BASE
    requires z1 == (y1 + x2) % BASE
    requires z3 == x3 + (if z1 < x2 then 0x1_0000_0000 else 0)
    ensures var lo := z1 % 0x1_0000_0000 * 0x1_0000_0000 + x0 % 0x1_0000_0000;
      var hi := z3 + z1 / 0x1_0000_0000;
      lo + BASE * hi == x0 + 0x1_0000_0000 * x1 + 0x1_0000_0000 * x2 + BASE * x3 && 0 <= lo < BASE
  {
    assert y1 + x2 == z1 + (if z1 < x2 then BASE else 0);
  }

  /** The portable 64 x 64 + 64 bit multiply-add. */
  method MulAdd64(a: uint64, b: uint64, k: uint64) returns (low: uint64, high: uint64)
    ensures low as int + BASE * high as int == a as int * b as int + k as int
  {
    var a0, a1 := a % 0x1_0000_0000, a / 0x1_0000_0000;
    var b0, b1 := b % 0x1_0000_0000, b / 0x1_0000_0000;
    HalfProduct(a0 as int, b0 as int);
    HalfProduct(a0 as int, b1 as int);
    HalfProduct(a1 as int, b0 as int);
    HalfProduct(a1 as int, b1 as int);
    PartialProducts(a0 as int, a1 as int, b0 as int, b1 as int);
    CarryBound(a as int, b as int, k as int);
    var x0, x1, x2, x3 := a0 * b0, a0 * b1, a1 * b0, a1 * b1;
    low, high := AddPartials(x0, x1, x2, x3, a as int * b as int);
    WrapAddCarry(k, low);
    low := WrapAdd(low, k);
    if low < k {
      high := high + 1;
    }
  }

  method AddPartials(x0: uint64, x1: uint64, x2: uint64, x3: uint64, ghost product: int) returns (lo: uint64, hi: uint64)
    requires x0 <= 0xFFFF_FFFE_0000_0001 && x1 <= 0xFFFF_FFFE_0000_0001
    requires product == x0 as int + 0x1_0000_0000 * x1 as int + 0x1_0000_0000 * x2 as int + BASE * x3 as int
    requires product < BASE * BASE
    ensures lo as int + BASE * hi as int == product
  {
    var y1 := x1 + x0 / 0x1_0000_0000;
    var z1 := WrapAdd(y1, x2);
    CarryChain(x0 as int, x1 as int, x2 as int, x3 as int, y1 as int, z1 as int,
               x3 as int + (if z1 < x2 then 0x1_0000_0000 else 0));
    var z3 := x3;
    if z1 < x2 {
      z3 := z3 + 0x1_0000_0000;
    }
    lo := z1 % 0x1_0000_0000 * 0x1_0000_0000 + x0 % 0x1_0000_0000;
    hi := z3 + z1 / 0x1_0000_0000;
  }

  /** One limb times a 32-bit number, by halves; the carry stays below 2^32. */
  method HalfStep(digit: uint64, u: uint32, k: uint64) returns (lo: uint64, hi: uint64)
    requires k < 0x1_0000_0000
    ensures lo as int + BASE * hi as int == digit as int * u as int + k as int
    ensures hi < 0x1_0000_0000
  {
    var c, d := digit / 0x1_0000_0000, digit % 0x1_0000_0000;
    HalfProduct(u as int, c as int);
    HalfProduct(u as int, d as int);
    HalfSplit(digit as int, u as int, c as int, d as int);
    var uc, ud := u as uint64 * c, u as uint64 * d;
    var p0 := ud + k;
    var p1 := uc + p0 / 0x1_0000_0000;
    lo := p0 % 0x1_0000_0000 + p1 % 0x1_0000_0000 * 0x1_0000_0000;
    hi := p1 / 0x1_0000_0000;
  }

  lemma HalfSplit(digit: int, u: int, c: int, d: int)
    requires digit == c * 0x1_0000_0000 + d
    ensures digit * u == 0x1_0000_0000 * (u * c) + u * d
  {
  }

  /** Limbs hold the number `v`, and no more than `n` of them are needed. */
  ghost predicate Below(v: int, n: nat) {
    exists k: nat :: k <= n && v < Pow(BASE, k)
  }

  lemma BelowIff(v: int, n: nat)
    ensures Below(v, n) <==> v < Pow(BASE, n)
  {
    hide Pow;
    if Below(v, n) {
      var k: nat :| k <= n && v < Pow(BASE, k);
      PowGrows(BASE, k, n);
    }
  }

  // ------------------------------------------------------------- what a shift assigns

  /** `<<=` assigns limb `k` of a number with `count` limbs: the moved ones, the one above them when bits move too, and
      the cleared ones. */
  predicate ShiftAssigns(count: nat, shift: nat, k: nat) {
    if shift % 64 == 0 then k < count + shift / 64 else k <= count + shift / 64
  }

  /** What the code asserts before it shifts. */
  predicate ShiftAsserted(count: nat, shift: nat) {
    count + shift / 64 <= CAPACITY
  }

  predicate ShiftStays(count: nat, shift: nat) {
    if shift % 64 == 0 then count + shift / 64 <= CAPACITY else count + shift / 64 < CAPACITY
  }

  /** No limb beyond the last one is assigned exactly under this condition. */
  lemma ShiftStaysIff(count: nat, shift: nat)
    requires count > 0
    ensures ShiftStays(count, shift) <==> forall k: nat :: ShiftAssigns(count, shift, k) ==> k < CAPACITY
  {
    if !ShiftStays(count, shift) {
      assert ShiftAssigns(count, shift, if shift % 64 == 0 then count + shift / 64 - 1 else count + shift / 64);
    }
  }

  /** The code's assertion misses exactly the shifts by bits that fill the last limb. */
  lemma ShiftAssertedIff(count: nat, shift: nat)
    ensures ShiftAsserted(count, shift) && !ShiftStays(count, shift) <==>
      shift % 64 != 0 && count + shift / 64 == CAPACITY
  {
  }

  /** One bit on a full number: the assertion holds, and the limb behind the last one is assigned. */
  lemma ShiftCounterexample()
    ensures ShiftAsserted(CAPACITY, 1) && ShiftAssigns(CAPACITY, 1, CAPACITY)
  {
  }

  // ------------------------------------------------------------------- the class

  class BigInteger {
    const digits: array<uint64>
    var count: nat

    ghost predicate Valid()
      reads this, digits
    {
      digits.Length == CAPACITY && 1 <= count <= CAPACITY && Normal(digits[..count])
    }

    ghost function Limbs(): seq<uint64>
      requires count <= digits.Length
      reads this, digits
    {
      digits[..count]
    }

    /** The number the limbs stand for. */
    ghost function Value(): nat
      requires count <= digits.Length
      reads this, digits
    {
      Val(digits[..count])
    }

    /** The product by `f` has at most as many limbs as there is room for. */
    ghost predicate ProductFits(f: nat)
      requires count <= digits.Length
      reads this, digits
    {
      Below(Value() * f, digits.Length)
    }

    /** The result of appending the digits fits, and before the shift there is a free limb. */
    ghost predicate DecimalFits(decimals: seq<int>)
      requires 0 < count <= digits.Length && AreDigits(decimals)
      reads this, digits
    {
      Below(Value() * Pow(5, |decimals|), digits.Length - 1) &&
      Below(Value() * Pow(10, |decimals|) + Denoted(decimals), digits.Length)
    }

    predicate IsZero()
      requires 0 < digits.Length
      reads this, digits
    {
      count == 1 && digits[0] == 0
    }

    constructor (u: uint64)
      ensures Valid() && fresh(digits) && Value() == u as int
    {
      digits := new uint64[CAPACITY];
      count := 1;
      new;
      digits[0] := u;
      assert digits[..1] == [u];
      ValOne(u);
    }

    method Assign(u: uint64)
      requires digits.Length == CAPACITY
      modifies this, digits
      ensures Valid() && Limbs() == [u] && Value() == u as int
    {
      digits[0] := u;
      count := 1;
      assert digits[..1] == [u];
      ValOne(u);
    }

    method PushBack(digit: uint64)
      requires digits.Length == CAPACITY && count < CAPACITY
      modifies this, digits
      ensures count == old(count) + 1 && digits[..count] == old(digits[..count]) + [digit]
    {
      digits[count] := digit;
      count := count + 1;
    }

    /** One round of a loop over the limbs: limb `i` gets `x`, behind the limbs that are done. */
    method SetLimb(i: nat, x: uint64, ghost done: seq<uint64>, ghost orig: seq<uint64>)
      requires i < count <= digits.Length && |orig| == count && |done| == i && digits[..count] == done + orig[i..]
      modifies digits
      ensures digits[..count] == done + [x] + orig[i + 1..] && digits[i] == x
    {
      ghost var before := digits[..count];
      digits[i] := x;
      assert digits[..count] == before[i := x];
      ReplaceLimb(before, i, done, orig, x);
    }

    /** The limb at `i` is still to be read. */
    lemma Unread(i: nat, done: seq<uint64>, orig: seq<uint64>)
      requires i < count <= digits.Length && |orig| == count && |done| == i && digits[..count] == done + orig[i..]
      ensures digits[i] == orig[i]
    {
      assert digits[..count][i] == orig[i..][0];
    }

    /** One is added to limb `i`. */
    method AddRound(i: nat, ghost orig: seq<uint64>, ghost done: seq<uint64>, ghost total: seq<uint64>)
      returns (backup: uint64)
      requires i < count <= digits.Length && |orig| == count && |done| == i && digits[..count] == done + orig[i..]
      requires done + Add(orig[i..], 1) == total
      modifies digits
      ensures digits[..count] == done + [digits[i]] + orig[i + 1..]
      ensures done + [digits[i]] + Add(orig[i + 1..], Carry(digits[i], backup)) == total
    {
      hide Add, WrapAdd, Carry;
      Unread(i, done, orig);
      backup := digits[i];
      AddNext(orig, i, done, total);
      SetLimb(i, WrapAdd(digits[i], 1), done, orig);
    }

    /** `u` is added to the first limb. */
    method AddToFirst(u: uint64) returns (backup: uint64)
      requires 0 < count <= digits.Length
      modifies digits
      ensures digits[..count] == [digits[0]] + old(digits[..count])[1..]
      ensures [digits[0]] + Add(old(digits[..count])[1..], Carry(digits[0], backup)) == Add(old(digits[..count]), u as int)
    {
      hide Add, WrapAdd, Carry;
      ghost var orig := digits[..count];
      AddFirst(orig, u);
      backup := digits[0];
      assert orig[0..] == orig && [] + orig == orig;
      SetLimb(0, WrapAdd(digits[0], u), [], orig);
      assert [] + [digits[0]] == [digits[0]];
    }

    /** The carry out of the top limb becomes a limb of its own. */
    method AddLast(backup: uint64, ghost total: seq<uint64>)
      requires digits.Length == CAPACITY && 0 < count <= CAPACITY
      requires digits[..count] + Add([], Carry(digits[count - 1], backup)) == total && |total| <= CAPACITY
      modifies this, digits
      ensures count <= CAPACITY && digits[..count] == total
    {
      AddEnd(digits[count - 1], backup);
      hide Add, Carry;
      if digits[count - 1] < backup {
        PushBack(1);
      } else {
        assert digits[..count] + [] == digits[..count];
      }
    }

    /** The loop of `+=`: stops at the first limb that does not overflow. */
    method AddLimbs(u: uint64)
      requires digits.Length == CAPACITY && 0 < count <= CAPACITY
      requires |Add(digits[..count], u as int)| <= CAPACITY
      modifies this, digits
      ensures count <= CAPACITY && digits[..count] == Add(old(digits[..count]), u as int)
    {
      hide Add, Carry;
      ghost var orig, total := digits[..count], Add(digits[..count], u as int);
      var backup := AddToFirst(u);
      ghost var done := [digits[0]];
      var i := 0;
      while i < count - 1
        invariant 0 <= i < count == old(count)
        invariant digits[..count] == done + orig[i + 1..] && |done| == i + 1 && digits[i] == done[i]
        invariant done + Add(orig[i + 1..], Carry(digits[i], backup)) == total
      {
        CarryIs(digits[i], backup);
        if digits[i] >= backup {
          AddZero(orig[i + 1..]);
          return;
        }
        i := i + 1;
        backup := AddRound(i, orig, done, total);
        done := done + [digits[i]];
      }
      assert orig[i + 1..] == [] && done + [] == done;
      AddLast(backup, total);
    }

    /** `+=`: exact, as long as a last carry has room. */
    method AddAssign(u: uint64)
      requires Valid() && |Add(Limbs(), u as int)| <= CAPACITY
      modifies this, digits
      ensures Valid() && Limbs() == Add(old(Limbs()), u as int)
      ensures Value() == old(Value()) + u as int
    {
      hide Add, Val, Normal;
      AddValue(digits[..count], u as int);
      NormalAdd(digits[..count], u as int);
      NormalNotEmpty(digits[..count]);
      AddLimbs(u);
      NormalNotEmpty(digits[..count]);
    }

    /** The last carry of a multiplication becomes a limb of its own. */
    method PushCarry(k: uint64, ghost u: int, ghost total: seq<uint64>)
      requires digits.Length == CAPACITY && count <= CAPACITY && 0 <= u < BASE
      requires digits[..count] + Mul([], u, k as int) == total && |total| <= CAPACITY
      modifies this, digits
      ensures count <= CAPACITY && digits[..count] == total
    {
      assert Mul([], u, k as int) == if k == 0 then [] else [k];
      if k > 0 {
        PushBack(k);
      } else {
        assert digits[..count] + [] == digits[..count];
      }
    }

    /** One limb is multiplied, and `hi` carried on. */
    method MulRound64(i: nat, u: uint64, k: uint64,
                      ghost orig: seq<uint64>, ghost done: seq<uint64>, ghost total: seq<uint64>)
      returns (hi: uint64)
      requires i < count <= digits.Length && |orig| == count && |done| == i && digits[..count] == done + orig[i..]
      requires done + Mul(orig[i..], u as int, k as int) == total
      modifies digits
      ensures digits[..count] == done + [digits[i]] + orig[i + 1..]
      ensures done + [digits[i]] + Mul(orig[i + 1..], u as int, hi as int) == total
    {
      hide Mul;
      Unread(i, done, orig);
      var lo, high := MulAdd64(digits[i], u, k);
      MulNext(orig, i, done, u as int, k as int, lo, high, total);
      SetLimb(i, lo, done, orig);
      hi := high;
    }

    /** The loop of `*=`: every limb is multiplied in place, the last carry becomes a limb. */
    method MulLimbs64(u: uint64)
      requires digits.Length == CAPACITY && count <= CAPACITY
      requires |Mul(digits[..count], u as int, 0)| <= CAPACITY
      modifies this, digits
      ensures count <= CAPACITY && digits[..count] == Mul(old(digits[..count]), u as int, 0)
    {
      hide Mul;
      ghost var orig, total := digits[..count], Mul(digits[..count], u as int, 0);
      var k: uint64 := 0;
      assert orig[0..] == orig && [] + total == total;
      ghost var done: seq<uint64> := [];
      for i := 0 to count
        invariant count == old(count)
        invariant digits[..count] == done + orig[i..] && |done| == i
        invariant done + Mul(orig[i..], u as int, k as int) == total
      {
        k := MulRound64(i, u, k, orig, done, total);
        done := done + [digits[i]];
      }
      assert orig[count..] == [] && done + [] == done;
      PushCarry(k, u as int, total);
    }

    /** `*=` by a 64-bit number. */
    method MulAssign64(u: uint64)
      requires Valid() && ProductFits(u as int)
      modifies this, digits
      ensures Valid() && Value() == old(Value()) * u as int
    {
      hide Mul, Val, Pow;
      ValOne(0);
      ValOne(1);
      if u == 0 {
        Assign(0);
      } else if u == 1 {
      } else if count == 1 && digits[0] == 1 {
        assert digits[..count] == [1];
        Assign(u);
      } else {
        MulValue(digits[..count], u as int, 0);
        BelowIff(Value() * u as int, CAPACITY);
        MulNormal(digits[..count], u as int, CAPACITY);
        MulLimbs64(u);
      }
    }

    /** The same by halves. */
    method MulRound32(i: nat, u: uint32, k: uint64,
                      ghost orig: seq<uint64>, ghost done: seq<uint64>, ghost total: seq<uint64>)
      returns (hi: uint64)
      requires i < count <= digits.Length && |orig| == count && |done| == i && digits[..count] == done + orig[i..]
      requires done + Mul(orig[i..], u as int, k as int) == total && k < 0x1_0000_0000
      modifies digits
      ensures digits[..count] == done + [digits[i]] + orig[i + 1..]
      ensures done + [digits[i]] + Mul(orig[i + 1..], u as int, hi as int) == total
      ensures hi < 0x1_0000_0000
    {
      hide Mul;
      Unread(i, done, orig);
      var lo, high := HalfStep(digits[i], u, k);
      MulNext(orig, i, done, u as int, k as int, lo, high, total);
      SetLimb(i, lo, done, orig);
      hi := high;
    }

    /** The loop of `*=`: every limb is multiplied in place, the last carry becomes a limb. */
    method MulLimbs32(u: uint32)
      requires digits.Length == CAPACITY && count <= CAPACITY
      requires |Mul(digits[..count], u as int, 0)| <= CAPACITY
      modifies this, digits
      ensures count <= CAPACITY && digits[..count] == Mul(old(digits[..count]), u as int, 0)
    {
      hide Mul;
      ghost var orig, total := digits[..count], Mul(digits[..count], u as int, 0);
      var k: uint64 := 0;
      assert orig[0..] == orig && [] + total == total;
      ghost var done: seq<uint64> := [];
      for i := 0 to count
        invariant count == old(count) && k < 0x1_0000_0000
        invariant digits[..count] == done + orig[i..] && |done| == i
        invariant done + Mul(orig[i..], u as int, k as int) == total
      {
        k := MulRound32(i, u, k, orig, done, total);
        done := done + [digits[i]];
      }
      assert orig[count..] == [] && done + [] == done;
      PushCarry(k, u as int, total);
    }

    /** `*=` by a 32-bit number: two half-limb products instead of a full multiply-add. */
    method MulAssign32(u: uint32)
      requires Valid() && ProductFits(u as int)
      modifies this, digits
      ensures Valid() && Value() == old(Value()) * u as int
    {
      hide Mul, Val, Pow;
      ValOne(0);
      ValOne(1);
      if u == 0 {
        Assign(0);
      } else if u == 1 {
      } else if count == 1 && digits[0] == 1 {
        assert digits[..count] == [1];
        Assign(u as uint64);
      } else {
        MulValue(digits[..count], u as int, 0);
        BelowIff(Value() * u as int, CAPACITY);
        MulNormal(digits[..count], u as int, CAPACITY);
        MulLimbs32(u);
      }
    }

    /** `<<=`: whole limbs move up, then the bits inside each limb; the lowest limbs become zero. */
    method ShiftLeft(shift: nat)
      requires Valid()
      requires !IsZero() && shift != 0 ==> ShiftStays(count, shift)
      modifies this, digits
      ensures Valid() && Value() == old(Value()) * Pow(2, shift)
      ensures forall k: nat :: k < CAPACITY && !ShiftAssigns(old(count), shift, k) ==> digits[k] == old(digits[k])
    {
      hide Val, Mul;
      if IsZero() || shift == 0 {
        assert IsZero() ==> digits[..count] == [0];
        ValOne(0);
        assert Pow(2, 0) == 1;
        return;
      }
      assert digits[..count] != [0];
      hide Pow;
      var offset, interShift := shift / 64, shift % 64;
      if interShift == 0 {
        ZerosValue(offset, digits[..count]);
        PowBase(offset);
        ShiftWords(offset);
      } else {
        ShiftValue(digits[..count], offset, interShift);
        ShiftNormal(digits[..count], offset, interShift);
        ShiftParts(offset, interShift);
      }
    }

    /** The overlapping move by whole limbs. */
    method ShiftWords(offset: nat)
      requires digits.Length == CAPACITY && count + offset <= CAPACITY
      modifies this, digits
      ensures count == old(count) + offset && digits[..count] == Zeros(offset) + old(digits[..count])
      ensures forall k :: count <= k < CAPACITY ==> digits[k] == old(digits[k])
    {
      ghost var orig := digits[..count];
      forall k | 0 <= k < count {
        digits[k + offset] := digits[k];
      }
      count := count + offset;
      assert digits[offset..count] == orig;
      ClearLow(offset, orig);
    }

    method ShiftParts(offset: nat, interShift: nat)
      requires digits.Length == CAPACITY && 0 < count && count + offset < CAPACITY
      requires 0 < interShift < 64 && Pow(2, interShift) < BASE
      modifies this, digits
      ensures count <= CAPACITY
      ensures digits[..count] == Zeros(offset) + Mul(old(digits[..count]), Pow(2, interShift), 0)
      ensures forall k :: old(count) + offset < k < CAPACITY ==> digits[k] == old(digits[k])
    {
      hide Mul, Pow, High, Low, ShiftLimb;
      ghost var orig := digits[..count];
      ShiftBits(offset, interShift);
      count := count + offset;
      if digits[count] != 0 {
        count := count + 1;
      }
      ghost var r := digits[offset..count];
      ShiftedIs(orig, interShift, r);
      ClearLow(offset, r);
    }

    /** Clears the limbs below `offset`. */
    method ClearLow(offset: nat, ghost high: seq<uint64>)
      requires offset <= count <= digits.Length && digits[offset..count] == high
      modifies digits
      ensures digits[..count] == Zeros(offset) + high
      ensures forall k :: offset <= k < digits.Length ==> digits[k] == old(digits[k])
    {
      forall k | 0 <= k < offset {
        digits[k] := 0;
      }
      assert digits[offset..count] == high;
      assert digits[..offset] == Zeros(offset);
      assert digits[..count] == digits[..offset] + digits[offset..count];
    }

    /** The descending loop: every limb is written at or above where it is still read. */
    method ShiftBits(offset: nat, interShift: nat)
      requires digits.Length == CAPACITY && 0 < count && count + offset < CAPACITY && 0 < interShift < 64
      modifies digits
      ensures var s := old(digits[..count]);
        && digits[offset] == Low(s[0], interShift)
        && (forall k :: 0 < k < count ==> digits[k + offset] == ShiftLimb(s[k], s[k - 1], interShift))
        && digits[count + offset] == High(s[count - 1], interShift)
      ensures forall k :: count + offset < k < CAPACITY ==> digits[k] == old(digits[k])
    {
      hide High, Low, ShiftLimb;
      ghost var s := digits[..count];
      digits[count] := 0;
      assert digits[..count] == s;
      ghost var t := s + [0];
      ShiftTop(t[count], t[count - 1], interShift);
      ShiftLoop(offset, interShift, t);
      digits[offset] := Low(digits[0], interShift);
      assert t[0] == s[0];
      forall k | 0 < k < count
        ensures digits[k + offset] == ShiftLimb(s[k], s[k - 1], interShift)
      {
        assert t[k] == s[k] && t[k - 1] == s[k - 1];
      }
    }

    method ShiftLoop(offset: nat, interShift: nat, ghost t: seq<uint64>)
      requires digits.Length == CAPACITY && 0 < count && count + offset < CAPACITY && 0 < interShift < 64
      requires |t| == count + 1 && forall k :: 0 <= k <= count ==> digits[k] == t[k]
      modifies digits
      ensures digits[0] == t[0]
      ensures forall k :: 0 < k <= count ==> digits[k + offset] == ShiftLimb(t[k], t[k - 1], interShift)
      ensures forall k :: count + offset < k < CAPACITY ==> digits[k] == old(digits[k])
    {
      hide High, Low, ShiftLimb;
      for i := count downto 0
        invariant forall k :: 0 <= k <= i ==> digits[k] == t[k]
        invariant forall k :: i < k <= count ==> digits[k + offset] == ShiftLimb(t[k], t[k - 1], interShift)
        invariant forall k :: count + offset < k < CAPACITY ==> digits[k] == old(digits[k])
      {
        digits[i + 1 + offset] := ShiftLimb(digits[i + 1], digits[i], interShift);
      }
    }

    /** Multiplies by a power of five, in steps of 5^27, 5^13 and the table. */
    method MultiplyPow5(exp: nat)
      requires Valid() && ProductFits(Pow(5, exp))
      modifies this, digits
      ensures Valid() && Value() == old(Value()) * Pow(5, exp)
    {
      hide Pow, Val, Normal;
      ghost var v := Value();
      var e: nat := exp;
      PowFive();
      while e >= 27
        invariant Valid() && e <= exp && Value() * Pow(5, e) == v * Pow(5, exp)
      {
        PowSplit(Value(), 27, e - 27);
        MulAssign64(0x6765C793_FA10079D);
        e := e - 27;
      }
      while e >= 13
        invariant Valid() && e <= exp && Value() * Pow(5, e) == v * Pow(5, exp)
      {
        PowSplit(Value(), 13, e - 13);
        MulAssign32(1220703125);
        e := e - 13;
      }
      if e > 0 {
        PowFiveTable(e - 1);
        MulAssign32(POW5[e - 1]);
      }
    }

    /** Appends up to 19 decimal digits: `*this = *this * 10^n + u`. */
    method AppendDecimal64(decimals: seq<int>)
      requires Valid() && AreDigits(decimals) && 1 <= |decimals| <= 19
      requires DecimalFits(decimals)
      modifies this, digits
      ensures Valid() && Value() == old(Value()) * Pow(10, |decimals|) + Denoted(decimals)
    {
      hide Pow, Val, Add, Below;
      var u := ParseUint64(decimals);
      if IsZero() {
        assert digits[..count] == [0];
        ValOne(0);
        Assign(u);
      } else {
        var exp := |decimals|;
        TenIsTwoFives(Value(), exp);
        MultiplyPow5(exp);
        CountBound(digits[..count], CAPACITY - 1);
        ShiftLeft(exp);
        AddFits(digits[..count], u as int, CAPACITY);
        AddAssign(u);
      }
    }

    /** Appends the next block of a string of digits. */
    method AppendBlock(decimals: seq<int>, i: nat, n: nat)
      requires AreDigits(decimals) && i % 19 == 0 && 0 < n && i + n <= |decimals| && (n == 19 || n == |decimals| - i < 19)
      requires FitsLimbs(decimals) && Valid() && Value() == Denoted(decimals[..i])
      modifies this, digits
      ensures Valid() && Value() == Denoted(decimals[..i + n])
    {
      hide Pow, Denoted, FitsLimbs, Below, Val, Normal;
      DenotedBlock(decimals, i, n);
      AppendDecimal64(decimals[i..i + n]);
    }

    /** Takes the digits 19 at a time, and then those that are left. */
    method AppendBlocks(decimals: seq<int>)
      requires decimals != [] && AreDigits(decimals) && FitsLimbs(decimals) && Valid() && Value() == 0
      modifies this, digits
      ensures Valid() && Value() == Denoted(decimals)
    {
      hide Pow, Denoted, FitsLimbs, Val, Normal;
      DenotedNothing();
      assert decimals[..0] == [];
      var i: nat, length: nat := 0, |decimals|;
      while length >= 19
        invariant i + length == |decimals| && i % 19 == 0
        invariant Valid() && Value() == Denoted(decimals[..i])
      {
        AppendBlock(decimals, i, 19);
        length := length - 19;
        i := i + 19;
      }
      if length > 0 {
        AppendBlock(decimals, i, length);
      }
      assert decimals[..|decimals|] == decimals;
    }

    /** The number a non-empty string of decimal digits denotes. */
    constructor FromDecimal(decimals: seq<int>)
      requires decimals != [] && AreDigits(decimals) && FitsLimbs(decimals)
      ensures Valid() && fresh(digits) && Value() == Denoted(decimals)
    {
      digits := new uint64[CAPACITY];
      count := 1;
      new;
      hide Pow, FitsLimbs;
      Assign(0);
      AppendBlocks(decimals);
    }

    /** Three-way comparison, from the top limb down. */
    method Compare(rhs: BigInteger) returns (c: int)
      requires Valid() && rhs.Valid()
      ensures c in {-1, 0, 1}
      ensures c < 0 <==> Value() < rhs.Value()
      ensures c == 0 <==> Value() == rhs.Value()
    {
      ghost var s, r := digits[..count], rhs.digits[..rhs.count];
      if count != rhs.count {
        if count < rhs.count {
          ShorterSmaller(s, r);
        } else {
          ShorterSmaller(r, s);
        }
        return if count < rhs.count then -1 else 1;
      }
      for i := count downto 0
        invariant s[i..] == r[i..]
      {
        if digits[i] != rhs.digits[i] {
          if digits[i] < rhs.digits[i] {
            TopDecides(s, r, i);
          } else {
            TopDecides(r, s, i);
          }
          return if digits[i] < rhs.digits[i] then -1 else 1;
        }
        assert s[i..] == [s[i]] + s[i + 1..] && r[i..] == [r[i]] + r[i + 1..];
      }
      assert s[0..] == s && r[0..] == r;
      return 0;
    }
  }

  // --------------------------------------------------------------------- difference

  /**
   * Absolute difference of two different numbers; tells whether `this` is the smaller one. The result is
   * exact if and only if no all-ones limb of the smaller number stands above a part that exceeds the same part of the
   * larger one.
   */
  method Difference(self: BigInteger, rhs: BigInteger, out: BigInteger) returns (ret: bool)
    requires self.Valid() && rhs.Valid() && out.digits.Length == CAPACITY
    requires out != self && out != rhs && out.digits != self.digits && out.digits != rhs.digits
    requires self.Value() != rhs.Value()
    modifies out, out.digits
    ensures ret <==> self.Value() < rhs.Value()
    ensures out.Valid()
    ensures var a, b := if ret then rhs else self, if ret then self else rhs;
      && b.count <= a.count
      && (out.Value() == a.Value() - b.Value() <==> !BorrowsIntoFull(a.Limbs(), b.Limbs(), 0))
  {
    hide Val, Diff, BorrowsIntoFull;
    var cmp := self.Compare(rhs);
    ret := cmp < 0;
    var a, b := if ret then rhs else self, if ret then self else rhs;
    if a.count < b.count {
      ShorterSmaller(a.Limbs(), b.Limbs());
    }
    DiffExactIff(a.Limbs(), b.Limbs());
    Subtract(a, b, out);
  }

  /** One limb of the difference; the count follows the last limb that is not zero. */
  method SubtractLimb(a: BigInteger, b: BigInteger, out: BigInteger, i: nat, borrow: nat,
                      ghost s: seq<uint64>, ghost r: seq<uint64>, ghost done: seq<uint64>, ghost total: seq<uint64>)
    returns (d: uint64, next: nat)
    requires a.count <= a.digits.Length && b.count <= b.digits.Length && i < a.count <= out.digits.Length
    requires s == a.Limbs() && r == b.Limbs() && |r| <= |s| && borrow <= 1
    requires out != a && out != b && out.digits != a.digits && out.digits != b.digits
    requires |done| == i && out.digits[..i] == done && done + Diff(s[i..], Dropped(r, i), borrow) == total
    modifies out, out.digits
    ensures out.digits[..i + 1] == done + [d] && next <= 1
    ensures done + [d] + Diff(s[i + 1..], Dropped(r, i + 1), next) == total
    ensures out.count == if d != 0 then i + 1 else old(out.count)
  {
    hide Diff, DiffLimb, DiffBorrow;
    DiffNext(s, r, i, borrow, done, total);
    var bi: uint64 := if i < b.count then b.digits[i] else 0;
    d := DiffLimb(a.digits[i], bi as int, borrow);
    next := DiffBorrow(a.digits[i], bi as int, borrow);
    out.digits[i] := d;
    assert out.digits[..i + 1] == done + [d];
    if d != 0 {
      out.count := i + 1;
    }
  }

  /** The loop over the limbs; `top` is one more than the index of the last limb that is not zero. */
  method SubtractLimbs(a: BigInteger, b: BigInteger, out: BigInteger,
                       ghost s: seq<uint64>, ghost r: seq<uint64>, ghost total: seq<uint64>)
    returns (ghost top: nat)
    requires a.count <= a.digits.Length && b.count <= b.digits.Length && a.count <= out.digits.Length
    requires s == a.Limbs() && r == b.Limbs() && |r| <= |s| && total == Diff(s, r, 0)
    requires out != a && out != b && out.digits != a.digits && out.digits != b.digits
    modifies out, out.digits
    ensures out.digits[..a.count] == total && top <= a.count
    ensures top > 0 ==> out.count == top && total[top - 1] != 0
    ensures forall k :: top <= k < a.count ==> total[k] == 0
  {
    hide Diff, Dropped;
    var borrow := 0;
    ghost var done: seq<uint64> := [];
    top := 0;
    DiffStart(s, r, total);
    assert out.digits[..0] == [];
    for i := 0 to a.count
      invariant borrow <= 1 && |done| == i
      invariant out.digits[..i] == done
      invariant done + Diff(s[i..], Dropped(r, i), borrow) == total
      invariant top <= i && (top > 0 ==> out.count == top && done[top - 1] != 0)
      invariant forall k :: top <= k < i ==> done[k] == 0
    {
      var d: uint64;
      d, borrow := SubtractLimb(a, b, out, i, borrow, s, r, done, total);
      if d != 0 {
        top := i + 1;
      }
      done := done + [d];
    }
    DiffEnd(s, r, borrow, done);
  }

  method Subtract(a: BigInteger, b: BigInteger, out: BigInteger)
    requires a.Valid() && b.Valid() && out.digits.Length == CAPACITY && b.count <= a.count
    requires out != a && out != b && out.digits != a.digits && out.digits != b.digits
    requires Val(Diff(a.Limbs(), b.Limbs(), 0)) > 0
    modifies out, out.digits
    ensures out.Valid() && out.Value() == Val(Diff(a.Limbs(), b.Limbs(), 0))
  {
    hide Diff, Normal, Val;
    ghost var s, r := a.Limbs(), b.Limbs();
    ghost var total := Diff(s, r, 0);
    ghost var top := SubtractLimbs(a, b, out, s, r, total);
    TopLimb(total, top);
    TakePrefix(out.digits, |s|, total, top);
  }

  lemma TakePrefix(digits: array<uint64>, n: nat, total: seq<uint64>, top: nat)
    requires n <= digits.Length && digits[..n] == total && top <= n
    ensures digits[..top] == total[..top]
  {
  }

  function Dropped(s: seq<uint64>, i: nat): (d: seq<uint64>)
    ensures |d| == if i <= |s| then |s| - i else 0
  {
    if i <= |s| then s[i..] else []
  }

  lemma DiffNext(s: seq<uint64>, r: seq<uint64>, i: nat, borrow: nat, done: seq<uint64>, total: seq<uint64>)
    requires i < |s| && |r| <= |s| && borrow <= 1
    requires done + Diff(s[i..], Dropped(r, i), borrow) == total
    ensures var b := if i < |r| then r[i] as int else 0;
      done + [DiffLimb(s[i], b, borrow)] + Diff(s[i + 1..], Dropped(r, i + 1), DiffBorrow(s[i], b, borrow)) == total
  {
    hide DiffLimb, DiffBorrow;
    assert s[i..][1..] == s[i + 1..] && Rest(Dropped(r, i)) == Dropped(r, i + 1);
  }

  lemma DiffStart(s: seq<uint64>, r: seq<uint64>, total: seq<uint64>)
    requires |r| <= |s| && total == Diff(s, r, 0)
    ensures |Dropped(r, 0)| <= |s[0..]| && [] + Diff(s[0..], Dropped(r, 0), 0) == total
  {
    assert s[0..] == s && Dropped(r, 0) == r;
  }

  lemma DiffEnd(s: seq<uint64>, r: seq<uint64>, borrow: nat, done: seq<uint64>)
    requires |r| <= |s| && borrow <= 1
    ensures |Dropped(r, |s|)| <= |s[|s|..]| && done + Diff(s[|s|..], Dropped(r, |s|), borrow) == done
  {
  }

  /** The zero limbs above the last non-zero one do not change the value. */
  lemma TopLimb(s: seq<uint64>, top: nat)
    requires top <= |s| && (forall k :: top <= k < |s| ==> s[k] == 0) && (top > 0 ==> s[top - 1] != 0)
    requires Val(s) > 0
    ensures 0 < top && Val(s[..top]) == Val(s) && Normal(s[..top])
  {
    ZeroTail(s, top);
    assert s[..0] == [];
  }

  lemma {:induction false} ZeroTail(s: seq<uint64>, top: nat)
    requires top <= |s| && forall k :: top <= k < |s| ==> s[k] == 0
    ensures Val(s[..top]) == Val(s)
  {
    if s == [] {
    } else if top == 0 {
      ZeroTail(s[1..], 0);
      assert s[..0] == s[1..][..0];
    } else {
      ZeroTail(s[1..], top - 1);
      assert s[..top][1..] == s[1..][..top - 1];
    }
  }

  // ------------------------------------------------------------------ decimal input

  const POW5: seq<uint32> := [
    5, 25, 125, 625, 3125, 15625, 78125, 390625, 1953125, 9765625, 48828125, 244140625]

  lemma PowFiveTable(k: nat)
    requires k < 12
    ensures POW5[k] as int == Pow(5, k + 1)
  {
    if k > 0 {
      PowFiveTable(k - 1);
    } else {
      assert Pow(5, 1) == 5 * Pow(5, 0);
    }
  }

  lemma PowFive()
    ensures Pow(5, 0) == 1 && Pow(5, 13) == 1220703125
    ensures Pow(5, 27) == 0x6765C793_FA10079D
  {
    PowFiveTable(11);
    assert Pow(5, 13) == 5 * Pow(5, 12);
    assert Pow(5, 14) == 5 * Pow(5, 13);
    PowAdd(5, 13, 14);
  }

  /** Part of a power can be multiplied in first, and that part alone does not exceed the whole. */
  lemma PowSplit(v: nat, m: nat, n: nat)
    ensures v * Pow(5, m) * Pow(5, n) == v * Pow(5, m + n)
    ensures v * Pow(5, m) <= v * Pow(5, m + n)
  {
    PowAdd(5, m, n);
    MulAssoc(v, Pow(5, m), Pow(5, n));
    MulGrows(0, v, Pow(5, m));
    MulGrows(1, Pow(5, n), v * Pow(5, m));
  }

  method ParseUint64(decimals: seq<int>) returns (r: uint64)
    requires AreDigits(decimals) && |decimals| <= 19
    ensures r as int == Denoted(decimals)
  {
    hide Pow;
    r := 0;
    Pow19();
    for p := 0 to |decimals|
      invariant r as int == Denoted(decimals[..p])
    {
      assert decimals[..p + 1][..p] == decimals[..p];
      DenotedBounds(decimals[..p + 1]);
      PowGrows(10, p + 1, 19);
      r := r * 10 + (decimals[p] - 0x30) as uint64;
    }
    assert decimals[..|decimals|] == decimals;
  }

  lemma Pow19()
    ensures Pow(10, 19) == 10000000000000000000
  {
    PowAdd(10, 9, 10);
    assert Pow(10, 9) == 1000000000;
    assert Pow(10, 10) == 10 * Pow(10, 9);
  }

  lemma TenIsTwoFives(v: nat, n: nat)
    ensures v * Pow(5, n) * Pow(2, n) == v * Pow(10, n)
    ensures Below(v * Pow(5, n), CAPACITY - 1) ==> Below(v * Pow(5, n), CAPACITY)
  {
    hide Pow;
    PowMul(n);
    MulAssoc(v, Pow(5, n), Pow(2, n));
  }

  lemma PowMul(n: nat)
    ensures Pow(10, n) == Pow(5, n) * Pow(2, n)
  {
    if n > 0 {
      PowMul(n - 1);
      FactorsOfTen(Pow(5, n - 1), Pow(2, n - 1));
    }
  }

  lemma FactorsOfTen(f: nat, t: nat)
    ensures 5 * f * (2 * t) == 10 * (f * t)
  {
  }

  lemma CountBound(s: seq<uint64>, n: nat)
    requires Normal(s) && n > 0 && Below(Val(s), n)
    ensures |s| <= n
  {
    BelowIff(Val(s), n);
    if |s| > 1 {
      LengthBound(s, n);
    }
  }

  lemma AddFits(s: seq<uint64>, u: nat, n: nat)
    requires Normal(s) && u < BASE && n > 0 && Below(Val(s) + u, n)
    ensures |Add(s, u)| <= n
  {
    AddValue(s, u);
    NormalAdd(s, u);
    CountBound(Add(s, u), n);
  }

  lemma DenotedNothing()
    ensures Denoted([]) == 0
  {
  }

  lemma DenotedGrows(s: seq<int>, k: nat)
    requires AreDigits(s) && k <= |s|
    ensures 0 <= Denoted(s[..k]) <= Denoted(s)
  {
    hide Pow, Denoted;
    var low, high := s[k..], s[..k];
    assert high + low == s;
    DenotedConcat(high, low);
    DenotedBounds(high);
    DenotedBounds(low);
    MulGrows(1, Pow(10, |low|), Denoted(high));
  }

  /** The length of the last block when `n` digits are taken 19 at a time. */
  function LastBlock(n: nat): (k: nat)
    requires n > 0
    ensures 1 <= k <= 19 && k <= n && (n - k) % 19 == 0
  {
    (n - 1) % 19 + 1
  }

  /** The number fits, and before the last shift there is a free limb. */
  ghost predicate FitsLimbs(s: seq<int>)
    requires s != [] && AreDigits(s)
  {
    var n := LastBlock(|s|);
    Below(Denoted(s[..|s| - n]) * Pow(5, n), CAPACITY - 1) && Below(Denoted(s), CAPACITY)
  }

  /** Every block can be appended when the last one can. */
  lemma DenotedBlock(s: seq<int>, i: nat, n: nat)
    requires AreDigits(s) && i % 19 == 0 && i + n <= |s| && (n == 19 || n == |s| - i < 19) && n > 0
    requires FitsLimbs(s)
    ensures Denoted(s[..i]) * Pow(10, n) + Denoted(s[i..i + n]) == Denoted(s[..i + n])
    ensures Below(Denoted(s[..i]) * Pow(5, n), CAPACITY - 1) && Below(Denoted(s[..i + n]), CAPACITY)
  {
    hide Pow, Denoted;
    var high, block := s[..i], s[i..i + n];
    assert high + block == s[..i + n];
    DenotedConcat(high, block);
    DenotedGrows(s, i + n);
    DenotedBounds(block);
    if i + n == |s| {
      assert n == LastBlock(|s|);
    } else {
      NotTheLastBlock(s, i);
    }
  }

  lemma NotTheLastBlock(s: seq<int>, i: nat)
    requires AreDigits(s) && i % 19 == 0 && i + 19 < |s| && FitsLimbs(s)
    ensures Below(Denoted(s[..i]) * Pow(5, 19), CAPACITY - 1)
  {
    hide Pow, Denoted;
    var n := LastBlock(|s|);
    var rest := s[..|s| - n];
    assert i + 19 <= |rest|;
    DenotedGrows(rest, i + 19);
    assert rest[..i + 19] == s[..i] + s[i..i + 19];
    DenotedConcat(s[..i], s[i..i + 19]);
    DenotedBounds(s[i..i + 19]);
    DenotedBounds(s[..i]);
    DenotedBounds(rest);
    FivesBelowTens(Denoted(s[..i]), 19);
    MulGrows(1, Pow(5, n), Denoted(rest));
  }

  lemma FivesBelowTens(v: nat, n: nat)
    ensures v * Pow(5, n) <= v * Pow(10, n)
  {
    hide Pow;
    PowMul(n);
    MulAssoc(v, Pow(5, n), Pow(2, n));
    MulGrows(0, v, Pow(5, n));
    MulGrows(1, Pow(2, n), v * Pow(5, n));
  }

  lemma ValOne(u: uint64)
    ensures Val([u]) == u as int
  {
    assert [u][1..] == [];
  }

  function Carry(sum: uint64, backup: uint64): (c: nat)
    ensures c <= 1
  {
    if sum < backup then 1 else 0
  }

  lemma NormalAdd(s: seq<uint64>, u: nat)
    requires Normal(s) && u < BASE
    ensures Normal(Add(s, u))
  {
    AddNormal(s, u);
  }

  lemma NormalNotEmpty(s: seq<uint64>)
    requires Normal(s)
    ensures s != []
  {
  }

  lemma AddFirst(s: seq<uint64>, u: uint64)
    requires s != []
    ensures [WrapAdd(s[0], u)] + Add(s[1..], Carry(WrapAdd(s[0], u), s[0])) == Add(s, u as int)
  {
    WrapAddCarry(s[0], u);
  }

  lemma AddNext(s: seq<uint64>, i: nat, done: seq<uint64>, total: seq<uint64>)
    requires i < |s| && done + Add(s[i..], 1) == total
    ensures done + [WrapAdd(s[i], 1)] + Add(s[i + 1..], Carry(WrapAdd(s[i], 1), s[i])) == total
  {
    AddFirst(s[i..], 1);
    assert s[i..][1..] == s[i + 1..];
  }

  lemma CarryIs(sum: uint64, backup: uint64)
    ensures Carry(sum, backup) == if sum < backup then 1 else 0
  {
  }

  lemma AddEnd(sum: uint64, backup: uint64)
    ensures Add([], Carry(sum, backup)) == if sum < backup then [1] else []
  {
  }

  /** `(x << n) | (below >> (64 - n))`: the two parts share no bit. */
  function ShiftLimb(x: uint64, below: uint64, n: nat): uint64
    requires 0 < n < 64
  {
    ShiftSplit(x, n, 0);
    ShiftSplit(below, n, 0);
    LimbFits(x, below, n);
    Low(x, n) + High(below, n)
  }

  lemma LimbFits(x: uint64, below: uint64, n: nat)
    requires 0 < n < 64
    ensures Low(x, n) as int + High(below, n) as int < BASE
  {
    ShiftSplit(below, n, 0);
    ShiftSplit(x, n, Pow(2, n) - 1);
  }

  lemma ShiftTop(top: uint64, below: uint64, n: nat)
    requires 0 < n < 64 && top == 0
    ensures ShiftLimb(top, below, n) == High(below, n)
  {
  }

  lemma ReplaceLimb(before: seq<uint64>, i: nat, done: seq<uint64>, orig: seq<uint64>, lo: uint64)
    requires i < |orig| && before == done + orig[i..] && |done| == i
    ensures before[i := lo] == done + [lo] + orig[i + 1..]
  {
  }

  lemma PowFits(n: nat)
    requires n < 64
    ensures Pow(2, n) < BASE
  {
    PowGrows(2, n, 63);
    PowersOfTwo();
    assert Pow(2, 64) == 2 * Pow(2, 63);
  }

  /** Shifting by whole limbs and then by bits multiplies by a power of two. */
  lemma ShiftValue(s: seq<uint64>, offset: nat, inter: nat)
    requires inter < 64
    ensures Pow(2, inter) < BASE
    ensures Val(Zeros(offset) + Mul(s, Pow(2, inter), 0)) == Val(s) * Pow(2, 64 * offset + inter)
  {
    hide Pow, Mul, Val, Zeros;
    PowFits(inter);
    MulValue(s, Pow(2, inter), 0);
    ZerosValue(offset, Mul(s, Pow(2, inter), 0));
    PowBase(offset);
    PowAdd(2, inter, 64 * offset);
    MulAssoc(Val(s), Pow(2, inter), Pow(2, 64 * offset));
  }

  lemma ShiftNormal(s: seq<uint64>, offset: nat, inter: nat)
    requires 0 < inter < 64 && Pow(2, inter) < BASE && Normal(s) && !(|s| == 1 && s[0] == 0)
    ensures Normal(Zeros(offset) + Mul(s, Pow(2, inter), 0))
  {
    MulNonZero(s, Pow(2, inter), 0);
  }

  /** The limbs left by the descending loop are the limbs of the product. */
  lemma ShiftedIs(s: seq<uint64>, inter: nat, r: seq<uint64>)
    requires 0 < inter < 64 && s != [] && Pow(2, inter) < BASE
    requires |r| == |s| + if High(s[|s| - 1], inter) == 0 then 0 else 1
    requires r[0] == Low(s[0], inter)
    requires forall k :: 0 < k < |s| ==> r[k] == ShiftLimb(s[k], s[k - 1], inter)
    requires |r| > |s| ==> r[|s|] == High(s[|s| - 1], inter)
    ensures r == Mul(s, Pow(2, inter), 0)
  {
    hide Pow, Mul;
    var m := Mul(s, Pow(2, inter), 0);
    ShiftAt(s, inter, 0, 0);
    forall k | 0 <= k < |s|
      ensures r[k] == m[k]
    {
      ShiftAt(s, inter, 0, k);
    }
  }
}
