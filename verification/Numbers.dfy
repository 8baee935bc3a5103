/** JSON numbers: scanning, exact integer accumulation and decimal printing. */
module Numbers {
  import opened Arithmetic
  import opened Bytes
  import opened Streams
  import opened Events

  /** The reader options that matter here; `tooBig` tells which double literals overflow a double. */
  datatype Flags = Flags(trailingCommas: bool, stopWhenDone: bool, validateEncoding: bool, tooBig: bytes -> bool)

  // -------------------------------------------------------------------- reference

  /** Where the run of digits at `i` ends. */
  function DigitsEnd(t: bytes, i: nat): (e: nat)
    ensures i <= e
    ensures e <= |t| || e == i
    ensures !IsDigit(Peek(t, e))
    ensures forall k :: i <= k < e ==> IsDigit(Peek(t, k))
    decreases |t| - i
  {
    if i < |t| && IsDigit(Peek(t, i)) then DigitsEnd(t, i + 1) else i
  }

  lemma DigitsEndIs(t: bytes, i: nat, e: nat)
    requires i <= e && !IsDigit(Peek(t, e)) && forall k :: i <= k < e ==> IsDigit(Peek(t, k))
    ensures DigitsEnd(t, i) == e
  {
    var d := DigitsEnd(t, i);
    assert !IsDigit(Peek(t, d)) && !IsDigit(Peek(t, e));
  }

  /** The decimal value of the digits `t[i..j]`. */
  function DecimalValue(t: bytes, i: nat, j: nat): nat
    requires i <= j && forall k :: i <= k < j ==> IsDigit(Peek(t, k))
  {
    if i == j then 0 else (assert IsDigit(Peek(t, j - 1)); DecimalValue(t, i, j - 1) * 10 + (Peek(t, j - 1) - ZERO))
  }

  lemma DecimalValueGrows(t: bytes, i: nat, j: nat, m: nat)
    requires i <= j <= m && forall k :: i <= k < m ==> IsDigit(Peek(t, k))
    ensures DecimalValue(t, i, j) <= DecimalValue(t, i, m)
    decreases m - j
  {
    if j < m {
      DecimalValueGrows(t, i, j, m - 1);
    }
  }

  datatype Scan =
    | Stop(error: ParseError)
    | Range(end: nat, isDouble: bool)

  /** Extent of the integer part at `j`: `0`, or digits that do not start with 0. */
  function IntegerEnd(t: bytes, j: nat): (e: Option<nat>)
    ensures e.Some? ==> j < e.value <= |t| && forall k :: j <= k < e.value ==> IsDigit(Peek(t, k))
  {
    if Peek(t, j) == ZERO then Some(j + 1)
    else if IsDigit(Peek(t, j)) then Some(DigitsEnd(t, j))
    else None
  }

  function FractionEnd(t: bytes, k: nat): (s: Scan)
    ensures s.Range? ==> k <= s.end && (k <= |t| ==> s.end <= |t|)
  {
    if Peek(t, k) != DOT then Range(k, false)
    else if !IsDigit(Peek(t, k + 1)) then Stop(NumberMissFraction)
    else Range(DigitsEnd(t, k + 1), true)
  }

  function ExponentEnd(t: bytes, k: nat): (s: Scan)
    ensures s.Range? ==> k <= s.end && (k <= |t| ==> s.end <= |t|)
  {
    if Peek(t, k) != 0x65 && Peek(t, k) != 0x45 then Range(k, false)
    else
      var d := if Peek(t, k + 1) == PLUS || Peek(t, k + 1) == MINUS then k + 2 else k + 1;
      if !IsDigit(Peek(t, d)) then Stop(NumberMissExponent) else Range(DigitsEnd(t, d), true)
  }

  datatype Number =
    | BadNumber(error: ParseError)
    | GoodNumber(event: Event, next: nat)

  /** The event for an integer: the narrowest of the types that its sign allows, or the double path. */
  function IntegerEvent(minus: bool, v: nat): Option<Event> {
    if minus then
      if v <= 0x8000_0000 then Some(IntEvent(0 - v as int))
      else if v <= 0x8000_0000_0000_0000 then Some(Int64Event(0 - v as int))
      else None
    else
      if v <= 0xFFFF_FFFF then Some(UintEvent(v))
      else if v <= 0xFFFF_FFFF_FFFF_FFFF then Some(Uint64Event(v))
      else None
  }

  /** The number at `i`, read off its grammar and its decimal value. */
  function NumberAt(t: bytes, i: nat, flags: Flags): (n: Number)
    requires i <= |t|
    ensures n.GoodNumber? ==> i < n.next <= |t|
  {
    var minus := Peek(t, i) == MINUS;
    var j := if minus then i + 1 else i;
    match IntegerEnd(t, j)
    case None => BadNumber(ValueInvalid)
    case Some(k) =>
      match FractionEnd(t, k)
      case Stop(e) => BadNumber(e)
      case Range(m, frac) =>
        match ExponentEnd(t, m)
        case Stop(e) => BadNumber(e)
        case Range(n, exp) =>
          var integer := IntegerEvent(minus, DecimalValue(t, j, k));
          if !frac && !exp && integer.Some? then GoodNumber(integer.value, n)
          else if flags.tooBig(t[i..n]) then BadNumber(NumberTooBig)
          else GoodNumber(DoubleEvent(t[i..n]), n)
  }

  // --------------------------------------------------------------------- the code

  /** The largest magnitude of the narrow and of the wide integer type, by sign. */
  function Limit32(minus: bool): int {
    if minus then 0x8000_0000 else 0xFFFF_FFFF
  }

  function Limit64(minus: bool): int {
    if minus then 0x8000_0000_0000_0000 else 0xFFFF_FFFF_FFFF_FFFF
  }

  /** What the accumulation loops know: the digits before the cursor, and where they end. */
  ghost predicate Accumulating(t: bytes, j: nat, c: nat, value: int) {
    && j <= c <= |t|
    && (forall k :: j <= k < c ==> IsDigit(Peek(t, k)))
    && value == DecimalValue(t, j, c)
  }

  lemma AccumulatingEnds(t: bytes, j: nat, c: nat, value: int)
    requires Accumulating(t, j, c, value)
    ensures DigitsEnd(t, j) == DigitsEnd(t, c)
    ensures value <= DecimalValue(t, j, DigitsEnd(t, j))
    ensures IsDigit(Peek(t, c)) ==> value * 10 + (Peek(t, c) - ZERO) <= DecimalValue(t, j, DigitsEnd(t, j))
  {
    var e := DigitsEnd(t, c);
    DigitsEndIs(t, j, e);
    DecimalValueGrows(t, j, c, e);
    if IsDigit(Peek(t, c)) {
      DecimalValueGrows(t, j, c + 1, e);
    }
  }

  /** The 32-bit accumulation loop; it stops early, with `use64bit`, before the next digit would overflow. */
  method Accumulate32(s: StringStream, minus: bool, ghost j: nat, first: uint32) returns (i: uint32, use64bit: bool)
    requires Accumulating(s.text, j, s.src, first as int) && first < 10
    modifies s
    ensures Accumulating(s.text, j, s.src, i as int)
    ensures !use64bit ==> s.src == DigitsEnd(s.text, j) && i as int <= Limit32(minus)
    ensures use64bit ==> DecimalValue(s.text, j, DigitsEnd(s.text, j)) > Limit32(minus)
  {
    i := first;
    var cut: uint32, last: byte := 429496729, 0x35;
    if minus {
      cut, last := 214748364, 0x38;
    }
    while IsDigit(s.Peek())
      invariant Accumulating(s.text, j, s.src, i as int)
      invariant i as int <= Limit32(minus)
      decreases |s.text| - s.src
    {
      if i >= cut {
        if i != cut || s.Peek() > last {
          AccumulatingEnds(s.text, j, s.src, i as int);
          return i, true;
        }
      }
      var c := s.Take();
      i := i * 10 + (c - ZERO) as uint32;
    }
    AccumulatingEnds(s.text, j, s.src, i as int);
    return i, false;
  }

  /** The 64-bit accumulation loop. */
  method Accumulate64(s: StringStream, minus: bool, ghost j: nat, first: uint64) returns (i64: uint64, useDouble: bool)
    requires Accumulating(s.text, j, s.src, first as int) && first <= 0xFFFF_FFFF
    modifies s
    ensures Accumulating(s.text, j, s.src, i64 as int)
    ensures !useDouble ==> s.src == DigitsEnd(s.text, j) &&
                           i64 as int <= Limit64(minus)
    ensures useDouble ==> DecimalValue(s.text, j, DigitsEnd(s.text, j)) > Limit64(minus)
  {
    i64 := first;
    var cut: uint64, last: byte := 0x1999_9999_9999_9999, 0x35;
    if minus {
      cut, last := 0x0CCC_CCCC_CCCC_CCCC, 0x38;
    }
    while IsDigit(s.Peek())
      invariant Accumulating(s.text, j, s.src, i64 as int)
      invariant i64 as int <= Limit64(minus)
      decreases |s.text| - s.src
    {
      if i64 >= cut {
        if i64 != cut || s.Peek() > last {
          AccumulatingEnds(s.text, j, s.src, i64 as int);
          return i64, true;
        }
      }
      var c := s.Take();
      i64 := i64 * 10 + (c - ZERO) as uint64;
    }
    AccumulatingEnds(s.text, j, s.src, i64 as int);
    return i64, false;
  }

  method SkipDigits(s: StringStream)
    requires s.src <= |s.text|
    modifies s
    ensures s.src == DigitsEnd(s.text, old(s.src)) <= |s.text|
  {
    while IsDigit(s.Peek())
      invariant s.src <= |s.text|
      invariant DigitsEnd(s.text, s.src) == DigitsEnd(s.text, old(s.src))
      decreases |s.text| - s.src
    {
      var _ := s.Take();
    }
  }

  method ParseFraction(s: StringStream) returns (err: ParseError, found: bool)
    requires s.src <= |s.text|
    modifies s
    ensures s.src <= |s.text|
    ensures match FractionEnd(s.text, old(s.src))
      case Stop(e) => err == e && err != NoError
      case Range(end, frac) => err == NoError && s.src == end && found == frac
  {
    found := false;
    if s.Peek() == DOT {
      var _ := s.Take();
      if !IsDigit(s.Peek()) {
        return NumberMissFraction, false;
      }
      SkipDigits(s);
      found := true;
    }
    return NoError, found;
  }

  method ParseExponent(s: StringStream) returns (err: ParseError, found: bool)
    requires s.src <= |s.text|
    modifies s
    ensures s.src <= |s.text|
    ensures match ExponentEnd(s.text, old(s.src))
      case Stop(e) => err == e && err != NoError
      case Range(end, exp) => err == NoError && s.src == end && found == exp
  {
    found := false;
    if s.Peek() == 0x65 || s.Peek() == 0x45 {
      var _ := s.Take();
      if s.Peek() == PLUS {
        var _ := s.Take();
      } else if s.Peek() == MINUS {
        var _ := s.Take();
      }
      if !IsDigit(s.Peek()) {
        return NumberMissExponent, false;
      }
      SkipDigits(s);
      found := true;
    }
    return NoError, found;
  }

  /** Two's complement negation in `n` values, read back as a signed number. */
  function Negated(v: int, n: int): int
    requires 1 < n && 0 <= v < n
  {
    var u := if n - 1 - v == n - 1 then 0 else n - 1 - v + 1;  // ~v + 1, wrapping to 0
    if u >= n / 2 then u - n else u
  }

  /** What `ParseInteger` leaves behind: the exact value in `i` or `i64`, unless it overflows both. */
  ghost predicate Accumulated(minus: bool, v: nat, i: uint32, i64: uint64, use64bit: bool, useDouble: bool) {
    if useDouble then v > Limit64(minus)
    else if use64bit then v == i64 as int && Limit32(minus) < v <= Limit64(minus)
    else v == i as int && v <= Limit32(minus)
  }

  /** The integer part, after the sign. */
  method ParseInteger(s: StringStream, minus: bool)
    returns (ok: bool, i: uint32, i64: uint64, use64bit: bool, useDouble: bool)
    requires s.src <= |s.text|
    modifies s
    ensures s.src <= |s.text|
    ensures ok <==> IntegerEnd(s.text, old(s.src)).Some?
    ensures ok ==> IntegerEnd(s.text, old(s.src)) == Some(s.src)
    ensures ok ==> Accumulated(minus, DecimalValue(s.text, old(s.src), s.src), i, i64, use64bit, useDouble)
  {
    ghost var j := s.src;
    ok, i, i64, use64bit, useDouble := true, 0, 0, false, false;
    if s.Peek() == ZERO {
      var _ := s.Take();
      assert DecimalValue(s.text, j, j) == 0;
    } else if IsDigit(s.Peek()) {
      var c := s.Take();
      assert DecimalValue(s.text, j, j) == 0;
      i, use64bit := Accumulate32(s, minus, j, (c - ZERO) as uint32);
      if use64bit {
        i64, useDouble := Accumulate64(s, minus, j, i as uint64);
        if useDouble {
          AccumulatingEnds(s.text, j, s.src, i64 as int);
          SkipDigits(s);
        }
      }
    } else {
      ok := false;
    }
  }

  lemma NegatedIs(v: int, n: int)
    requires 1 < n && 0 <= 2 * v <= n
    ensures Negated(v, n) == -v
  {
  }

  /** The event of the narrower type that holds the value; negative ones by two's complement. */
  method MakeEvent(minus: bool, i: uint32, i64: uint64, use64bit: bool, ghost value: nat) returns (event: Event)
    requires Accumulated(minus, value, i, i64, use64bit, false)
    ensures IntegerEvent(minus, value) == Some(event)
  {
    hide Negated;
    if use64bit {
      event := if minus then Int64Event(Negated(i64 as int, 0x1_0000_0000_0000_0000)) else Uint64Event(i64 as int);
      if minus {
        NegatedIs(i64 as int, 0x1_0000_0000_0000_0000);
      }
    } else {
      event := if minus then IntEvent(Negated(i as int, 0x1_0000_0000)) else UintEvent(i as int);
      if minus {
        NegatedIs(i as int, 0x1_0000_0000);
      }
    }
  }

  /** Parses a number; its event carries the exact value of every integer literal that fits 64 bits. */
  method ParseNumber(s: StringStream, flags: Flags) returns (err: ParseError, event: Event)
    requires s.src <= |s.text|
    modifies s
    ensures match NumberAt(s.text, old(s.src), flags)
      case BadNumber(e) => err == e && err != NoError
      case GoodNumber(ev, next) => err == NoError && event == ev && s.src == next
  {
    hide DecimalValue, DigitsEnd, IntegerEnd, FractionEnd, ExponentEnd;
    var start := s.src;
    event := NullEvent;
    var minus := s.Peek() == MINUS;
    if minus {
      var _ := s.Take();
    }
    var ok, i, i64, use64bit, useDouble := ParseInteger(s, minus);
    if !ok {
      return ValueInvalid, event;
    }
    ghost var value := DecimalValue(s.text, if minus then start + 1 else start, s.src);
    var found;
    err, found := ParseFraction(s);
    if err != NoError {
      return;
    }
    var isDouble := useDouble || found;
    err, found := ParseExponent(s);
    if err != NoError {
      return;
    }
    isDouble := isDouble || found;
    if isDouble {
      if flags.tooBig(s.text[start..s.src]) {
        return NumberTooBig, event;
      }
      event := DoubleEvent(s.text[start..s.src]);
    } else {
      event := MakeEvent(minus, i, i64, use64bit, value);
    }
  }

  // ------------------------------------------------------------- decimal printing

  /** Plain decimal printing of a natural number. */
  function Decimal(n: nat): (d: bytes)
    ensures |d| > 0
  {
    (if n < 10 then [] else Decimal(n / 10)) + [ZERO + n % 10]
  }

  function PrintInteger(v: int): bytes {
    if v < 0 then [MINUS] + Decimal(-v) else Decimal(v)
  }

  lemma AppendDigit(t: bytes, i: nat, j: nat, q: nat, r: nat)
    requires i <= j && forall k :: i <= k < j ==> IsDigit(Peek(t, k))
    requires DecimalValue(t, i, j) == q && r < 10 && Peek(t, j) == ZERO + r
    ensures forall k :: i <= k < j + 1 ==> IsDigit(Peek(t, k))
    ensures DecimalValue(t, i, j + 1) == q * 10 + r
  {
  }

  /** Printed digits are digits, denote the number, and have no leading zero. */
  lemma {:induction false} DecimalDigits(t: bytes, i: nat, n: nat)
    requires At(t, i, Decimal(n))
    ensures forall k :: i <= k < i + |Decimal(n)| ==> IsDigit(Peek(t, k))
    ensures DecimalValue(t, i, i + |Decimal(n)|) == n
    ensures Peek(t, i) == ZERO <==> n == 0
    ensures n == 0 ==> |Decimal(n)| == 1
  {
    hide At, Peek, DecimalValue;
    var q, r := n / 10, n % 10;
    var front := if n < 10 then [] else Decimal(q);
    var j := i + |front|;
    AtConcat(t, i, front, [ZERO + r]);
    AtPeek(t, j, [ZERO + r], 0);
    if n >= 10 {
      DecimalDigits(t, i, q);
    } else {
      EmptyDecimal(t, i);
    }
    AppendDigit(t, i, j, if n < 10 then 0 else q, r);
  }

  lemma EmptyDecimal(t: bytes, i: nat)
    ensures DecimalValue(t, i, i) == 0
  {
  }

  /** Reading a printed integer back gives its event again, whatever non-number character follows. */
  lemma PrintedInteger(t: bytes, i: nat, v: int, flags: Flags)
    requires -0x8000_0000_0000_0000 <= v <= 0xFFFF_FFFF_FFFF_FFFF
    requires At(t, i, PrintInteger(v))
    requires var c := Peek(t, i + |PrintInteger(v)|); !IsDigit(c) && c != DOT && c != 0x65 && c != 0x45
    ensures NumberAt(t, i, flags) ==
      GoodNumber(IntegerEvent(v < 0, if v < 0 then -v else v).value, i + |PrintInteger(v)|)
    ensures v >= 0 ==> IsDigit(Peek(t, i))
    ensures v < 0 ==> Peek(t, i) == MINUS
  {
    hide DecimalValue, DigitsEnd, Decimal, IntegerEnd, NumberAt, At;
    var n := if v < 0 then -v else v;
    var j := if v < 0 then i + 1 else i;
    AtIsWithin(t, i, PrintInteger(v));
    if v < 0 {
      AtConcat(t, i, [MINUS], Decimal(n));
      AtPeek(t, i, [MINUS], 0);
    }
    PrintedDigits(t, j, n);
    ScannedInteger(t, i, v < 0, j + |Decimal(n)|, n, flags);
  }

  lemma AtIsWithin(t: bytes, i: nat, p: bytes)
    requires At(t, i, p)
    ensures i + |p| <= |t|
  {
  }

  lemma PrintedDigits(t: bytes, j: nat, n: nat)
    requires At(t, j, Decimal(n)) && !IsDigit(Peek(t, j + |Decimal(n)|))
    ensures IsDigit(Peek(t, j)) && IntegerEnd(t, j) == Some(j + |Decimal(n)|)
    ensures forall k :: j <= k < j + |Decimal(n)| ==> IsDigit(Peek(t, k))
    ensures DecimalValue(t, j, j + |Decimal(n)|) == n
  {
    hide DecimalValue, DigitsEnd, Decimal, At, Peek;
    DecimalDigits(t, j, n);
    DigitsEndIs(t, j, j + |Decimal(n)|);
  }

  /** An integer part with neither fraction nor exponent behind it is an integer event. */
  lemma ScannedInteger(t: bytes, i: nat, minus: bool, e: nat, n: nat, flags: Flags)
    requires i <= |t| && (minus <==> Peek(t, i) == MINUS)
    requires var j := if minus then i + 1 else i;
      j <= e && IntegerEnd(t, j) == Some(e) && (forall k :: j <= k < e ==> IsDigit(Peek(t, k))) && DecimalValue(t, j, e) == n
    requires Peek(t, e) != DOT && Peek(t, e) != 0x65 && Peek(t, e) != 0x45
    requires IntegerEvent(minus, n).Some?
    ensures NumberAt(t, i, flags) == GoodNumber(IntegerEvent(minus, n).value, e)
  {
    hide DecimalValue, DigitsEnd, IntegerEnd, Peek, IntegerEvent;
  }
}
