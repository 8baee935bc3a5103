/** The numbers of RFC 8259, written down without the reader's functions, and that the reader takes exactly these. */
module JsonNumbers {
  import opened Arithmetic
  import opened Bytes
  import opened Events
  import opened Numbers

  // ------------------------------------------------------------ section 6 of RFC 8259

  predicate Digits(s: bytes) {
    forall k :: 0 <= k < |s| ==> 0x30 <= s[k] <= 0x39
  }

  /** A zero, or digits that begin with another one. */
  predicate IsInt(s: bytes) {
    s == [0x30] || (s != [] && 0x31 <= s[0] && Digits(s))
  }

  predicate IsFrac(s: bytes) {
    |s| >= 2 && s[0] == 0x2E && Digits(s[1..])
  }

  predicate IsExp(s: bytes) {
    |s| >= 2 && (s[0] == 0x65 || s[0] == 0x45) &&
    (Digits(s[1..]) || (|s| >= 3 && (s[1] == 0x2B || s[1] == 0x2D) && Digits(s[2..])))
  }

  /** Where the integer part begins. */
  function Sign(s: bytes): (a: nat)
    ensures a <= |s| && a <= 1
  {
    if s != [] && s[0] == 0x2D then 1 else 0
  }

  /** The integer part ends at `b` and the fraction, if there is one, at `c`. */
  predicate Parts(s: bytes, b: nat, c: nat) {
    Sign(s) <= b <= c <= |s| && IsInt(s[Sign(s)..b]) && (b < c ==> IsFrac(s[b..c])) && (c < |s| ==> IsExp(s[c..]))
  }

  ghost predicate IsNumber(s: bytes) {
    exists b: nat, c: nat :: Parts(s, b, c)
  }

  /** A decimal point or an exponent. */
  predicate HasPoint(s: bytes) {
    exists k :: 0 <= k < |s| && (s[k] == 0x2E || s[k] == 0x65 || s[k] == 0x45)
  }

  /** The event that a number deserves: its value in the narrowest integer type of its sign, or the double path with its
      text. */
  function EventOf(s: bytes): Event
    requires s != []
  {
    var v := Denoted(s[Sign(s)..]);
    if HasPoint(s) || v < 0 then DoubleEvent(s)
    else if s[0] == 0x2D then
      if v <= 0x8000_0000 then IntEvent(0 - v)
      else if v <= 0x8000_0000_0000_0000 then Int64Event(0 - v)
      else DoubleEvent(s)
    else
      if v <= 0xFFFF_FFFF then UintEvent(v)
      else if v <= 0xFFFF_FFFF_FFFF_FFFF then Uint64Event(v)
      else DoubleEvent(s)
  }

  // ------------------------------------------------------------ runs of digits

  lemma RunReaches(t: bytes, i: nat, m: nat)
    requires i <= m <= |t| && Digits(t[i..m])
    ensures DigitsEnd(t, i) >= m
  {
    forall k | i <= k < m
      ensures IsDigit(Peek(t, k))
    {
      assert t[i..m][k - i] == t[k];
    }
  }

  lemma RunIs(t: bytes, i: nat, m: nat)
    requires i <= m <= |t| && Digits(t[i..m]) && !IsDigit(Peek(t, m))
    ensures DigitsEnd(t, i) == m
  {
    forall k | i <= k < m
      ensures IsDigit(Peek(t, k))
    {
      assert t[i..m][k - i] == t[k];
    }
    DigitsEndIs(t, i, m);
  }

  lemma RunIsDigits(t: bytes, i: nat, m: nat)
    requires i <= m <= |t| && forall k :: i <= k < m ==> IsDigit(Peek(t, k))
    ensures Digits(t[i..m])
  {
    assert forall k :: 0 <= k < m - i ==> t[i..m][k] == Peek(t, i + k);
  }

  lemma {:induction false} SameValue(t: bytes, i: nat, m: nat)
    requires i <= m <= |t| && forall k :: i <= k < m ==> IsDigit(Peek(t, k))
    ensures DecimalValue(t, i, m) == Denoted(t[i..m])
    decreases m - i
  {
    if i < m {
      SameValue(t, i, m - 1);
      assert t[i..m][..m - i - 1] == t[i..m - 1] && t[i..m][m - i - 1] == t[m - 1];
    } else {
      assert t[i..m] == [];
    }
  }

  // ------------------------------------------------------------ the three parts

  /** The integer part is read at least to the end of any integer that stands there. */
  lemma IntReaches(t: bytes, j: nat, m: nat)
    requires j <= m <= |t| && IsInt(t[j..m])
    ensures IntegerEnd(t, j).Some? && IntegerEnd(t, j).value >= m
  {
    assert t[j..m][0] == t[j];
    if t[j..m] != [0x30] {
      RunReaches(t, j, m);
    } else {
      assert |t[j..m]| == 1;
    }
  }

  lemma IntEnds(t: bytes, j: nat, m: nat)
    requires j <= m <= |t| && IsInt(t[j..m]) && !IsDigit(Peek(t, m))
    ensures IntegerEnd(t, j) == Some(m)
  {
    IntReaches(t, j, m);
    var e := IntegerEnd(t, j).value;
    assert e > m ==> IsDigit(Peek(t, m));
  }

  lemma IntIsInt(t: bytes, j: nat)
    requires IntegerEnd(t, j).Some?
    ensures j < IntegerEnd(t, j).value <= |t| && IsInt(t[j..IntegerEnd(t, j).value])
  {
    var e := IntegerEnd(t, j).value;
    RunIsDigits(t, j, e);
    assert t[j..e][0] == t[j];
  }

  lemma FracReaches(t: bytes, k: nat, m: nat)
    requires k < m <= |t| && IsFrac(t[k..m])
    ensures FractionEnd(t, k).Range? && FractionEnd(t, k).end >= m && FractionEnd(t, k).isDouble
  {
    assert t[k..m][0] == t[k] && t[k..m][1] == t[k + 1] && t[k..m][1..] == t[k + 1..m];
    assert IsDigit(t[k..m][1..][0]);
    RunReaches(t, k + 1, m);
  }

  lemma FracEnds(t: bytes, k: nat, m: nat)
    requires k < m <= |t| && IsFrac(t[k..m]) && !IsDigit(Peek(t, m))
    ensures FractionEnd(t, k) == Range(m, true)
  {
    FracReaches(t, k, m);
    assert t[k..m][1..] == t[k + 1..m];
    RunIs(t, k + 1, m);
  }

  lemma FracIsFrac(t: bytes, k: nat)
    requires FractionEnd(t, k).Range? && k <= |t|
    ensures k <= FractionEnd(t, k).end <= |t|
    ensures FractionEnd(t, k).isDouble <==> k < FractionEnd(t, k).end
    ensures FractionEnd(t, k).isDouble ==> IsFrac(t[k..FractionEnd(t, k).end])
  {
    var e := FractionEnd(t, k).end;
    if FractionEnd(t, k).isDouble {
      RunIsDigits(t, k + 1, e);
      assert t[k..e][0] == t[k] && t[k..e][1..] == t[k + 1..e];
    }
  }

  /** Where the digits of an exponent begin. */
  function ExpStart(t: bytes, k: nat): nat {
    if Peek(t, k + 1) == 0x2B || Peek(t, k + 1) == 0x2D then k + 2 else k + 1
  }

  lemma ExpDigits(t: bytes, k: nat, m: nat)
    requires k < m <= |t| && IsExp(t[k..m])
    ensures (t[k] == 0x65 || t[k] == 0x45) && ExpStart(t, k) < m && Digits(t[ExpStart(t, k)..m])
    ensures IsDigit(Peek(t, ExpStart(t, k)))
  {
    var x := t[k..m];
    assert x[0] == t[k] && x[1] == t[k + 1] && x[1..] == t[k + 1..m];
    if ExpStart(t, k) == k + 2 {
      assert x[1..][0] == x[1];
      assert x[2..] == t[k + 2..m];
    }
    assert t[ExpStart(t, k)..m][0] == t[ExpStart(t, k)];
  }

  lemma ExpReaches(t: bytes, k: nat, m: nat)
    requires k < m <= |t| && IsExp(t[k..m])
    ensures ExponentEnd(t, k).Range? && ExponentEnd(t, k).end >= m && ExponentEnd(t, k).isDouble
  {
    ExpDigits(t, k, m);
    RunReaches(t, ExpStart(t, k), m);
  }

  lemma ExpEnds(t: bytes, k: nat, m: nat)
    requires k < m <= |t| && IsExp(t[k..m]) && !IsDigit(Peek(t, m))
    ensures ExponentEnd(t, k) == Range(m, true)
  {
    ExpDigits(t, k, m);
    RunIs(t, ExpStart(t, k), m);
  }

  lemma ExpIsExp(t: bytes, k: nat)
    requires ExponentEnd(t, k).Range? && k <= |t|
    ensures k <= ExponentEnd(t, k).end <= |t|
    ensures ExponentEnd(t, k).isDouble <==> k < ExponentEnd(t, k).end
    ensures ExponentEnd(t, k).isDouble ==> IsExp(t[k..ExponentEnd(t, k).end])
  {
    var e, d := ExponentEnd(t, k).end, ExpStart(t, k);
    if ExponentEnd(t, k).isDouble {
      RunIsDigits(t, d, e);
      var x := t[k..e];
      assert x[0] == t[k] && x[1..] == t[k + 1..e] && x[1] == t[k + 1];
      assert d == k + 2 ==> x[2..] == t[k + 2..e];
    }
  }

  // ------------------------------------------------------------ whole numbers

  /** The parts of a number, as they stand in the text. */
  lemma PartsAt(t: bytes, i: nat, m: nat, b: nat, c: nat)
    requires i < m <= |t| && Parts(t[i..m], b, c)
    ensures var j := i + Sign(t[i..m]);
      && (Sign(t[i..m]) == 1 <==> t[i] == 0x2D) && j <= i + b <= i + c <= m && IsInt(t[j..i + b])
      && (b < c ==> IsFrac(t[i + b..i + c])) && (i + c < m ==> IsExp(t[i + c..m]))
  {
    var s := t[i..m];
    assert s[0] == t[i];
    SliceOfSlice(t, i, m, Sign(s), b);
    SliceOfSlice(t, i, m, b, c);
    SliceOfSlice(t, i, m, c, m - i);
    assert s[c..] == s[c..m - i];
    hide IsInt, IsFrac, IsExp;
  }

  lemma AtParts(t: bytes, i: nat, m: nat, b: nat, c: nat)
    requires i < m <= |t|
    requires var j := i + Sign(t[i..m]);
      && j <= i + b <= i + c <= m && IsInt(t[j..i + b])
      && (b < c ==> IsFrac(t[i + b..i + c])) && (i + c < m ==> IsExp(t[i + c..m]))
    ensures Parts(t[i..m], b, c)
  {
    var s := t[i..m];
    SliceOfSlice(t, i, m, Sign(s), b);
    SliceOfSlice(t, i, m, b, c);
    SliceOfSlice(t, i, m, c, m - i);
    assert s[c..] == s[c..m - i];
    hide IsInt, IsFrac, IsExp;
  }

  lemma PartsOf(s: bytes) returns (b: nat, c: nat)
    requires IsNumber(s)
    ensures Parts(s, b, c)
  {
    hide Parts;
    b, c :| Parts(s, b, c);
  }

  lemma PeekIs(t: bytes, i: nat)
    ensures i < |t| ==> Peek(t, i) == t[i]
  {
  }

  lemma StandsThere(t: bytes, i: nat, s: bytes)
    requires At(t, i, s)
    ensures i + |s| <= |t| && t[i..i + |s|] == s
  {
  }

  lemma NotEmpty(s: bytes, b: nat, c: nat)
    requires Parts(s, b, c)
    ensures s != [] && Sign(s) < b
  {
  }

  /** The reader does not stop before the end of any number that stands at `i`. */
  lemma ReadReaches(t: bytes, i: nat, m: nat, flags: Flags)
    requires i <= m <= |t| && IsNumber(t[i..m]) && NumberAt(t, i, flags).GoodNumber?
    ensures NumberAt(t, i, flags).next >= m
  {
    hide *;
    var b, c := PartsOf(t[i..m]);
    NotEmpty(t[i..m], b, c);
    PartsAt(t, i, m, b, c);
    var j := i + Sign(t[i..m]);
    PeekIs(t, i);
    AcceptedEnds(t, i, flags);
    IntReaches(t, j, i + b);
    EndsReach(t, j, i + b, i + c, m);
  }

  /** The three ends that were found when a number was accepted. */
  lemma AcceptedEnds(t: bytes, i: nat, flags: Flags)
    requires i <= |t| && NumberAt(t, i, flags).GoodNumber?
    ensures var j := if Peek(t, i) == 0x2D then i + 1 else i;
      && IntegerEnd(t, j).Some? && FractionEnd(t, IntegerEnd(t, j).value).Range?
      && ExponentEnd(t, FractionEnd(t, IntegerEnd(t, j).value).end).Range?
      && NumberAt(t, i, flags).next == ExponentEnd(t, FractionEnd(t, IntegerEnd(t, j).value).end).end
  {
    hide IntegerEnd, FractionEnd, ExponentEnd, DecimalValue, IntegerEvent;
  }

  /** What three ends say. */
  lemma FromEnds(t: bytes, i: nat, flags: Flags, j: nat, k: nat, f: nat, m: nat)
    requires i <= |t| && j == if Peek(t, i) == 0x2D then i + 1 else i
    requires k <= f <= m && IntegerEnd(t, j) == Some(k)
    requires FractionEnd(t, k) == Range(f, k < f) && ExponentEnd(t, f) == Range(m, f < m)
    ensures m <= |t|
    ensures var integer := IntegerEvent(Peek(t, i) == 0x2D, DecimalValue(t, j, k));
      NumberAt(t, i, flags) ==
        if k == m && integer.Some? then GoodNumber(integer.value, m)
        else if flags.tooBig(t[i..m]) then BadNumber(NumberTooBig)
        else GoodNumber(DoubleEvent(t[i..m]), m)
  {
    hide IntegerEnd, FractionEnd, ExponentEnd, DecimalValue, IntegerEvent;
  }

  lemma EndsReach(t: bytes, j: nat, b: nat, c: nat, m: nat)
    requires j <= b <= c <= m <= |t| && IntegerEnd(t, j).Some? && IntegerEnd(t, j).value >= b
    requires (b < c ==> IsFrac(t[b..c])) && (c < m ==> IsExp(t[c..m]))
    requires FractionEnd(t, IntegerEnd(t, j).value).Range?
    requires ExponentEnd(t, FractionEnd(t, IntegerEnd(t, j).value).end).Range?
    ensures ExponentEnd(t, FractionEnd(t, IntegerEnd(t, j).value).end).end >= m
  {
    var k := IntegerEnd(t, j).value;
    assert b < k ==> IsDigit(Peek(t, b));
    if b < c {
      assert t[b..c][0] == t[b];
      FracReaches(t, b, c);
    } else if c < m {
      ExpDigits(t, c, m);
    }
    var f := FractionEnd(t, k).end;
    if c < m {
      ExpDigits(t, c, m);
      FracIsFrac(t, k);
      if b < c {
        FracRun(t, b, c, f);
      }
      ExpReaches(t, c, m);
    }
  }

  /** A fraction does not run on over a character that is no digit. */
  lemma FracRun(t: bytes, b: nat, c: nat, f: nat)
    requires b < c < |t| && FractionEnd(t, b) == Range(f, true) && f >= c > b + 1 && !IsDigit(t[c])
    ensures f == c
  {
    assert f == DigitsEnd(t, b + 1);
    assert c < f ==> IsDigit(Peek(t, c));
  }

  /** What is accepted is a number that cannot be extended, and it is reported as it deserves. */
  lemma ReadIsNumber(t: bytes, i: nat, flags: Flags)
    requires i <= |t| && NumberAt(t, i, flags).GoodNumber?
    ensures var next := NumberAt(t, i, flags).next;
      && i < next <= |t| && IsNumber(t[i..next]) && NumberAt(t, i, flags).event == EventOf(t[i..next])
      && forall m :: next < m <= |t| ==> !IsNumber(t[i..m])
  {
    var next := NumberAt(t, i, flags).next;
    ReadParts(t, i, flags);
    forall m | next < m <= |t|
      ensures !IsNumber(t[i..m])
    {
      if IsNumber(t[i..m]) {
        ReadReaches(t, i, m, flags);
      }
    }
  }

  lemma ReadParts(t: bytes, i: nat, flags: Flags)
    requires i <= |t| && NumberAt(t, i, flags).GoodNumber?
    ensures var next := NumberAt(t, i, flags).next;
      i < next <= |t| && IsNumber(t[i..next]) && NumberAt(t, i, flags).event == EventOf(t[i..next])
  {
    hide IsInt, IsFrac, IsExp, EventOf, IntegerEnd, FractionEnd, ExponentEnd, Parts;
    hide DecimalValue, NumberAt, IntegerEvent;
    var j := if Peek(t, i) == MINUS then i + 1 else i;
    AcceptedEnds(t, i, flags);
    IntIsInt(t, j);
    var k := IntegerEnd(t, j).value;
    FracIsFrac(t, k);
    var f := FractionEnd(t, k).end;
    ExpIsExp(t, f);
    var next := ExponentEnd(t, f).end;
    assert t[i..next][0] == t[i];
    AtParts(t, i, next, k - i, f - i);
    EventAgrees(t, i, next, k - i, f - i);
    FromEnds(t, i, flags, j, k, f, next);
  }

  /** The event of a number is told by its parts. */
  lemma EventAgrees(t: bytes, i: nat, m: nat, b: nat, c: nat)
    requires i < m <= |t| && Parts(t[i..m], b, c)
    requires var j := i + Sign(t[i..m]); forall k :: j <= k < i + b ==> IsDigit(Peek(t, k))
    ensures Sign(t[i..m]) <= b
    ensures var integer := IntegerEvent(t[i] == 0x2D, DecimalValue(t, i + Sign(t[i..m]), i + b));
      EventOf(t[i..m]) == if b == m - i && integer.Some? then integer.value else DoubleEvent(t[i..m])
  {
    hide Parts, HasPoint, DecimalValue, IsInt, IsFrac, IsExp, Denoted, Sign, EventOf, IntegerEvent;
    PartsAt(t, i, m, b, c);
    var s, j := t[i..m], i + Sign(t[i..m]);
    SameValue(t, j, i + b);
    assert s[0] == t[i];
    PointIff(t, i, m, b, c);
    SliceOfSlice(t, i, m, Sign(s), b);
    EventFromParts(s, b, DecimalValue(t, j, i + b));
  }

  lemma EventFromParts(s: bytes, b: nat, v: nat)
    requires s != [] && Sign(s) <= b <= |s| && (HasPoint(s) <==> b < |s|) && v == Denoted(s[Sign(s)..b])
    ensures var integer := IntegerEvent(s[0] == 0x2D, v);
      EventOf(s) == if b == |s| && integer.Some? then integer.value else DoubleEvent(s)
  {
    assert b == |s| ==> s[Sign(s)..b] == s[Sign(s)..];
    hide HasPoint, Denoted;
  }

  lemma PointIff(t: bytes, i: nat, m: nat, b: nat, c: nat)
    requires i < m <= |t| && Parts(t[i..m], b, c)
    ensures HasPoint(t[i..m]) <==> b < m - i
  {
    PartsAt(t, i, m, b, c);
    var s := t[i..m];
    if b < c {
      assert s[b] == t[i + b..i + c][0];
    } else if c < |s| {
      assert s[c] == t[i + c..m][0];
    } else {
      IntHasNoPoint(s, b);
    }
  }

  lemma IntHasNoPoint(s: bytes, b: nat)
    requires Sign(s) <= b == |s| && IsInt(s[Sign(s)..b])
    ensures !HasPoint(s)
  {
    forall k | 0 <= k < |s|
      ensures s[k] != 0x2E && s[k] != 0x65 && s[k] != 0x45
    {
      if k >= Sign(s) {
        assert s[Sign(s)..b][k - Sign(s)] == s[k];
      }
    }
  }

  /** Any number is accepted where no digit, no point and no `e` follows, unless it is a double that is too big. */
  lemma NumberIsRead(t: bytes, i: nat, s: bytes, flags: Flags)
    requires IsNumber(s) && At(t, i, s)
    requires var x := Peek(t, i + |s|); !IsDigit(x) && x != 0x2E && x != 0x65 && x != 0x45
    ensures s != []
    ensures NumberAt(t, i, flags) ==
      if EventOf(s).DoubleEvent? && flags.tooBig(s) then BadNumber(NumberTooBig) else GoodNumber(EventOf(s), i + |s|)
  {
    hide *;
    var b, c := PartsOf(s);
    NotEmpty(s, b, c);
    var m := i + |s|;
    StandsThere(t, i, s);
    PartsAt(t, i, m, b, c);
    var j := i + Sign(s);
    PeekIs(t, i);
    EndsAre(t, j, i + b, i + c, m);
    FromEnds(t, i, flags, j, i + b, i + c, m);
    EventAgrees(t, i, m, b, c);
    IntegerIsNoDouble(t[i] == 0x2D, DecimalValue(t, j, i + b));
  }

  lemma IntegerIsNoDouble(minus: bool, v: nat)
    ensures IntegerEvent(minus, v).Some? ==> !IntegerEvent(minus, v).value.DoubleEvent?
  {
  }

  lemma EndsAre(t: bytes, j: nat, b: nat, c: nat, m: nat)
    requires j <= b <= c <= m <= |t| && IsInt(t[j..b])
    requires (b < c ==> IsFrac(t[b..c])) && (c < m ==> IsExp(t[c..m]))
    requires var x := Peek(t, m); !IsDigit(x) && x != 0x2E && x != 0x65 && x != 0x45
    ensures IntegerEnd(t, j) == Some(b) && FractionEnd(t, b) == Range(c, b < c) && ExponentEnd(t, c) == Range(m, c < m)
  {
    if c < m {
      ExpDigits(t, c, m);
      ExpEnds(t, c, m);
    }
    if b < c {
      assert t[b..c][0] == t[b];
      FracEnds(t, b, c);
    }
    IntEnds(t, j, b);
  }

  // ------------------------------------------------------------ refusals

  lemma SomeInt(t: bytes, i: nat, m: nat)
    requires i <= m <= |t| && IsNumber(t[i..m])
    ensures IntegerEnd(t, if Peek(t, i) == 0x2D then i + 1 else i).Some?
  {
    hide *;
    var b, c := PartsOf(t[i..m]);
    NotEmpty(t[i..m], b, c);
    PartsAt(t, i, m, b, c);
    PeekIs(t, i);
    IntReaches(t, i + Sign(t[i..m]), i + b);
  }

  /** A number is refused for what stands there: there is none; a point or an `e` without its digits follows the number
      up to `k`; or the whole number is too big for a double. */
  lemma RefusedNumber(t: bytes, i: nat, flags: Flags) returns (k: nat)
    requires i <= |t| && NumberAt(t, i, flags).BadNumber?
    ensures match NumberAt(t, i, flags).error
      case ValueInvalid => forall m :: i <= m <= |t| ==> !IsNumber(t[i..m])
      case NumberMissFraction =>
        i < k <= |t| && IsNumber(t[i..k]) && !HasPoint(t[i..k]) && Peek(t, k) == 0x2E && !IsDigit(Peek(t, k + 1))
      case NumberMissExponent =>
        i < k <= |t| && IsNumber(t[i..k]) && (Peek(t, k) == 0x65 || Peek(t, k) == 0x45) &&
        !IsDigit(Peek(t, ExpStart(t, k)))
      case NumberTooBig =>
        i < k <= |t| && IsNumber(t[i..k]) && EventOf(t[i..k]).DoubleEvent? && flags.tooBig(t[i..k])
      case _ => false
  {
    var j := if Peek(t, i) == 0x2D then i + 1 else i;
    RefusedEnds(t, i, flags, j);
    hide *;
    if IntegerEnd(t, j) == None {
      NoInt(t, i, j);
      k := i;
    } else {
      var e := IntegerEnd(t, j).value;
      IntAlone(t, i, j, e);
      if FractionEnd(t, e).Stop? {
        k := e;
      } else {
        var f := FractionEnd(t, e).end;
        IntAndFrac(t, i, j, e, f);
        if ExponentEnd(t, f).Stop? {
          k := f;
        } else {
          k := ExponentEnd(t, f).end;
          TooBig(t, i, flags, j, e, f, k);
        }
      }
    }
  }

  lemma NoInt(t: bytes, i: nat, j: nat)
    requires j == (if Peek(t, i) == 0x2D then i + 1 else i) && IntegerEnd(t, j) == None
    ensures forall m :: i <= m <= |t| ==> !IsNumber(t[i..m])
  {
    hide *;
    forall m | i <= m <= |t|
      ensures !IsNumber(t[i..m])
    {
      if IsNumber(t[i..m]) {
        SomeInt(t, i, m);
      }
    }
  }

  lemma IntAlone(t: bytes, i: nat, j: nat, k: nat)
    requires i <= |t| && j == (if Peek(t, i) == 0x2D then i + 1 else i) && IntegerEnd(t, j) == Some(k)
    ensures i < k <= |t| && IsNumber(t[i..k]) && !HasPoint(t[i..k])
  {
    hide IsInt, IntegerEnd, Parts, HasPoint;
    IntIsInt(t, j);
    assert t[i..k][0] == t[i];
    AtParts(t, i, k, k - i, k - i);
    PointIff(t, i, k, k - i, k - i);
  }

  lemma IntAndFrac(t: bytes, i: nat, j: nat, k: nat, f: nat)
    requires i <= |t| && j == (if Peek(t, i) == 0x2D then i + 1 else i) && IntegerEnd(t, j) == Some(k)
    requires FractionEnd(t, k).Range? && FractionEnd(t, k).end == f
    ensures i < k <= f <= |t| && IsNumber(t[i..f])
  {
    hide IsInt, IsFrac, IntegerEnd, FractionEnd, Parts;
    IntIsInt(t, j);
    FracIsFrac(t, k);
    assert t[i..f][0] == t[i];
    AtParts(t, i, f, k - i, f - i);
  }

  lemma TooBig(t: bytes, i: nat, flags: Flags, j: nat, k: nat, f: nat, m: nat)
    requires i <= |t| && j == (if Peek(t, i) == 0x2D then i + 1 else i) && IntegerEnd(t, j) == Some(k)
    requires FractionEnd(t, k).Range? && FractionEnd(t, k).end == f
    requires ExponentEnd(t, f).Range? && ExponentEnd(t, f).end == m && NumberAt(t, i, flags).BadNumber?
    ensures i < m <= |t| && IsNumber(t[i..m]) && EventOf(t[i..m]).DoubleEvent? && flags.tooBig(t[i..m])
  {
    hide IsInt, IsFrac, IsExp, EventOf, IntegerEnd, FractionEnd, ExponentEnd, Parts;
    hide DecimalValue, NumberAt, IntegerEvent;
    IntIsInt(t, j);
    FracIsFrac(t, k);
    ExpIsExp(t, f);
    assert t[i..m][0] == t[i];
    AtParts(t, i, m, k - i, f - i);
    EventAgrees(t, i, m, k - i, f - i);
    FromEnds(t, i, flags, j, k, f, m);
    IntegerIsNoDouble(t[i] == 0x2D, DecimalValue(t, j, k));
  }

  lemma RefusedEnds(t: bytes, i: nat, flags: Flags, j: nat)
    requires i <= |t| && NumberAt(t, i, flags).BadNumber? && j == if Peek(t, i) == 0x2D then i + 1 else i
    ensures match IntegerEnd(t, j)
      case None => NumberAt(t, i, flags).error == ValueInvalid
      case Some(k) =>
        match FractionEnd(t, k)
        case Stop(e) =>
          NumberAt(t, i, flags).error == NumberMissFraction && Peek(t, k) == 0x2E && !IsDigit(Peek(t, k + 1))
        case Range(f, _) =>
          match ExponentEnd(t, f)
          case Stop(e) =>
            NumberAt(t, i, flags).error == NumberMissExponent && (Peek(t, f) == 0x65 || Peek(t, f) == 0x45) &&
            !IsDigit(Peek(t, ExpStart(t, f)))
          case Range(m, _) => NumberAt(t, i, flags).error == NumberTooBig
  {
    hide DigitsEnd, DecimalValue, IntegerEvent;
  }
}
