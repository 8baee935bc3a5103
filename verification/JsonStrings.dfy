/** The strings of RFC 8259, written down without the reader's functions, and that the reader takes exactly these. */
module JsonStrings {
  import opened Bytes
  import opened Events
  import opened Utf8
  import opened StringText

  // ------------------------------------------------------------ section 7 of RFC 8259

  /** One character of a string, as it is written. */
  datatype Spelling =
    | Raw(plain: bytes)
    | Short(letter: byte)
    | Hex(digits: bytes)
    | Pair(high: bytes, low: bytes)

  /** The eight characters that have a two-character escape, with its letter. */
  predicate StandsFor(letter: byte, c: byte) {
    || (letter == 0x22 && c == 0x22)  // quotation mark
    || (letter == 0x5C && c == 0x5C)  // reverse solidus
    || (letter == 0x2F && c == 0x2F)  // solidus
    || (letter == 0x62 && c == 0x08)  // b: backspace
    || (letter == 0x66 && c == 0x0C)  // f: form feed
    || (letter == 0x6E && c == 0x0A)  // n: line feed
    || (letter == 0x72 && c == 0x0D)  // r: carriage return
    || (letter == 0x74 && c == 0x09)  // t: tab
  }

  predicate IsHexDigit(d: byte) {
    0x30 <= d <= 0x39 || 0x41 <= d <= 0x46 || 0x61 <= d <= 0x66
  }

  function DigitValue(d: byte): (v: nat)
    requires IsHexDigit(d)
    ensures v < 16
  {
    if d <= 0x39 then d - 0x30 else if d <= 0x46 then d - 0x41 + 10 else d - 0x61 + 10
  }

  predicate FourDigits(h: bytes) {
    |h| == 4 && IsHexDigit(h[0]) && IsHexDigit(h[1]) && IsHexDigit(h[2]) && IsHexDigit(h[3])
  }

  function FourValue(h: bytes): (v: nat)
    requires FourDigits(h)
    ensures v <= 0xFFFF
  {
    DigitValue(h[0]) * 0x1000 + DigitValue(h[1]) * 0x100 + DigitValue(h[2]) * 0x10 + DigitValue(h[3])
  }

  /** What may be written in a string: a character that needs no escape, a byte of one when encodings are not checked, a
      two-character escape, four digits for a character of the basic plane, or two times four for another one. */
  predicate Allowed(s: Spelling, validate: bool) {
    match s
    case Raw(plain) =>
      plain != [] && plain[0] >= 0x20 && plain[0] != 0x22 && plain[0] != 0x5C &&
      if validate then WellFormed(plain) else |plain| == 1
    case Short(letter) => exists c :: StandsFor(letter, c)
    case Hex(digits) => FourDigits(digits) && !(0xD800 <= FourValue(digits) <= 0xDFFF)
    case Pair(high, low) =>
      FourDigits(high) && FourDigits(low) && 0xD800 <= FourValue(high) <= 0xDBFF && 0xDC00 <= FourValue(low) <= 0xDFFF
  }

  function Written(s: Spelling): bytes {
    match s
    case Raw(plain) => plain
    case Short(letter) => [0x5C, letter]
    case Hex(digits) => [0x5C, 0x75] + digits
    case Pair(high, low) => [0x5C, 0x75] + high + ([0x5C, 0x75] + low)
  }

  /** The bytes that a spelling stands for: UTF-8 for the code point that digits give. */
  ghost predicate Denotes(s: Spelling, p: bytes) {
    match s
    case Raw(plain) => p == plain
    case Short(letter) => |p| == 1 && StandsFor(letter, p[0])
    case Hex(digits) => FourDigits(digits) && WellFormed(p) && CodePoint(p) == FourValue(digits)
    case Pair(high, low) =>
      FourDigits(high) && FourDigits(low) && WellFormed(p) &&
      CodePoint(p) == 0x10000 + (FourValue(high) - 0xD800) * 0x400 + (FourValue(low) - 0xDC00)
  }

  /** These bytes, for what is allowed. */
  function Meaning(s: Spelling): bytes {
    match s
    case Raw(plain) => plain
    case Short(letter) =>
      [if letter == 0x62 then 0x08 else if letter == 0x66 then 0x0C else if letter == 0x6E then 0x0A
       else if letter == 0x72 then 0x0D else if letter == 0x74 then 0x09 else letter]
    case Hex(digits) =>
      if FourDigits(digits) && !(0xD800 <= FourValue(digits) <= 0xDFFF) then Encode(FourValue(digits)) else []
    case Pair(high, low) =>
      if FourDigits(high) && FourDigits(low) &&
        0xD800 <= FourValue(high) <= 0xDBFF && 0xDC00 <= FourValue(low) <= 0xDFFF
      then Encode(0x10000 + (FourValue(high) - 0xD800) * 0x400 + (FourValue(low) - 0xDC00)) else []
  }

  /** An allowed spelling denotes its meaning and nothing else. */
  lemma MeaningIff(s: Spelling, validate: bool, p: bytes)
    requires Allowed(s, validate)
    ensures Denotes(s, p) <==> p == Meaning(s)
  {
    hide WellFormed, CodePoint, Encode, FourValue;
    if s.Hex? {
      DenotesEncoded(FourValue(s.digits), p);
    } else if s.Pair? {
      DenotesEncoded(0x10000 + (FourValue(s.high) - 0xD800) * 0x400 + (FourValue(s.low) - 0xDC00), p);
    }
  }

  lemma DenotesEncoded(c: scalar, p: bytes)
    ensures WellFormed(p) && CodePoint(p) == c <==> p == Encode(c)
  {
    DecodeEncode(c);
    if WellFormed(p) {
      EncodeDecode(p);
    }
    hide WellFormed, CodePoint, Encode;
  }

  function WrittenAll(ss: seq<Spelling>): bytes {
    if ss == [] then [] else Written(ss[0]) + WrittenAll(ss[1..])
  }

  function MeaningAll(ss: seq<Spelling>): bytes {
    if ss == [] then [] else Meaning(ss[0]) + MeaningAll(ss[1..])
  }

  ghost predicate AllAllowed(ss: seq<Spelling>, validate: bool) {
    forall k :: 0 <= k < |ss| ==> Allowed(ss[k], validate)
  }

  // ------------------------------------------------------------ one step of the reader

  lemma HexAgrees(d: byte)
    ensures HexValue(d) < 16 <==> IsHexDigit(d)
    ensures IsHexDigit(d) ==> HexValue(d) == DigitValue(d)
  {
  }

  lemma FourAgrees(t: bytes, i: nat)
    ensures Hex4(t, i).Some? <==> i + 4 <= |t| && FourDigits(t[i..i + 4])
    ensures Hex4(t, i).Some? ==> Hex4(t, i).value == FourValue(t[i..i + 4])
  {
    Hex4Digits(t, i);
    HexAgrees(Peek(t, i));
    HexAgrees(Peek(t, i + 1));
    HexAgrees(Peek(t, i + 2));
    HexAgrees(Peek(t, i + 3));
    if i + 4 <= |t| {
      var h := t[i..i + 4];
      assert h[0] == t[i] && h[1] == t[i + 1] && h[2] == t[i + 2] && h[3] == t[i + 3];
    }
    hide HexValue, IsHexDigit, DigitValue;
  }

  lemma EscapeAgrees(e: byte)
    ensures EscapeChar(e) != 0 <==> exists c :: StandsFor(e, c)
    ensures EscapeChar(e) != 0 ==> Meaning(Short(e)) == [EscapeChar(e)]
  {
    assert EscapeChar(e) != 0 ==> StandsFor(e, EscapeChar(e));
  }

  /** What is allowed is read as its meaning. */
  lemma SpellingIsUnit(t: bytes, i: nat, s: Spelling, validate: bool)
    requires Allowed(s, validate) && At(t, i, Written(s))
    ensures UnitAt(t, i, validate) == Put(Meaning(s), i + |Written(s)|)
  {
    match s
    case Raw(plain) => RawIsUnit(t, i, plain, validate);
    case Short(letter) =>
      AtPeek(t, i, Written(s), 0);
      AtPeek(t, i, Written(s), 1);
      EscapeAgrees(letter);
    case Hex(digits) => HexIsUnit(t, i, digits, validate);
    case Pair(high, low) => PairIsUnit(t, i, high, low, validate);
  }

  lemma RawIsUnit(t: bytes, i: nat, plain: bytes, validate: bool)
    requires Allowed(Raw(plain), validate) && At(t, i, plain)
    ensures UnitAt(t, i, validate) == Put(plain, i + |plain|)
  {
    AtPeek(t, i, plain, 0);
    if validate {
      CharLengthUnique(t, i, |plain|);
    } else {
      assert plain == [plain[0]];
    }
    hide CharLength, WellFormed;
  }

  lemma EscapedDigits(t: bytes, i: nat, h: bytes)
    requires FourDigits(h) && At(t, i, [0x5C, 0x75] + h)
    ensures Peek(t, i) == BACKSLASH && Peek(t, i + 1) == LETTER_U && Hex4(t, i + 2) == Some(FourValue(h))
  {
    AtConcat(t, i, [0x5C, 0x75], h);
    AtPeek(t, i, [0x5C, 0x75], 0);
    AtPeek(t, i, [0x5C, 0x75], 1);
    FourAgrees(t, i + 2);
    hide FourDigits, FourValue, Hex4;
  }

  lemma BackslashU(t: bytes, i: nat, validate: bool)
    requires Peek(t, i) == BACKSLASH && Peek(t, i + 1) == LETTER_U
    ensures UnitAt(t, i, validate) == UnicodeEscape(t, i)
  {
    hide UnicodeEscape;
  }

  lemma HexIsUnit(t: bytes, i: nat, h: bytes, validate: bool)
    requires Allowed(Hex(h), validate) && At(t, i, Written(Hex(h)))
    ensures UnitAt(t, i, validate) == Put(Meaning(Hex(h)), i + 6)
  {
    hide FourValue, FourDigits, Hex4, Encode, UnitAt, At;
    EscapedDigits(t, i, h);
    BackslashU(t, i, validate);
  }

  lemma PairIsUnit(t: bytes, i: nat, high: bytes, low: bytes, validate: bool)
    requires Allowed(Pair(high, low), validate) && At(t, i, Written(Pair(high, low)))
    ensures UnitAt(t, i, validate) == Put(Meaning(Pair(high, low)), i + 12)
  {
    FourLong(high);
    hide FourValue, FourDigits, Hex4, Encode, UnitAt, At;
    AtConcat(t, i, [0x5C, 0x75] + high, [0x5C, 0x75] + low);
    EscapedDigits(t, i, high);
    EscapedDigits(t, i + 6, low);
    BackslashU(t, i, validate);
  }

  lemma FourLong(h: bytes)
    ensures FourDigits(h) ==> |h| == 4
  {
  }

  /** What is read is a spelling that is allowed. */
  lemma UnitIsSpelling(t: bytes, i: nat, validate: bool) returns (s: Spelling)
    requires UnitAt(t, i, validate).Put?
    ensures Allowed(s, validate) && At(t, i, Written(s))
    ensures UnitAt(t, i, validate) == Put(Meaning(s), i + |Written(s)|)
  {
    if Peek(t, i) == BACKSLASH {
      if EscapeChar(Peek(t, i + 1)) != 0 {
        s := Short(t[i + 1]);
        EscapeAgrees(t[i + 1]);
        assert t[i..i + 2] == Written(s);
      } else {
        s := UnicodeIsSpelling(t, i, validate);
        SpellingIsUnit(t, i, s, validate);
      }
    } else {
      s := RawSpelling(t, i, validate);
      RawIsUnit(t, i, s.plain, validate);
    }
  }

  lemma RawSpelling(t: bytes, i: nat, validate: bool) returns (s: Spelling)
    requires UnitAt(t, i, validate).Put? && Peek(t, i) != BACKSLASH
    ensures s.Raw? && Allowed(s, validate) && At(t, i, s.plain)
  {
    var n := if validate then CharLength(t, i) else 1;
    s := Raw(t[i..i + n]);
    assert s.plain[0] == t[i];
    hide CharLength, WellFormed;
  }

  lemma UnicodeIsSpelling(t: bytes, i: nat, validate: bool) returns (s: Spelling)
    requires UnicodeEscape(t, i).Put? && Peek(t, i) == BACKSLASH && Peek(t, i + 1) == LETTER_U
    ensures Allowed(s, validate) && At(t, i, Written(s))
  {
    hide FourDigits, FourValue, Hex4, Encode;
    FourAgrees(t, i + 2);
    var h := Hex4(t, i + 2).value;
    var high := t[i + 2..i + 6];
    if 0xD800 <= h <= 0xDBFF {
      FourAgrees(t, i + 8);
      var low := t[i + 8..i + 12];
      s := Pair(high, low);
      assert t[i..i + 12] == [0x5C, 0x75] + high + ([0x5C, 0x75] + low);
    } else {
      s := Hex(high);
      assert t[i..i + 6] == [0x5C, 0x75] + high;
    }
  }

  // ------------------------------------------------------------ whole strings

  /** Every string of RFC 8259 is read as what it means. */
  lemma {:induction false} StringIsRead(t: bytes, i: nat, ss: seq<Spelling>, validate: bool, acc: bytes)
    requires AllAllowed(ss, validate) && At(t, i, WrittenAll(ss) + [0x22])
    ensures DecodeFrom(t, i, validate, acc) == Good(acc + MeaningAll(ss), i + |WrittenAll(ss)| + 1)
    decreases |ss|
  {
    hide UnitAt, Written, Meaning, Allowed, At, DecodeFrom;
    if ss == [] {
      assert [] + [0x22] == [0x22];
      QuoteIsRead(t, i, validate, acc);
      assert acc + [] == acc;
    } else {
      Associative(Written(ss[0]), WrittenAll(ss[1..]), [0x22]);
      AtConcat(t, i, Written(ss[0]), WrittenAll(ss[1..]) + [0x22]);
      SpellingIsUnit(t, i, ss[0], validate);
      var j := i + |Written(ss[0])|;
      UnitIsRead(t, i, validate, acc);
      StringIsRead(t, j, ss[1..], validate, acc + Meaning(ss[0]));
      Associative(acc, Meaning(ss[0]), MeaningAll(ss[1..]));
    }
  }

  lemma UnitIsRead(t: bytes, i: nat, validate: bool, acc: bytes)
    requires UnitAt(t, i, validate).Put?
    ensures i <= |t| && UnitAt(t, i, validate).next <= |t|
    ensures DecodeFrom(t, i, validate, acc) ==
      DecodeFrom(t, UnitAt(t, i, validate).next, validate, acc + UnitAt(t, i, validate).put)
  {
    hide UnitAt;
  }

  lemma QuoteIsRead(t: bytes, i: nat, validate: bool, acc: bytes)
    requires At(t, i, [0x22])
    ensures i < |t| && DecodeFrom(t, i, validate, acc) == Good(acc, i + 1)
  {
    AtPeek(t, i, [0x22], 0);
  }

  /** And nothing else is accepted. */
  lemma {:induction false} ReadIsString(t: bytes, i: nat, validate: bool, acc: bytes) returns (ss: seq<Spelling>)
    requires i <= |t| && DecodeFrom(t, i, validate, acc).Good?
    ensures AllAllowed(ss, validate) && At(t, i, WrittenAll(ss) + [0x22])
    ensures DecodeFrom(t, i, validate, acc) == Good(acc + MeaningAll(ss), i + |WrittenAll(ss)| + 1)
    decreases |t| - i
  {
    hide Allowed, Written, Meaning, At, UnitAt, DecodeFrom;
    if UnitAt(t, i, validate).Put? {
      var s := UnitIsSpelling(t, i, validate);
      UnitIsRead(t, i, validate, acc);
      var rest := ReadIsString(t, i + |Written(s)|, validate, acc + Meaning(s));
      ss := [s] + rest;
      assert ss[1..] == rest;
      AtConcat(t, i, Written(s), WrittenAll(rest) + [0x22]);
      Associative(Written(s), WrittenAll(rest), [0x22]);
    } else {
      ss := [];
      ReadToQuote(t, i, validate, acc);
      assert [] + [0x22] == [0x22];
    }
    StringIsRead(t, i, ss, validate, acc);
  }

  lemma ReadToQuote(t: bytes, i: nat, validate: bool, acc: bytes)
    requires i <= |t| && DecodeFrom(t, i, validate, acc).Good? && !UnitAt(t, i, validate).Put?
    ensures At(t, i, [0x22])
  {
    hide UnitAt;
    assert t[i..i + 1] == [0x22];
  }

  // ------------------------------------------------------------ refusals

  /** The four characters at `i` are hexadecimal digits. */
  predicate DigitsAt(t: bytes, i: nat) {
    i + 4 <= |t| && FourDigits(t[i..i + 4])
  }

  /** A `\u` with its digits at `i`, and the code unit they give. */
  predicate UnitOf(t: bytes, i: nat, low: nat, high: nat) {
    DigitsAt(t, i + 2) && low <= FourValue(t[i + 2..i + 6]) <= high
  }

  /** What is wrong at `k` with a string that is refused. */
  ghost predicate Wrong(t: bytes, k: nat, validate: bool, error: ParseError)
    requires k <= |t|
  {
    var c, e := Peek(t, k), Peek(t, k + 1);
    match error
    case StringMissQuotationMark => c == 0
    case StringInvalidEncoding =>
      0 < c < 0x20 || (validate && c >= 0x80 && forall n :: k <= n <= |t| ==> !WellFormed(t[k..n]))
    case StringEscapeInvalid => c == 0x5C && e != 0x75 && forall x :: !StandsFor(e, x)
    case StringUnicodeEscapeInvalidHex =>
      c == 0x5C && e == 0x75 &&
      (!DigitsAt(t, k + 2) ||
       (UnitOf(t, k, 0xD800, 0xDBFF) && Peek(t, k + 6) == 0x5C && Peek(t, k + 7) == 0x75 && !DigitsAt(t, k + 8)))
    case StringUnicodeSurrogateInvalid =>
      c == 0x5C && e == 0x75 &&
      (UnitOf(t, k, 0xDC00, 0xDFFF) ||
       (UnitOf(t, k, 0xD800, 0xDBFF) &&
        (Peek(t, k + 6) != 0x5C || Peek(t, k + 7) != 0x75 ||
         (DigitsAt(t, k + 8) && !UnitOf(t, k + 6, 0xDC00, 0xDFFF)))))
    case _ => false
  }

  lemma FailIsWrong(t: bytes, k: nat, validate: bool)
    requires k <= |t| && UnitAt(t, k, validate).Fail?
    ensures Wrong(t, k, validate, UnitAt(t, k, validate).error)
  {
    if Peek(t, k) == BACKSLASH {
      EscapeAgrees(Peek(t, k + 1));
      if EscapeChar(Peek(t, k + 1)) == 0 && Peek(t, k + 1) == LETTER_U {
        EscapeFailIsWrong(t, k, validate);
      }
    } else if Peek(t, k) >= 0x20 {
      NoCharacter(t, k);
    }
  }

  lemma NoCharacter(t: bytes, k: nat)
    requires k < |t| && CharLength(t, k) == 0
    ensures t[k] >= 0x80 && forall n :: k <= n <= |t| ==> !WellFormed(t[k..n])
  {
    assert t[k] >= 0x80;
    hide CharLength, WellFormed;
    forall n: nat | k <= n <= |t|
      ensures !WellFormed(t[k..n])
    {
      if WellFormed(t[k..n]) {
        CharLengthUnique(t, k, n - k);
      }
    }
  }

  lemma EscapeFailIsWrong(t: bytes, k: nat, validate: bool)
    requires k <= |t| && UnicodeEscape(t, k).Fail? && Peek(t, k) == 0x5C && Peek(t, k + 1) == 0x75
    ensures Wrong(t, k, validate, UnicodeEscape(t, k).error)
  {
    hide FourDigits, FourValue, Hex4, Encode, WellFormed, StandsFor;
    FourAgrees(t, k + 2);
    FourAgrees(t, k + 8);
  }

  /** A string is refused for what stands behind its first characters, which are all allowed. */
  lemma {:induction false} RefusedString(t: bytes, i: nat, validate: bool, acc: bytes)
    returns (ss: seq<Spelling>, k: nat)
    requires i <= |t| && DecodeFrom(t, i, validate, acc).Bad?
    ensures AllAllowed(ss, validate) && At(t, i, WrittenAll(ss)) && k == i + |WrittenAll(ss)| <= |t|
    ensures Wrong(t, k, validate, DecodeFrom(t, i, validate, acc).error)
    decreases |t| - i
  {
    hide Allowed, Written, Meaning, At, UnitAt, DecodeFrom, Wrong;
    if UnitAt(t, i, validate).Put? {
      var s := UnitIsSpelling(t, i, validate);
      UnitIsRead(t, i, validate, acc);
      var rest, m := RefusedString(t, i + |Written(s)|, validate, acc + Meaning(s));
      ss, k := [s] + rest, m;
      assert ss[1..] == rest;
      AtConcat(t, i, Written(s), WrittenAll(rest));
    } else {
      ss, k := [], i;
      RefusedHere(t, i, validate, acc);
    }
  }

  lemma RefusedHere(t: bytes, i: nat, validate: bool, acc: bytes)
    requires i <= |t| && DecodeFrom(t, i, validate, acc).Bad? && !UnitAt(t, i, validate).Put?
    ensures At(t, i, []) && Wrong(t, i, validate, DecodeFrom(t, i, validate, acc).error)
  {
    FailIsWrong(t, i, validate);
    hide UnitAt, Wrong;
  }
}
