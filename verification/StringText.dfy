/** Meaning of JSON string literals: what the reader decodes and what the writer escapes. */
module StringText {
  import opened Bytes
  import opened Events
  import opened Utf8

  // ------------------------------------------------------------------- decoding

  /** The character a two-character escape stands for, 0 when there is none. */
  function EscapeChar(e: byte): byte {
    match e
    case 0x22 => 0x22
    case 0x2F => 0x2F
    case 0x5C => 0x5C
    case 0x62 => 0x08
    case 0x66 => 0x0C
    case 0x6E => 0x0A
    case 0x72 => 0x0D
    case 0x74 => 0x09
    case _ => 0
  }

  /** Value of a hexadecimal digit, 16 when the character is none. */
  function HexValue(c: byte): (h: nat)
    ensures h <= 16
  {
    if 0x30 <= c <= 0x39 then c - 0x30
    else if 0x41 <= c <= 0x46 then c - 0x41 + 10
    else if 0x61 <= c <= 0x66 then c - 0x61 + 10
    else 16
  }

  /** Value of the first `k` hexadecimal digits at `i`. */
  function HexPrefix(t: bytes, i: nat, k: nat): Option<nat> {
    if k == 0 then Some(0)
    else match HexPrefix(t, i, k - 1)
      case None => None
      case Some(v) =>
        var h := HexValue(Peek(t, i + k - 1));
        if h == 16 then None else Some(v * 16 + h)
  }

  function Hex4(t: bytes, i: nat): Option<nat> {
    HexPrefix(t, i, 4)
  }

  lemma Hex4Digits(t: bytes, i: nat)
    ensures var a, b, c, d := HexValue(Peek(t, i)), HexValue(Peek(t, i + 1)), HexValue(Peek(t, i + 2)), HexValue(Peek(t, i + 3));
      Hex4(t, i) == if a < 16 && b < 16 && c < 16 && d < 16 then Some(((a * 16 + b) * 16 + c) * 16 + d) else None
  {
    assert HexPrefix(t, i, 0) == Some(0);
    assert HexPrefix(t, i, 1) == if HexValue(Peek(t, i)) < 16 then Some(HexValue(Peek(t, i))) else None;
    assert HexPrefix(t, i, 2).Some? ==> HexPrefix(t, i, 1).Some?;
    assert HexPrefix(t, i, 3).Some? ==> HexPrefix(t, i, 2).Some?;
  }

  lemma Hex4Inside(t: bytes, i: nat)
    requires Hex4(t, i).Some?
    ensures i + 4 <= |t| && Hex4(t, i).value <= 0xFFFF
  {
    Hex4Digits(t, i);
    assert HexValue(Peek(t, i + 3)) < 16;
  }

  /** What one step of the string scanner finds at the cursor. */
  datatype Unit =
    | Closed
    | Put(put: bytes, next: nat)
    | Fail(error: ParseError)

  /** A `\u` escape at `i`, with its surrogate pair when it opens one. */
  function UnicodeEscape(t: bytes, i: nat): (u: Unit)
    ensures !u.Closed?
    ensures u.Put? ==> i + 6 <= u.next <= |t| && |u.put| <= 4
  {
    match Hex4(t, i + 2)
    case None => Fail(StringUnicodeEscapeInvalidHex)
    case Some(high) =>
      Hex4Inside(t, i + 2);
      if 0xD800 <= high <= 0xDBFF then
        if Peek(t, i + 6) != BACKSLASH || Peek(t, i + 7) != LETTER_U then Fail(StringUnicodeSurrogateInvalid)
        else match Hex4(t, i + 8)
          case None => Fail(StringUnicodeEscapeInvalidHex)
          case Some(low) =>
            Hex4Inside(t, i + 8);
            if low < 0xDC00 || low > 0xDFFF then Fail(StringUnicodeSurrogateInvalid)
            else Put(Encode((high - 0xD800) * 0x400 + (low - 0xDC00) + 0x10000), i + 12)
      else if 0xDC00 <= high <= 0xDFFF then Fail(StringUnicodeSurrogateInvalid)
      else Put(Encode(high), i + 6)
  }

  function UnitAt(t: bytes, i: nat, validate: bool): (u: Unit)
    ensures u.Put? ==> i < u.next <= |t| && |u.put| <= u.next - i
    ensures u.Closed? ==> i < |t| && t[i] == QUOTE
  {
    var c := Peek(t, i);
    if c == BACKSLASH then
      var e := Peek(t, i + 1);
      if EscapeChar(e) != 0 then Put([EscapeChar(e)], i + 2)
      else if e == LETTER_U then
        UnicodeEscape(t, i)
      else Fail(StringEscapeInvalid)
    else if c == QUOTE then Closed
    else if c == 0 then Fail(StringMissQuotationMark)
    else if c < 0x20 then Fail(StringInvalidEncoding)
    else if validate then
      var n := CharLength(t, i);
      if n == 0 then Fail(StringInvalidEncoding) else Put(t[i..i + n], i + n)
    else Put([c], i + 1)
  }

  datatype Decoded =
    | Good(text: bytes, next: nat)
    | Bad(error: ParseError)

  /** The string literal whose characters start at `i`; `acc` is what was decoded before `i`. */
  function DecodeFrom(t: bytes, i: nat, validate: bool, acc: bytes): (d: Decoded)
    requires i <= |t|
    ensures d.Good? ==> i < d.next <= |t|
    decreases |t| - i
  {
    match UnitAt(t, i, validate)
    case Closed => Good(acc, i + 1)
    case Fail(e) => Bad(e)
    case Put(p, n) => DecodeFrom(t, n, validate, acc + p)
  }

  // -------------------------------------------------------------------- escaping

  function HexDigit(h: nat): byte
    requires h < 16
  {
    if h < 10 then 0x30 + h else 0x41 + (h - 10)
  }

  /** `\uXXXX` with four upper-case hexadecimal digits. */
  function HexEscape(v: nat): (e: bytes)
    requires v <= 0xFFFF
    ensures |e| == 6
  {
    [BACKSLASH, LETTER_U,
     HexDigit(v / 0x1000), HexDigit(v / 0x100 % 16), HexDigit(v / 0x10 % 16), HexDigit(v % 16)]
  }

  /** The characters the writer puts for one byte that it does not treat as part of a longer character. */
  function EscapeByte(c: byte): (e: bytes)
    ensures 1 <= |e| <= 6
  {
    match c
    case 0x08 => [BACKSLASH, 0x62]
    case 0x09 => [BACKSLASH, 0x74]
    case 0x0A => [BACKSLASH, 0x6E]
    case 0x0C => [BACKSLASH, 0x66]
    case 0x0D => [BACKSLASH, 0x72]
    case 0x22 => [BACKSLASH, 0x22]
    case 0x5C => [BACKSLASH, 0x5C]
    case _ => if c < 0x20 then HexEscape(c) else [c]
  }

  /** The escaped form of `s[k..]` for a UTF-8 target. */
  function EscapeFrom(s: bytes, k: nat): (e: bytes)
    requires k <= |s|
    ensures |e| <= 6 * (|s| - k)
    decreases |s| - k
  {
    if k == |s| then [] else EscapeByte(s[k]) + EscapeFrom(s, k + 1)
  }

  /** The escapes of one character outside ASCII: one `\u` escape, or a surrogate pair of them. */
  function EscapeScalar(c: scalar): (e: bytes)
    ensures |e| <= 12
  {
    if c <= 0xFFFF then HexEscape(c)
    else HexEscape((c - 0x10000) / 0x400 + 0xD800) + HexEscape((c - 0x10000) % 0x400 + 0xDC00)
  }

  /** What the writer puts for the character at `k` when the target is ASCII. */
  function AsciiUnit(s: bytes, k: nat): bytes
    requires k < |s| && CharLength(s, k) != 0
    ensures |AsciiUnit(s, k)| <= 12
  {
    if s[k] < 0x80 then EscapeByte(s[k]) else EscapeScalar(CodePoint(s[k..k + CharLength(s, k)]))
  }

  /** The escaped form of `s[k..]` for an ASCII target. */
  function AsciiFrom(s: bytes, k: nat): (e: bytes)
    requires k <= |s| && DecodeAll(s, k).Some?
    ensures |e| <= 12 * (|s| - k)
    decreases |s| - k
  {
    if k == |s| then []
    else AsciiUnit(s, k) + AsciiFrom(s, k + CharLength(s, k))
  }

  // ---------------------------------------------------------------- escape inverse

  lemma HexDigitValue(h: nat)
    requires h < 16
    ensures HexValue(HexDigit(h)) == h
  {
  }

  lemma HexEscapeValue(t: bytes, i: nat, v: nat)
    requires v <= 0xFFFF && At(t, i, HexEscape(v))
    ensures Peek(t, i) == BACKSLASH && Peek(t, i + 1) == LETTER_U && Hex4(t, i + 2) == Some(v)
  {
    var e := HexEscape(v);
    AtPeek(t, i, e, 0);
    AtPeek(t, i, e, 1);
    AtPeek(t, i, e, 2);
    AtPeek(t, i, e, 3);
    AtPeek(t, i, e, 4);
    AtPeek(t, i, e, 5);
    HexDigitValue(v / 0x1000);
    HexDigitValue(v / 0x100 % 16);
    HexDigitValue(v / 0x10 % 16);
    HexDigitValue(v % 16);
    Hex4Digits(t, i + 2);
    FourHexDigits(v);
    hide HexValue, HexDigit, Hex4, At;
  }

  lemma FourHexDigits(v: nat)
    ensures v == ((v / 0x1000 * 16 + v / 0x100 % 16) * 16 + v / 0x10 % 16) * 16 + v % 16
  {
    var a, b, c := v / 0x10, v / 0x100, v / 0x1000;
    HexShifts(v);
    LastHexDigit(v);
    LastHexDigit(a);
    LastHexDigit(b);
  }

  lemma HexShifts(v: nat)
    ensures v / 0x100 == v / 0x10 / 0x10 && v / 0x1000 == v / 0x100 / 0x10
  {
  }

  lemma LastHexDigit(v: nat)
    ensures v == v / 0x10 * 16 + v % 16
  {
  }

  /** The scanner reads one escaped byte back in one step. */
  lemma UnescapeByte(t: bytes, i: nat, c: byte, validate: bool)
    requires At(t, i, EscapeByte(c))
    requires validate ==> c < 0x80
    ensures UnitAt(t, i, validate) == Put([c], i + |EscapeByte(c)|)
  {
    var e := EscapeByte(c);
    AtPeek(t, i, e, 0);
    if |e| == 2 {
      AtPeek(t, i, e, 1);
    } else if |e| == 6 {
      HexEscapeValue(t, i, c);
    } else if validate {
      CharLengthUnique(t, i, 1);
    }
  }

  lemma UnescapeScalar(t: bytes, i: nat, c: scalar, validate: bool)
    requires At(t, i, EscapeScalar(c))
    ensures UnitAt(t, i, validate) == Put(Encode(c), i + |EscapeScalar(c)|)
  {
    if c <= 0xFFFF {
      HexEscapeValue(t, i, c);
    } else {
      var high, low := (c - 0x10000) / 0x400 + 0xD800, (c - 0x10000) % 0x400 + 0xDC00;
      AtConcat(t, i, HexEscape(high), HexEscape(low));
      HexEscapeValue(t, i, high);
      HexEscapeValue(t, i + 6, low);
      assert c == (high - 0xD800) * 0x400 + (low - 0xDC00) + 0x10000;
    }
  }

  lemma EscapeHigh(c: byte)
    requires c >= 0x80
    ensures EscapeByte(c) == [c]
  {
  }

  lemma EscapeHighByte(s: bytes, k: nat)
    requires k < |s| && s[k] >= 0x80
    ensures EscapeFrom(s, k) == [s[k]] + EscapeFrom(s, k + 1)
  {
    EscapeHigh(s[k]);
  }

  /** The bytes of a character outside ASCII are escaped to themselves. */
  lemma {:induction false} EscapeCharacter(s: bytes, k: nat, n: nat)
    requires k + n <= |s| && forall j :: k <= j < k + n ==> s[j] >= 0x80
    ensures EscapeFrom(s, k) == s[k..k + n] + EscapeFrom(s, k + n)
    decreases n
  {
    hide EscapeByte, EscapeFrom;
    if n == 0 {
      assert s[k..k] == [] && [] + EscapeFrom(s, k) == EscapeFrom(s, k);
    } else {
      EscapeHighByte(s, k);
      EscapeCharacter(s, k + 1, n - 1);
      SplitFirst(s, k, k + n);
      Associative([s[k]], s[k + 1..k + n], EscapeFrom(s, k + n));
    }
  }

  lemma TailsAreHigh(s: bytes)
    requires WellFormed(s) && s[0] >= 0x80
    ensures forall j :: 0 <= j < |s| ==> s[j] >= 0x80
  {
  }

  /** Where the escaped form of character `s[k..k + n]` ends. */
  function After(s: bytes, i: nat, k: nat, n: nat): int
    requires k + n <= |s|
  {
    i + |EscapeFrom(s, k)| - |EscapeFrom(s, k + n)|
  }

  /** Length of the chunk the scanner takes in one step where the writer escaped `s[k..]`. */
  function Chunk(s: bytes, k: nat, validate: bool): nat {
    if validate then CharLength(s, k) else 1
  }

  lemma UnescapeStep(t: bytes, i: nat, s: bytes, k: nat, validate: bool)
    requires k < |s| && At(t, i, EscapeFrom(s, k))
    requires validate ==> DecodeAll(s, k).Some?
    ensures var n := Chunk(s, k, validate);
      && 0 < n <= |s| - k && After(s, i, k, n) >= 0
      && UnitAt(t, i, validate) == Put(s[k..k + n], After(s, i, k, n))
      && At(t, After(s, i, k, n), EscapeFrom(s, k + n))
  {
    hide EscapeByte, WellFormed;
    var n := Chunk(s, k, validate);
    if s[k] < 0x80 || !validate {
      if validate { CharLengthUnique(s, k, 1) by { AsciiWellFormed(s[k..k + 1]); } }
      AtConcat(t, i, EscapeByte(s[k]), EscapeFrom(s, k + 1));
      UnescapeByte(t, i, s[k], validate);
      assert s[k..k + 1] == [s[k]];
    } else {
      UnescapeHighStep(t, i, s, k, n);
    }
  }

  lemma AsciiWellFormed(s: bytes)
    requires |s| == 1 && s[0] < 0x80
    ensures WellFormed(s)
  {
  }

  lemma UnescapeHighStep(t: bytes, i: nat, s: bytes, k: nat, n: nat)
    requires k < |s| && At(t, i, EscapeFrom(s, k)) && s[k] >= 0x80
    requires n == CharLength(s, k) != 0
    ensures After(s, i, k, n) >= 0
    ensures UnitAt(t, i, true) == Put(s[k..k + n], After(s, i, k, n))
    ensures At(t, After(s, i, k, n), EscapeFrom(s, k + n))
  {
    hide EscapeByte, WellFormed, EscapeFrom, UnicodeEscape, EscapeChar;
    var c := s[k..k + n];
    TailsAreHigh(c);
    forall j | k <= j < k + n ensures s[j] >= 0x80 { assert s[j] == c[j - k]; }
    EscapeCharacter(s, k, n);
    AtConcat(t, i, c, EscapeFrom(s, k + n));
    AtPeek(t, i, c, 0);
    CharLengthUnique(t, i, n);
  }

  lemma ClosingQuote(t: bytes, i: nat, validate: bool)
    requires At(t, i, [QUOTE])
    ensures UnitAt(t, i, validate) == Closed
  {
    AtPeek(t, i, [QUOTE], 0);
  }

  /** Parsing what the writer escaped for a UTF-8 target gives every byte string back, NULs included. */
  lemma {:induction false} UnescapeEscape(t: bytes, i: nat, s: bytes, k: nat, validate: bool, acc: bytes)
    requires k <= |s| && i <= |t|
    requires At(t, i, EscapeFrom(s, k) + [QUOTE])
    requires validate ==> DecodeAll(s, k).Some?
    ensures DecodeFrom(t, i, validate, acc) == Good(acc + s[k..], i + |EscapeFrom(s, k)| + 1)
    decreases |s| - k
  {
    hide UnitAt, CharLength, At, EscapeFrom;
    AtConcat(t, i, EscapeFrom(s, k), [QUOTE]);
    if k == |s| {
      ClosingQuote(t, i, validate);
      assert acc + s[k..] == acc;
    } else {
      UnescapeStep(t, i, s, k, validate);
      var n := Chunk(s, k, validate);
      var next := After(s, i, k, n);
      AtConcat(t, next, EscapeFrom(s, k + n), [QUOTE]);
      UnescapeEscape(t, next, s, k + n, validate, acc + s[k..k + n]);
      AppendSlice(acc, s, k, n);
    }
  }

  lemma UnescapeAsciiStep(t: bytes, i: nat, s: bytes, k: nat, validate: bool)
    requires k < |s| && CharLength(s, k) != 0 && At(t, i, AsciiUnit(s, k))
    ensures UnitAt(t, i, validate) == Put(s[k..k + CharLength(s, k)], i + |AsciiUnit(s, k)|)
  {
    hide EscapeByte, EscapeScalar, UnitAt, WellFormed, CharLength;
    if s[k] < 0x80 {
      AsciiWellFormed(s[k..k + 1]);
      CharLengthUnique(s, k, 1);
      UnescapeByte(t, i, s[k], validate);
      assert s[k..k + 1] == [s[k]];
    } else {
      UnescapeScalar(t, i, CodePoint(s[k..k + CharLength(s, k)]), validate);
      EncodeDecode(s[k..k + CharLength(s, k)]);
    }
  }

  /** Parsing what the writer escaped for an ASCII target gives every UTF-8 string back. */
  lemma {:induction false} UnescapeAscii(t: bytes, i: nat, s: bytes, k: nat, validate: bool, acc: bytes)
    requires k <= |s| && i <= |t| && DecodeAll(s, k).Some?
    requires At(t, i, AsciiFrom(s, k) + [QUOTE])
    ensures DecodeFrom(t, i, validate, acc) == Good(acc + s[k..], i + |AsciiFrom(s, k)| + 1)
    decreases |s| - k
  {
    hide UnitAt, AsciiUnit, CharLength, At, DecodeAll, WellFormed;
    AtConcat(t, i, AsciiFrom(s, k), [QUOTE]);
    if k == |s| {
      ClosingQuote(t, i, validate);
      assert acc + s[k..] == acc;
    } else {
      DecodeAllNext(s, k);
      var n, e := CharLength(s, k), AsciiUnit(s, k);
      AtConcat(t, i, e, AsciiFrom(s, k + n));
      UnescapeAsciiStep(t, i, s, k, validate);
      AtConcat(t, i + |e|, AsciiFrom(s, k + n), [QUOTE]);
      UnescapeAscii(t, i + |e|, s, k + n, validate, acc + s[k..k + n]);
      AppendSlice(acc, s, k, n);
    }
  }
}
