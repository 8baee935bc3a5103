/** The string printer of the writer. */
module StringWriter {
  import opened Bytes
  import opened Streams
  import opened Events
  import opened Utf8
  import opened StringText

  /** The writer's escape table: the letter after the backslash, `u` for a hexadecimal escape, 0 for no escape. */
  function EscapeLetter(c: byte): byte {
    match c
    case 0x08 => 0x62
    case 0x09 => 0x74
    case 0x0A => 0x6E
    case 0x0C => 0x66
    case 0x0D => 0x72
    case 0x22 => 0x22
    case 0x5C => 0x5C
    case _ => if c < 0x20 then LETTER_U else 0
  }

  method PutHex(o: OutputStream, v: nat)
    requires v <= 0xFFFF
    modifies o
    ensures o.out == old(o.out) + [HexDigit(v / 0x1000), HexDigit(v / 0x100 % 16), HexDigit(v / 0x10 % 16), HexDigit(v % 16)]
  {
    o.Put(HexDigit(v / 0x1000));
    o.Put(HexDigit(v / 0x100 % 16));
    o.Put(HexDigit(v / 0x10 % 16));
    o.Put(HexDigit(v % 16));
  }

  method PutUnicodeEscape(o: OutputStream, v: nat)
    requires v <= 0xFFFF
    modifies o
    ensures o.out == old(o.out) + HexEscape(v)
  {
    o.Put(BACKSLASH);
    o.Put(LETTER_U);
    PutHex(o, v);
  }

  method PutScalar(o: OutputStream, codepoint: scalar)
    modifies o
    ensures o.out == old(o.out) + EscapeScalar(codepoint)
  {
    if codepoint <= 0xFFFF {
      PutUnicodeEscape(o, codepoint);
    } else {
      var v := codepoint - 0x10000;
      PutUnicodeEscape(o, v / 0x400 + 0xD800);
      PutUnicodeEscape(o, v % 0x400 + 0xDC00);
      Associative(old(o.out), HexEscape(v / 0x400 + 0xD800), HexEscape(v % 0x400 + 0xDC00));
    }
  }

  method PutByteEscape(o: OutputStream, c: byte)
    requires EscapeLetter(c) != 0
    modifies o
    ensures o.out == old(o.out) + EscapeByte(c)
  {
    o.Put(BACKSLASH);
    o.Put(EscapeLetter(c));
    if EscapeLetter(c) == LETTER_U {
      o.Put(ZERO);
      o.Put(ZERO);
      o.Put(HexDigit(c / 16));
      o.Put(HexDigit(c % 16));
    }
  }

  lemma PlainByte(c: byte)
    requires EscapeLetter(c) == 0
    ensures EscapeByte(c) == [c]
  {
  }

  /** The escaped body of a whole string, without its quotes. */
  function Escaped(str: bytes, ascii: bool): bytes
    requires ascii ==> DecodeAll(str, 0).Some?
  {
    if ascii then AsciiFrom(str, 0) else EscapeFrom(str, 0)
  }

  /** The quoted, escaped form of a string that the writer puts. */
  function Quoted(str: bytes, ascii: bool): bytes
    requires ascii ==> DecodeAll(str, 0).Some?
  {
    [QUOTE] + (Escaped(str, ascii) + [QUOTE])
  }

  /** The part of the escaped body that is still to be written when the cursor is at `k`. */
  function Rest(str: bytes, k: nat, ascii: bool): bytes
    requires k <= |str|
    requires ascii ==> DecodeAll(str, k).Some?
  {
    if ascii then AsciiFrom(str, k) else EscapeFrom(str, k)
  }

  /** What the writer puts while its cursor moves from `k` to `next`. */
  function Piece(str: bytes, k: nat, next: nat, ascii: bool): bytes
    requires k < next <= |str|
    requires ascii ==> CharLength(str, k) != 0
  {
    if ascii then AsciiUnit(str, k)
    else if EscapeLetter(str[k]) != 0 then EscapeByte(str[k])
    else str[k..next]
  }

  /** One character of the string, when the writer checks or re-encodes it. */
  method WriteCharacter(s: StringStream, o: OutputStream, ascii: bool, validate: bool) returns (ok: bool)
    requires s.src < |s.text|
    modifies s, o
    ensures !ok ==> (ascii || validate) && CharLength(s.text, old(s.src)) == 0
    ensures ok ==> var k := old(s.src);
      && s.src == k + (if ascii || validate then CharLength(s.text, k) else 1) <= |s.text|
      && (ascii || validate ==> CharLength(s.text, k) != 0)
      && o.out == old(o.out) + Piece(s.text, k, s.src, ascii)
  {
    hide CharLength, EscapeScalar, EscapeByte, CodePoint;
    ghost var k := s.src;
    var c := s.Peek();
    if c < 0x80 {
      AsciiWellFormed(s.text[k..k + 1]);
      CharLengthUnique(s.text, k, 1);
    }
    if ascii && c >= 0x80 {
      var codepoint;
      ok, codepoint := Decode(s);
      if ok {
        PutScalar(o, codepoint);
      }
    } else if EscapeLetter(c) != 0 {
      var _ := s.Take();
      PutByteEscape(o, c);
      ok := true;
    } else if validate {
      ok := Validate(s, o);
      PlainByte(c);
    } else {
      var _ := s.Take();
      o.Put(c);
      ok := true;
      PlainByte(c);
    }
  }

  /** The rest of the body is the next character's escape and then the rest after it. */
  lemma RestStep(str: bytes, k: nat, ascii: bool, validate: bool)
    requires k < |str|
    requires ascii || validate ==> CharLength(str, k) != 0
    requires ascii ==> DecodeAll(str, k).Some?
    ensures var n := if ascii || validate then CharLength(str, k) else 1;
      && (ascii ==> DecodeAll(str, k + n).Some?)
      && Rest(str, k, ascii) ==
         Piece(str, k, k + n, ascii) + Rest(str, k + n, ascii)
  {
    hide CharLength, EscapeScalar, EscapeByte, CodePoint, WellFormed;
    if !ascii {
      var n := if validate then CharLength(str, k) else 1;
      if str[k] < 0x80 {
        AsciiWellFormed(str[k..k + 1]);
        CharLengthUnique(str, k, 1);
        if EscapeLetter(str[k]) == 0 { PlainByte(str[k]); }
        assert str[k..k + 1] == [str[k]];
      } else if validate {
        TailsAreHigh(str[k..k + n]);
        forall j | k <= j < k + n ensures str[j] >= 0x80 { assert str[j] == str[k..k + n][j - k]; }
        EscapeCharacter(str, k, n);
      } else {
        PlainByte(str[k]);
        assert str[k..k + 1] == [str[k]];
      }
    }
  }

  /** `written` is the escaped form of `str[..k]`. */
  ghost predicate WrittenUpTo(str: bytes, k: nat, ascii: bool, validate: bool, written: bytes)
    requires k <= |str|
  {
    && (ascii || validate ==> (DecodeAll(str, k).Some? <==> DecodeAll(str, 0).Some?))
    && ((ascii ==> DecodeAll(str, 0).Some?) ==> written + Rest(str, k, ascii) == Escaped(str, ascii))
  }

  lemma WrittenStep(str: bytes, k: nat, ascii: bool, validate: bool, written: bytes)
    requires k < |str| && WrittenUpTo(str, k, ascii, validate, written)
    requires ascii || validate ==> CharLength(str, k) != 0
    ensures var next := k + if ascii || validate then CharLength(str, k) else 1;
      WrittenUpTo(str, next, ascii, validate, written + Piece(str, k, next, ascii))
  {
    hide CharLength, Piece;
    var next := k + if ascii || validate then CharLength(str, k) else 1;
    if ascii ==> DecodeAll(str, k).Some? {
      RestStep(str, k, ascii, validate);
      Associative(written, Piece(str, k, next, ascii), Rest(str, next, ascii));
    }
  }

  lemma WrittenBegins(str: bytes, ascii: bool, validate: bool)
    ensures WrittenUpTo(str, 0, ascii, validate, [])
  {
    if ascii ==> DecodeAll(str, 0).Some? {
      assert [] + Rest(str, 0, ascii) == Rest(str, 0, ascii);
    }
  }

  lemma WrittenFails(str: bytes, k: nat, ascii: bool, validate: bool, written: bytes)
    requires k < |str| && WrittenUpTo(str, k, ascii, validate, written)
    requires (ascii || validate) && CharLength(str, k) == 0
    ensures DecodeAll(str, 0).None?
  {
  }

  lemma WrittenEnds(str: bytes, ascii: bool, validate: bool, written: bytes)
    requires WrittenUpTo(str, |str|, ascii, validate, written)
    ensures ascii || validate ==> DecodeAll(str, 0).Some?
    ensures written == Escaped(str, ascii)
  {
    assert written + [] == written;
  }

  /** The characters between the quotes. */
  method WriteBody(o: OutputStream, str: bytes, ascii: bool, validate: bool) returns (ok: bool)
    modifies o
    ensures ok <==> (ascii || validate ==> DecodeAll(str, 0).Some?)
    ensures ok ==> o.out == old(o.out) + Escaped(str, ascii)
  {
    var s := new StringStream(str);
    ghost var written: bytes := [];
    WrittenBegins(str, ascii, validate);
    ok := true;
    hide CharLength, Piece, Escaped, Rest, DecodeAll, WrittenUpTo;
    while s.src < |str|
      invariant s.src <= |str|
      invariant o.out == old(o.out) + written
      invariant WrittenUpTo(str, s.src, ascii, validate, written)
      decreases |str| - s.src
    {
      ghost var k := s.src;
      ok := WriteCharacter(s, o, ascii, validate);
      if !ok {
        WrittenFails(str, k, ascii, validate, written);
        return;
      }
      WrittenStep(str, k, ascii, validate, written);
      Associative(old(o.out), written, Piece(str, k, s.src, ascii));
      written := written + Piece(str, k, s.src, ascii);
    }
    WrittenEnds(str, ascii, validate, written);
    ok := true;
  }

  /**
   * Writes a string literal. It fails exactly when the characters have to be looked at (ASCII target or
   * validation) and the string is not UTF-8; the literal stays within the reserved 2 + 6n or 2 + 12n characters.
   */
  method WriteString(o: OutputStream, str: bytes, ascii: bool, validate: bool) returns (ok: bool)
    modifies o
    ensures ok <==> (ascii || validate ==> DecodeAll(str, 0).Some?)
    ensures ok ==> o.out == old(o.out) + Quoted(str, ascii)
    ensures ok ==> |Quoted(str, ascii)| <= 2 + |str| * (if ascii then 12 else 6)
  {
    o.Put(QUOTE);
    ok := WriteBody(o, str, ascii, validate);
    if ok {
      o.Put(QUOTE);
      Associative(old(o.out), [QUOTE], Escaped(str, ascii) + [QUOTE]);
      Associative(old(o.out) + [QUOTE], Escaped(str, ascii), [QUOTE]);
    }
  }

  /** What the writer quotes, the scanner reads back, whichever target and whichever check is on. */
  lemma QuotedRoundTrip(t: bytes, i: nat, str: bytes, ascii: bool, validate: bool)
    requires ascii || validate ==> DecodeAll(str, 0).Some?
    requires At(t, i, Quoted(str, ascii))
    ensures i < |t| && t[i] == QUOTE
    ensures DecodeFrom(t, i + 1, validate, []) == Good(str, i + |Quoted(str, ascii)|)
  {
    AtConcat(t, i, [QUOTE], Escaped(str, ascii) + [QUOTE]);
    AtPeek(t, i, [QUOTE], 0);
    assert str[0..] == str && [] + str == str;
    if ascii {
      UnescapeAscii(t, i + 1, str, 0, validate, []);
    } else {
      UnescapeEscape(t, i + 1, str, 0, validate, []);
    }
  }
}
