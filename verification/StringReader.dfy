/** The string scanner of the reader: into a separate buffer, and in place. */
module StringReader {
  import opened Bytes
  import opened Streams
  import opened Events
  import opened Utf8
  import opened StringText

  // ------------------------------------------------------------ buffered decoding

  method ParseHex4(s: StringStream) returns (ok: bool, codepoint: nat)
    requires s.src <= |s.text|
    modifies s
    ensures ok <==> Hex4(s.text, old(s.src)).Some?
    ensures ok ==> Hex4(s.text, old(s.src)) == Some(codepoint) && s.src == old(s.src) + 4
    ensures s.src <= |s.text|
  {
    ghost var i := s.src;
    codepoint := 0;
    for k := 0 to 4
      invariant s.src == i + k <= |s.text|
      invariant HexPrefix(s.text, i, k) == Some(codepoint)
    {
      var c := s.Peek();
      codepoint := codepoint * 16 + c;
      if 0x30 <= c <= 0x39 {
        codepoint := codepoint - 0x30;
      } else if 0x41 <= c <= 0x46 {
        codepoint := codepoint - (0x41 - 10);
      } else if 0x61 <= c <= 0x66 {
        codepoint := codepoint - (0x61 - 10);
      } else {
        HexPrefixFails(s.text, i, k + 1, 4);
        return false, 0;
      }
      var _ := s.Take();
    }
    return true, codepoint;
  }

  lemma HexPrefixFails(t: bytes, i: nat, k: nat, n: nat)
    requires k <= n && HexPrefix(t, i, k).None?
    ensures HexPrefix(t, i, n).None?
    decreases n
  {
    if k < n {
      HexPrefixFails(t, i, k, n - 1);
    }
  }

  method Consume(s: StringStream, wanted: byte) returns (found: bool)
    requires s.src <= |s.text| && wanted != 0
    modifies s
    ensures found <==> Bytes.Peek(s.text, old(s.src)) == wanted
    ensures s.src == if found then old(s.src) + 1 else old(s.src)
    ensures s.src <= |s.text|
  {
    found := s.Peek() == wanted;
    if found {
      var _ := s.Take();
    }
  }

  method PutAll(o: OutputStream, p: bytes)
    modifies o
    ensures o.out == old(o.out) + p
  {
    for k := 0 to |p|
      invariant o.out == old(o.out) + p[..k]
    {
      o.Put(p[k]);
      assert p[..k + 1] == p[..k] + [p[k]];
    }
    assert p[..|p|] == p;
  }

  /** The code point of a `\u` escape whose `\u` has been taken; low surrogates are fetched too. */
  method ParseCodePoint(s: StringStream) returns (err: ParseError, codepoint: nat)
    requires 2 <= s.src <= |s.text|
    modifies s
    ensures match UnicodeEscape(s.text, old(s.src) - 2)
      case Fail(e) => err == e && err != NoError
      case Put(p, n) => err == NoError && s.src == n && codepoint <= 0x10FFFF && p == Encode(codepoint)
      case Closed => false
  {
    var ok;
    ok, codepoint := ParseHex4(s);
    if !ok {
      return StringUnicodeEscapeInvalidHex, 0;
    }
    Hex4Inside(s.text, old(s.src));
    if 0xD800 <= codepoint <= 0xDFFF {
      if codepoint <= 0xDBFF {
        var found := Consume(s, BACKSLASH);
        if found {
          found := Consume(s, LETTER_U);
        }
        if !found {
          return StringUnicodeSurrogateInvalid, 0;
        }
        ghost var second := s.src;
        var codepoint2;
        ok, codepoint2 := ParseHex4(s);
        if !ok {
          return StringUnicodeEscapeInvalidHex, 0;
        }
        if codepoint2 < 0xDC00 || codepoint2 > 0xDFFF {
          return StringUnicodeSurrogateInvalid, 0;
        }
        codepoint := (codepoint - 0xD800) * 0x400 + (codepoint2 - 0xDC00) + 0x10000;
      } else {
        return StringUnicodeSurrogateInvalid, 0;
      }
    }
    return NoError, codepoint;
  }

  /** The part of the scanner loop that handles a character introduced by a backslash. */
  method ParseEscape(s: StringStream, o: OutputStream) returns (err: ParseError)
    requires s.src < |s.text| && s.text[s.src] == BACKSLASH
    modifies s, o
    ensures match UnitAt(s.text, old(s.src), false)
      case Fail(e) => err == e && err != NoError
      case Put(p, n) => err == NoError && s.src == n && o.out == old(o.out) + p
      case Closed => false
  {
    var _ := s.Take();
    var e := s.Peek();
    if EscapeChar(e) != 0 {
      var _ := s.Take();
      o.Put(EscapeChar(e));
      return NoError;
    } else if e == LETTER_U {
      var _ := s.Take();
      var codepoint;
      err, codepoint := ParseCodePoint(s);
      if err == NoError {
        PutAll(o, Encode(codepoint));
      }
    } else {
      return StringEscapeInvalid;
    }
  }

  /** Decodes the characters of a string literal up to and including the closing quote. */
  method ParseStringToStream(s: StringStream, o: OutputStream, validate: bool) returns (err: ParseError)
    requires s.src <= |s.text|
    modifies s, o
    ensures match DecodeFrom(s.text, old(s.src), validate, [])
      case Good(str, next) => err == NoError && s.src == next && o.out == old(o.out) + str + [0]
      case Bad(e) => err == e && err != NoError
  {
    ghost var str: bytes := [];
    while true
      invariant s.src <= |s.text|
      invariant o.out == old(o.out) + str
      invariant DecodeFrom(s.text, s.src, validate, str) == DecodeFrom(s.text, old(s.src), validate, [])
      decreases |s.text| - s.src
    {
      ghost var i, unit := s.src, UnitAt(s.text, s.src, validate);
      var c := s.Peek();
      if c == BACKSLASH {
        err := ParseEscape(s, o);
        if err != NoError {
          return;
        }
      } else if c == QUOTE {
        var _ := s.Take();
        o.Put(0);
        return NoError;
      } else if c < 0x20 {
        if c == 0 {
          return StringMissQuotationMark;
        } else {
          return StringInvalidEncoding;
        }
      } else if validate {
        var ok := Validate(s, o);
        if !ok {
          return StringInvalidEncoding;
        }
      } else {
        var _ := s.Take();
        o.Put(c);
      }
      assert unit.Put? && s.src == unit.next;
      Associative(old(o.out), str, unit.put);
      str := str + unit.put;
    }
  }

  // ------------------------------------------------------------- in-place decoding

  /** A read cursor and a write cursor over one buffer; the buffer ends with its NUL terminator. */
  class InsituStringStream {
    const buf: array<byte>
    var src: nat
    var dst: nat

    constructor (buf: array<byte>)
      ensures this.buf == buf && src == 0 && dst == 0
    {
      this.buf := buf;
      src, dst := 0, 0;
    }

    /** The write cursor is not past the read cursor, and nothing unread or before `head` has changed. */
    ghost predicate Intact(orig: bytes, head: nat)
      reads this, buf
    {
      && |orig| == buf.Length && 0 < |orig| && orig[|orig| - 1] == 0
      && head <= dst <= src <= |orig|
      && buf[src..] == orig[src..]
      && buf[..head] == orig[..head]
    }

    /** The characters written since `head`. */
    ghost function Written(head: nat): bytes
      requires head <= dst <= buf.Length
      reads this, buf
    {
      buf[head..dst]
    }

    method Take(ghost orig: bytes, ghost head: nat) returns (c: byte)
      requires Intact(orig, head) && src < |orig|
      modifies this`src
      ensures Intact(orig, head) && c == orig[old(src)] && src == old(src) + 1
    {
      c := buf[src];
      assert c == orig[src..][0];
      src := src + 1;
      assert buf[src..] == buf[old(src)..][1..] && orig[src..] == orig[old(src)..][1..];
    }

    method Put(c: byte, ghost orig: bytes, ghost head: nat)
      requires Intact(orig, head) && dst < src
      modifies this`dst, buf
      ensures Intact(orig, head) && dst == old(dst) + 1
      ensures Written(head) == old(Written(head)) + [c]
    {
      buf[dst] := c;
      dst := dst + 1;
      assert buf[head..dst] == old(buf[head..dst]) + [c];
      assert buf[src..] == old(buf[src..]) && buf[..head] == old(buf[..head]);
    }

    /** A read-only cursor at the same place, for the parts of the scanner that write nothing. */
    method View() returns (s: StringStream)
      ensures fresh(s) && s.text == buf[..] && s.src == src
    {
      s := new StringStream(buf[..]);
      s.src := src;
    }

    method PutAll(p: bytes, ghost orig: bytes, ghost head: nat)
      requires Intact(orig, head) && dst + |p| <= src
      modifies this`dst, buf
      ensures Intact(orig, head)
      ensures Written(head) == old(Written(head)) + p
    {
      for k := 0 to |p|
        invariant Intact(orig, head) && dst == old(dst) + k
        invariant Written(head) == old(Written(head)) + p[..k]
      {
        Put(p[k], orig, head);
        assert p[..k + 1] == p[..k] + [p[k]];
      }
      assert p[..|p|] == p;
    }

    /** The digits of a `\u` escape, read without writing, and then the bytes of its code point. */
    method ParseUnicode(ghost orig: bytes, ghost head: nat) returns (err: ParseError)
      requires Intact(orig, head) && dst + 2 <= src
      modifies this`src, this`dst, buf
      ensures Intact(orig, head)
      ensures match UnicodeEscape(orig, old(src) - 2)
        case Fail(e) => err == e && err != NoError
        case Put(p, n) => err == NoError && src == n && Written(head) == old(Written(head)) + p
        case Closed => false
    {
      hide UnicodeEscape, Encode;
      var view := View();
      UnicodeEscapeFrame(buf[..], orig, src - 2);
      var codepoint;
      err, codepoint := ParseCodePoint(view);
      if err == NoError {
        assert orig[view.src..] == orig[src..][view.src - src..];
        assert buf[view.src..] == buf[src..][view.src - src..];
        src := view.src;
        PutAll(Encode(codepoint), orig, head);
      }
    }

    /** Handles a character introduced by a backslash. */
    method ParseEscape(ghost orig: bytes, ghost head: nat) returns (err: ParseError)
      requires Intact(orig, head) && src < |orig| && orig[src] == BACKSLASH
      modifies this`src, this`dst, buf
      ensures Intact(orig, head)
      ensures match UnitAt(orig, old(src), false)
        case Fail(e) => err == e && err != NoError
        case Put(p, n) => err == NoError && src == n && Written(head) == old(Written(head)) + p
        case Closed => false
    {
      hide UnicodeEscape;
      var _ := Take(orig, head);
      var e := buf[src];
      assert e == orig[src..][0];
      if EscapeChar(e) != 0 {
        var _ := Take(orig, head);
        Put(EscapeChar(e), orig, head);
        return NoError;
      } else if e == LETTER_U {
        var _ := Take(orig, head);
        err := ParseUnicode(orig, head);
      } else {
        return StringEscapeInvalid;
      }
    }

    /** Copies one more byte unless a NUL has been copied already. */
    method CopyTail(c: byte, mask: byte, ok: bool, ghost orig: bytes, ghost head: nat) returns (d: byte, result: bool)
      requires Intact(orig, head) && (c != 0 ==> src < |orig|) && dst <= src
      modifies this`src, this`dst, buf
      ensures Intact(orig, head)
      ensures c != 0 ==> src == old(src) + 1 && Written(head) == old(Written(head)) + [d] && d == orig[old(src)]
      ensures c == 0 ==> src == old(src) && Written(head) == old(Written(head)) && d == 0
      ensures d != 0 ==> src < |orig|
      ensures result <==> ok && InRange(d, mask)
    {
      d := c;
      if c != 0 {
        d := Take(orig, head);
        Put(d, orig, head);
      }
      result := ok && InRange(d, mask);
    }

    method CopyOneTail(c: byte, mask: byte, ghost orig: bytes, ghost head: nat) returns (ok: bool)
      requires Intact(orig, head) && c != 0 && src < |orig|
      modifies this`src, this`dst, buf
      ensures Intact(orig, head)
      ensures ok <==> TailsMatch(orig, old(src), [mask])
      ensures ok ==> src == old(src) + 1
      ensures ok ==> Written(head) == old(Written(head)) + orig[old(src)..src]
    {
      hide InRange;
      ghost var i := src;
      var _, good := CopyTail(c, mask, true, orig, head);
      ok := good;
      ghost var m := [mask];
      assert TailsMatch(orig, i, m) ==> InRange(Peek(orig, i + 0), m[0]);
      assert orig[i..src] == [orig[i]];
    }

    method CopyTwoTails(c: byte, mask0: byte, mask1: byte, ghost orig: bytes, ghost head: nat) returns (ok: bool)
      requires Intact(orig, head) && c != 0 && src < |orig|
      modifies this`src, this`dst, buf
      ensures Intact(orig, head)
      ensures ok <==> TailsMatch(orig, old(src), [mask0, mask1])
      ensures ok ==> src == old(src) + 2
      ensures ok ==> Written(head) == old(Written(head)) + orig[old(src)..src]
    {
      hide InRange;
      ghost var m, i := [mask0, mask1], src;
      var d;
      d, ok := CopyTail(c, mask0, true, orig, head);
      d, ok := CopyTail(d, mask1, ok, orig, head);
      assert TailsMatch(orig, i, m) ==> InRange(Peek(orig, i + 0), m[0]) && InRange(Peek(orig, i + 1), m[1]);
      TerminatorIsNoTail();
      if ok {
        assert orig[i..src] == [orig[i], orig[i + 1]];
      }
    }

    method CopyThreeTails(c: byte, mask0: byte, mask1: byte, mask2: byte, ghost orig: bytes, ghost head: nat)
      returns (ok: bool)
      requires Intact(orig, head) && c != 0 && src < |orig|
      modifies this`src, this`dst, buf
      ensures Intact(orig, head)
      ensures ok <==> TailsMatch(orig, old(src), [mask0, mask1, mask2])
      ensures ok ==> src == old(src) + 3
      ensures ok ==> Written(head) == old(Written(head)) + orig[old(src)..src]
    {
      hide InRange;
      ghost var m, i := [mask0, mask1, mask2], src;
      var d;
      d, ok := CopyTail(c, mask0, true, orig, head);
      d, ok := CopyTail(d, mask1, ok, orig, head);
      d, ok := CopyTail(d, mask2, ok, orig, head);
      assert TailsMatch(orig, i, m) ==>
        InRange(Peek(orig, i + 0), m[0]) && InRange(Peek(orig, i + 1), m[1]) && InRange(Peek(orig, i + 2), m[2]);
      TerminatorIsNoTail();
      if ok {
        assert orig[i..src] == [orig[i], orig[i + 1], orig[i + 2]];
      }
    }

    /** The tail bytes of a character whose lead byte is of type `kind`. */
    method CopyTails(kind: byte, c: byte, ghost orig: bytes, ghost head: nat) returns (ok: bool)
      requires Intact(orig, head) && c != 0 && src < |orig|
      modifies this`src, this`dst, buf
      ensures Intact(orig, head)
      ensures ok <==> TailMasks(kind) != [] && TailsMatch(orig, old(src), TailMasks(kind))
      ensures ok ==> src == old(src) + |TailMasks(kind)|
      ensures ok ==> Written(head) == old(Written(head)) + orig[old(src)..src]
    {
      hide InRange, Intact, TailsMatch;
      if kind == 2 {
        ok := CopyOneTail(c, 0x70, orig, head);
      } else if kind == 3 {
        ok := CopyTwoTails(c, 0x70, 0x70, orig, head);
      } else if kind == 4 {
        ok := CopyTwoTails(c, 0x50, 0x70, orig, head);
      } else if kind == 5 {
        ok := CopyThreeTails(c, 0x10, 0x70, 0x70, orig, head);
      } else if kind == 6 {
        ok := CopyThreeTails(c, 0x70, 0x70, 0x70, orig, head);
      } else if kind == 10 {
        ok := CopyTwoTails(c, 0x20, 0x70, orig, head);
      } else if kind == 11 {
        ok := CopyThreeTails(c, 0x60, 0x70, 0x70, orig, head);
      } else {
        ok := false;
      }
    }

    /** Copies one character within the buffer; it succeeds exactly on the well-formed sequences. */
    method Validate(ghost orig: bytes, ghost head: nat) returns (ok: bool)
      requires Intact(orig, head) && src < |orig| && orig[src] != 0
      modifies this`src, this`dst, buf
      ensures Intact(orig, head)
      ensures ok <==> CharLength(orig, old(src)) != 0
      ensures ok ==> src == old(src) + CharLength(orig, old(src))
      ensures ok ==> Written(head) == old(Written(head)) + orig[old(src)..src]
    {
      hide TailMasks, TailsMatch, CharLength;
      ghost var i, written := src, Written(head);
      var c := Take(orig, head);
      Put(c, orig, head);
      if c < 0x80 {
        CharLengthUnique(orig, i, 1);
        return true;
      }
      TableIsGrammar(orig, i);
      ok := CopyTails(GetRange(c), c, orig, head);
      if ok {
        SplitFirst(orig, i, src);
        Associative(written, [c], orig[i + 1..src]);
      }
    }

    /** Copies one character that is neither special nor a control character. */
    method ParsePlain(validate: bool, ghost orig: bytes, ghost head: nat) returns (err: ParseError)
      requires Intact(orig, head) && src < |orig|
      requires orig[src] >= 0x20 && orig[src] != BACKSLASH && orig[src] != QUOTE
      modifies this`src, this`dst, buf
      ensures Intact(orig, head)
      ensures match UnitAt(orig, old(src), validate)
        case Fail(e) => err == e && err != NoError
        case Put(p, n) => err == NoError && src == n && Written(head) == old(Written(head)) + p
        case Closed => false
    {
      hide CharLength;
      var c := buf[src];
      assert c == orig[src..][0];
      if validate {
        var ok := Validate(orig, head);
        if !ok {
          return StringInvalidEncoding;
        }
      } else {
        var _ := Take(orig, head);
        Put(c, orig, head);
      }
      err := NoError;
    }

    /** The closing quote: the string gets its NUL. */
    method EndString(ghost orig: bytes, head: nat, ghost str: bytes) returns (length: nat)
      requires Intact(orig, head) && src < |orig| && Written(head) == str
      modifies this`src, this`dst, buf
      ensures Intact(orig, head) && src == old(src) + 1 && length == |str| && head + length < src
      ensures buf[head..head + length] == str && buf[head + length] == 0
    {
      var _ := Take(orig, head);
      Put(0, orig, head);
      length := dst - head - 1;  // PutEnd
      assert buf[head..dst] == str + [0];
      assert buf[head..head + length] == buf[head..dst][..length] == str;
    }


    /** In-place decoding: the same string and the same error as buffered decoding of the same text. */
    method ParseStringInsitu(validate: bool) returns (err: ParseError, head: nat, length: nat)
      requires src < buf.Length && buf[buf.Length - 1] == 0
      modifies this`src, this`dst, buf
      ensures head == old(src)
      ensures Intact(old(buf[..]), head)
      ensures match DecodeFrom(old(buf[..]), old(src), validate, [])
        case Good(str, next) =>
          && err == NoError && src == next && length == |str|
          && head + length < src && buf[head..head + length] == str && buf[head + length] == 0
        case Bad(e) => err == e && err != NoError
    {
      hide UnitAt, Intact;
      ghost var orig := buf[..];
      head := src;
      dst := src;  // PutBegin
      length := 0;
      ghost var str: bytes := [];
      StartsIntact(orig, head);
      while true
        invariant Intact(orig, head) && src < |orig| && head <= dst <= buf.Length
        invariant Written(head) == str
        invariant DecodeFrom(orig, src, validate, str) == DecodeFrom(orig, head, validate, [])
        decreases |orig| - src
      {
        Unread(orig, head);
        ghost var i, unit := src, UnitAt(orig, src, validate);
        QuoteCloses(orig, src, validate);
        if buf[src] == QUOTE {
          length := EndString(orig, head, str);
          return NoError, head, length;
        }
        err := ParseUnit(validate, orig, head);
        if err != NoError {
          return;
        }
        UnitKeepsTerminator(orig, i, validate);
        Bounds(orig, head);
        str := str + unit.put;
      }
    }

    lemma Bounds(orig: bytes, head: nat)
      requires Intact(orig, head)
      ensures head <= dst <= src <= |orig| == buf.Length
    {
    }

    /** One character of the string, or an error. */
    method ParseUnit(validate: bool, ghost orig: bytes, ghost head: nat) returns (err: ParseError)
      requires Intact(orig, head) && src < |orig| && orig[src] != QUOTE
      modifies this`src, this`dst, buf
      ensures Intact(orig, head)
      ensures match UnitAt(orig, old(src), validate)
        case Fail(e) => err == e && err != NoError
        case Put(p, n) => err == NoError && src == n && Written(head) == old(Written(head)) + p
        case Closed => false
    {
      hide CharLength, UnicodeEscape, Intact;
      Unread(orig, head);
      var c := buf[src];
      if c == BACKSLASH {
        err := ParseEscape(orig, head);
      } else if c < 0x20 {
        err := if c == 0 then StringMissQuotationMark else StringInvalidEncoding;
      } else {
        err := ParsePlain(validate, orig, head);
      }
    }

    lemma Unread(orig: bytes, head: nat)
      requires Intact(orig, head) && src < |orig|
      ensures |orig| == buf.Length && buf[src] == orig[src] && orig[|orig| - 1] == 0 && head <= dst <= src
    {
      assert buf[src..][0] == orig[src..][0];
    }

    lemma StartsIntact(orig: bytes, head: nat)
      requires buf[..] == orig && head == dst == src < |orig| && orig[|orig| - 1] == 0
      ensures Intact(orig, head) && Written(head) == []
    {
    }
  }

  lemma QuoteCloses(t: bytes, i: nat, validate: bool)
    requires i < |t|
    ensures UnitAt(t, i, validate) == Closed <==> t[i] == QUOTE
  {
  }

  // --------------------------------------------------------------- frame lemmas

  lemma HexPrefixFrame(t: bytes, u: bytes, i: nat, k: nat)
    requires |t| == |u| && i <= |t| && t[i..] == u[i..]
    ensures HexPrefix(t, i, k) == HexPrefix(u, i, k)
  {
    if k > 0 {
      HexPrefixFrame(t, u, i, k - 1);
      PeekFrame(t, u, i, i + k - 1);
    }
  }

  lemma PeekFrame(t: bytes, u: bytes, i: nat, j: nat)
    requires |t| == |u| && i <= |t| && t[i..] == u[i..] && i <= j
    ensures Peek(t, j) == Peek(u, j)
  {
    if j < |t| {
      assert t[j] == t[i..][j - i];
    }
  }

  /** A `\u` escape reads nothing before its digits. */
  lemma UnicodeEscapeFrame(t: bytes, u: bytes, i: nat)
    requires |t| == |u| && i + 2 <= |t| && t[i + 2..] == u[i + 2..]
    ensures UnicodeEscape(t, i) == UnicodeEscape(u, i)
  {
    hide HexPrefix;
    HexPrefixFrame(t, u, i + 2, 4);
    if Hex4(t, i + 2).Some? {
      Hex4Inside(t, i + 2);
      PeekFrame(t, u, i + 2, i + 6);
      PeekFrame(t, u, i + 2, i + 7);
      if i + 8 <= |t| {
        assert t[i + 8..] == t[i + 2..][6..] && u[i + 8..] == u[i + 2..][6..];
        HexPrefixFrame(t, u, i + 8, 4);
      }
    }
  }

  lemma TerminatorIsNoTail()
    ensures forall mask :: !InRange(0, mask)
  {
  }

  /** No step of the scanner takes the NUL terminator. */
  lemma UnitKeepsTerminator(t: bytes, i: nat, validate: bool)
    requires 0 < |t| && t[|t| - 1] == 0 && UnitAt(t, i, validate).Put?
    ensures UnitAt(t, i, validate).next < |t|
  {
  }

  // ------------------------------------------------------- the two decoders agree

  lemma TerminatorPeek(t: bytes, j: nat)
    ensures Peek(t + [0], j) == Peek(t, j)
  {
  }

  lemma TerminatorHex(t: bytes, i: nat, k: nat)
    ensures HexPrefix(t + [0], i, k) == HexPrefix(t, i, k)
  {
    if k > 0 {
      TerminatorHex(t, i, k - 1);
      TerminatorPeek(t, i + k - 1);
    }
  }

  lemma TerminatorCharLength(t: bytes, i: nat)
    requires i < |t| && t[i] != 0
    ensures CharLength(t + [0], i) == CharLength(t, i)
  {
    hide CharLength;
    var u := t + [0];
    var n := CharLength(u, i);
    if CharLength(t, i) != 0 {
      PrefixSlice(t, u, i, i + CharLength(t, i));
      CharLengthUnique(u, i, CharLength(t, i));
    } else if n != 0 {
      LastNotNul(u[i..i + n]);
      assert u[i..i + n][n - 1] == u[i + n - 1];
      PrefixSlice(t, u, i, i + n);
      CharLengthUnique(t, i, n);
    }
  }

  lemma PrefixSlice(t: bytes, u: bytes, i: nat, j: nat)
    requires i <= j <= |t| && t <= u
    ensures u[i..j] == t[i..j]
  {
  }

  lemma LastNotNul(s: bytes)
    requires WellFormed(s) && s[0] != 0
    ensures s[|s| - 1] != 0
  {
  }

  lemma TerminatorUnit(t: bytes, i: nat, validate: bool)
    ensures UnitAt(t + [0], i, validate) == UnitAt(t, i, validate)
  {
    hide HexPrefix, CharLength, EscapeChar;
    TerminatorPeek(t, i);
    TerminatorPeek(t, i + 1);
    TerminatorPeek(t, i + 6);
    TerminatorPeek(t, i + 7);
    TerminatorHex(t, i + 2, 4);
    TerminatorHex(t, i + 8, 4);
    if i < |t| && t[i] >= 0x20 {
      TerminatorCharLength(t, i);
      if CharLength(t, i) != 0 {
        assert (t + [0])[i..i + CharLength(t, i)] == t[i..i + CharLength(t, i)];
      }
    }
  }

  /** Storing the NUL terminator in the buffer does not change what a literal decodes to. */
  lemma {:induction false} TerminatorIrrelevant(t: bytes, i: nat, validate: bool, acc: bytes)
    requires i <= |t|
    ensures DecodeFrom(t + [0], i, validate, acc) == DecodeFrom(t, i, validate, acc)
    decreases |t| - i
  {
    hide UnitAt;
    TerminatorUnit(t, i, validate);
    var unit := UnitAt(t, i, validate);
    if unit.Put? {
      TerminatorIrrelevant(t, unit.next, validate, acc + unit.put);
    }
  }

  /** Decoding the same literal both ways: same string and same error, for every text and position. */
  method DecodeBothWays(text: bytes, i: nat, validate: bool)
    returns (buffered: ParseError, insitu: ParseError, string0: bytes, string1: bytes)
    requires i <= |text|
    ensures buffered == insitu
    ensures buffered == NoError ==> string0 == string1
    ensures match DecodeFrom(text, i, validate, [])
      case Good(str, _) => buffered == NoError && string0 == str
      case Bad(e) => buffered == e && e != NoError
  {
    TerminatorIrrelevant(text, i, validate, []);
    var s := new StringStream(text);
    s.src := i;
    var o := new OutputStream();
    buffered := ParseStringToStream(s, o, validate);
    var content := text + [0];
    var buf := new byte[|content|](k requires 0 <= k < |content| => content[k]);
    var z := new InsituStringStream(buf);
    z.src := i;
    assert buf[..] == content;
    var head, length;
    insitu, head, length := z.ParseStringInsitu(validate);
    string0, string1 := [], [];
    if buffered == NoError {
      string0 := o.out[..|o.out| - 1];
      string1 := buf[head..head + length];
    }
  }
}
