/** The UTF-8 codec: table-driven decoding against section 4 of RFC 3629. */
module Utf8 {
  import opened Bytes
  import opened Streams

  /** A code point that UTF-8 can carry: no surrogates, at most 0x10FFFF. */
  type scalar = x: int | 0 <= x <= 0x10FFFF && !(0xD800 <= x <= 0xDFFF)

  // ---------------------------------------------------------------- reference

  predicate TailByte(c: byte) {
    0x80 <= c <= 0xBF
  }

  /** UTF8-char of section 4 of RFC 3629. */
  predicate WellFormed(s: bytes) {
    if |s| == 1 then s[0] <= 0x7F
    else if |s| == 2 then 0xC2 <= s[0] <= 0xDF && TailByte(s[1])
    else if |s| == 3 then
      && TailByte(s[2])
      && (|| (s[0] == 0xE0 && 0xA0 <= s[1] <= 0xBF)
          || (0xE1 <= s[0] <= 0xEC && TailByte(s[1]))
          || (s[0] == 0xED && 0x80 <= s[1] <= 0x9F)
          || (0xEE <= s[0] <= 0xEF && TailByte(s[1])))
    else if |s| == 4 then
      && TailByte(s[2]) && TailByte(s[3])
      && (|| (s[0] == 0xF0 && 0x90 <= s[1] <= 0xBF)
          || (0xF1 <= s[0] <= 0xF3 && TailByte(s[1]))
          || (s[0] == 0xF4 && 0x80 <= s[1] <= 0x8F))
    else false
  }

  /** The code point a well-formed sequence stands for (table of section 3 of RFC 3629). */
  function CodePoint(s: bytes): (c: scalar)
    requires WellFormed(s)
  {
    var b: seq<int> := s;
    if |b| == 1 then b[0]
    else if |b| == 2 then (b[0] - 0xC0) * 0x40 + (b[1] - 0x80)
    else if |b| == 3 then (b[0] - 0xE0) * 0x1000 + (b[1] - 0x80) * 0x40 + (b[2] - 0x80)
    else (b[0] - 0xF0) * 0x40000 + (b[1] - 0x80) * 0x1000 + (b[2] - 0x80) * 0x40 + (b[3] - 0x80)
  }

  /** Length of the well-formed character at the head of `t[i..]`, or 0 when there is none. */
  function CharLength(t: bytes, i: nat): (n: nat)
    ensures n != 0 ==> i + n <= |t| && n <= 4 && WellFormed(t[i..i + n])
  {
    if i + 1 <= |t| && WellFormed(t[i..i + 1]) then 1
    else if i + 2 <= |t| && WellFormed(t[i..i + 2]) then 2
    else if i + 3 <= |t| && WellFormed(t[i..i + 3]) then 3
    else if i + 4 <= |t| && WellFormed(t[i..i + 4]) then 4
    else 0
  }

  lemma CharLengthUnique(t: bytes, i: nat, n: nat)
    requires i + n <= |t| && WellFormed(t[i..i + n])
    ensures CharLength(t, i) == n
  {
    var m := CharLength(t, i);
    assert t[i..i + n][0] == t[i];
    if m != 0 {
      assert t[i..i + m][0] == t[i];
    }
  }

  // ------------------------------------------------------------------ the code

  /** The byte-class table; 0x10, 0x40 and 0x20 are the three classes of tail bytes. */
  function GetRange(c: byte): byte {
    if c <= 0x7F then 0
    else if c <= 0x8F then 0x10
    else if c <= 0x9F then 0x40
    else if c <= 0xBF then 0x20
    else if c <= 0xC1 then 8
    else if c <= 0xDF then 2
    else if c == 0xE0 then 10
    else if c == 0xED then 4
    else if c <= 0xEF then 3
    else if c == 0xF0 then 11
    else if c <= 0xF3 then 6
    else if c == 0xF4 then 5
    else 8
  }

  /** `GetRange(c) & mask` is not zero; every mask is a union of the three tail classes. */
  predicate InRange(c: byte, mask: byte) {
    match GetRange(c)
    case 0x10 => mask == 0x70 || mask == 0x50 || mask == 0x10
    case 0x20 => mask == 0x70 || mask == 0x20 || mask == 0x60
    case 0x40 => mask == 0x70 || mask == 0x50 || mask == 0x60
    case _ => false
  }

  /** The tail-byte masks tell the sub-ranges of 80..BF apart. */
  lemma Masks(c: byte)
    ensures InRange(c, 0x70) <==> TailByte(c)
    ensures InRange(c, 0x50) <==> 0x80 <= c <= 0x9F
    ensures InRange(c, 0x10) <==> 0x80 <= c <= 0x8F
    ensures InRange(c, 0x20) <==> 0xA0 <= c <= 0xBF
    ensures InRange(c, 0x60) <==> 0x90 <= c <= 0xBF
  {
  }

  /** The masks the tail bytes of a character are tested with, by type of its lead byte. */
  function TailMasks(kind: byte): seq<byte> {
    if kind == 2 then [0x70]
    else if kind == 3 then [0x70, 0x70]
    else if kind == 4 then [0x50, 0x70]
    else if kind == 5 then [0x10, 0x70, 0x70]
    else if kind == 6 then [0x70, 0x70, 0x70]
    else if kind == 10 then [0x20, 0x70]
    else if kind == 11 then [0x60, 0x70, 0x70]
    else []
  }

  predicate TailsMatch(t: bytes, i: nat, m: seq<byte>) {
    forall k :: 0 <= k < |m| ==> InRange(Peek(t, i + k), m[k])
  }

  /** The mask table accepts exactly the grammar of section 4 of RFC 3629. */
  lemma TableIsGrammar(t: bytes, i: nat)
    requires i < |t| && t[i] >= 0x80
    ensures var m := TailMasks(GetRange(t[i]));
      CharLength(t, i) == if m != [] && TailsMatch(t, i + 1, m) then 1 + |m| else 0
  {
    var m := TailMasks(GetRange(t[i]));
    var n := CharLength(t, i);
    if n != 0 {
      GrammarMasks(t[i..i + n]);
      assert t[i..i + n][0] == t[i];
      forall k | 0 <= k < |m| ensures InRange(Peek(t, i + 1 + k), m[k]) {
        assert t[i..i + n][1 + k] == t[i + 1 + k];
      }
    }
    if m != [] && TailsMatch(t, i + 1, m) {
      if i + 1 + |m| > |t| { TailsPastEnd(t, i + 1, m); }
      var s := t[i..i + 1 + |m|];
      forall k | 0 <= k < |m| ensures InRange(s[1 + k], m[k]) {
        assert s[1 + k] == Peek(t, i + 1 + k);
      }
      MasksGrammar(s);
      CharLengthUnique(t, i, 1 + |m|);
    }
  }

  /** A NUL terminator never passes for a tail byte. */
  lemma TailsPastEnd(t: bytes, i: nat, m: seq<byte>)
    requires i <= |t| < i + |m|
    ensures !TailsMatch(t, i, m)
  {
    var k := |t| - i;
    assert !InRange(Peek(t, i + k), m[k]);
  }

  lemma GrammarMasks(s: bytes)
    requires WellFormed(s) && |s| > 1
    ensures var m := TailMasks(GetRange(s[0]));
      |m| == |s| - 1 && forall k :: 0 <= k < |m| ==> InRange(s[1 + k], m[k])
  {
    var m := TailMasks(GetRange(s[0]));
    Masks(s[1]);
    if |s| > 2 { Masks(s[2]); }
    if |s| > 3 { Masks(s[3]); }
  }

  lemma MasksGrammar(s: bytes)
    requires s != [] && s[0] >= 0x80
    requires var m := TailMasks(GetRange(s[0]));
      m != [] && |m| == |s| - 1 && forall k :: 0 <= k < |m| ==> InRange(s[1 + k], m[k])
    ensures WellFormed(s)
  {
    var m := TailMasks(GetRange(s[0]));
    Masks(s[1]);
    assert InRange(s[1 + 0], m[0]);
    if |s| > 2 { Masks(s[2]); assert InRange(s[1 + 1], m[1]); }
    if |s| > 3 { Masks(s[3]); assert InRange(s[1 + 2], m[2]); }
  }

  /** `(0xFF >> type) & c`, written as a remainder. */
  function LeadBits(t: byte, c: byte): nat {
    if t == 2 then c % 0x40
    else if t == 3 then c % 0x20
    else if t == 4 then c % 0x10
    else if t == 5 then c % 0x08
    else if t == 6 then c % 0x04
    else 0
  }

  /** Shifting six bits a tail byte into the lead bits gives the code point. */
  lemma DecodedBits(s: bytes)
    requires WellFormed(s) && |s| > 1
    ensures var l := LeadBits(GetRange(s[0]), s[0]);
      CodePoint(s) ==
      if |s| == 2 then l * 0x40 + s[1] % 0x40
      else if |s| == 3 then (l * 0x40 + s[1] % 0x40) * 0x40 + s[2] % 0x40
      else ((l * 0x40 + s[1] % 0x40) * 0x40 + s[2] % 0x40) * 0x40 + s[3] % 0x40
  {
    LeadIs(s);
    TailBits(s[1]);
    assert TailByte(s[1]);
    if |s| > 2 {
      TailBits(s[2]);
    }
    if |s| > 3 {
      TailBits(s[3]);
    }
    hide LeadBits, GetRange;
  }

  lemma TailBits(c: byte)
    ensures TailByte(c) ==> c % 0x40 == c as int - 0x80
  {
  }

  /** What is left of a lead byte is what it exceeds the smallest lead byte of its length by. */
  lemma LeadIs(s: bytes)
    requires WellFormed(s) && |s| > 1
    ensures LeadBits(GetRange(s[0]), s[0]) ==
      s[0] as int - (if |s| == 2 then 0xC0 else if |s| == 3 then 0xE0 else 0xF0)
  {
  }

  /** One tail step of the decoder: shift six more bits in and test the byte class. */
  method DecodeTail(s: StringStream, mask: byte, codepoint: nat, ok: bool) returns (cp: nat, result: bool)
    modifies s
    ensures s.src == old(s.src) + 1
    ensures var c := Peek(s.text, old(s.src));
      cp == codepoint * 0x40 + c % 0x40 && (result <==> ok && InRange(c, mask))
  {
    var c := s.Take();
    cp := codepoint * 0x40 + c % 0x40;
    result := ok && InRange(c, mask);
  }

  method DecodeTwoTails(s: StringStream, mask0: byte, mask1: byte, codepoint: nat) returns (cp: nat, ok: bool)
    modifies s
    ensures s.src == old(s.src) + 2
    ensures ok <==> TailsMatch(s.text, old(s.src), [mask0, mask1])
    ensures cp == (codepoint * 0x40 + Peek(s.text, old(s.src)) % 0x40) * 0x40 + Peek(s.text, old(s.src) + 1) % 0x40
  {
    cp, ok := DecodeTail(s, mask0, codepoint, true);
    cp, ok := DecodeTail(s, mask1, cp, ok);
    assert TailsMatch(s.text, old(s.src), [mask0, mask1]) ==>
      InRange(Peek(s.text, old(s.src) + 0), [mask0, mask1][0]) && InRange(Peek(s.text, old(s.src) + 1), [mask0, mask1][1]);
  }

  method DecodeThreeTails(s: StringStream, mask0: byte, mask1: byte, mask2: byte, codepoint: nat)
    returns (cp: nat, ok: bool)
    modifies s
    ensures s.src == old(s.src) + 3
    ensures ok <==> TailsMatch(s.text, old(s.src), [mask0, mask1, mask2])
    ensures cp == ((codepoint * 0x40 + Peek(s.text, old(s.src)) % 0x40) * 0x40
                   + Peek(s.text, old(s.src) + 1) % 0x40) * 0x40 + Peek(s.text, old(s.src) + 2) % 0x40
  {
    ghost var m := [mask0, mask1, mask2];
    cp, ok := DecodeTail(s, mask0, codepoint, true);
    cp, ok := DecodeTail(s, mask1, cp, ok);
    cp, ok := DecodeTail(s, mask2, cp, ok);
    ghost var i := old(s.src);
    assert TailsMatch(s.text, i, m) ==>
      InRange(Peek(s.text, i + 0), m[0]) && InRange(Peek(s.text, i + 1), m[1]) && InRange(Peek(s.text, i + 2), m[2]);
  }

  /** `n` tail bytes shifted in after the lead bits `l`. */
  function ShiftIn(t: bytes, i: nat, n: nat, l: nat): nat {
    if n == 0 then l
    else if n == 1 then l * 0x40 + Peek(t, i) % 0x40
    else if n == 2 then (l * 0x40 + Peek(t, i) % 0x40) * 0x40 + Peek(t, i + 1) % 0x40
    else ((l * 0x40 + Peek(t, i) % 0x40) * 0x40 + Peek(t, i + 1) % 0x40) * 0x40 + Peek(t, i + 2) % 0x40
  }

  lemma ShiftedIn(t: bytes, i: nat, n: nat)
    requires i + n <= |t| && n > 1 && WellFormed(t[i..i + n])
    ensures CodePoint(t[i..i + n]) == ShiftIn(t, i + 1, n - 1, LeadBits(GetRange(t[i]), t[i]))
  {
    var s := t[i..i + n];
    DecodedBits(s);
    assert forall k :: 0 <= k < n ==> s[k] == Peek(t, i + k);
    assert s[0] == t[i] && s[1] == Peek(t, i + 1);
    assert n > 2 ==> s[2] == Peek(t, i + 1 + 1);
    assert n > 3 ==> s[3] == Peek(t, i + 1 + 2);
    hide CodePoint, LeadBits, GetRange;
  }

  lemma OneTail(t: bytes, i: nat, mask: byte)
    ensures TailsMatch(t, i, [mask]) <==> InRange(Peek(t, i), mask)
  {
    assert TailsMatch(t, i, [mask]) ==> InRange(Peek(t, i + 0), [mask][0]);
  }

  /** The switch over the byte class of the lead byte. */
  method DecodeTails(s: StringStream, kind: byte, lead: nat) returns (ok: bool, codepoint: nat)
    modifies s
    ensures var m := TailMasks(kind);
      && s.src == old(s.src) + |m|
      && (ok <==> m != [] && TailsMatch(s.text, old(s.src), m))
      && codepoint == ShiftIn(s.text, old(s.src), |m|, lead)
  {
    hide TailsMatch, InRange;
    codepoint, ok := lead, false;
    if kind == 2 {
      OneTail(s.text, s.src, 0x70);
      codepoint, ok := DecodeTail(s, 0x70, codepoint, true);
    } else if kind == 3 {
      codepoint, ok := DecodeTwoTails(s, 0x70, 0x70, codepoint);
    } else if kind == 4 {
      codepoint, ok := DecodeTwoTails(s, 0x50, 0x70, codepoint);
    } else if kind == 5 {
      codepoint, ok := DecodeThreeTails(s, 0x10, 0x70, 0x70, codepoint);
    } else if kind == 6 {
      codepoint, ok := DecodeThreeTails(s, 0x70, 0x70, 0x70, codepoint);
    } else if kind == 10 {
      codepoint, ok := DecodeTwoTails(s, 0x20, 0x70, codepoint);
    } else if kind == 11 {
      codepoint, ok := DecodeThreeTails(s, 0x60, 0x70, 0x70, codepoint);
    }
  }

  /** Decodes one character; before the end it succeeds exactly on the well-formed sequences, and at the end it decodes
      the NUL there. */
  method Decode(s: StringStream) returns (ok: bool, codepoint: nat)
    modifies s
    ensures ok <==> CharLength(s.text, old(s.src)) != 0 || old(s.src) >= |s.text|
    ensures ok && old(s.src) < |s.text| ==>
      s.src == old(s.src) + CharLength(s.text, old(s.src)) && codepoint == CodePoint(s.text[old(s.src)..s.src])
    ensures old(s.src) >= |s.text| ==> s.src == old(s.src) + 1 && codepoint == 0
    ensures old(s.src) < s.src <= old(s.src) + 4
  {
    ghost var i := s.src;
    var c := s.Take();
    if c < 0x80 {
      if i < |s.text| {
        AsciiCharacter(s.text, i);
      }
      return true, c;
    }
    hide CharLength, WellFormed, CodePoint, LeadBits, GetRange, TailsMatch, ShiftIn;
    TableIsGrammar(s.text, i);
    var kind := GetRange(c);
    FewTails(kind);
    hide TailMasks;
    ok, codepoint := DecodeTails(s, kind, LeadBits(kind, c));
    if ok {
      ShiftedIn(s.text, i, s.src - i);
    }
  }

  lemma AsciiCharacter(t: bytes, i: nat)
    requires i < |t| && t[i] < 0x80
    ensures CharLength(t, i) == 1 && CodePoint(t[i..i + 1]) == t[i]
  {
    CharLengthUnique(t, i, 1);
  }

  lemma FewTails(kind: byte)
    ensures |TailMasks(kind)| <= 3
  {
  }

  // ------------------------------------------------------------- validating copy

  /** Copies one more byte unless a NUL has been copied already. */
  method CopyTail(s: StringStream, o: OutputStream, c: byte, mask: byte, ok: bool) returns (d: byte, result: bool)
    modifies s, o
    ensures c != 0 ==> s.src == old(s.src) + 1 && o.out == old(o.out) + [d] && d == Peek(s.text, old(s.src))
    ensures c == 0 ==> s.src == old(s.src) && o.out == old(o.out) && d == 0
    ensures result <==> ok && InRange(d, mask)
  {
    d := c;
    if c != 0 {
      d := s.Take();
      o.Put(d);
    }
    result := ok && InRange(d, mask);
  }

  method CopyTwoTails(s: StringStream, o: OutputStream, c: byte, mask0: byte, mask1: byte) returns (ok: bool)
    requires c != 0
    modifies s, o
    ensures ok <==> TailsMatch(s.text, old(s.src), [mask0, mask1])
    ensures ok ==> s.src == old(s.src) + 2
    ensures ok ==> o.out == old(o.out) + [Peek(s.text, old(s.src)), Peek(s.text, old(s.src) + 1)]
  {
    ghost var m, i := [mask0, mask1], s.src;
    var d;
    d, ok := CopyTail(s, o, c, mask0, true);
    d, ok := CopyTail(s, o, d, mask1, ok);
    assert TailsMatch(s.text, i, m) ==> InRange(Peek(s.text, i + 0), m[0]) && InRange(Peek(s.text, i + 1), m[1]);
  }

  method CopyThreeTails(s: StringStream, o: OutputStream, c: byte, mask0: byte, mask1: byte, mask2: byte)
    returns (ok: bool)
    requires c != 0
    modifies s, o
    ensures ok <==> TailsMatch(s.text, old(s.src), [mask0, mask1, mask2])
    ensures ok ==> s.src == old(s.src) + 3
    ensures ok ==>
      o.out == old(o.out) + [Peek(s.text, old(s.src)), Peek(s.text, old(s.src) + 1), Peek(s.text, old(s.src) + 2)]
  {
    ghost var m, i := [mask0, mask1, mask2], s.src;
    var d;
    d, ok := CopyTail(s, o, c, mask0, true);
    d, ok := CopyTail(s, o, d, mask1, ok);
    d, ok := CopyTail(s, o, d, mask2, ok);
    assert TailsMatch(s.text, i, m) ==>
      InRange(Peek(s.text, i + 0), m[0]) && InRange(Peek(s.text, i + 1), m[1]) && InRange(Peek(s.text, i + 2), m[2]);
  }

  /** The switch over the byte class, copying. */
  method CopyTails(s: StringStream, o: OutputStream, c: byte, kind: byte) returns (ok: bool)
    requires c != 0
    modifies s, o
    ensures var m := TailMasks(kind);
      && (ok <==> m != [] && TailsMatch(s.text, old(s.src), m))
      && (ok ==> s.src == old(s.src) + |m| && o.out == old(o.out) + Ahead(s.text, old(s.src), |m|))
  {
    hide TailsMatch, InRange;
    if kind == 2 {
      OneTail(s.text, s.src, 0x70);
      var d;
      d, ok := CopyTail(s, o, c, 0x70, true);
    } else if kind == 3 {
      ok := CopyTwoTails(s, o, c, 0x70, 0x70);
    } else if kind == 4 {
      ok := CopyTwoTails(s, o, c, 0x50, 0x70);
    } else if kind == 5 {
      ok := CopyThreeTails(s, o, c, 0x10, 0x70, 0x70);
    } else if kind == 6 {
      ok := CopyThreeTails(s, o, c, 0x70, 0x70, 0x70);
    } else if kind == 10 {
      ok := CopyTwoTails(s, o, c, 0x20, 0x70);
    } else if kind == 11 {
      ok := CopyThreeTails(s, o, c, 0x60, 0x70, 0x70);
    } else {
      ok := false;
    }
  }

  /** The next `n` bytes as the stream shows them. */
  function Ahead(t: bytes, i: nat, n: nat): bytes {
    if n == 0 then []
    else if n == 1 then [Peek(t, i)]
    else if n == 2 then [Peek(t, i), Peek(t, i + 1)]
    else [Peek(t, i), Peek(t, i + 1), Peek(t, i + 2)]
  }

  lemma AheadIs(t: bytes, i: nat, n: nat)
    requires i + n <= |t| && n <= 3
    ensures Ahead(t, i, n) == t[i..i + n]
  {
  }

  /** Copies one character; before the end it succeeds exactly on the well-formed sequences and copies them unchanged, and
      at the end it copies the NUL there. */
  method Validate(s: StringStream, o: OutputStream) returns (ok: bool)
    modifies s, o
    ensures ok <==> CharLength(s.text, old(s.src)) != 0 || old(s.src) >= |s.text|
    ensures ok && old(s.src) < |s.text| ==>
      s.src == old(s.src) + CharLength(s.text, old(s.src)) && o.out == old(o.out) + s.text[old(s.src)..s.src]
    ensures old(s.src) >= |s.text| ==> s.src == old(s.src) + 1 && o.out == old(o.out) + [0]
  {
    ghost var i, out0 := s.src, o.out;
    var c := s.Take();
    o.Put(c);
    if c < 0x80 {
      if i < |s.text| {
        AsciiCharacter(s.text, i);
      }
      return true;
    }
    hide CharLength, WellFormed, GetRange, TailsMatch, Ahead;
    TableIsGrammar(s.text, i);
    var kind := GetRange(c);
    FewTails(kind);
    hide TailMasks;
    ok := CopyTails(s, o, c, kind);
    if ok {
      AheadIs(s.text, i + 1, s.src - i - 1);
      assert s.text[i..s.src] == [c] + s.text[i + 1..s.src];
      Associative(out0, [c], s.text[i + 1..s.src]);
    }
  }

  // ---------------------------------------------------------------- the bijection

  /** The bytes `Encode` puts for a code point. */
  function Encode(codepoint: nat): (s: bytes)
    requires codepoint <= 0x10FFFF
    ensures 1 <= |s| <= 4
  {
    if codepoint <= 0x7F then [codepoint]
    else if codepoint <= 0x7FF then [0xC0 + codepoint / 0x40, 0x80 + codepoint % 0x40]
    else if codepoint <= 0xFFFF then
      [0xE0 + codepoint / 0x1000, 0x80 + codepoint / 0x40 % 0x40, 0x80 + codepoint % 0x40]
    else
      [0xF0 + codepoint / 0x40000, 0x80 + codepoint / 0x1000 % 0x40,
       0x80 + codepoint / 0x40 % 0x40, 0x80 + codepoint % 0x40]
  }

  /** The three six-bit shifts of `Encode` are one shift repeated. */
  lemma Shifts(c: nat)
    ensures c / 0x1000 == c / 0x40 / 0x40 && c / 0x40000 == c / 0x1000 / 0x40
  {
  }

  lemma EncodeTwo(c: nat)
    requires 0x80 <= c <= 0x7FF
    ensures WellFormed(Encode(c)) && CodePoint(Encode(c)) == c
  {
  }

  lemma EncodeThree(c: nat)
    requires 0x800 <= c <= 0xFFFF && !(0xD800 <= c <= 0xDFFF)
    ensures WellFormed(Encode(c)) && CodePoint(Encode(c)) == c
  {
    Shifts(c);
    var x, y, z := c / 0x1000, c / 0x40 % 0x40, c % 0x40;
    assert c == x * 0x1000 + y * 0x40 + z;
    assert Encode(c) == [0xE0 + x, 0x80 + y, 0x80 + z];
  }

  lemma EncodeFour(c: nat)
    requires 0x10000 <= c <= 0x10FFFF
    ensures WellFormed(Encode(c)) && CodePoint(Encode(c)) == c
  {
    Shifts(c);
    var w, x, y, z := c / 0x40000, c / 0x1000 % 0x40, c / 0x40 % 0x40, c % 0x40;
    assert c == w * 0x40000 + x * 0x1000 + y * 0x40 + z;
    assert Encode(c) == [0xF0 + w, 0x80 + x, 0x80 + y, 0x80 + z];
  }

  /** Encoding a scalar value gives a well-formed character that stands for it. */
  lemma DecodeEncode(c: scalar)
    ensures WellFormed(Encode(c)) && CodePoint(Encode(c)) == c
  {
    if 0x80 <= c <= 0x7FF { EncodeTwo(c); }
    else if 0x800 <= c <= 0xFFFF { EncodeThree(c); }
    else if c > 0xFFFF { EncodeFour(c); }
  }

  lemma CodePointRange(s: bytes)
    requires WellFormed(s)
    ensures |s| == 1 <==> CodePoint(s) <= 0x7F
    ensures |s| <= 2 <==> CodePoint(s) <= 0x7FF
    ensures |s| <= 3 <==> CodePoint(s) <= 0xFFFF
  {
  }

  /** Two well-formed characters that stand for the same code point are the same bytes. */
  lemma CodePointInjective(s: bytes, r: bytes)
    requires WellFormed(s) && WellFormed(r) && CodePoint(s) == CodePoint(r)
    ensures s == r
  {
    CodePointRange(s);
    CodePointRange(r);
    var b: seq<int>, d: seq<int> := s, r;
    if |s| == 2 {
      assert b[0] == d[0] && b[1] == d[1];
    } else if |s| == 3 {
      assert b[0] == d[0] && b[1] == d[1] && b[2] == d[2];
    } else if |s| == 4 {
      assert b[0] == d[0];
      assert b[1] == d[1] && b[2] == d[2] && b[3] == d[3];
    }
  }

  /** Encoding the code point of a well-formed character gives the character back. */
  lemma EncodeDecode(s: bytes)
    requires WellFormed(s)
    ensures Encode(CodePoint(s)) == s
  {
    DecodeEncode(CodePoint(s));
    CodePointInjective(Encode(CodePoint(s)), s);
  }

  function EncodeAll(cs: seq<scalar>): bytes {
    if cs == [] then [] else Encode(cs[0]) + EncodeAll(cs[1..])
  }

  /** The code points of `t[i..]`, if it is well formed throughout. */
  function DecodeAll(t: bytes, i: nat): Option<seq<scalar>>
    requires i <= |t|
    decreases |t| - i
  {
    if i == |t| then Some([])
    else
      var n := CharLength(t, i);
      if n == 0 then None
      else Prepend([CodePoint(t[i..i + n])], DecodeAll(t, i + n))
  }

  function Prepend(cs: seq<scalar>, rest: Option<seq<scalar>>): Option<seq<scalar>> {
    match rest
    case None => None
    case Some(ds) => Some(cs + ds)
  }

  lemma PrependTwice(cs: seq<scalar>, ds: seq<scalar>, rest: Option<seq<scalar>>)
    ensures Prepend(cs, Prepend(ds, rest)) == Prepend(cs + ds, rest)
    ensures Prepend([], rest) == rest
  {
    if rest.Some? {
      assert cs + (ds + rest.value) == cs + ds + rest.value;
      assert [] + rest.value == rest.value;
    }
  }

  /** Decoding the concatenated encodings of any sequence of scalar values gives the sequence back. */
  lemma {:induction false} DecodeAllEncodeAll(t: bytes, i: nat, cs: seq<scalar>)
    requires i <= |t| && t[i..] == EncodeAll(cs)
    ensures DecodeAll(t, i) == Some(cs)
    decreases |cs|
  {
    hide Encode, WellFormed, CharLength, CodePoint;
    if cs != [] {
      DecodeOneEncoded(t, i, cs[0], EncodeAll(cs[1..]));
      DecodeAllEncodeAll(t, i + |Encode(cs[0])|, cs[1..]);
      assert cs == [cs[0]] + cs[1..];
    }
  }

  lemma DecodeOneEncoded(t: bytes, i: nat, c: scalar, rest: bytes)
    requires i <= |t| && t[i..] == Encode(c) + rest
    ensures var n := |Encode(c)|;
      && i + n <= |t| && CharLength(t, i) == n && t[i + n..] == rest
      && WellFormed(t[i..i + n]) && CodePoint(t[i..i + n]) == c
  {
    hide WellFormed, CodePoint, CharLength, Encode;
    var e := Encode(c);
    DecodeEncode(c);
    assert |t[i..]| == |e| + |rest|;
    assert t[i..i + |e|] == t[i..][..|e|] == e;
    CharLengthUnique(t, i, |e|);
    assert t[i + |e|..] == t[i..][|e|..] == rest;
  }

  lemma NothingLeft(t: bytes)
    ensures DecodeAll(t, |t|) == Some([]) && EncodeAll([]) == t[|t|..]
  {
  }

  lemma DecodeAllNext(t: bytes, i: nat)
    requires i < |t| && DecodeAll(t, i).Some?
    ensures var n := CharLength(t, i);
      n != 0 && DecodeAll(t, i + n).Some? &&
      DecodeAll(t, i).value == [CodePoint(t[i..i + n])] + DecodeAll(t, i + n).value
  {
    hide WellFormed, CodePoint;
  }

  lemma EncodeAllNext(c: scalar, cs: seq<scalar>)
    ensures EncodeAll([c] + cs) == Encode(c) + EncodeAll(cs)
  {
    assert ([c] + cs)[1..] == cs;
    hide Encode;
  }

  /** Re-encoding any accepted text gives the original bytes. */
  lemma {:induction false} EncodeAllDecodeAll(t: bytes, i: nat)
    requires i <= |t| && DecodeAll(t, i).Some?
    ensures EncodeAll(DecodeAll(t, i).value) == t[i..]
    decreases |t| - i
  {
    hide Encode, WellFormed, CharLength, CodePoint, DecodeAll, EncodeAll;
    if i == |t| {
      NothingLeft(t);
    } else {
      var n := CharLength(t, i);
      DecodeAllNext(t, i);
      EncodeAllDecodeAll(t, i + n);
      EncodeDecode(t[i..i + n]);
      EncodeAllNext(CodePoint(t[i..i + n]), DecodeAll(t, i + n).value);
      assert t[i..] == t[i..i + n] + t[i + n..];
    }
  }

  /** Repeated decoding of a whole text, as a caller of `Decode` does it. */
  method DecodeText(s: StringStream) returns (result: Option<seq<scalar>>)
    requires s.src == 0
    modifies s
    ensures result == DecodeAll(s.text, 0)
  {
    hide WellFormed, CodePoint, CharLength;
    var cs: seq<scalar> := [];
    PrependTwice([], [], DecodeAll(s.text, 0));
    while s.src < |s.text|
      invariant s.src <= |s.text|
      invariant DecodeAll(s.text, 0) == Prepend(cs, DecodeAll(s.text, s.src))
      decreases |s.text| - s.src
    {
      ghost var rest := DecodeAll(s.text, s.src);
      var ok, c := Decode(s);
      if !ok {
        return None;
      }
      assert rest == Prepend([c], DecodeAll(s.text, s.src));
      PrependTwice(cs, [c], DecodeAll(s.text, s.src));
      cs := cs + [c];
    }
    assert cs + [] == cs;
    return Some(cs);
  }
}
