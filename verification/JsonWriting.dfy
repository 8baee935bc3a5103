/** How the writer spells the characters of a string, said without its escape tables. */
module JsonWriting {
  import opened Bytes
  import opened Utf8
  import opened StringText
  import opened StringWriter
  import opened JsonStrings

  /** The bytes that have a two-character escape and may not stand for themselves. */
  predicate NeedsShort(c: int) {
    c == 0x22 || c == 0x5C || c == 0x08 || c == 0x09 || c == 0x0A || c == 0x0C || c == 0x0D
  }

  /** The other control characters. */
  predicate NeedsHex(c: int) {
    0 <= c < 0x20 && !NeedsShort(c)
  }

  function Letter(c: byte): byte
    requires NeedsShort(c)
  {
    if c == 0x08 then 0x62 else if c == 0x09 then 0x74 else if c == 0x0A then 0x6E
    else if c == 0x0C then 0x66 else if c == 0x0D then 0x72 else c
  }

  /** An upper-case hexadecimal digit. */
  function UpperDigit(h: int): byte
    requires 0 <= h < 16
  {
    if h <= 9 then 0x30 + h else 0x37 + h
  }

  function FourUpper(v: int): bytes
    requires 0 <= v <= 0xFFFF
  {
    [UpperDigit(v / 0x1000), UpperDigit(v / 0x100 % 0x10), UpperDigit(v / 0x10 % 0x10), UpperDigit(v % 0x10)]
  }

  function SpelledByte(c: byte): Spelling {
    if NeedsShort(c) then Short(Letter(c)) else if NeedsHex(c) then Hex(FourUpper(c)) else Raw([c])
  }

  function SpelledBytes(s: bytes): seq<Spelling> {
    if s == [] then [] else [SpelledByte(s[0])] + SpelledBytes(s[1..])
  }

  /** For an ASCII target, characters beyond ASCII are digits. */
  function SpelledScalar(c: scalar): Spelling {
    if c < 0x80 then SpelledByte(c)
    else if c <= 0xFFFF then Hex(FourUpper(c))
    else Pair(FourUpper(0xD800 + (c - 0x10000) / 0x400), FourUpper(0xDC00 + (c - 0x10000) % 0x400))
  }

  function SpelledScalars(cs: seq<scalar>): seq<Spelling> {
    if cs == [] then [] else [SpelledScalar(cs[0])] + SpelledScalars(cs[1..])
  }

  // ------------------------------------------------------------ the writer's text

  lemma ByteIsSpelled(c: byte)
    ensures EscapeByte(c) == Written(SpelledByte(c))
  {
  }

  lemma HexIsSpelled(v: nat)
    requires v <= 0xFFFF
    ensures HexEscape(v) == Written(Hex(FourUpper(v)))
  {
  }

  lemma ScalarIsSpelled(c: scalar)
    requires c >= 0x80
    ensures EscapeScalar(c) == Written(SpelledScalar(c))
  {
    hide HexEscape, FourUpper;
    if c <= 0xFFFF {
      HexIsSpelled(c);
    } else {
      HexIsSpelled((c - 0x10000) / 0x400 + 0xD800);
      HexIsSpelled((c - 0x10000) % 0x400 + 0xDC00);
    }
  }

  /** Every string is written byte by byte as said above. */
  lemma {:induction false} EscapedIsSpelled(s: bytes, k: nat)
    requires k <= |s|
    ensures EscapeFrom(s, k) == WrittenAll(SpelledBytes(s[k..]))
    decreases |s| - k
  {
    hide EscapeByte, SpelledByte, Written;
    if k < |s| {
      ByteIsSpelled(s[k]);
      EscapedIsSpelled(s, k + 1);
      assert s[k..][0] == s[k] && s[k..][1..] == s[k + 1..];
      SpelledFirst(SpelledByte(s[k]), SpelledBytes(s[k + 1..]));
    } else {
      assert s[k..] == [];
    }
  }

  lemma SpelledFirst(s: Spelling, rest: seq<Spelling>)
    ensures WrittenAll([s] + rest) == Written(s) + WrittenAll(rest)
    ensures MeaningAll([s] + rest) == Meaning(s) + MeaningAll(rest)
  {
    assert ([s] + rest)[1..] == rest;
  }

  /** And, for an ASCII target, character by character. */
  lemma {:induction false} AsciiIsSpelled(s: bytes, k: nat)
    requires k <= |s| && DecodeAll(s, k).Some?
    ensures AsciiFrom(s, k) == WrittenAll(SpelledScalars(DecodeAll(s, k).value))
    decreases |s| - k
  {
    hide AsciiUnit, SpelledScalar, Written, CharLength, CodePoint, WellFormed;
    if k < |s| {
      DecodeAllNext(s, k);
      var n := CharLength(s, k);
      var c, rest := CodePoint(s[k..k + n]), DecodeAll(s, k + n).value;
      UnitIsSpelled(s, k);
      AsciiIsSpelled(s, k + n);
      assert DecodeAll(s, k).value == [c] + rest && ([c] + rest)[1..] == rest;
      SpelledFirst(SpelledScalar(c), SpelledScalars(rest));
    }
  }

  lemma UnitIsSpelled(s: bytes, k: nat)
    requires k < |s| && CharLength(s, k) != 0
    ensures AsciiUnit(s, k) == Written(SpelledScalar(CodePoint(s[k..k + CharLength(s, k)])))
  {
    var p := s[k..k + CharLength(s, k)];
    assert p[0] == s[k];
    AsciiIffSmall(p);
    hide CharLength, WellFormed, CodePoint;
    if s[k] < 0x80 {
      ByteIsSpelled(s[k]);
    } else {
      ScalarIsSpelled(CodePoint(p));
    }
  }

  lemma AsciiIffSmall(p: bytes)
    requires WellFormed(p)
    ensures p[0] < 0x80 <==> CodePoint(p) < 0x80
    ensures p[0] < 0x80 ==> CodePoint(p) == p[0]
  {
  }

  // ------------------------------------------------------------ unchanged, and how long

  /** Nothing in it needs an escape. */
  predicate IsPlain(s: bytes) {
    forall k :: 0 <= k < |s| ==> s[k] >= 0x20 && s[k] != 0x22 && s[k] != 0x5C
  }

  lemma {:induction false} PlainIsRaw(s: bytes)
    requires IsPlain(s)
    ensures WrittenAll(SpelledBytes(s)) == s
  {
    if s != [] {
      PlainIsRaw(s[1..]);
      SpelledFirst(SpelledByte(s[0]), SpelledBytes(s[1..]));
      SplitFirst(s, 0, |s|);
      assert s[0..|s|] == s && s[1..|s|] == s[1..];
    }
  }

  /** A string in which nothing needs an escape is written unchanged between its quotes. */
  lemma PlainUnchanged(s: bytes)
    requires IsPlain(s)
    ensures Quoted(s, false) == [0x22] + s + [0x22]
  {
    EscapedIsSpelled(s, 0);
    assert s[0..] == s;
    PlainIsRaw(s);
    Associative([0x22], s, [0x22]);
  }

  function Shorts(s: bytes): nat {
    if s == [] then 0 else (if NeedsShort(s[0]) then 1 else 0) + Shorts(s[1..])
  }

  function Controls(s: bytes): nat {
    if s == [] then 0 else (if NeedsHex(s[0]) then 1 else 0) + Controls(s[1..])
  }

  lemma {:induction false} SpelledLength(s: bytes)
    ensures |WrittenAll(SpelledBytes(s))| == |s| + Shorts(s) + 5 * Controls(s)
  {
    if s != [] {
      SpelledLength(s[1..]);
      SpelledFirst(SpelledByte(s[0]), SpelledBytes(s[1..]));
    }
  }

  /** One more character for each that has a two-character escape, five more for each other control character. */
  lemma EscapedLength(s: bytes)
    ensures |Escaped(s, false)| == |s| + Shorts(s) + 5 * Controls(s)
  {
    EscapedIsSpelled(s, 0);
    assert s[0..] == s;
    SpelledLength(s);
  }

  /** How many characters a character takes for an ASCII target. */
  function AsciiCost(c: scalar): nat {
    if NeedsShort(c) then 2 else if c < 0x20 then 6 else if c < 0x80 then 1 else if c <= 0xFFFF then 6 else 12
  }

  function AsciiCosts(cs: seq<scalar>): nat {
    if cs == [] then 0 else AsciiCost(cs[0]) + AsciiCosts(cs[1..])
  }

  lemma {:induction false} SpelledCosts(cs: seq<scalar>)
    ensures |WrittenAll(SpelledScalars(cs))| == AsciiCosts(cs)
  {
    if cs != [] {
      SpelledCosts(cs[1..]);
      SpelledFirst(SpelledScalar(cs[0]), SpelledScalars(cs[1..]));
    }
  }

  lemma AsciiLength(s: bytes)
    requires DecodeAll(s, 0).Some?
    ensures |Escaped(s, true)| == AsciiCosts(DecodeAll(s, 0).value)
  {
    AsciiIsSpelled(s, 0);
    SpelledCosts(DecodeAll(s, 0).value);
  }

  lemma {:induction false} AsciiPlain(s: bytes, k: nat)
    requires k <= |s| && IsPlain(s) && forall j :: 0 <= j < |s| ==> s[j] < 0x80
    ensures DecodeAll(s, k).Some? && AsciiFrom(s, k) == s[k..]
    decreases |s| - k
  {
    if k < |s| {
      AsciiPlain(s, k + 1);
      CharLengthUnique(s, k, 1);
      ByteIsSpelled(s[k]);
      SplitFirst(s, k, |s|);
      assert s[k..|s|] == s[k..] && s[k + 1..|s|] == s[k + 1..];
      hide CharLength, CodePoint, EscapeByte;
    } else {
      assert s[k..] == [];
    }
  }

  /** An ASCII string in which nothing needs an escape is written unchanged for an ASCII target. */
  lemma AsciiPlainUnchanged(s: bytes)
    requires IsPlain(s) && forall j :: 0 <= j < |s| ==> s[j] < 0x80
    ensures DecodeAll(s, 0).Some? && Quoted(s, true) == [0x22] + s + [0x22]
  {
    AsciiPlain(s, 0);
    assert s[0..] == s;
    Associative([0x22], s, [0x22]);
  }

  predicate AllAscii(s: bytes) {
    forall k :: 0 <= k < |s| ==> s[k] < 0x80
  }

  lemma ScalarIsAscii(c: scalar)
    ensures AllAscii(Written(SpelledScalar(c)))
  {
  }

  lemma {:induction false} ScalarsAreAscii(cs: seq<scalar>)
    ensures AllAscii(WrittenAll(SpelledScalars(cs)))
  {
    hide SpelledScalar, Written;
    if cs != [] {
      ScalarsAreAscii(cs[1..]);
      ScalarIsAscii(cs[0]);
      SpelledFirst(SpelledScalar(cs[0]), SpelledScalars(cs[1..]));
    }
  }

  /** For an ASCII target nothing else is put. */
  lemma OnlyAscii(s: bytes)
    requires DecodeAll(s, 0).Some?
    ensures AllAscii(Quoted(s, true))
  {
    AsciiIsSpelled(s, 0);
    ScalarsAreAscii(DecodeAll(s, 0).value);
  }

  // ------------------------------------------------------------ nothing shorter

  /** No allowed spelling of the same bytes is shorter than the writer's. */
  lemma ShortestSpelling(s: Spelling)
    requires Allowed(s, false)
    ensures |WrittenAll(SpelledBytes(Meaning(s)))| <= |Written(s)|
  {
    SpelledLength(Meaning(s));
    if s.Hex? {
      EncodedCost(FourValue(s.digits));
    } else if s.Pair? {
      EncodedCost(0x10000 + (FourValue(s.high) - 0xD800) * 0x400 + (FourValue(s.low) - 0xDC00));
    } else {
      assert Meaning(s)[1..] == [];
    }
    hide Encode, FourValue;
  }

  lemma EncodedCost(c: scalar)
    ensures |Encode(c)| + Shorts(Encode(c)) + 5 * Controls(Encode(c)) <= 6
  {
    HighCost(Encode(c));
    if c < 0x80 {
      assert Encode(c)[1..] == [];
    }
  }

  lemma {:induction false} HighCost(s: bytes)
    ensures (forall k :: 0 <= k < |s| ==> s[k] >= 0x80) ==> Shorts(s) == 0 && Controls(s) == 0
  {
    if s != [] {
      HighCost(s[1..]);
    }
  }

  lemma {:induction false} LengthAdds(a: bytes, b: bytes)
    ensures Shorts(a + b) == Shorts(a) + Shorts(b) && Controls(a + b) == Controls(a) + Controls(b)
  {
    if a == [] {
      assert a + b == b;
    } else {
      LengthAdds(a[1..], b);
      assert (a + b)[1..] == a[1..] + b;
    }
  }

  /** Of all texts that RFC 8259 allows for a string, the writer's is one of the shortest. */
  lemma {:induction false} EscapedIsShortest(s: bytes, ss: seq<Spelling>)
    requires AllAllowed(ss, false) && MeaningAll(ss) == s
    ensures |Escaped(s, false)| <= |WrittenAll(ss)|
    decreases |ss|
  {
    EscapedLength(s);
    if ss != [] {
      hide Allowed, Written, Meaning;
      var p, rest := Meaning(ss[0]), MeaningAll(ss[1..]);
      EscapedIsShortest(rest, ss[1..]);
      EscapedLength(rest);
      ShortestSpelling(ss[0]);
      SpelledLength(p);
      LengthAdds(p, rest);
    }
  }
}
