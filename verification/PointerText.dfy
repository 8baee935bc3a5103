/** The text of JSON pointers: RFC 6901 strings and URI fragments, parsed into a buffer of names and written back. */
module PointerText {
  import opened Bytes
  import opened Streams
  import opened Utf8
  import Numbers
  import opened StringText

  const HASH: byte := 0x23
  const PERCENT: byte := 0x25
  const TILDE: byte := 0x7E
  const ONE: byte := 0x31
  const LOW_LINE: byte := 0x5F

  datatype PointerError = TokenMustBeginWithSolidus | InvalidEscape | InvalidPercentEncoding | CharacterMustPercentEncode

  /** Everything but the unreserved characters of section 2.3 of RFC 3986. */
  predicate NeedPercentEncode(c: byte) {
    !(IsDigit(c) || 0x41 <= c <= 0x5A || 0x61 <= c <= 0x7A || c == MINUS || c == DOT || c == LOW_LINE || c == TILDE)
  }

  // ------------------------------------------------------------------ percent-encoding

  /** A triplet `%XY` stands at `i`. */
  predicate TripletAt(s: bytes, i: nat) {
    i + 3 <= |s| && s[i] == PERCENT && HexValue(s[i + 1]) < 16 && HexValue(s[i + 2]) < 16
  }

  /** The bytes of the triplets that follow each other from `i` on. */
  function Triplets(s: bytes, i: nat): (t: bytes)
    ensures i + 3 * |t| <= |s| || t == []
    decreases |s| - i
  {
    if TripletAt(s, i) then [HexValue(s[i + 1]) * 16 + HexValue(s[i + 2])] + Triplets(s, i + 3) else []
  }

  function Triplet(c: byte): (s: bytes)
    ensures |s| == 3
  {
    [PERCENT, HexDigit(c / 16), HexDigit(c % 16)]
  }

  function PercentEncoded(s: bytes): (t: bytes)
    ensures |t| == 3 * |s|
  {
    if s == [] then [] else Triplet(s[0]) + PercentEncoded(s[1..])
  }

  /** Where the triplets of `p` stand, they are read back, whatever follows. */
  lemma {:induction false} TripletsDecode(s: bytes, i: nat, p: bytes)
    requires At(s, i, PercentEncoded(p))
    ensures |p| <= |Triplets(s, i)| && Triplets(s, i)[..|p|] == p
    decreases |p|
  {
    if p != [] {
      var c := p[0];
      AtConcat(s, i, Triplet(c), PercentEncoded(p[1..]));
      AtPeek(s, i, Triplet(c), 0);
      AtPeek(s, i, Triplet(c), 1);
      AtPeek(s, i, Triplet(c), 2);
      HexDigitValue(c / 16);
      HexDigitValue(c % 16);
      TripletsDecode(s, i + 3, p[1..]);
      assert p == [c] + p[1..];
    }
  }

  // --------------------------------------------------------------- what a text means

  /** One character of a name: its bytes, and where the next one starts. */
  datatype Piece = Next(chars: bytes, next: nat) | Refused(error: PointerError, offset: nat)

  /** `~0` is `~` and `~1` is `/`. */
  function Escape(s: bytes, c: byte, i: nat): Piece {
    if c != TILDE then Next([c], i)
    else if Peek(s, i) == ZERO then Next([TILDE], i + 1)
    else if Peek(s, i) == ONE then Next([SOLIDUS], i + 1)
    else Refused(InvalidEscape, i)
  }

  function PieceAt(s: bytes, i: nat, uriFragment: bool): (p: Piece)
    requires i < |s|
    ensures p.Next? ==> i < p.next <= |s| && |p.chars| <= p.next - i
  {
    if uriFragment && s[i] == PERCENT then
      var t := Triplets(s, i);
      var n := CharLength(t, 0);
      if n == 0 then Refused(InvalidPercentEncoding, i)
      else if n == 1 then Escape(s, t[0], i + 3)
      else Next(t[..n], i + 3 * n)
    else if uriFragment && NeedPercentEncode(s[i]) then Refused(CharacterMustPercentEncode, i)
    else Escape(s, s[i], i + 1)
  }

  /** The rest of the name that starts with `name`, from `i` up to the next solidus or the end. */
  function NameFrom(s: bytes, i: nat, uriFragment: bool, name: bytes): (p: Piece)
    requires i <= |s|
    ensures p.Next? ==> i <= p.next <= |s| && (p.next < |s| ==> s[p.next] == SOLIDUS)
    decreases |s| - i
  {
    if i == |s| || s[i] == SOLIDUS then Next(name, i)
    else match PieceAt(s, i, uriFragment)
      case Next(chars, j) => NameFrom(s, j, uriFragment, name + chars)
      case Refused(e, offset) => Refused(e, offset)
  }

  datatype Pointer = Tokens(names: seq<bytes>) | Invalid(error: PointerError, offset: nat)

  /** The tokens that follow `names`: each begins with a solidus. */
  function TokensFrom(s: bytes, i: nat, uriFragment: bool, names: seq<bytes>): Pointer
    requires i <= |s|
    decreases |s| - i
  {
    if i == |s| then Tokens(names)
    else if s[i] != SOLIDUS then Invalid(TokenMustBeginWithSolidus, i)
    else match NameFrom(s, i + 1, uriFragment, [])
      case Next(name, j) => TokensFrom(s, j, uriFragment, names + [name])
      case Refused(e, offset) => Invalid(e, offset)
  }

  /** The pointer that the code reads off a text: a string as section 3 of RFC 6901 says, and behind a `#` a URI
      fragment, whose tokens are split and unescaped while it is percent-decoded. */
  function Meaning(s: bytes): Pointer {
    if s != [] && s[0] == HASH then TokensFrom(s, 1, true, []) else TokensFrom(s, 0, false, [])
  }

  // ------------------------------------------------------------- the text of a pointer

  /** What is written for the name from `j` on; nothing when a character must be percent-encoded and is not UTF-8. */
  function Written(name: bytes, j: nat, uriFragment: bool): Option<bytes>
    requires j <= |name|
    decreases |name| - j
  {
    if j == |name| then Some([])
    else if name[j] == TILDE then Prefixed([TILDE, ZERO], Written(name, j + 1, uriFragment))
    else if name[j] == SOLIDUS then Prefixed([TILDE, ONE], Written(name, j + 1, uriFragment))
    else if uriFragment && NeedPercentEncode(name[j]) then
      var n := CharLength(name, j);
      if n == 0 then None else Prefixed(PercentEncoded(name[j..j + n]), Written(name, j + n, uriFragment))
    else Prefixed([name[j]], Written(name, j + 1, uriFragment))
  }

  /** What is written for one character, and then the rest. */
  lemma OneWritten(name: bytes, j: nat, uriFragment: bool)
    requires j < |name|
    ensures Written(name, j, uriFragment) ==
      if name[j] == TILDE then Prefixed([TILDE, ZERO], Written(name, j + 1, uriFragment))
      else if name[j] == SOLIDUS then Prefixed([TILDE, ONE], Written(name, j + 1, uriFragment))
      else if uriFragment && NeedPercentEncode(name[j]) then
        if CharLength(name, j) == 0 then None
        else Prefixed(PercentEncoded(name[j..j + CharLength(name, j)]),
                      Written(name, j + CharLength(name, j), uriFragment))
      else Prefixed([name[j]], Written(name, j + 1, uriFragment))
  {
  }

  function Prefixed(s: bytes, rest: Option<bytes>): Option<bytes> {
    match rest
    case None => None
    case Some(t) => Some(s + t)
  }

  function WrittenAll(names: seq<bytes>, uriFragment: bool): Option<bytes> {
    if names == [] then Some([])
    else match Written(names[0], 0, uriFragment)
      case None => None
      case Some(w) => Prefixed([SOLIDUS] + w, WrittenAll(names[1..], uriFragment))
  }

  /** The text of a pointer, as a string or as a URI fragment. */
  function Text(names: seq<bytes>, uriFragment: bool): Option<bytes> {
    if uriFragment then Prefixed([HASH], WrittenAll(names, true)) else WrittenAll(names, false)
  }

  // -------------------------------------------------------------------- round trips

  lemma PercentPiece(s: bytes, i: nat, name: bytes, j: nat, n: nat)
    requires n == CharLength(name, j) != 0 && name[j] != TILDE && At(s, i, PercentEncoded(name[j..j + n]))
    ensures i < |s| && s[i] == PERCENT && PieceAt(s, i, true) == Next(name[j..j + n], i + 3 * n)
  {
    var c := name[j..j + n];
    TripletsDecode(s, i, c);
    var t := Triplets(s, i);
    assert t[0..0 + n] == t[..n] == c;
    CharLengthUnique(t, 0, n);
    assert c[0] == name[j] && t[0] == t[..n][0];
    AtPeek(s, i, PercentEncoded(c), 0);
    assert n == 1 ==> [t[0]] == c;
    hide Triplets, PercentEncoded, CharLength;
  }

  /** What is written for a character is read back as that character. */
  lemma PieceWritten(s: bytes, i: nat, uriFragment: bool, name: bytes, j: nat) returns (k: nat, p: bytes)
    requires j < |name| && Written(name, j, uriFragment).Some? && At(s, i, Written(name, j, uriFragment).value)
    ensures j < k <= |name| && Written(name, k, uriFragment).Some?
    ensures Written(name, j, uriFragment).value == p + Written(name, k, uriFragment).value
    ensures i < |s| && s[i] != SOLIDUS && PieceAt(s, i, uriFragment) == Next(name[j..k], i + |p|)
  {
    hide Written, Triplets, PercentEncoded, WellFormed, CharLength, PieceAt;
    OneWritten(name, j, uriFragment);
    var c := name[j];
    if c == TILDE {
      k, p := j + 1, [TILDE, ZERO];
    } else if c == SOLIDUS {
      k, p := j + 1, [TILDE, ONE];
    } else if uriFragment && NeedPercentEncode(c) {
      var n := CharLength(name, j);
      k, p := j + n, PercentEncoded(name[j..j + n]);
    } else {
      k, p := j + 1, [c];
    }
    AtConcat(s, i, p, Written(name, k, uriFragment).value);
    if uriFragment && c != TILDE && c != SOLIDUS && NeedPercentEncode(c) {
      PercentPiece(s, i, name, j, k - j);
    } else {
      PlainPiece(s, i, uriFragment, c, p);
    }
  }

  /** A character that is written without percent-encoding. */
  lemma PlainPiece(s: bytes, i: nat, uriFragment: bool, c: byte, p: bytes)
    requires At(s, i, p) && (uriFragment ==> c == SOLIDUS || !NeedPercentEncode(c))
    requires p == if c == TILDE then [TILDE, ZERO] else if c == SOLIDUS then [TILDE, ONE] else [c]
    ensures i < |s| && s[i] != SOLIDUS && PieceAt(s, i, uriFragment) == Next([c], i + |p|)
  {
    AtPeek(s, i, p, 0);
    if |p| == 2 {
      AtPeek(s, i, p, 1);
    }
    hide Triplets, CharLength, WellFormed;
  }

  /** A written name is read back whole. */
  lemma {:induction false} NameWritten(s: bytes, i: nat, uriFragment: bool, name: bytes, j: nat)
    requires j <= |name| && Written(name, j, uriFragment).Some? && At(s, i, Written(name, j, uriFragment).value)
    requires var e := i + |Written(name, j, uriFragment).value|; e == |s| || s[e] == SOLIDUS
    ensures NameFrom(s, i, uriFragment, name[..j]) == Next(name, i + |Written(name, j, uriFragment).value|)
    decreases |name| - j
  {
    hide NameFrom, PieceAt, Written;
    if j == |name| {
      NameAtEnd(s, i, uriFragment, name);
      assert name[..j] == name;
    } else {
      var k, p := PieceWritten(s, i, uriFragment, name, j);
      AtConcat(s, i, p, Written(name, k, uriFragment).value);
      NameWritten(s, i + |p|, uriFragment, name, k);
      JoinSlices(name, j, k);
      OnePiece(s, i, uriFragment, name[..j], name[j..k], i + |p|, name[..k]);
    }
  }

  lemma NameAtEnd(s: bytes, i: nat, uriFragment: bool, name: bytes)
    ensures Written(name, |name|, uriFragment) == Some([])
    ensures i == |s| || (i < |s| && s[i] == SOLIDUS) ==> NameFrom(s, i, uriFragment, name) == Next(name, i)
  {
  }

  /** A piece is read, and the name goes on behind it. */
  lemma OnePiece(s: bytes, i: nat, uriFragment: bool, name: bytes, chars: bytes, next: nat, longer: bytes)
    requires i < |s| && s[i] != SOLIDUS && PieceAt(s, i, uriFragment) == Next(chars, next) && longer == name + chars
    ensures next <= |s| && NameFrom(s, i, uriFragment, name) == NameFrom(s, next, uriFragment, longer)
  {
    hide PieceAt;
  }

  lemma JoinSlices(name: bytes, j: nat, k: nat)
    requires j <= k <= |name|
    ensures name[..j] + name[j..k] == name[..k]
  {
  }

  lemma SplitToken(s: bytes, i: nat, w: bytes, rest: bytes)
    requires i <= |s| && s[i..] == [SOLIDUS] + w + rest
    ensures i + 1 + |w| <= |s| && s[i] == SOLIDUS && At(s, i + 1, w) && s[i + 1 + |w|..] == rest
  {
    assert |s[i..]| == 1 + |w| + |rest|;
    assert s[i] == s[i..][0];
    assert s[i + 1..i + 1 + |w|] == s[i..][1..1 + |w|];
    assert s[i + 1 + |w|..] == s[i..][1 + |w|..];
  }

  lemma {:induction false} NamesWritten(s: bytes, i: nat, uriFragment: bool, done: seq<bytes>, names: seq<bytes>)
    requires i <= |s| && WrittenAll(names, uriFragment) == Some(s[i..])
    ensures TokensFrom(s, i, uriFragment, done) == Tokens(done + names)
    decreases |names|
  {
    hide NameFrom, Written, TokensFrom, WrittenAll;
    if names == [] {
      NothingMore(s, i, uriFragment, done);
      assert done + names == done;
    } else {
      FirstWritten(names, uriFragment, s[i..]);
      var w := Written(names[0], 0, uriFragment).value;
      var rest := WrittenAll(names[1..], uriFragment).value;
      SplitToken(s, i, w, rest);
      var j := i + 1 + |w|;
      OneToken(s, i, uriFragment, done, names[0]);
      NamesWritten(s, j, uriFragment, done + [names[0]], names[1..]);
      MoreNames(done, names);
    }
  }

  lemma NothingMore(s: bytes, i: nat, uriFragment: bool, done: seq<bytes>)
    requires i <= |s| && WrittenAll([], uriFragment) == Some(s[i..])
    ensures TokensFrom(s, i, uriFragment, done) == Tokens(done)
  {
    assert |s[i..]| == 0;
  }

  /** The text of several names is the first one's and that of the others, which begins with a solidus. */
  lemma FirstWritten(names: seq<bytes>, uriFragment: bool, t: bytes)
    requires names != [] && WrittenAll(names, uriFragment) == Some(t)
    ensures Written(names[0], 0, uriFragment).Some? && WrittenAll(names[1..], uriFragment).Some?
    ensures t == [SOLIDUS] + Written(names[0], 0, uriFragment).value + WrittenAll(names[1..], uriFragment).value
    ensures var rest := WrittenAll(names[1..], uriFragment).value; rest != [] ==> rest[0] == SOLIDUS
  {
    var rest := WrittenAll(names[1..], uriFragment).value;
    if rest != [] {
      WrittenBegins(names[1..], uriFragment);
    }
    hide Written;
  }

  lemma MoreNames(done: seq<bytes>, names: seq<bytes>)
    requires names != []
    ensures done + [names[0]] + names[1..] == done + names
  {
  }

  lemma OneToken(s: bytes, i: nat, uriFragment: bool, done: seq<bytes>, name: bytes)
    requires i < |s| && s[i] == SOLIDUS && Written(name, 0, uriFragment).Some?
    requires At(s, i + 1, Written(name, 0, uriFragment).value)
    requires var rest := s[i + 1 + |Written(name, 0, uriFragment).value|..]; rest != [] ==> rest[0] == SOLIDUS
    ensures var j := i + 1 + |Written(name, 0, uriFragment).value|;
      TokensFrom(s, i, uriFragment, done) == TokensFrom(s, j, uriFragment, done + [name])
  {
    hide NameFrom, Written;
    assert name[..0] == [];
    NameWritten(s, i + 1, uriFragment, name, 0);
  }

  lemma WrittenBegins(names: seq<bytes>, uriFragment: bool)
    requires WrittenAll(names, uriFragment).Some? && WrittenAll(names, uriFragment).value != []
    ensures WrittenAll(names, uriFragment).value[0] == SOLIDUS
  {
  }

  /** Parsing the text of any pointer gives the pointer back, as a string and as a URI fragment. */
  lemma ParseText(names: seq<bytes>, uriFragment: bool)
    requires Text(names, uriFragment).Some?
    ensures Meaning(Text(names, uriFragment).value) == Tokens(names)
  {
    var s := Text(names, uriFragment).value;
    if uriFragment {
      assert s[1..] == WrittenAll(names, true).value;
      NamesWritten(s, 1, true, [], names);
    } else {
      assert s[0..] == s;
      if s != [] {
        WrittenBegins(names, false);
      }
      NamesWritten(s, 0, false, [], names);
    }
    assert [] + names == names;
  }

  /** A piece of a string pointer is written back as it was. */
  lemma PieceRead(s: bytes, i: nat, full: bytes, j: nat)
    requires i < |s| && s[i] != SOLIDUS && j < |full|
    requires var p := PieceAt(s, i, false); p.Next? && p.chars == [full[j]]
    ensures var k := PieceAt(s, i, false).next;
      Written(full, j, false) == Prefixed(s[i..k], Written(full, j + 1, false))
  {
    var k := PieceAt(s, i, false).next;
    if s[i] == TILDE {
      assert s[i..k] == [TILDE, s[i + 1]];
    } else {
      assert s[i..k] == [s[i]];
    }
  }

  lemma PieceIsOneByte(s: bytes, i: nat)
    requires i < |s| && PieceAt(s, i, false).Next?
    ensures |PieceAt(s, i, false).chars| == 1
  {
  }

  lemma {:induction false} NameRead(s: bytes, i: nat, name: bytes)
    requires i <= |s| && NameFrom(s, i, false, name).Next?
    ensures var p := NameFrom(s, i, false, name);
      |name| <= |p.chars| && p.chars[..|name|] == name && Written(p.chars, |name|, false) == Some(s[i..p.next])
    decreases |s| - i
  {
    var p := NameFrom(s, i, false, name);
    if i == |s| || s[i] == SOLIDUS {
      assert s[i..p.next] == [];
    } else {
      var q := PieceAt(s, i, false);
      NameRead(s, q.next, name + q.chars);
      PieceIsOneByte(s, i);
      var full := p.chars;
      assert full[|name|] == full[..|name| + 1][|name|] == q.chars[0];
      assert full[..|name|] == full[..|name| + 1][..|name|];
      hide NameFrom, PieceAt;
      PieceRead(s, i, full, |name|);
      assert s[i..p.next] == s[i..q.next] + s[q.next..p.next];
    }
  }

  lemma {:induction false} TokensRead(s: bytes, i: nat, done: seq<bytes>)
    requires i <= |s| && TokensFrom(s, i, false, done).Tokens?
    ensures var names := TokensFrom(s, i, false, done).names;
      |done| <= |names| && names[..|done|] == done && WrittenAll(names[|done|..], false) == Some(s[i..])
    decreases |s| - i
  {
    var names := TokensFrom(s, i, false, done).names;
    if i == |s| {
      assert names[|done|..] == [] && s[i..] == [];
    } else {
      var p := NameFrom(s, i + 1, false, []);
      NameRead(s, i + 1, []);
      TokensRead(s, p.next, done + [p.chars]);
      assert s[i] == SOLIDUS && i + 1 <= p.next <= |s|;
      hide NameFrom, TokensFrom, Written, WrittenAll;
      NamesSplit(names, done, p.chars);
      WrittenOnto(p.chars, names[|done| + 1..], s[i + 1..p.next], s[p.next..]);
      SolidusFirst(s, i, p.next);
    }
  }

  lemma NamesSplit(names: seq<bytes>, done: seq<bytes>, name: bytes)
    requires |done| < |names| && names[..|done| + 1] == done + [name]
    ensures names[..|done|] == done && names[|done|..] == [name] + names[|done| + 1..]
  {
    assert names[|done|] == names[..|done| + 1][|done|] == name;
    assert names[..|done|] == names[..|done| + 1][..|done|];
  }

  lemma WrittenOnto(name: bytes, names: seq<bytes>, w: bytes, rest: bytes)
    requires Written(name, 0, false) == Some(w) && WrittenAll(names, false) == Some(rest)
    ensures WrittenAll([name] + names, false) == Some([SOLIDUS] + w + rest)
  {
    hide Written;
    assert ([name] + names)[1..] == names;
  }

  lemma SolidusFirst(s: bytes, i: nat, j: nat)
    requires i + 1 <= j <= |s| && s[i] == SOLIDUS
    ensures s[i..] == [SOLIDUS] + s[i + 1..j] + s[j..]
  {
  }

  /** Writing what a string pointer was parsed into gives the string back. */
  lemma TextMeaning(s: bytes)
    requires Meaning(s).Tokens? && (s != [] ==> s[0] != HASH)
    ensures Text(Meaning(s).names, false) == Some(s)
  {
    TokensRead(s, 0, []);
    assert s[0..] == s;
    var names := Meaning(s).names;
    assert names[0..] == names;
  }

  /** A pointer can be written as a URI fragment exactly when its names are UTF-8. */
  lemma {:induction false} FragmentIffUtf8(names: seq<bytes>)
    ensures Text(names, true).Some? <==> forall n <- names :: DecodeAll(n, 0).Some?
    ensures Text(names, false).Some?
  {
    if names != [] {
      FragmentIffUtf8(names[1..]);
      WrittenIffUtf8(names[0], 0);
      AlwaysWritten(names[0], 0);
      assert forall n <- names :: n == names[0] || n in names[1..];
    }
  }

  lemma {:induction false} WrittenIffUtf8(name: bytes, j: nat)
    requires j <= |name|
    ensures Written(name, j, true).Some? <==> DecodeAll(name, j).Some?
    decreases |name| - j
  {
    hide CharLength, WellFormed, Written, DecodeAll, NeedPercentEncode, PercentEncoded, Prefixed;
    if j == |name| {
      BothEnd(name);
    } else {
      var n := CharLength(name, j);
      AsciiIsOneByte(name, j);
      OneWrittenIff(name, j);
      OneDecoded(name, j);
      if n != 0 {
        WrittenIffUtf8(name, j + n);
      }
    }
  }

  lemma BothEnd(name: bytes)
    ensures Written(name, |name|, true).Some? && DecodeAll(name, |name|).Some?
  {
  }

  /** The rest can be written after a character exactly when the character is UTF-8. */
  lemma OneWrittenIff(name: bytes, j: nat)
    requires j < |name|
    ensures var n := CharLength(name, j);
      Written(name, j, true).Some? <==> n != 0 && Written(name, j + n, true).Some?
  {
    hide CharLength, WellFormed, PercentEncoded;
    AsciiIsOneByte(name, j);
  }

  lemma OneDecoded(name: bytes, j: nat)
    requires j < |name|
    ensures var n := CharLength(name, j);
      DecodeAll(name, j).Some? <==> n != 0 && DecodeAll(name, j + n).Some?
  {
    hide WellFormed, CodePoint;
  }

  lemma AsciiIsOneByte(name: bytes, j: nat)
    requires j < |name|
    ensures name[j] < 0x80 ==> CharLength(name, j) == 1
    ensures !NeedPercentEncode(name[j]) || name[j] == SOLIDUS ==> name[j] < 0x80
  {
    if name[j] < 0x80 {
      CharLengthUnique(name, j, 1);
    }
  }

  lemma {:induction false} AlwaysWritten(name: bytes, j: nat)
    requires j <= |name|
    ensures Written(name, j, false).Some?
    decreases |name| - j
  {
    if j < |name| {
      AlwaysWritten(name, j + 1);
    }
  }

  // ------------------------------------------------------------------- array indices

  const SIZE_TYPE: nat := 0x1_0000_0000

  /** What a token has for an index when its name is not one. */
  const INVALID_INDEX: nat := 0xFFFF_FFFF

  predicate AllDigits(name: bytes) {
    forall k :: 0 <= k < |name| ==> IsDigit(Peek(name, k))
  }

  /** Digits, and no leading zero. */
  predicate IsIndex(name: bytes) {
    name != [] && AllDigits(name) && (|name| > 1 ==> name[0] != ZERO)
  }

  /** The value so far times ten plus a digit, as SizeType computes it. */
  function NextIndex(n: nat, d: byte): nat
    requires IsDigit(d)
  {
    (n * 10 + (d - ZERO)) % SIZE_TYPE
  }

  /** The conversion from `j` on: a result smaller than before counts as overflow. */
  function IndexFrom(name: bytes, j: nat, n: nat): nat
    requires j <= |name| && AllDigits(name)
    decreases |name| - j
  {
    if j == |name| then n
    else
      assert IsDigit(Peek(name, j));
      var m := NextIndex(n, name[j]);
      if m < n then INVALID_INDEX else IndexFrom(name, j + 1, m)
  }

  /** The index of a token is a function of its name. */
  function IndexOf(name: bytes): nat {
    if IsIndex(name) then IndexFrom(name, 0, 0) else INVALID_INDEX
  }

  /** The number that the first `j` digits denote. */
  function Decimal(name: bytes, j: nat): nat
    requires j <= |name| && AllDigits(name)
  {
    Numbers.DecimalValue(name, 0, j)
  }

  lemma {:induction false} IndexOfPrefix(name: bytes, j: nat)
    requires j <= |name| && AllDigits(name) && Decimal(name, j) < SIZE_TYPE
    ensures IndexFrom(name, 0, 0) == IndexFrom(name, j, Decimal(name, j))
  {
    if j > 0 {
      IndexOfPrefix(name, j - 1);
      assert IsDigit(Peek(name, j - 1));
      assert NextIndex(Decimal(name, j - 1), name[j - 1]) == Decimal(name, j);
    }
  }

  /** A number that SizeType holds is converted exactly. */
  lemma IndexIsValue(name: bytes)
    requires IsIndex(name) && Decimal(name, |name|) < SIZE_TYPE
    ensures IndexOf(name) == Decimal(name, |name|)
  {
    IndexOfPrefix(name, |name|);
  }

  /** The value of the first `j` digits, as SizeType holds it. */
  function Wrapped(name: bytes, j: nat): nat
    requires j <= |name| && AllDigits(name)
  {
    Decimal(name, j) % SIZE_TYPE
  }

  /** Some digit makes the wrapped value smaller. */
  predicate Falls(name: bytes, from: nat)
    requires from <= |name| && AllDigits(name)
  {
    exists j :: from <= j < |name| && Wrapped(name, j + 1) < Wrapped(name, j)
  }

  lemma WrappedNext(name: bytes, j: nat)
    requires j < |name| && AllDigits(name)
    ensures IsDigit(name[j]) && NextIndex(Wrapped(name, j), name[j]) == Wrapped(name, j + 1)
  {
    assert IsDigit(Peek(name, j));
    assert Decimal(name, j + 1) == Decimal(name, j) * 10 + (name[j] - ZERO);
    var v, d: nat := Decimal(name, j), name[j] - ZERO;
    assert v == v / SIZE_TYPE * SIZE_TYPE + v % SIZE_TYPE;
    assert v * 10 + d == (v % SIZE_TYPE * 10 + d) + SIZE_TYPE * (v / SIZE_TYPE * 10);
    ModPlusMultiple(v % SIZE_TYPE * 10 + d, v / SIZE_TYPE * 10);
  }

  lemma ModPlusMultiple(a: nat, k: nat)
    ensures (a + SIZE_TYPE * k) % SIZE_TYPE == a % SIZE_TYPE
  {
  }

  /** The conversion gives the value modulo 2^32, unless a wrapped prefix is smaller than the one before it. */
  lemma {:induction false} IndexFromWrapped(name: bytes, j: nat)
    requires j <= |name| && AllDigits(name)
    ensures IndexFrom(name, j, Wrapped(name, j)) ==
      if Falls(name, j) then INVALID_INDEX else Wrapped(name, |name|)
    decreases |name| - j
  {
    if j < |name| {
      WrappedNext(name, j);
      hide Wrapped, NextIndex;
      if Wrapped(name, j + 1) >= Wrapped(name, j) {
        IndexFromWrapped(name, j + 1);
        assert forall k :: j <= k < |name| && Wrapped(name, k + 1) < Wrapped(name, k) ==> k != j;
      }
    }
  }

  /** What the documentation promises: a number that SizeType cannot hold is no index. */
  function PromisedIndex(name: bytes): nat
    requires AllDigits(name)
  {
    if Decimal(name, |name|) < SIZE_TYPE then Decimal(name, |name|) else INVALID_INDEX
  }

  /** What the code makes of any number without leading zero. */
  lemma IndexIsWrapped(name: bytes)
    requires IsIndex(name)
    ensures IndexOf(name) == if Falls(name, 0) then INVALID_INDEX else Decimal(name, |name|) % SIZE_TYPE
  {
    assert Wrapped(name, 0) == 0;
    IndexFromWrapped(name, 0);
  }

  lemma {:induction false} SmallNeverFalls(name: bytes)
    requires AllDigits(name) && Decimal(name, |name|) < SIZE_TYPE
    ensures !Falls(name, 0)
  {
    forall j | 0 <= j < |name|
      ensures Wrapped(name, j + 1) >= Wrapped(name, j)
    {
      Numbers.DecimalValueGrows(name, 0, j, j + 1);
      Numbers.DecimalValueGrows(name, 0, j + 1, |name|);
    }
  }

  /** The promise is kept exactly for the numbers that SizeType holds, for those of which some digit makes the wrapped
      value smaller, and for those that wrap to the invalid index. */
  lemma OverflowFoundIff(name: bytes)
    requires IsIndex(name)
    ensures var v := Decimal(name, |name|);
      IndexOf(name) == PromisedIndex(name) <==> v < SIZE_TYPE || Falls(name, 0) || v % SIZE_TYPE == INVALID_INDEX
  {
    IndexIsWrapped(name);
    if Decimal(name, |name|) < SIZE_TYPE {
      SmallNeverFalls(name);
    }
    hide Falls, Decimal, IndexOf;
  }

  /** 8589934590 is not found out: it is taken for the index 4294967294. */
  lemma OverflowMissed(name: bytes)
    requires name == [0x38, 0x35, 0x38, 0x39, 0x39, 0x33, 0x34, 0x35, 0x39, 0x30]
    ensures IsIndex(name) && Decimal(name, 10) == 8589934590
    ensures IndexOf(name) == 4294967294 != PromisedIndex(name)
  {
    assert Decimal(name, 0) == 0 && Decimal(name, 1) == 8 && Decimal(name, 2) == 85;
    assert Decimal(name, 3) == 858 && Decimal(name, 4) == 8589 && Decimal(name, 5) == 85899;
    assert Decimal(name, 6) == 858993 && Decimal(name, 7) == 8589934;
    assert Decimal(name, 8) == 85899345 && Decimal(name, 9) == 858993459;
    IndexOfPrefix(name, 9);
    assert IsDigit(Peek(name, 9));
  }
}
