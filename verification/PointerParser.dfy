/** The parser of JSON pointers, which decodes all names into one buffer, and the two writers. */
module PointerParser {
  import opened Bytes
  import opened Streams
  import opened Utf8
  import opened PointerText
  import opened StringText

  lemma {:induction false} TripletNext(s: bytes, i: nat, k: nat)
    requires k <= |Triplets(s, i)|
    ensures k < |Triplets(s, i)| <==> TripletAt(s, i + 3 * k)
    ensures k < |Triplets(s, i)| ==>
      Triplets(s, i)[k] == HexValue(s[i + 3 * k + 1]) * 16 + HexValue(s[i + 3 * k + 2])
    decreases k
  {
    if k > 0 {
      TripletNext(s, i + 3, k - 1);
      assert i + 3 + 3 * (k - 1) == i + 3 * k;
    }
  }

  lemma NibblesFit(high: nat, low: nat)
    requires high < 16 && low < 16
    ensures high * 16 % 256 == high * 16 && (high * 16 + low) % 256 == high * 16 + low
  {
  }

  /** Decodes triplets into bytes; past the last of them it gives 0 and is not valid any more. */
  class PercentDecodeStream {
    const source: bytes
    const head: nat
    var src: nat
    var valid: bool
    ghost var taken: nat

    ghost predicate Good()
      reads this
    {
      valid ==> src == head + 3 * taken && taken <= |Triplets(source, head)|
    }

    constructor (source: bytes, head: nat)
      ensures this.source == source && this.head == head && Good() && valid && src == head && taken == 0
    {
      this.source, this.head, src, valid, taken := source, head, head, true, 0;
    }

    /** The two hexadecimal digits of a triplet. */
    method TakeDigits() returns (ok: bool, c: byte)
      requires src + 2 <= |source|
      modifies this`src
      ensures ok <==> HexValue(source[old(src)]) < 16 && HexValue(source[old(src) + 1]) < 16
      ensures ok ==> src == old(src) + 2 && c == HexValue(source[old(src)]) * 16 + HexValue(source[old(src) + 1])
    {
      hide HexValue;
      ghost var first := src;
      c := 0;
      for j := 0 to 2
        invariant src == first + j
        invariant j == 0 ==> c == 0
        invariant c as int < (if j == 2 then 256 else 16) && (j >= 1 ==> HexValue(source[first]) < 16)
        invariant j == 1 ==> c == HexValue(source[first])
        invariant j == 2 ==> HexValue(source[first + 1]) < 16
        invariant j == 2 ==> c == HexValue(source[first]) * 16 + HexValue(source[first + 1])
      {
        ghost var high := c;
        c := c * 16 % 256;
        var v := HexValue(source[src]);
        if v == 16 {
          return false, 0;
        }
        NibblesFit(high, v);
        c := (c + v) % 256;
        src := src + 1;
      }
      ok := true;
    }

    method Take() returns (c: byte)
      requires Good() && valid
      modifies this
      ensures Good() && taken == old(taken) + 1
      ensures c == Peek(Triplets(source, head), old(taken)) && (valid <==> old(taken) < |Triplets(source, head)|)
    {
      TripletNext(source, head, taken);
      hide Triplets, HexValue;
      taken := taken + 1;
      if Peek(source, src) != PERCENT || src + 3 > |source| {
        valid := false;
        return 0;
      }
      src := src + 1;
      var ok;
      ok, c := TakeDigits();
      if !ok {
        valid := false;
        c := 0;
      }
    }
  }

  lemma TailsNext(t: bytes, masks: seq<byte>, k: nat)
    requires k < |masks|
    ensures TailsMatch(t, 1, masks[..k + 1]) <==> TailsMatch(t, 1, masks[..k]) && InRange(Peek(t, 1 + k), masks[k])
    ensures !InRange(0, masks[k])
  {
    if TailsMatch(t, 1, masks[..k + 1]) {
      assert masks[..k + 1][k] == masks[k];
      assert forall j :: 0 <= j < k ==> masks[..k][j] == masks[..k + 1][j];
    }
    if TailsMatch(t, 1, masks[..k]) && InRange(Peek(t, 1 + k), masks[k]) {
      assert forall j :: 0 <= j < k ==> masks[..k][j] == masks[..k + 1][j];
    }
  }

  /** The next byte of the stream goes to the buffer, behind those taken before. */
  method CopyByte(stream: PercentDecodeStream, buffer: array<byte>, dst: nat, end: nat) returns (c: byte)
    requires stream.Good() && stream.valid && dst <= end < buffer.Length && stream.taken == end - dst
    requires var t := Triplets(stream.source, stream.head); end - dst <= |t| && buffer[dst..end] == t[..end - dst]
    modifies stream, buffer
    ensures stream.Good() && stream.taken == old(stream.taken) + 1 && buffer[..end] == old(buffer[..end])
    ensures var t := Triplets(stream.source, stream.head);
      && c == Peek(t, end - dst)
      && (c != 0 ==> stream.valid && end - dst < |t| && buffer[dst..end + 1] == t[..end + 1 - dst])
  {
    ghost var t := Triplets(stream.source, stream.head);
    hide Triplets, Peek;
    ghost var before := buffer[dst..end];
    c := stream.Take();
    TakenFrom(t, end - dst, c, stream.valid);
    buffer[end] := c;
    assert buffer[dst..end + 1] == before + [c];
  }

  /** The tail bytes of a character, tested with their masks; after a NUL nothing more is copied. */
  method CopyTails(stream: PercentDecodeStream, buffer: array<byte>, dst: nat, first: byte, masks: seq<byte>)
    returns (ok: bool, end: nat)
    requires stream.Good() && stream.valid && stream.taken == 1 && first != 0
    requires stream.head <= |stream.source| == buffer.Length && dst + 2 <= stream.head
    requires var t := Triplets(stream.source, stream.head); t != [] && t[0] == first == buffer[dst]
    modifies stream, buffer
    ensures stream.Good() && dst < end <= buffer.Length && buffer[..dst] == old(buffer[..dst])
    ensures var t := Triplets(stream.source, stream.head);
      (ok <==> masks != [] && TailsMatch(t, 1, masks)) && (ok ==> 1 + |masks| <= |t| && stream.valid)
    ensures ok ==> end == dst + 1 + |masks| && stream.src == stream.head + 3 * (1 + |masks|)
    ensures ok ==> buffer[dst..end] == Triplets(stream.source, stream.head)[..1 + |masks|]
  {
    ghost var t := Triplets(stream.source, stream.head);
    hide Triplets, TailsMatch, InRange, Peek;
    var c := first;
    ok := masks != [];
    end := dst + 1;
    assert TailsMatch(t, 1, masks[..0]) by { NoTails(t); }
    for k := 0 to |masks|
      invariant stream.Good() && dst < end <= buffer.Length && buffer[..dst] == old(buffer[..dst])
      invariant c != 0 ==> stream.valid && stream.taken == k + 1 == end - dst && k + 1 <= |t|
      invariant c != 0 ==> buffer[dst..end] == t[..k + 1]
      invariant if c != 0 then ok <==> masks != [] && TailsMatch(t, 1, masks[..k])
        else !ok && !TailsMatch(t, 1, masks[..k])
    {
      TailsNext(t, masks, k);
      if c != 0 {
        c := CopyByte(stream, buffer, dst, end);
        end := end + 1;
      }
      ok := ok && InRange(c, masks[k]);
    }
    assert masks[..|masks|] == masks;
  }

  lemma NoTails(t: bytes)
    ensures TailsMatch(t, 1, [])
  {
  }

  /** A byte that is not NUL was there to be taken. */
  lemma TakenFrom(t: bytes, k: nat, c: byte, valid: bool)
    requires c == Peek(t, k) && (valid <==> k < |t|)
    ensures c != 0 ==> valid && t[..k + 1] == t[..k] + [c]
  {
  }

  /** The validating copy of UTF-8, from a percent-encoded text into the name buffer. It puts one byte for every
      triplet, and one more when a triplet is missing. */
  method Validate(stream: PercentDecodeStream, buffer: array<byte>, dst: nat) returns (ok: bool, end: nat)
    requires stream.Good() && stream.valid && stream.taken == 0
    requires stream.head < |stream.source| == buffer.Length && dst + 2 <= stream.head
    modifies stream, buffer
    ensures stream.Good() && dst < end <= buffer.Length && buffer[..dst] == old(buffer[..dst])
    ensures ok && stream.valid <==> CharLength(Triplets(stream.source, stream.head), 0) != 0
    ensures ok && stream.valid ==>
      var n := CharLength(Triplets(stream.source, stream.head), 0);
      end == dst + n && stream.src == stream.head + 3 * n &&
      buffer[dst..end] == Triplets(stream.source, stream.head)[..n]
  {
    ghost var t := Triplets(stream.source, stream.head);
    var c := stream.Take();
    buffer[dst] := c;
    hide Triplets, CharLength, WellFormed;
    if c < 0x80 {
      end := dst + 1;
      if t != [] {
        OneByte(t);
        assert buffer[dst..end] == t[..1];
      } else {
        Nothing(t);
      }
      return true, end;
    }
    TableIsGrammar(t, 0);
    ok, end := CopyTails(stream, buffer, dst, c, TailMasks(GetRange(c)));
  }

  lemma OneByte(t: bytes)
    requires t != [] && t[0] < 0x80
    ensures CharLength(t, 0) == 1
  {
    CharLengthUnique(t, 0, 1);
  }

  lemma Nothing(t: bytes)
    requires t == []
    ensures CharLength(t, 0) == 0
  {
  }

  // ------------------------------------------------------------------- one character

  /** How far the name cursor stays behind the source cursor: the solidus, and the `#`, were not copied. */
  function Margin(uriFragment: bool): nat {
    if uriFragment then 2 else 1
  }

  /** What is left of a character after percent-decoding: `~0` and `~1` become one byte. */
  method ParseEscape(source: bytes, c: byte, i: nat) returns (error: Option<PointerError>, d: byte, next: nat)
    ensures match Escape(source, c, i)
      case Next(chars, j) => error == None && chars == [d] && next == j
      case Refused(e, offset) => error == Some(e) && next == offset
  {
    d, next := c, i;
    if c == TILDE {
      if i < |source| {
        d := source[i];
        if d == ZERO {
          d := TILDE;
        } else if d == ONE {
          d := SOLIDUS;
        } else {
          return Some(InvalidEscape), d, i;
        }
        next := i + 1;
      } else {
        return Some(InvalidEscape), d, i;
      }
    }
    error := None;
  }

  /** A run of triplets that stands for one character is copied, decoded. */
  method ParsePercent(source: bytes, i: nat, buffer: array<byte>, name: nat) returns (ok: bool, next: nat, end: nat)
    requires i < |source| == buffer.Length && name + 2 <= i
    modifies buffer
    ensures buffer[..name] == old(buffer[..name])
    ensures ok <==> CharLength(Triplets(source, i), 0) != 0
    ensures ok ==>
      var n := CharLength(Triplets(source, i), 0);
      next == i + 3 * n && end == name + n <= buffer.Length && buffer[name..end] == Triplets(source, i)[..n]
  {
    hide Triplets, CharLength;
    var stream := new PercentDecodeStream(source, i);
    ok, end := Validate(stream, buffer, name);
    ok := ok && stream.valid;
    next := i + (stream.src - stream.head);
  }

  /** The last byte of a piece: unescaped, and put into the buffer. */
  method PutEscaped(source: bytes, c0: byte, i: nat, buffer: array<byte>, name: nat)
    returns (error: Option<PointerError>, next: nat, end: nat, digits: bool)
    requires name < buffer.Length
    modifies buffer
    ensures buffer[..name] == old(buffer[..name])
    ensures match Escape(source, c0, i)
      case Next(chars, j) =>
        error == None && next == j && end == name + 1 == name + |chars| && buffer[name..end] == chars &&
        (digits <==> AllDigits(chars))
      case Refused(e, offset) => error == Some(e) && next == offset
  {
    hide AllDigits;
    var c;
    error, c, next := ParseEscape(source, c0, i);
    if error != None {
      return error, next, name, false;
    }
    digits := IsDigit(c);
    OneDigit(c);
    buffer[name] := c;
    end := name + 1;
  }

  /** Copies one character of a name into the buffer at `name`. */
  method ParsePiece(source: bytes, i: nat, uriFragment: bool, buffer: array<byte>, name: nat)
    returns (error: Option<PointerError>, next: nat, end: nat, digits: bool)
    requires i < |source| == buffer.Length && name + Margin(uriFragment) <= i
    modifies buffer
    ensures buffer[..name] == old(buffer[..name])
    ensures match PieceAt(source, i, uriFragment)
      case Next(chars, j) =>
        error == None && next == j && end == name + |chars| <= buffer.Length && buffer[name..end] == chars &&
        (digits <==> AllDigits(chars)) && end + Margin(uriFragment) <= next
      case Refused(e, offset) => error == Some(e) && next == offset
  {
    hide Triplets, CharLength, WellFormed, AllDigits, Escape;
    var c := source[i];
    next := i + 1;
    if uriFragment {
      if c == PERCENT {
        var ok;
        ok, next, end := ParsePercent(source, i, buffer, name);
        if !ok {
          return Some(InvalidPercentEncoding), i, name, false;
        }
        if end - name == 1 {
          c := buffer[name];
          assert c == buffer[name..end][0];
        } else {
          NotDigits(source, i);
          return None, next, end, false;
        }
      } else if NeedPercentEncode(c) {
        return Some(CharacterMustPercentEncode), i, name, false;
      }
    }
    EscapeMovesOn(source, c, next);
    error, next, end, digits := PutEscaped(source, c, next, buffer, name);
  }

  lemma EscapeMovesOn(s: bytes, c: byte, i: nat)
    ensures Escape(s, c, i).Next? ==> Escape(s, c, i).next >= i
  {
  }

  lemma OneDigit(c: byte)
    ensures IsDigit(c) <==> AllDigits([c])
  {
    assert Peek([c], 0) == c;
  }

  lemma NotDigits(s: bytes, i: nat)
    requires var n := CharLength(Triplets(s, i), 0); n > 1
    ensures !AllDigits(Triplets(s, i)[..CharLength(Triplets(s, i), 0)])
  {
    var t := Triplets(s, i);
    var c := t[..CharLength(t, 0)];
    assert WellFormed(t[0..0 + |c|]) && t[0..0 + |c|] == c;
    assert !IsDigit(Peek(c, 0));
  }

  // ------------------------------------------------------------------------- one name

  lemma DigitsConcat(a: bytes, b: bytes)
    ensures AllDigits(a + b) <==> AllDigits(a) && AllDigits(b)
  {
    if AllDigits(a + b) {
      forall k | 0 <= k < |a|
        ensures IsDigit(Peek(a, k))
      {
        assert Peek(a + b, k) == Peek(a, k);
      }
      forall k | 0 <= k < |b|
        ensures IsDigit(Peek(b, k))
      {
        assert Peek(a + b, |a| + k) == Peek(b, k);
      }
    }
    if AllDigits(a) && AllDigits(b) {
      forall k | 0 <= k < |a + b|
        ensures IsDigit(Peek(a + b, k))
      {
        assert Peek(a + b, k) == if k < |a| then Peek(a, k) else Peek(b, k - |a|);
      }
    }
  }

  lemma NoDigits()
    ensures AllDigits([])
  {
  }

  /** Copies the characters up to the next solidus or the end. */
  method ParseName(source: bytes, from: nat, uriFragment: bool, buffer: array<byte>, start: nat)
    returns (error: Option<PointerError>, i: nat, name: nat, isNumber: bool)
    requires from <= |source| == buffer.Length && start + Margin(uriFragment) <= from
    modifies buffer
    ensures buffer[..start] == old(buffer[..start])
    ensures match NameFrom(source, from, uriFragment, [])
      case Next(chars, j) =>
        error == None && i == j && name == start + |chars| <= buffer.Length && buffer[start..name] == chars &&
        (isNumber <==> AllDigits(chars)) && name + Margin(uriFragment) <= i
      case Refused(e, offset) => error == Some(e) && i == offset
  {
    hide NameFrom, PieceAt, AllDigits, Margin;
    error, i, name, isNumber := None, from, start, true;
    NoDigits();
    assert buffer[start..name] == [];
    while i < |source| && source[i] != SOLIDUS
      invariant error == None && i <= |source| && start <= name && name + Margin(uriFragment) <= i
      invariant buffer[..start] == old(buffer[..start])
      invariant NameFrom(source, from, uriFragment, []) == NameFrom(source, i, uriFragment, buffer[start..name])
      invariant isNumber <==> AllDigits(buffer[start..name])
      decreases |source| - i
    {
      ghost var sofar, before := buffer[start..name], buffer[..name];
      assert before[start..] == sofar && before[..start] == buffer[..start];
      NameStep(source, i, uriFragment, sofar);
      var end, digits;
      error, i, end, digits := ParsePiece(source, i, uriFragment, buffer, name);
      if error != None {
        return;
      }
      Appended(buffer, before, start, name, end);
      DigitsConcat(sofar, buffer[name..end]);
      isNumber := isNumber && digits;
      name := end;
    }
    NameEnds(source, i, uriFragment, buffer[start..name]);
  }

  /** What was written before, and what was written behind it. */
  lemma Appended(buffer: array<byte>, before: bytes, start: nat, name: nat, end: nat)
    requires start <= name <= end <= buffer.Length && buffer[..name] == before
    ensures buffer[..start] == before[..start] && buffer[start..end] == before[start..] + buffer[name..end]
  {
  }

  lemma NameStep(s: bytes, i: nat, uriFragment: bool, name: bytes)
    requires i < |s| && s[i] != SOLIDUS
    ensures NameFrom(s, i, uriFragment, name) ==
      if PieceAt(s, i, uriFragment).Next?
      then NameFrom(s, PieceAt(s, i, uriFragment).next, uriFragment, name + PieceAt(s, i, uriFragment).chars)
      else PieceAt(s, i, uriFragment)
  {
  }

  lemma NameEnds(s: bytes, i: nat, uriFragment: bool, name: bytes)
    requires i <= |s| && (i < |s| ==> s[i] == SOLIDUS)
    ensures NameFrom(s, i, uriFragment, name) == Next(name, i)
  {
  }

  // ---------------------------------------------------------------------- all tokens

  /** The conversion of a name to an index. */
  method ParseIndex(buffer: array<byte>, start: nat, length: nat, ghost name: bytes) returns (index: nat)
    requires start + length <= buffer.Length && buffer[start..start + length] == name && IsIndex(name)
    ensures index == IndexOf(name)
  {
    var n: nat := 0;
    for j := 0 to length
      invariant IndexOf(name) == IndexFrom(name, j, n)
    {
      assert name[j] == buffer[start + j];
      assert IsDigit(Peek(name, j));
      var m := (n * 10 + (buffer[start + j] - ZERO)) % SIZE_TYPE;
      if m < n {
        return INVALID_INDEX;
      }
      n := m;
    }
    return n;
  }

  /** A token's name is a stretch of the name buffer. */
  datatype Token = Token(start: nat, length: nat, index: nat)

  /** The buffer of names: each is followed by a NUL. */
  function Layout(names: seq<bytes>): bytes {
    if names == [] then [] else Layout(names[..|names| - 1]) + names[|names| - 1] + [0]
  }

  /** The token of name `k`. */
  function TokenOf(names: seq<bytes>, k: nat): Token
    requires k < |names|
  {
    Token(|Layout(names[..k])|, |names[k]|, IndexOf(names[k]))
  }

  /** In the laid-out buffer, a token's stretch is its name, and a NUL follows. */
  lemma {:induction false} TokenHasName(names: seq<bytes>, k: nat)
    requires k < |names|
    ensures var t, b := TokenOf(names, k), Layout(names);
      t.start + t.length < |b| && b[t.start..t.start + t.length] == names[k] && b[t.start + t.length] == 0
    decreases |names|
  {
    var t := TokenOf(names, k);
    var shorter := names[..|names| - 1];
    if k < |names| - 1 {
      TokenHasName(shorter, k);
      assert shorter[..k] == names[..k];
      assert Layout(names)[t.start..t.start + t.length] == Layout(shorter)[t.start..t.start + t.length];
    }
  }

  lemma LayoutNext(names: seq<bytes>, name: bytes)
    ensures Layout(names + [name]) == Layout(names) + name + [0]
  {
    assert (names + [name])[..|names|] == names;
  }

  /** How many solidi stand from `i` on. */
  function Solidi(s: bytes, i: nat): nat
    requires i <= |s|
    decreases |s| - i
  {
    if i == |s| then 0 else (if s[i] == SOLIDUS then 1 else 0) + Solidi(s, i + 1)
  }

  lemma {:induction false} NoSolidi(s: bytes, i: nat, j: nat)
    requires i <= j <= |s| && forall k :: i <= k < j ==> s[k] != SOLIDUS
    ensures Solidi(s, i) == Solidi(s, j)
    decreases j - i
  {
    if i < j {
      NoSolidi(s, i + 1, j);
    }
  }

  lemma PieceHasNoSolidus(s: bytes, i: nat, uriFragment: bool)
    requires i < |s| && s[i] != SOLIDUS && PieceAt(s, i, uriFragment).Next?
    ensures Solidi(s, i) == Solidi(s, PieceAt(s, i, uriFragment).next)
  {
    var j := PieceAt(s, i, uriFragment).next;
    if uriFragment && s[i] == PERCENT {
      var n := CharLength(Triplets(s, i), 0);
      TripletsHaveNoSolidus(s, i, n);
      assert j == i + 3 * n || j == i + 4;
    }
    NoSolidi(s, i, j);
  }

  lemma {:induction false} TripletsHaveNoSolidus(s: bytes, i: nat, n: nat)
    requires n <= |Triplets(s, i)|
    ensures forall k :: i <= k < i + 3 * n ==> k < |s| && s[k] != SOLIDUS
    decreases n
  {
    if n > 0 {
      TripletsHaveNoSolidus(s, i + 3, n - 1);
    }
  }

  lemma {:induction false} NameHasNoSolidus(s: bytes, i: nat, uriFragment: bool, name: bytes)
    requires i <= |s| && NameFrom(s, i, uriFragment, name).Next?
    ensures Solidi(s, i) == Solidi(s, NameFrom(s, i, uriFragment, name).next)
    decreases |s| - i
  {
    if i < |s| && s[i] != SOLIDUS {
      var p := PieceAt(s, i, uriFragment);
      NameHasNoSolidus(s, p.next, uriFragment, name + p.chars);
      PieceHasNoSolidus(s, i, uriFragment);
    }
  }

  lemma SliceOfPrefix(b: bytes, end: nat, i: nat, j: nat)
    requires i <= j <= end <= |b|
    ensures b[..end][i..j] == b[i..j]
  {
  }

  lemma TokenOfMore(names: seq<bytes>, name: bytes, k: nat)
    requires k <= |names|
    ensures TokenOf(names + [name], k) ==
      if k < |names| then TokenOf(names, k) else Token(|Layout(names)|, |name|, IndexOf(name))
  {
    assert (names + [name])[..k] == names[..k];
    assert names[..|names|] == names;
  }

  lemma NoIndex(name: bytes)
    requires !IsIndex(name)
    ensures IndexOf(name) == INVALID_INDEX
  {
  }

  class GenericPointer {
    var nameBuffer: array<byte>
    var tokens: array<Token>
    var error: Option<PointerError>
    var errorOffset: nat

    constructor ()
      ensures fresh(nameBuffer) && fresh(tokens) && tokens.Length == 0 && error == None
    {
      nameBuffer, tokens, error, errorOffset := new byte[0], new Token[0], None, 0;
    }

    /** The first `names` are laid out in the buffer up to `end`, and have their tokens. */
    ghost predicate HasTokens(names: seq<bytes>, end: nat)
      reads this`nameBuffer, this`tokens, nameBuffer, tokens
    {
      |names| <= tokens.Length && end == |Layout(names)| && end <= nameBuffer.Length &&
      nameBuffer[..end] == Layout(names) &&
      forall k :: 0 <= k < |names| ==> tokens[k] == TokenOf(names, k)
    }

    /** The names of a parsed pointer, read through its tokens. */
    ghost predicate Names(names: seq<bytes>)
      reads this`nameBuffer, this`tokens, nameBuffer, tokens
    {
      tokens.Length == |names| && forall k :: 0 <= k < |names| ==>
        var t := tokens[k];
        t.start + t.length < nameBuffer.Length && nameBuffer[t.start..t.start + t.length] == names[k] &&
        nameBuffer[t.start + t.length] == 0 && t.index == IndexOf(names[k])
    }

    lemma TokensGiveNames(names: seq<bytes>, end: nat)
      requires HasTokens(names, end) && tokens.Length == |names|
      ensures Names(names)
    {
      forall k | 0 <= k < |names|
        ensures var t := tokens[k];
          t.start + t.length < nameBuffer.Length && nameBuffer[t.start..t.start + t.length] == names[k] &&
          nameBuffer[t.start + t.length] == 0 && t.index == IndexOf(names[k])
      {
        TokenHasName(names, k);
        var t := tokens[k];
        hide Layout, IndexOf;
        SliceOfPrefix(nameBuffer[..], end, t.start, t.start + t.length);
        assert nameBuffer[..][..end] == nameBuffer[..end];
        assert nameBuffer[t.start + t.length] == nameBuffer[..end][t.start + t.length];
      }
    }

    /** One token: its name goes to the buffer, with a NUL, and its index is computed. */
    method ParseToken(source: bytes, from: nat, uriFragment: bool, start: nat, count: nat, ghost names: seq<bytes>)
      returns (failure: Option<PointerError>, i: nat, name: nat)
      requires from < |source| == nameBuffer.Length && source[from] == SOLIDUS
      requires HasTokens(names, start) && count == |names| < tokens.Length && start + Margin(uriFragment) <= from + 1
      modifies nameBuffer, tokens
      ensures match NameFrom(source, from + 1, uriFragment, [])
        case Next(chars, j) =>
          failure == None && i == j && HasTokens(names + [chars], name) && name + Margin(uriFragment) <= i + 1
        case Refused(e, offset) => failure == Some(e) && i == offset
    {
      hide NameFrom, AllDigits, Layout, IndexOf;
      i := from + 1;
      var isNumber;
      failure, i, name, isNumber := ParseName(source, i, uriFragment, nameBuffer, start);
      if failure != None {
        return;
      }
      ghost var chars := nameBuffer[start..name];
      var length := name - start;
      if length == 0 {
        isNumber := false;
      }
      nameBuffer[name] := 0;
      name := name + 1;
      if isNumber && length > 1 && nameBuffer[start] == ZERO {
        isNumber := false;
      }
      assert nameBuffer[start..start + length] == chars;
      var index := INVALID_INDEX;
      assert isNumber <==> IsIndex(chars);
      if isNumber {
        index := ParseIndex(nameBuffer, start, length, chars);
      } else {
        NoIndex(chars);
      }
      tokens[count] := Token(start, length, index);
      hide TokenOf, IsIndex;
      forall k | 0 <= k <= count
        ensures tokens[k] == TokenOf(names + [chars], k)
      {
        TokenOfMore(names, chars, k);
      }
      LayoutNext(names, chars);
      assert nameBuffer[..name] == Layout(names) + chars + [0];
    }
  
    /** Parses a string or a URI fragment. */
    method Parse(source: bytes)
      modifies this
      ensures match Meaning(source)
        case Tokens(names) => error == None && Names(names)
        case Invalid(e, offset) => error == Some(e) && errorOffset == offset && tokens.Length == 0
    {
      hide TokensFrom, Solidi, Layout, NameFrom, HasTokens, TokenOf;
      var tokenCount := CountTokens(source);
      tokens, nameBuffer := new Token[tokenCount], new byte[|source|];
      var i: nat, name: nat, count: nat := 0, 0, 0;
      var uriFragment := false;
      var failure := None;
      if Peek(source, i) == HASH {
        uriFragment := true;
        i := i + 1;
      }
      ghost var names: seq<bytes> := [];
      TokensAtStart();
      HashIsNoToken(source);
      if i != |source| && source[i] != SOLIDUS {
        NoToken(source, i, uriFragment);
        failure := Some(TokenMustBeginWithSolidus);
      }
      while failure == None && i < |source|
        invariant fresh(nameBuffer) && fresh(tokens) && nameBuffer.Length == |source| && tokens.Length == tokenCount
        invariant failure == None ==> i <= |source| && (i < |source| ==> source[i] == SOLIDUS)
        invariant failure == None ==> HasTokens(names, name) && count == |names|
        invariant failure == None ==> count + Solidi(source, i) == tokenCount && name + Margin(uriFragment) <= i + 1
        invariant failure == None ==> Meaning(source) == TokensFrom(source, i, uriFragment, names)
        invariant failure.Some? ==> Meaning(source) == Invalid(failure.value, i)
        decreases failure == None, |source| - i
      {
        OneMore(source, i, uriFragment, names);
        ghost var p := NameFrom(source, i + 1, uriFragment, []);
        failure, i, name := ParseToken(source, i, uriFragment, name, count, names);
        if failure == None {
          names := names + [p.chars];
          count := count + 1;
        }
      }
      if failure != None {
        tokens, nameBuffer := new Token[0], new byte[0];
        error, errorOffset := failure, i;
        return;
      }
      assert name <= nameBuffer.Length;
      error := None;
      AllTokens(source, uriFragment, names);
      TokensGiveNames(names, name);
    }

    lemma TokensAtStart()
      ensures HasTokens([], 0)
    {
    }

    /** Writes a name; with a URI fragment, what is not unreserved is percent-encoded as UTF-8. */
    method StringifyName(name: bytes, uriFragment: bool, os: OutputStream) returns (ok: bool)
      modifies os
      ensures ok <==> Written(name, 0, uriFragment).Some?
      ensures ok ==> os.out == old(os.out) + Written(name, 0, uriFragment).value
    {
      hide Written, CharLength, WellFormed, PercentEncoded;
      var j := 0;
      ghost var all := Written(name, 0, uriFragment);
      ghost var sofar: bytes := [];
      assert all == Prefixed([], all) by { PrefixNothing(all); }
      while j < |name|
        invariant j <= |name| && os.out == old(os.out) + sofar
        invariant all == Prefixed(sofar, Written(name, j, uriFragment))
        decreases |name| - j
      {
        ghost var put := [];
        var c := name[j];
        OneWritten(name, j, uriFragment);
        if c == TILDE {
          os.Put(TILDE);
          os.Put(ZERO);
          put := [TILDE, ZERO];
        } else if c == SOLIDUS {
          os.Put(TILDE);
          os.Put(ONE);
          put := [TILDE, ONE];
        } else if uriFragment && NeedPercentEncode(c) {
          var source := new StringStream(name);
          source.src := j;
          var plain := new OutputStream();
          ok := Utf8.Validate(source, plain);
          if !ok {
            return false;
          }
          assert plain.out == name[j..source.src];
          PutPercentEncoded(plain.out, os);
          put := PercentEncoded(plain.out);
          j := j + (source.src - j) - 1;
        } else {
          os.Put(c);
          put := [c];
        }
        j := j + 1;
        PrefixTwice(sofar, put, Written(name, j, uriFragment));
        assert os.out == old(os.out) + (sofar + put);
        sofar := sofar + put;
      }
      NameDone(name, uriFragment);
      ok := true;
      assert sofar + [] == sofar;
    }

    /** Writes the whole pointer. */
    method Stringify(uriFragment: bool, os: OutputStream, ghost names: seq<bytes>) returns (ok: bool)
      requires Names(names)
      modifies os
      ensures ok <==> Text(names, uriFragment).Some?
      ensures ok ==> os.out == old(os.out) + Text(names, uriFragment).value
    {
      hide Written, WrittenAll;
      ghost var all := WrittenAll(names, uriFragment);
      if uriFragment {
        os.Put(HASH);
      }
      ghost var start := os.out;
      ghost var sofar: bytes := [];
      assert all == Prefixed([], all) && names[0..] == names by { PrefixNothing(all); }
      for k := 0 to tokens.Length
        invariant os.out == start + sofar && all == Prefixed(sofar, WrittenAll(names[k..], uriFragment))
      {
        var t := tokens[k];
        var name := nameBuffer[t.start..t.start + t.length];
        assert name == names[k] && names[k..][0] == name && names[k..][1..] == names[k + 1..];
        OneNameWritten(names[k..], uriFragment);
        os.Put(SOLIDUS);
        ok := StringifyName(name, uriFragment, os);
        if !ok {
          return;
        }
        ghost var put := [SOLIDUS] + Written(name, 0, uriFragment).value;
        PrefixTwice(sofar, put, WrittenAll(names[k + 1..], uriFragment));
        assert os.out == start + (sofar + put);
        sofar := sofar + put;
      }
      ok := true;
      NothingWritten(uriFragment);
      assert names[tokens.Length..] == [] && sofar + [] == sofar;
      assert uriFragment ==> old(os.out) + [HASH] + sofar == old(os.out) + ([HASH] + sofar);
    }
  }

  /** PercentEncodeStream: a triplet for every byte put. */
  method PutPercentEncoded(s: bytes, os: OutputStream)
    modifies os
    ensures os.out == old(os.out) + PercentEncoded(s)
  {
    assert s[0..] == s;
    for k := 0 to |s|
      invariant os.out + PercentEncoded(s[k..]) == old(os.out) + PercentEncoded(s)
    {
      ghost var before := os.out;
      var u := s[k];
      os.Put(PERCENT);
      os.Put(HexDigit(u / 16));
      os.Put(HexDigit(u % 16));
      assert os.out == before + Triplet(u);
      assert s[k..][0] == u && s[k..][1..] == s[k + 1..];
      Associative(before, Triplet(u), PercentEncoded(s[k + 1..]));
    }
    assert os.out + [] == os.out;
  }

  lemma PrefixNothing(o: Option<bytes>)
    ensures Prefixed([], o) == o
  {
    if o.Some? {
      assert [] + o.value == o.value;
    }
  }

  lemma PrefixTwice(a: bytes, b: bytes, o: Option<bytes>)
    ensures Prefixed(a, Prefixed(b, o)) == Prefixed(a + b, o)
  {
    if o.Some? {
      Associative(a, b, o.value);
    }
  }

  lemma NameDone(name: bytes, uriFragment: bool)
    ensures Written(name, |name|, uriFragment) == Some([])
  {
  }

  lemma OneNameWritten(names: seq<bytes>, uriFragment: bool)
    requires names != []
    ensures var w := Written(names[0], 0, uriFragment);
      WrittenAll(names, uriFragment) ==
      if w == None then None else Prefixed([SOLIDUS] + w.value, WrittenAll(names[1..], uriFragment))
  {
  }

  lemma NothingWritten(uriFragment: bool)
    ensures WrittenAll([], uriFragment) == Some([])
  {
  }

  /** As many tokens as there are solidi. */
  method CountTokens(source: bytes) returns (count: nat)
    ensures count == Solidi(source, 0)
  {
    count := 0;
    for i := 0 to |source|
      invariant count + Solidi(source, i) == Solidi(source, 0)
    {
      if source[i] == SOLIDUS {
        count := count + 1;
      }
    }
  }

  lemma HashIsNoToken(s: bytes)
    ensures s != [] && s[0] == HASH ==> Solidi(s, 1) == Solidi(s, 0)
  {
  }

  lemma NoToken(s: bytes, i: nat, uriFragment: bool)
    requires i < |s| && s[i] != SOLIDUS
    ensures TokensFrom(s, i, uriFragment, []) == Invalid(TokenMustBeginWithSolidus, i)
  {
  }

  lemma OneMore(s: bytes, i: nat, uriFragment: bool, names: seq<bytes>)
    requires i < |s| && s[i] == SOLIDUS
    ensures var p := NameFrom(s, i + 1, uriFragment, []);
      if p.Next? then
        TokensFrom(s, i, uriFragment, names) == TokensFrom(s, p.next, uriFragment, names + [p.chars]) &&
        Solidi(s, i) == 1 + Solidi(s, p.next)
      else TokensFrom(s, i, uriFragment, names) == Invalid(p.error, p.offset)
    ensures Solidi(s, i) > 0
  {
    var p := NameFrom(s, i + 1, uriFragment, []);
    if p.Next? {
      NameHasNoSolidus(s, i + 1, uriFragment, []);
    }
  }

  lemma AllTokens(s: bytes, uriFragment: bool, names: seq<bytes>)
    ensures TokensFrom(s, |s|, uriFragment, names) == Tokens(names) && Solidi(s, |s|) == 0
  {
  }
}
