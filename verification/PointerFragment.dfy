/** URI fragments as JSON pointers: what the code makes of them against section 6 of RFC 6901. */
module PointerFragment {
  import opened Bytes
  import opened Utf8
  import opened StringText
  import opened PointerText
  import opened PointerParser

  // ---------------------------------------------------------------- section 6 of RFC 6901

  function TripletValue(s: bytes, i: nat): byte
    requires TripletAt(s, i)
  {
    HexValue(s[i + 1]) * 16 + HexValue(s[i + 2])
  }

  /** The text from `i` on, percent-decoded. */
  function Decoded(s: bytes, i: nat): (d: bytes)
    requires i <= |s|
    decreases |s| - i
  {
    if i == |s| then []
    else if TripletAt(s, i) then [TripletValue(s, i)] + Decoded(s, i + 3)
    else [s[i]] + Decoded(s, i + 1)
  }

  /** Section 2.3 of RFC 3986: ALPHA, DIGIT and `-._~` */
  predicate Unreserved(c: byte) {
    0x41 <= c <= 0x5A || 0x61 <= c <= 0x7A || 0x30 <= c <= 0x39 || c == 0x2D || c == 0x2E || c == 0x5F || c == 0x7E
  }

  /** Section 2.2 of RFC 3986: ``!$&'()*+,;=`` */
  predicate SubDelim(c: byte) {
    c == 0x21 || c == 0x24 || 0x26 <= c <= 0x2C || c == 0x3B || c == 0x3D
  }

  /** The characters that the fragment rule of section 3.5 of RFC 3986 allows to stand for themselves: unreserved ones,
      sub-delims and `:@/?` */
  predicate FragmentChar(c: byte) {
    Unreserved(c) || SubDelim(c) || c == 0x3A || c == 0x40 || c == 0x2F || c == 0x3F
  }

  /** The code asks for an encoding of everything but the unreserved characters. */
  lemma NeedIffNotUnreserved(c: byte)
    ensures NeedPercentEncode(c) <==> !Unreserved(c)
  {
  }

  /** The text from `i` on is a fragment: allowed characters and triplets. */
  predicate IsFragment(s: bytes, i: nat)
    requires i <= |s|
    decreases |s| - i
  {
    i == |s| ||
    if TripletAt(s, i) then IsFragment(s, i + 3) else FragmentChar(s[i]) && IsFragment(s, i + 1)
  }

  /** The pointer of a fragment behind `#`: it is percent-decoded, the bytes are UTF-8, and what they say is a string
      pointer. */
  function Section6(s: bytes): Option<seq<bytes>>
    requires s != []
  {
    var d := Decoded(s, 1);
    if !IsFragment(s, 1) || DecodeAll(d, 0) == None then None
    else match TokensFrom(d, 0, false, [])
      case Tokens(names) => Some(names)
      case Invalid(_, _) => None
  }

  // ------------------------------------------------------ what a caller can scan a text for

  /** `%2F` or `%2f` */
  predicate EncodedSolidusAt(s: bytes, m: nat) {
    TripletAt(s, m) && TripletValue(s, m) == SOLIDUS
  }

  predicate NoEncodedSolidus(s: bytes, i: nat) {
    forall m :: i <= m < |s| ==> !EncodedSolidusAt(s, m)
  }

  /** `~`, `%7E` or `%7e`, followed by `%30` or `%31` */
  predicate EncodedDigitAt(s: bytes, m: nat)
    requires m < |s|
  {
    if s[m] == TILDE then DigitTriplet(s, m + 1)
    else TripletAt(s, m) && TripletValue(s, m) == TILDE && DigitTriplet(s, m + 3)
  }

  predicate DigitTriplet(s: bytes, m: nat) {
    TripletAt(s, m) && (TripletValue(s, m) == ZERO || TripletValue(s, m) == ONE)
  }

  predicate NoEncodedDigit(s: bytes, i: nat) {
    forall m :: i <= m < |s| ==> !EncodedDigitAt(s, m)
  }

  /** One of `!$&'()*+,;=:@?` stands for itself. */
  predicate ReservedChar(c: byte) {
    SubDelim(c) || c == 0x3A || c == 0x40 || c == 0x3F
  }

  predicate NoReserved(s: bytes, i: nat) {
    forall m :: i <= m < |s| ==> !ReservedChar(s[m])
  }

  // ---------------------------------------------------------------- what is accepted

  /** The code accepts every character from `i` on. */
  predicate Accepts(s: bytes, i: nat, uriFragment: bool)
    requires i <= |s|
    decreases |s| - i
  {
    i == |s| ||
    if s[i] == SOLIDUS then Accepts(s, i + 1, uriFragment)
    else
      var p := PieceAt(s, i, uriFragment);
      p.Next? && Accepts(s, p.next, uriFragment)
  }

  lemma {:induction false} NameAccepted(s: bytes, i: nat, uriFragment: bool, name: bytes)
    requires i <= |s|
    ensures var p := NameFrom(s, i, uriFragment, name);
      Accepts(s, i, uriFragment) <==> p.Next? && Accepts(s, p.next, uriFragment)
    decreases |s| - i
  {
    if i < |s| && s[i] != SOLIDUS {
      var p := PieceAt(s, i, uriFragment);
      if p.Next? {
        NameAccepted(s, p.next, uriFragment, name + p.chars);
      }
      hide PieceAt;
    }
  }

  lemma {:induction false} TokensAccepted(s: bytes, i: nat, uriFragment: bool, names: seq<bytes>)
    requires i <= |s|
    ensures TokensFrom(s, i, uriFragment, names).Tokens? <==>
      (i == |s| || s[i] == SOLIDUS) && Accepts(s, i, uriFragment)
    decreases |s| - i
  {
    hide NameFrom, PieceAt;
    if i < |s| && s[i] == SOLIDUS {
      NameAccepted(s, i + 1, uriFragment, []);
      var p := NameFrom(s, i + 1, uriFragment, []);
      if p.Next? {
        TokensAccepted(s, p.next, uriFragment, names + [p.chars]);
      }
    }
  }

  // --------------------------------------------------------- one character at a time

  /** In the decoded text `u`, the characters from `i` on stand at `k`. */
  predicate Stands(s: bytes, i: nat, u: bytes, k: nat) {
    i <= |s| && k <= |u| && u[k..] == Decoded(s, i)
  }

  /** How many characters of `s` make one byte. */
  function Width(s: bytes, i: nat): nat {
    if TripletAt(s, i) then 3 else 1
  }

  lemma DecodeStep(s: bytes, i: nat, u: bytes, k: nat)
    requires Stands(s, i, u, k) && i < |s|
    ensures k < |u| && u[k] == (if TripletAt(s, i) then TripletValue(s, i) else s[i])
    ensures Stands(s, i + Width(s, i), u, k + 1)
  {
    assert u[k..][0] == u[k] && u[k..][1..] == u[k + 1..];
  }

  lemma BothEndHere(s: bytes, i: nat, u: bytes, k: nat)
    requires Stands(s, i, u, k)
    ensures i == |s| <==> k == |u|
  {
    assert |u[k..]| == |Decoded(s, i)|;
  }

  /** The characters inside a triplet begin nothing that is scanned for. */
  lemma InsideTriplet(s: bytes, i: nat, m: nat)
    requires TripletAt(s, i) && i < m < i + 3
    ensures !TripletAt(s, m) && s[m] != TILDE && s[m] != SOLIDUS && !ReservedChar(s[m])
  {
  }

  lemma ScansStep(s: bytes, i: nat)
    requires i < |s|
    ensures NoReserved(s, i) <==> !ReservedChar(s[i]) && NoReserved(s, i + Width(s, i))
    ensures NoEncodedDigit(s, i) <==> !EncodedDigitAt(s, i) && NoEncodedDigit(s, i + Width(s, i))
    ensures NoEncodedSolidus(s, i) <==> !EncodedSolidusAt(s, i) && NoEncodedSolidus(s, i + Width(s, i))
  {
    hide ReservedChar;
    if TripletAt(s, i) {
      InsideTriplet(s, i, i + 1);
      InsideTriplet(s, i, i + 2);
    }
    forall m | i <= m < |s|
      ensures m == i || m >= i + Width(s, i) || (!EncodedDigitAt(s, m) && !EncodedSolidusAt(s, m) && !ReservedChar(s[m]))
    {
    }
    hide TripletAt, EncodedDigitAt, EncodedSolidusAt;
  }

  lemma AsciiDecodes(u: bytes, k: nat)
    requires k < |u| && u[k] < 0x80
    ensures DecodeAll(u, k).Some? <==> DecodeAll(u, k + 1).Some?
  {
    hide DecodeAll;
    OneDecoded(u, k);
    AsciiIsOneByte(u, k);
  }

  /** What section 6 asks of the text from `i` on, and what the code asks besides. */
  ghost predicate Asks(s: bytes, i: nat, u: bytes, k: nat)
    requires i <= |s| && k <= |u|
  {
    IsFragment(s, i) && DecodeAll(u, k).Some? && Accepts(u, k, false) && NoReserved(s, i) && NoEncodedDigit(s, i)
  }

  /** A character that decodes to an ASCII byte other than `~`. */
  lemma PlainAsks(s: bytes, i: nat, u: bytes, k: nat)
    requires Stands(s, i, u, k) && i < |s|
    requires k < |u| && u[k] < 0x80 && u[k] != TILDE && (TripletAt(s, i) || (FragmentChar(s[i]) && !ReservedChar(s[i])))
    ensures var w := Width(s, i);
      Stands(s, i + w, u, k + 1) && (Asks(s, i, u, k) <==> Asks(s, i + w, u, k + 1))
  {
    DecodeStep(s, i, u, k);
    ScansStep(s, i);
    AsciiDecodes(u, k);
    assert PieceAt(u, k, false) == Next([u[k]], k + 1);
    assert TripletAt(s, i) ==> !ReservedChar(s[i]);
    hide NoReserved, NoEncodedDigit, DecodeAll, FragmentChar, ReservedChar, PieceAt, NoEncodedSolidus;
  }

  predicate EscapeDigit(s: bytes, i: nat) {
    Peek(s, i) == ZERO || Peek(s, i) == ONE
  }

  lemma DigitIsPlain(s: bytes, i: nat)
    requires EscapeDigit(s, i)
    ensures i < |s| && !TripletAt(s, i) && FragmentChar(s[i]) && !ReservedChar(s[i]) && s[i] < 0x80 && s[i] != TILDE
  {
  }

  /** A `~`, encoded or not: the code asks for a digit that is not encoded. */
  lemma TildeAsks(s: bytes, i: nat, u: bytes, k: nat)
    requires Stands(s, i, u, k) && i < |s| && k < |u| && u[k] == TILDE
    ensures var e := i + Width(s, i);
      if EscapeDigit(s, e) then Stands(s, e + 1, u, k + 2) && (Asks(s, i, u, k) <==> Asks(s, e + 1, u, k + 2))
      else !Asks(s, i, u, k)
  {
    hide NoReserved, NoEncodedDigit, NoEncodedSolidus, DecodeAll, FragmentChar, ReservedChar, PieceAt, Accepts, Asks;
    hide Stands, Peek, EncodedDigitAt;
    var e := i + Width(s, i);
    if EscapeDigit(s, e) {
      TildeBeforeDigit(s, i, u, k);
      DigitIsPlain(s, e);
      PlainAsks(s, e, u, k + 1);
      DigitAccepted(s, i, u, k);
    } else {
      TildeBeforeOther(s, i, u, k);
    }
  }

  lemma TildeBeforeDigit(s: bytes, i: nat, u: bytes, k: nat)
    requires Stands(s, i, u, k) && i < |s| && k < |u| && u[k] == TILDE && EscapeDigit(s, i + Width(s, i))
    ensures var e := i + Width(s, i);
      Stands(s, e, u, k + 1) && e < |s| && k + 1 < |u| && u[k + 1] == s[e] && EscapeDigit(u, k + 1)
  {
    var e := i + Width(s, i);
    DecodeStep(s, i, u, k);
    DigitIsPlain(s, e);
    DecodeStep(s, e, u, k + 1);
  }

  lemma DigitAccepted(s: bytes, i: nat, u: bytes, k: nat)
    requires Stands(s, i, u, k) && i < |s| && k < |u| && u[k] == TILDE && EscapeDigit(s, i + Width(s, i))
    requires Stands(s, i + Width(s, i), u, k + 1) && k + 1 < |u| && EscapeDigit(u, k + 1)
    ensures Asks(s, i, u, k) <==> Asks(s, i + Width(s, i), u, k + 1)
  {
    hide NoReserved, NoEncodedDigit, DecodeAll, PieceAt, NoEncodedSolidus, Accepts, Decoded, EscapeDigit;
    ScansStep(s, i);
    AsciiDecodes(u, k);
    TildeAccepted(u, k);
    PlainDigit(u, k + 1);
    TildeScans(s, i, u, k);
  }

  lemma TildeScans(s: bytes, i: nat, u: bytes, k: nat)
    requires Stands(s, i, u, k) && i < |s| && k < |u| && u[k] == TILDE && EscapeDigit(s, i + Width(s, i))
    ensures !EncodedDigitAt(s, i) && !ReservedChar(s[i]) && (IsFragment(s, i) <==> IsFragment(s, i + Width(s, i)))
  {
    DecodeStep(s, i, u, k);
    DigitIsPlain(s, i + Width(s, i));
  }

  lemma TildeBeforeOther(s: bytes, i: nat, u: bytes, k: nat)
    requires Stands(s, i, u, k) && i < |s| && k < |u| && u[k] == TILDE && !EscapeDigit(s, i + Width(s, i))
    ensures !Asks(s, i, u, k)
  {
    hide IsFragment, DecodeAll, NoReserved, NoEncodedSolidus, Stands;
    TildeAccepted(u, k);
    if EscapeDigit(u, k + 1) {
      EncodedDigit(s, i, u, k);
    }
    hide Accepts, EncodedDigitAt, EscapeDigit;
  }

  lemma TildeAccepted(u: bytes, k: nat)
    requires k < |u| && u[k] == TILDE
    ensures Accepts(u, k, false) <==> EscapeDigit(u, k + 1) && Accepts(u, k + 2, false)
  {
    assert EscapeDigit(u, k + 1) ==> k + 1 < |u|;
  }

  lemma PlainDigit(u: bytes, k: nat)
    requires EscapeDigit(u, k)
    ensures k < |u| && (Accepts(u, k, false) <==> Accepts(u, k + 1, false))
  {
    assert PieceAt(u, k, false) == Next([u[k]], k + 1);
  }

  /** A digit behind a `~` that is there only in the decoded text is a triplet. */
  lemma EncodedDigit(s: bytes, i: nat, u: bytes, k: nat)
    requires Stands(s, i, u, k) && i < |s| && k < |u| && u[k] == TILDE
    requires EscapeDigit(u, k + 1) && !EscapeDigit(s, i + Width(s, i))
    ensures EncodedDigitAt(s, i)
  {
    var e := i + Width(s, i);
    DecodeStep(s, i, u, k);
    BothEndHere(s, e, u, k + 1);
    if e < |s| {
      DecodeStep(s, e, u, k + 1);
    }
  }

  // ---------------------------------------------------------- characters outside ASCII

  predicate High(t: bytes, n: nat)
    requires n <= |t|
  {
    forall j :: 0 <= j < n ==> t[j] >= 0x80
  }

  lemma HighRest(t: bytes, n: nat)
    requires 0 < n <= |t| && High(t, n)
    ensures t[0] >= 0x80 && High(t[1..], n - 1)
  {
  }

  /** The triplets of a character outside ASCII. */
  lemma HighRun(s: bytes, i: nat, n: nat, u: bytes, k: nat)
    requires Stands(s, i, u, k) && n <= |Triplets(s, i)| && High(Triplets(s, i), n)
    ensures Stands(s, i + 3 * n, u, k + n) && u[k..k + n] == Triplets(s, i)[..n]
    ensures IsFragment(s, i) <==> IsFragment(s, i + 3 * n)
    ensures NoReserved(s, i) <==> NoReserved(s, i + 3 * n)
    ensures NoEncodedDigit(s, i) <==> NoEncodedDigit(s, i + 3 * n)
    ensures NoEncodedSolidus(s, i) <==> NoEncodedSolidus(s, i + 3 * n)
  {
    hide NoReserved, NoEncodedDigit, NoEncodedSolidus, Triplets, IsFragment, High;
    HighStands(s, i, n, u, k);
    HighScans(s, i, n);
  }

  lemma {:induction false} HighStands(s: bytes, i: nat, n: nat, u: bytes, k: nat)
    requires Stands(s, i, u, k) && n <= |Triplets(s, i)|
    ensures Stands(s, i + 3 * n, u, k + n) && u[k..k + n] == Triplets(s, i)[..n]
    decreases n
  {
    if n == 0 {
      assert u[k..k] == [];
    } else {
      TripletsNext(s, i);
      DecodeStep(s, i, u, k);
      HighStands(s, i + 3, n - 1, u, k + 1);
      OneMoreByte(u, k, n, Triplets(s, i), Triplets(s, i + 3));
    }
  }

  lemma {:induction false} HighScans(s: bytes, i: nat, n: nat)
    requires i <= |s| && n <= |Triplets(s, i)| && High(Triplets(s, i), n)
    ensures i + 3 * n <= |s| && (IsFragment(s, i) <==> IsFragment(s, i + 3 * n))
    ensures NoReserved(s, i) <==> NoReserved(s, i + 3 * n)
    ensures NoEncodedDigit(s, i) <==> NoEncodedDigit(s, i + 3 * n)
    ensures NoEncodedSolidus(s, i) <==> NoEncodedSolidus(s, i + 3 * n)
    decreases n
  {
    hide NoReserved, NoEncodedDigit, NoEncodedSolidus, Triplets, IsFragment, High;
    if n > 0 {
      TripletsNext(s, i);
      HighRest(Triplets(s, i), n);
      HighStep(s, i);
      HighScans(s, i + 3, n - 1);
    }
  }

  lemma TripletsNext(s: bytes, i: nat)
    requires Triplets(s, i) != []
    ensures i < |s| && TripletAt(s, i) && Triplets(s, i) == [TripletValue(s, i)] + Triplets(s, i + 3)
    ensures Triplets(s, i)[1..] == Triplets(s, i + 3)
  {
  }

  lemma HighStep(s: bytes, i: nat)
    requires TripletAt(s, i) && TripletValue(s, i) >= 0x80
    ensures IsFragment(s, i) <==> IsFragment(s, i + 3)
    ensures NoReserved(s, i) <==> NoReserved(s, i + 3)
    ensures NoEncodedDigit(s, i) <==> NoEncodedDigit(s, i + 3)
    ensures NoEncodedSolidus(s, i) <==> NoEncodedSolidus(s, i + 3)
  {
    hide NoReserved, NoEncodedDigit, NoEncodedSolidus;
    ScansStep(s, i);
    assert !ReservedChar(s[i]);
  }

  lemma OneMoreByte(u: bytes, k: nat, n: nat, t: bytes, r: bytes)
    requires 0 < n <= |t| && k + n <= |u| && t == [u[k]] + r && u[k + 1..k + n] == r[..n - 1]
    ensures u[k..k + n] == t[..n]
  {
    assert u[k..k + n] == [u[k]] + u[k + 1..k + n];
  }

  /** In a string pointer, the bytes outside ASCII stand for themselves. */
  lemma {:induction false} HighBytes(u: bytes, k: nat, n: nat, name: bytes)
    requires k + n <= |u| && forall j :: k <= j < k + n ==> u[j] >= 0x80
    ensures Accepts(u, k, false) <==> Accepts(u, k + n, false)
    ensures NameFrom(u, k, false, name) == NameFrom(u, k + n, false, name + u[k..k + n])
    decreases n
  {
    if n == 0 {
      assert name + u[k..k] == name;
    } else {
      assert PieceAt(u, k, false) == Next([u[k]], k + 1);
      HighBytes(u, k + 1, n - 1, name + [u[k]]);
      assert name + u[k..k + n] == name + [u[k]] + u[k + 1..k + n];
    }
  }

  /** What stands behind the triplets of a fragment is ASCII, so the character at `i` is as long in the triplets as in
      the whole decoded text. */
  lemma LengthAgrees(s: bytes, i: nat, u: bytes, k: nat)
    requires Stands(s, i, u, k) && TripletAt(s, i) && IsFragment(s, i)
    ensures CharLength(Triplets(s, i), 0) == CharLength(u, k)
  {
    TripletsDecoded(s, i, u, k);
    SameLength(Triplets(s, i), u, k);
  }

  /** Bytes that no tail byte follows. */
  lemma SameLength(t: bytes, u: bytes, k: nat)
    requires t != [] && k + |t| <= |u| && u[k..k + |t|] == t && (k + |t| < |u| ==> u[k + |t|] < 0x80)
    ensures CharLength(t, 0) == CharLength(u, k)
  {
    hide CharLength, WellFormed;
    if CharLength(t, 0) != 0 {
      LengthInLonger(t, u, k);
    }
    if CharLength(u, k) != 0 {
      LengthInShorter(t, u, k);
    }
  }

  lemma LengthInLonger(t: bytes, u: bytes, k: nat)
    requires k + |t| <= |u| && u[k..k + |t|] == t && CharLength(t, 0) != 0
    ensures CharLength(u, k) == CharLength(t, 0)
  {
    hide CharLength, WellFormed;
    var m := CharLength(t, 0);
    assert u[k..k + m] == u[k..k + |t|][..m] == t[0..0 + m];
    CharLengthUnique(u, k, m);
  }

  lemma LengthInShorter(t: bytes, u: bytes, k: nat)
    requires t != [] && k + |t| <= |u| && u[k..k + |t|] == t && (k + |t| < |u| ==> u[k + |t|] < 0x80)
    requires CharLength(u, k) != 0
    ensures CharLength(t, 0) == CharLength(u, k)
  {
    hide CharLength, WellFormed;
    var n := CharLength(u, k);
    TailsNotAscii(u, k, n);
    assert n <= |t|;
    assert t[0..0 + n] == u[k..k + |t|][..n] == u[k..k + n];
    CharLengthUnique(t, 0, n);
  }

  lemma TailsNotAscii(u: bytes, k: nat, n: nat)
    requires k + n <= |u| && WellFormed(u[k..k + n])
    ensures forall m :: k < m < k + n ==> u[m] >= 0x80
  {
    forall m | k < m < k + n
      ensures u[m] >= 0x80
    {
      assert u[m] == u[k..k + n][m - k];
    }
  }

  lemma {:induction false} TripletsDecoded(s: bytes, i: nat, u: bytes, k: nat)
    requires Stands(s, i, u, k) && IsFragment(s, i)
    ensures var n := |Triplets(s, i)|;
      k + n <= |u| && u[k..k + n] == Triplets(s, i) && (k + n < |u| ==> u[k + n] < 0x80)
    decreases |s| - i
  {
    var t := Triplets(s, i);
    if i == |s| {
      BothEndHere(s, i, u, k);
      assert u[k..k] == [];
    } else if TripletAt(s, i) {
      TripletsNext(s, i);
      DecodeStep(s, i, u, k);
      TripletsDecoded(s, i + 3, u, k + 1);
      OneMoreByte(u, k, |t|, t, Triplets(s, i + 3));
      assert t[..|t|] == t;
    } else {
      DecodeStep(s, i, u, k);
      assert u[k..k] == [];
    }
  }

  /** The character of several triplets. */
  lemma HighAsks(s: bytes, i: nat, u: bytes, k: nat)
    requires Stands(s, i, u, k) && i < |s|
    requires CharLength(Triplets(s, i), 0) > 1
    ensures var n := CharLength(Triplets(s, i), 0);
      Stands(s, i + 3 * n, u, k + n) && (Asks(s, i, u, k) <==> Asks(s, i + 3 * n, u, k + n))
  {
    hide NoReserved, NoEncodedDigit, NoEncodedSolidus, Triplets, IsFragment, High, DecodeAll, Accepts, NameFrom;
    hide WellFormed, CharLength;
    var t := Triplets(s, i);
    var n := CharLength(t, 0);
    CharacterIsHigh(t, n);
    HighRun(s, i, n, u, k);
    HighAt(u, k, t, n);
    HighBytes(u, k, n, []);
    assert u[k..k + n] == t[0..0 + n];
    CharLengthUnique(u, k, n);
    OneDecoded(u, k);
  }

  lemma HighAt(u: bytes, k: nat, t: bytes, n: nat)
    requires n <= |t| && High(t, n) && k + n <= |u| && u[k..k + n] == t[..n]
    ensures forall j :: k <= j < k + n ==> u[j] >= 0x80
  {
    forall j | k <= j < k + n
      ensures u[j] >= 0x80
    {
      assert u[k..k + n][j - k] == t[j - k];
    }
  }

  lemma CharacterIsHigh(t: bytes, n: nat)
    requires n == CharLength(t, 0) > 1
    ensures High(t, n)
  {
    var c := t[0..0 + n];
    HighCharacter(c);
    assert forall j :: 0 <= j < n ==> t[j] == c[j];
  }

  lemma HighCharacter(c: bytes)
    requires WellFormed(c) && |c| > 1
    ensures forall j :: 0 <= j < |c| ==> c[j] >= 0x80
  {
  }

  // --------------------------------------------------------------- what the code does

  /** What the code does with the character at `i` of a fragment. */
  lemma PieceCases(s: bytes, i: nat)
    requires i < |s| && s[i] != SOLIDUS
    ensures var n := CharLength(Triplets(s, i), 0);
      PieceAt(s, i, true) ==
      if !TripletAt(s, i) then
        if NeedPercentEncode(s[i]) then Refused(if s[i] == PERCENT then InvalidPercentEncoding else CharacterMustPercentEncode, i)
        else Escape(s, s[i], i + 1)
      else if n == 0 then Refused(InvalidPercentEncoding, i)
      else if n == 1 then Escape(s, TripletValue(s, i), i + 3)
      else Next(Triplets(s, i)[..n], i + 3 * n)
    ensures TripletAt(s, i) && CharLength(Triplets(s, i), 0) == 1 ==> TripletValue(s, i) < 0x80
  {
  }

  /** The byte that the character at `i` stands for by itself. */
  function ByteAt(s: bytes, i: nat): byte
    requires i < |s|
  {
    if TripletAt(s, i) then TripletValue(s, i) else s[i]
  }

  /** The code takes the character at `i` as one byte. */
  predicate OneByteAt(s: bytes, i: nat)
    requires i < |s|
  {
    if TripletAt(s, i) then CharLength(Triplets(s, i), 0) == 1 else !NeedPercentEncode(s[i])
  }

  lemma OneByteAccepted(s: bytes, i: nat)
    requires i < |s| && s[i] != SOLIDUS && OneByteAt(s, i)
    ensures var e := i + Width(s, i);
      Accepts(s, i, true) <==>
      if ByteAt(s, i) == TILDE then EscapeDigit(s, e) && Accepts(s, e + 1, true) else Accepts(s, e, true)
    ensures ByteAt(s, i) < 0x80 && i + Width(s, i) <= |s|
  {
    PieceCases(s, i);
    assert EscapeDigit(s, i + Width(s, i)) ==> i + Width(s, i) < |s|;
    hide PieceAt, CharLength, Triplets;
  }

  /** A character that the code refuses at once is refused by what it asks besides section 6, or is no UTF-8. */
  lemma RefusedAsks(s: bytes, i: nat, u: bytes, k: nat)
    requires Stands(s, i, u, k) && i < |s| && s[i] != SOLIDUS && !PieceAt(s, i, true).Next? && !OneByteAt(s, i)
    ensures !Asks(s, i, u, k)
  {
    PieceCases(s, i);
    DecodeStep(s, i, u, k);
    if TripletAt(s, i) {
      if IsFragment(s, i) {
        LengthAgrees(s, i, u, k);
        OneDecoded(u, k);
      }
    } else {
      ScansStep(s, i);
    }
    hide PieceAt, CharLength, Triplets, DecodeAll, Accepts, NoEncodedDigit, NoEncodedSolidus, Stands;
  }

  lemma EndAsks(s: bytes, u: bytes, k: nat)
    requires Stands(s, |s|, u, k)
    ensures Asks(s, |s|, u, k)
  {
    BothEndHere(s, |s|, u, k);
    BothEnd(u);
  }

  lemma OneByteAsks(s: bytes, i: nat, u: bytes, k: nat)
    requires Stands(s, i, u, k) && i < |s| && s[i] != SOLIDUS && OneByteAt(s, i)
    ensures k < |u| && u[k] == ByteAt(s, i) < 0x80
    ensures u[k] != TILDE ==> TripletAt(s, i) || (FragmentChar(s[i]) && !ReservedChar(s[i]))
  {
    DecodeStep(s, i, u, k);
    OneByteAccepted(s, i);
    hide Accepts;
  }

  /** The code accepts exactly what section 6 asks for, without reserved characters and encoded escape digits. */
  lemma {:induction false} AcceptedIff(s: bytes, i: nat, u: bytes, k: nat)
    requires i <= |s| && Stands(s, i, u, k)
    ensures Accepts(s, i, true) <==> Asks(s, i, u, k)
    decreases |s| - i
  {
    hide Asks, PieceAt, CharLength, Triplets, FragmentChar, NeedPercentEncode, OneByteAt, EscapeDigit, Decoded;
    if i == |s| {
      EndAsks(s, u, k);
    } else if s[i] == SOLIDUS {
      SolidusAsks(s, i, u, k);
      AcceptedIff(s, i + 1, u, k + 1);
    } else if OneByteAt(s, i) {
      var e := i + Width(s, i);
      OneByteAccepted(s, i);
      OneByteAsks(s, i, u, k);
      if ByteAt(s, i) == TILDE {
        TildeAsks(s, i, u, k);
        if EscapeDigit(s, e) {
          AcceptedIff(s, e + 1, u, k + 2);
        }
      } else {
        PlainAsks(s, i, u, k);
        AcceptedIff(s, e, u, k + 1);
      }
    } else if PieceAt(s, i, true).Next? {
      var n := CharLength(Triplets(s, i), 0);
      SeveralBytes(s, i);
      HighAsks(s, i, u, k);
      AcceptedIff(s, i + 3 * n, u, k + n);
    } else {
      RefusedAsks(s, i, u, k);
    }
  }

  lemma SolidusAsks(s: bytes, i: nat, u: bytes, k: nat)
    requires Stands(s, i, u, k) && i < |s| && s[i] == SOLIDUS
    ensures Stands(s, i + 1, u, k + 1) && (Asks(s, i, u, k) <==> Asks(s, i + 1, u, k + 1))
    ensures k < |u| && u[k] == SOLIDUS
  {
    DecodeStep(s, i, u, k);
    PlainAsks(s, i, u, k);
  }

  lemma SeveralBytes(s: bytes, i: nat)
    requires i < |s| && s[i] != SOLIDUS && !OneByteAt(s, i) && PieceAt(s, i, true).Next?
    ensures var n := CharLength(Triplets(s, i), 0);
      n > 1 && PieceAt(s, i, true) == Next(Triplets(s, i)[..n], i + 3 * n)
  {
    PieceCases(s, i);
  }

  // ------------------------------------------------------------- what it then means

  /** Where no solidus is encoded, a piece of the fragment and its decoded text add the same to a name. */
  lemma PieceAgrees(s: bytes, i: nat, u: bytes, k: nat, name: bytes) returns (j: nat)
    requires i < |s| && s[i] != SOLIDUS && Stands(s, i, u, k) && PieceAt(s, i, true).Next? && !EncodedSolidusAt(s, i)
    ensures var p := PieceAt(s, i, true);
      Stands(s, p.next, u, j) && NameFrom(u, k, false, name) == NameFrom(u, j, false, name + p.chars)
  {
    hide PieceAt, NameFrom, Stands, OneByteAt, EncodedSolidusAt, Triplets, CharLength;
    if OneByteAt(s, i) {
      j := OneByteAgrees(s, i, u, k, name);
    } else {
      j := SeveralAgree(s, i, u, k, name);
    }
  }

  lemma OneByteAgrees(s: bytes, i: nat, u: bytes, k: nat, name: bytes) returns (j: nat)
    requires i < |s| && s[i] != SOLIDUS && Stands(s, i, u, k) && PieceAt(s, i, true).Next? && !EncodedSolidusAt(s, i)
    requires OneByteAt(s, i)
    ensures var p := PieceAt(s, i, true);
      Stands(s, p.next, u, j) && NameFrom(u, k, false, name) == NameFrom(u, j, false, name + p.chars)
  {
    hide NameFrom, Stands, Triplets, CharLength, Accepts;
    PieceCases(s, i);
    OneByteAsks(s, i, u, k);
    if u[k] == TILDE {
      TildeBeforeDigit(s, i, u, k);
      j := k + 2;
      DecodeStep(s, i + Width(s, i), u, k + 1);
    } else {
      DecodeStep(s, i, u, k);
      j := k + 1;
    }
    StringPiece(u, k, name);
    hide PieceAt, TripletAt;
  }

  lemma SeveralAgree(s: bytes, i: nat, u: bytes, k: nat, name: bytes) returns (j: nat)
    requires i < |s| && s[i] != SOLIDUS && Stands(s, i, u, k) && PieceAt(s, i, true).Next? && !OneByteAt(s, i)
    ensures var p := PieceAt(s, i, true);
      Stands(s, p.next, u, j) && NameFrom(u, k, false, name) == NameFrom(u, j, false, name + p.chars)
  {
    hide NameFrom, Triplets, CharLength, PieceAt, OneByteAt, Accepts, IsFragment, NoReserved, NoEncodedDigit, NoEncodedSolidus, Decoded;
    var n := CharLength(Triplets(s, i), 0);
    SeveralBytes(s, i);
    CharacterIsHigh(Triplets(s, i), n);
    HighRun(s, i, n, u, k);
    HighAt(u, k, Triplets(s, i), n);
    HighBytes(u, k, n, name);
    j := k + n;
  }

  lemma StringPiece(u: bytes, k: nat, name: bytes)
    requires k < |u| && u[k] != SOLIDUS && Escape(u, u[k], k + 1).Next?
    ensures var p := Escape(u, u[k], k + 1);
      p.next <= |u| && NameFrom(u, k, false, name) == NameFrom(u, p.next, false, name + p.chars)
  {
    assert PieceAt(u, k, false) == Escape(u, u[k], k + 1);
  }

  lemma {:induction false} NameAgrees(s: bytes, i: nat, u: bytes, k: nat, name: bytes) returns (j: nat)
    requires i <= |s| && Stands(s, i, u, k) && NameFrom(s, i, true, name).Next? && NoEncodedSolidus(s, i)
    ensures var p := NameFrom(s, i, true, name);
      Stands(s, p.next, u, j) && NameFrom(u, k, false, name) == Next(p.chars, j) && NoEncodedSolidus(s, p.next)
    decreases |s| - i
  {
    hide PieceAt, EncodedSolidusAt, Decoded;
    if i == |s| || s[i] == SOLIDUS {
      NameEndsTogether(s, i, u, k);
      j := k;
    } else {
      var p := PieceAt(s, i, true);
      var m := PieceAgrees(s, i, u, k, name);
      j := NameAgrees(s, p.next, u, m, name + p.chars);
    }
  }

  lemma NameEndsTogether(s: bytes, i: nat, u: bytes, k: nat)
    requires i <= |s| && Stands(s, i, u, k) && (i < |s| ==> s[i] == SOLIDUS)
    ensures k == |u| <==> i == |s|
    ensures k < |u| ==> u[k] == SOLIDUS
  {
    BothEndHere(s, i, u, k);
    if i < |s| {
      DecodeStep(s, i, u, k);
    }
  }

  lemma {:induction false} TokensAgree(s: bytes, i: nat, u: bytes, k: nat, names: seq<bytes>)
    requires i <= |s| && Stands(s, i, u, k) && TokensFrom(s, i, true, names).Tokens? && NoEncodedSolidus(s, i)
    ensures TokensFrom(u, k, false, names) == TokensFrom(s, i, true, names)
    decreases |s| - i
  {
    hide NameFrom, Decoded;
    NameEndsTogether(s, i, u, k);
    if i < |s| {
      var p := NameFrom(s, i + 1, true, []);
      SolidusStands(s, i);
      DecodeStep(s, i, u, k);
      var j := NameAgrees(s, i + 1, u, k + 1, []);
      TokensAgree(s, p.next, u, j, names + [p.chars]);
    }
  }

  lemma SolidusStands(s: bytes, i: nat)
    requires i < |s| && s[i] == SOLIDUS
    ensures Width(s, i) == 1
  {
  }

  // ------------------------------------------------------------ an encoded solidus

  /** Decoding never loses a solidus, and an encoded one is one more. */
  lemma {:induction false} MoreSolidi(s: bytes, i: nat, u: bytes, k: nat)
    requires i <= |s| && k <= |u| && Stands(s, i, u, k)
    ensures Solidi(u, k) >= Solidi(s, i)
    ensures !NoEncodedSolidus(s, i) ==> Solidi(u, k) > Solidi(s, i)
    decreases |s| - i
  {
    hide NoEncodedSolidus, NoReserved, NoEncodedDigit, Stands, Solidi, Width, Decoded;
    BothEndHere(s, i, u, k);
    if i < |s| {
      DecodeStep(s, i, u, k);
      ScansStep(s, i);
      SolidiNext(s, i);
      MoreSolidi(s, i + Width(s, i), u, k + 1);
      SolidiNextByte(u, k);
    } else {
      NothingEncoded(s, u);
    }
  }

  lemma SolidiNext(s: bytes, i: nat)
    requires i < |s|
    ensures i + Width(s, i) <= |s| && Width(s, i) > 0
    ensures Solidi(s, i) == (if s[i] == SOLIDUS then 1 else 0) + Solidi(s, i + Width(s, i))
  {
    if TripletAt(s, i) {
      NoSolidi(s, i, i + 3);
    }
  }

  lemma SolidiNextByte(u: bytes, k: nat)
    requires k < |u|
    ensures Solidi(u, k) == (if u[k] == SOLIDUS then 1 else 0) + Solidi(u, k + 1)
  {
  }

  lemma NothingEncoded(s: bytes, u: bytes)
    ensures NoEncodedSolidus(s, |s|) && Solidi(s, |s|) == 0 == Solidi(u, |u|)
  {
  }

  /** A pointer has as many tokens as its text has solidi. */
  lemma {:induction false} TokensAreSolidi(s: bytes, i: nat, uriFragment: bool, names: seq<bytes>)
    requires i <= |s| && TokensFrom(s, i, uriFragment, names).Tokens?
    ensures |TokensFrom(s, i, uriFragment, names).names| == |names| + Solidi(s, i)
    decreases |s| - i
  {
    hide NameFrom;
    if i < |s| {
      var p := NameFrom(s, i + 1, uriFragment, []);
      NameHasNoSolidus(s, i + 1, uriFragment, []);
      TokensAreSolidi(s, p.next, uriFragment, names + [p.chars]);
    }
  }

  // ------------------------------------------------------------------- the theorems

  /** The fragment behind `#` begins with a solidus that is not encoded, or is empty. */
  predicate BeginsPlainly(s: bytes)
    requires s != []
  {
    |s| == 1 || s[1] == SOLIDUS
  }

  /** Of the fragments of section 6, the code accepts exactly those without an encoded first solidus, without reserved
      characters that stand for themselves, and without encoded digits behind a `~`; and it accepts no other text. */
  lemma FragmentAcceptedIff(s: bytes)
    requires s != [] && s[0] == HASH
    ensures Meaning(s).Tokens? <==>
      Section6(s).Some? && BeginsPlainly(s) && NoReserved(s, 1) && NoEncodedDigit(s, 1)
  {
    hide NoReserved, NoEncodedDigit, DecodeAll, TokensFrom, Accepts, IsFragment;
    var d := Decoded(s, 1);
    assert d[0..] == d;
    TokensAccepted(s, 1, true, []);
    TokensAccepted(d, 0, false, []);
    AcceptedIff(s, 1, d, 0);
    NameEndsPlainly(s, d);
  }

  lemma NameEndsPlainly(s: bytes, d: bytes)
    requires s != [] && d == Decoded(s, 1)
    ensures BeginsPlainly(s) ==> d == [] || d[0] == SOLIDUS
  {
    assert d[0..] == d;
    if BeginsPlainly(s) {
      NameEndsTogether(s, 1, d, 0);
    }
  }

  /** What the code accepts means what section 6 says if and only if no solidus is encoded. */
  lemma FragmentMeansIff(s: bytes)
    requires s != [] && s[0] == HASH && Meaning(s).Tokens?
    ensures Meaning(s) == Meaning(Decoded(s, 1)) <==> NoEncodedSolidus(s, 1)
    ensures Section6(s) == Some(Meaning(s).names) <==> NoEncodedSolidus(s, 1)
  {
    FragmentAcceptedIff(s);
    NameEndsPlainly(s, Decoded(s, 1));
    hide NoReserved, NoEncodedDigit, DecodeAll, TokensFrom, IsFragment, NoEncodedSolidus;
    var d := Decoded(s, 1);
    assert d[0..] == d;
    TokensAreSolidi(s, 1, true, []);
    TokensAreSolidi(d, 0, false, []);
    if NoEncodedSolidus(s, 1) {
      TokensAgree(s, 1, d, 0, []);
    } else {
      MoreSolidi(s, 1, d, 0);
    }
  }

  /** The names that the code finds, if it accepts the text. */
  function Found(s: bytes): Option<seq<bytes>> {
    match Meaning(s)
    case Tokens(names) => Some(names)
    case Invalid(_, _) => None
  }

  /** For every text behind `#`, the code and section 6 agree if and only if section 6 refuses it or none of the four
      things that a caller can scan for stands in it. */
  lemma FragmentExactIff(s: bytes)
    requires s != [] && s[0] == HASH
    ensures Found(s) == Section6(s) <==>
      Section6(s) == None ||
      (BeginsPlainly(s) && NoReserved(s, 1) && NoEncodedDigit(s, 1) && NoEncodedSolidus(s, 1))
  {
    hide NoReserved, NoEncodedDigit, NoEncodedSolidus, Section6, Meaning, BeginsPlainly;
    FragmentAcceptedIff(s);
    if Meaning(s).Tokens? {
      FragmentMeansIff(s);
    }
  }

  // ------------------------------------------------------------------------- inputs

  lemma OneName(s: bytes, i: nat, uriFragment: bool, names: seq<bytes>, name: bytes, next: nat, more: seq<bytes>)
    requires i < |s| && s[i] == SOLIDUS && NameFrom(s, i + 1, uriFragment, []) == Next(name, next)
    requires more == names + [name]
    ensures next <= |s| && TokensFrom(s, i, uriFragment, names) == TokensFrom(s, next, uriFragment, more)
  {
    hide NameFrom;
  }

  lemma {:induction false} AsciiText(d: bytes, i: nat)
    requires i <= |d| && forall k :: i <= k < |d| ==> d[k] < 0x80
    ensures DecodeAll(d, i).Some?
    decreases |d| - i
  {
    if i < |d| {
      AsciiDecodes(d, i);
      AsciiText(d, i + 1);
    }
  }

  /** `#/a%2Fb`: one token for the code, two for section 6. */
  lemma EncodedSolidusInput(s: bytes)
    requires s == [HASH, SOLIDUS, 0x61, PERCENT, 0x32, 0x46, 0x62]
    ensures Meaning(s) == Tokens([[0x61, SOLIDUS, 0x62]])
    ensures Section6(s) == Some([[0x61], [0x62]])
  {
    EncodedSolidusDecoded(s);
    TwoTokens(Decoded(s, 1));
    EncodedSolidusToken(s);
    hide Decoded, IsFragment, DecodeAll, TokensFrom;
  }

  lemma EncodedSolidusDecoded(s: bytes)
    requires s == [HASH, SOLIDUS, 0x61, PERCENT, 0x32, 0x46, 0x62]
    ensures Decoded(s, 1) == [SOLIDUS, 0x61, SOLIDUS, 0x62] && IsFragment(s, 1) && DecodeAll(Decoded(s, 1), 0).Some?
  {
    assert Decoded(s, 7) == [] && IsFragment(s, 7);
    assert Decoded(s, 6) == [0x62] && IsFragment(s, 6);
    assert Decoded(s, 3) == [SOLIDUS, 0x62] && IsFragment(s, 3);
    assert Decoded(s, 2) == [0x61, SOLIDUS, 0x62] && IsFragment(s, 2);
    AsciiText(Decoded(s, 1), 0);
  }

  lemma EncodedSolidusToken(s: bytes)
    requires s == [HASH, SOLIDUS, 0x61, PERCENT, 0x32, 0x46, 0x62]
    ensures Meaning(s) == Tokens([[0x61, SOLIDUS, 0x62]])
  {
    hide NameFrom, TokensFrom;
    assert Triplets(s, 3) == [SOLIDUS];
    CharLengthUnique(Triplets(s, 3), 0, 1);
    OnePiece(s, 2, true, [], [0x61], 3, [0x61]);
    OnePiece(s, 3, true, [0x61], [SOLIDUS], 6, [0x61, SOLIDUS]);
    OnePiece(s, 6, true, [0x61, SOLIDUS], [0x62], 7, [0x61, SOLIDUS, 0x62]);
    NameEnds(s, 7, true, [0x61, SOLIDUS, 0x62]);
    OneName(s, 1, true, [], [0x61, SOLIDUS, 0x62], 7, [[0x61, SOLIDUS, 0x62]]);
    AllTokens(s, true, [[0x61, SOLIDUS, 0x62]]);
  }

  lemma TwoTokens(d: bytes)
    requires d == [SOLIDUS, 0x61, SOLIDUS, 0x62]
    ensures TokensFrom(d, 0, false, []) == Tokens([[0x61], [0x62]])
  {
    hide NameFrom, TokensFrom;
    OnePiece(d, 1, false, [], [0x61], 2, [0x61]);
    NameEnds(d, 2, false, [0x61]);
    OneName(d, 0, false, [], [0x61], 2, [[0x61]]);
    OnePiece(d, 3, false, [], [0x62], 4, [0x62]);
    NameEnds(d, 4, false, [0x62]);
    OneName(d, 2, false, [[0x61]], [0x62], 4, [[0x61], [0x62]]);
    AllTokens(d, false, [[0x61], [0x62]]);
  }

  /** `#/~%30`: refused by the code, `~` for section 6. */
  lemma EncodedDigitInput(s: bytes)
    requires s == [HASH, SOLIDUS, TILDE, PERCENT, 0x33, 0x30]
    ensures Meaning(s) == Invalid(InvalidEscape, 3)
    ensures Section6(s) == Some([[TILDE]])
  {
    var d := Decoded(s, 1);
    assert Decoded(s, 6) == [] && IsFragment(s, 6);
    assert Decoded(s, 3) == [ZERO] && IsFragment(s, 3);
    assert Decoded(s, 2) == [TILDE, ZERO] && IsFragment(s, 2);
    assert d == [SOLIDUS, TILDE, ZERO] && IsFragment(s, 1);
    AsciiText(d, 0);
    assert NameFrom(s, 2, true, []) == Refused(InvalidEscape, 3);
    OnePiece(d, 1, false, [], [TILDE], 3, [TILDE]);
    NameEnds(d, 3, false, [TILDE]);
    OneName(d, 0, false, [], [TILDE], 3, [[TILDE]]);
    AllTokens(d, false, [[TILDE]]);
    hide Decoded, IsFragment, DecodeAll;
  }

  /** `#/a:b`: refused by the code, `a:b` for section 6. */
  lemma ReservedInput(s: bytes)
    requires s == [HASH, SOLIDUS, 0x61, COLON, 0x62]
    ensures Meaning(s) == Invalid(CharacterMustPercentEncode, 3)
    ensures Section6(s) == Some([[0x61, COLON, 0x62]])
  {
    ReservedDecoded(s);
    ReservedToken(Decoded(s, 1));
    OnePiece(s, 2, true, [], [0x61], 3, [0x61]);
    assert NameFrom(s, 3, true, [0x61]) == Refused(CharacterMustPercentEncode, 3);
    hide Decoded, IsFragment, DecodeAll;
  }

  lemma ReservedDecoded(s: bytes)
    requires s == [HASH, SOLIDUS, 0x61, COLON, 0x62]
    ensures Decoded(s, 1) == [SOLIDUS, 0x61, COLON, 0x62] && IsFragment(s, 1) && DecodeAll(Decoded(s, 1), 0).Some?
  {
    assert Decoded(s, 5) == [] && IsFragment(s, 5);
    assert Decoded(s, 4) == [0x62] && IsFragment(s, 4);
    assert Decoded(s, 3) == [COLON, 0x62] && IsFragment(s, 3);
    assert Decoded(s, 2) == [0x61, COLON, 0x62] && IsFragment(s, 2);
    AsciiText(Decoded(s, 1), 0);
  }

  lemma ReservedToken(d: bytes)
    requires d == [SOLIDUS, 0x61, COLON, 0x62]
    ensures TokensFrom(d, 0, false, []) == Tokens([[0x61, COLON, 0x62]])
  {
    hide NameFrom, TokensFrom;
    OnePiece(d, 1, false, [], [0x61], 2, [0x61]);
    OnePiece(d, 2, false, [0x61], [COLON], 3, [0x61, COLON]);
    OnePiece(d, 3, false, [0x61, COLON], [0x62], 4, [0x61, COLON, 0x62]);
    NameEnds(d, 4, false, [0x61, COLON, 0x62]);
    OneName(d, 0, false, [], [0x61, COLON, 0x62], 4, [[0x61, COLON, 0x62]]);
    AllTokens(d, false, [[0x61, COLON, 0x62]]);
  }

  /** `#%2Fa`: refused by the code, `a` for section 6. */
  lemma EncodedFirstInput(s: bytes)
    requires s == [HASH, PERCENT, 0x32, 0x46, 0x61]
    ensures Meaning(s) == Invalid(TokenMustBeginWithSolidus, 1)
    ensures Section6(s) == Some([[0x61]])
  {
    var d := Decoded(s, 1);
    assert Decoded(s, 5) == [] && IsFragment(s, 5);
    assert Decoded(s, 4) == [0x61] && IsFragment(s, 4);
    assert d == [SOLIDUS, 0x61] && IsFragment(s, 1);
    AsciiText(d, 0);
    OnePiece(d, 1, false, [], [0x61], 2, [0x61]);
    NameEnds(d, 2, false, [0x61]);
    OneName(d, 0, false, [], [0x61], 2, [[0x61]]);
    AllTokens(d, false, [[0x61]]);
    hide Decoded, IsFragment, DecodeAll;
  }
}
