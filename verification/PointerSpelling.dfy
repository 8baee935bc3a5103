/** The texts of a JSON pointer, spelled out byte by byte from RFC 6901 and RFC 3986. */
module PointerSpelling {
  import opened Bytes
  import opened Utf8
  import opened StringText
  import opened PointerText
  import opened PointerFragment
  import JsonWriting

  /** Section 3 of RFC 6901, and behind `#` what section 6 does to its bytes: only unreserved characters stay. */
  function SpelledByte(c: byte, uriFragment: bool): bytes {
    if c == 0x7E then [0x7E, 0x30]
    else if c == 0x2F then [0x7E, 0x31]
    else if !uriFragment || Unreserved(c) then [c]
    else [0x25, JsonWriting.UpperDigit(c / 0x10), JsonWriting.UpperDigit(c % 0x10)]
  }

  function SpelledName(name: bytes, uriFragment: bool): bytes {
    if name == [] then [] else SpelledByte(name[0], uriFragment) + SpelledName(name[1..], uriFragment)
  }

  /** Every name after its solidus. */
  function SpelledNames(names: seq<bytes>, uriFragment: bool): bytes {
    if names == [] then [] else [0x2F] + SpelledName(names[0], uriFragment) + SpelledNames(names[1..], uriFragment)
  }

  function Spelled(names: seq<bytes>, uriFragment: bool): bytes {
    if uriFragment then [0x23] + SpelledNames(names, true) else SpelledNames(names, false)
  }

  lemma TripletIsSpelled(c: byte)
    requires c != 0x7E && c != 0x2F && !Unreserved(c)
    ensures Triplet(c) == SpelledByte(c, true)
  {
  }

  /** The bytes of a character that must be encoded become triplets, each of them. */
  lemma {:induction false} TripletsAreSpelled(p: bytes)
    requires forall k :: 0 <= k < |p| ==> p[k] != 0x7E && p[k] != 0x2F && !Unreserved(p[k])
    ensures PercentEncoded(p) == SpelledName(p, true)
  {
    hide SpelledByte, Triplet, Unreserved;
    if p != [] {
      TripletIsSpelled(p[0]);
      TripletsAreSpelled(p[1..]);
    }
  }

  lemma CharacterIsEncoded(p: bytes)
    requires WellFormed(p) && p[0] != 0x7E && p[0] != 0x2F && !Unreserved(p[0])
    ensures forall k :: 0 <= k < |p| ==> p[k] != 0x7E && p[k] != 0x2F && !Unreserved(p[k])
  {
  }

  lemma {:induction false} SpelledConcat(a: bytes, b: bytes, uriFragment: bool)
    ensures SpelledName(a + b, uriFragment) == SpelledName(a, uriFragment) + SpelledName(b, uriFragment)
  {
    hide SpelledByte;
    if a == [] {
      assert a + b == b;
    } else {
      SpelledConcat(a[1..], b, uriFragment);
      assert (a + b)[1..] == a[1..] + b;
      Associative(SpelledByte(a[0], uriFragment), SpelledName(a[1..], uriFragment), SpelledName(b, uriFragment));
    }
  }

  lemma {:induction false} NameIsSpelled(name: bytes, j: nat, uriFragment: bool)
    requires j <= |name| && Written(name, j, uriFragment).Some?
    ensures Written(name, j, uriFragment).value == SpelledName(name[j..], uriFragment)
    decreases |name| - j
  {
    hide Written, SpelledByte, SpelledName, CharLength, PercentEncoded, WellFormed;
    if j == |name| {
      NothingSpelled(name, uriFragment);
    } else {
      OneWritten(name, j, uriFragment);
      NeedIffNotUnreserved(name[j]);
      var encoded := uriFragment && name[j] != 0x7E && name[j] != 0x2F && !Unreserved(name[j]);
      var n := if encoded then CharLength(name, j) else 1;
      NameIsSpelled(name, j + n, uriFragment);
      PieceIsSpelled(name, j, n, uriFragment);
      SpelledConcat(name[j..j + n], name[j + n..], uriFragment);
      assert name[j..] == name[j..j + n] + name[j + n..];
    }
  }

  lemma NothingSpelled(name: bytes, uriFragment: bool)
    ensures Written(name, |name|, uriFragment) == Some(SpelledName(name[|name|..], uriFragment))
  {
  }

  lemma PieceIsSpelled(name: bytes, j: nat, n: nat, uriFragment: bool)
    requires j < |name| && n == if uriFragment && name[j] != 0x7E && name[j] != 0x2F && !Unreserved(name[j])
      then CharLength(name, j) else 1
    requires n != 0
    ensures j + n <= |name|
    ensures var c := name[j];
      SpelledName(name[j..j + n], uriFragment) ==
      if c == 0x7E then [0x7E, 0x30] else if c == 0x2F then [0x7E, 0x31]
      else if uriFragment && !Unreserved(c) then PercentEncoded(name[j..j + n]) else [c]
  {
    var p := name[j..j + n];
    assert p[0] == name[j];
    if uriFragment && name[j] != 0x7E && name[j] != 0x2F && !Unreserved(name[j]) {
      CharacterIsEncoded(p);
      TripletsAreSpelled(p);
    } else {
      OneSpelled(p, uriFragment);
    }
    hide SpelledName, WellFormed, CharLength, Unreserved;
  }

  lemma OneSpelled(p: bytes, uriFragment: bool)
    requires |p| == 1
    ensures SpelledName(p, uriFragment) == SpelledByte(p[0], uriFragment)
  {
    assert p[1..] == [];
    hide SpelledByte;
  }

  lemma {:induction false} NamesAreSpelled(names: seq<bytes>, uriFragment: bool)
    requires WrittenAll(names, uriFragment).Some?
    ensures WrittenAll(names, uriFragment).value == SpelledNames(names, uriFragment)
  {
    hide Written, SpelledName;
    if names != [] {
      NameIsSpelled(names[0], 0, uriFragment);
      assert names[0][0..] == names[0];
      NamesAreSpelled(names[1..], uriFragment);
    }
  }

  /** What is written is spelled as the standards say, as a string and as a URI fragment. */
  lemma TextIsSpelled(names: seq<bytes>, uriFragment: bool)
    requires Text(names, uriFragment).Some?
    ensures Text(names, uriFragment).value == Spelled(names, uriFragment)
  {
    NamesAreSpelled(names, uriFragment);
  }

  // ------------------------------------------------------------ a fragment of RFC 3986

  lemma ByteIsFragment(s: bytes, i: nat, c: byte)
    requires At(s, i, SpelledByte(c, true))
    ensures IsFragment(s, i) <==> IsFragment(s, i + |SpelledByte(c, true)|)
  {
    var p := SpelledByte(c, true);
    AtPeek(s, i, p, 0);
    AtPeek(s, i, p, |p| - 1);
    if |p| == 3 {
      AtPeek(s, i, p, 1);
    }
  }

  lemma {:induction false} NameIsFragment(s: bytes, i: nat, name: bytes)
    requires At(s, i, SpelledName(name, true))
    ensures i + |SpelledName(name, true)| <= |s|
    ensures IsFragment(s, i) <==> IsFragment(s, i + |SpelledName(name, true)|)
    decreases |name|
  {
    hide SpelledByte, IsFragment;
    if name != [] {
      var p := SpelledByte(name[0], true);
      AtConcat(s, i, p, SpelledName(name[1..], true));
      ByteIsFragment(s, i, name[0]);
      NameIsFragment(s, i + |p|, name[1..]);
    }
  }

  lemma SolidusIsFragment(s: bytes, i: nat)
    requires At(s, i, [0x2F])
    ensures i + 1 <= |s| && (IsFragment(s, i) <==> IsFragment(s, i + 1))
  {
    AtPeek(s, i, [0x2F], 0);
  }

  lemma EndIsFragment(s: bytes)
    ensures IsFragment(s, |s|)
  {
  }

  lemma {:induction false} NamesAreFragment(s: bytes, i: nat, names: seq<bytes>)
    requires At(s, i, SpelledNames(names, true)) && i + |SpelledNames(names, true)| == |s|
    ensures IsFragment(s, i)
    decreases |names|
  {
    hide SpelledName, IsFragment, At;
    if names == [] {
      EndIsFragment(s);
    } else {
      var p := SpelledName(names[0], true);
      AtConcat(s, i, [0x2F] + p, SpelledNames(names[1..], true));
      AtConcat(s, i, [0x2F], p);
      SolidusIsFragment(s, i);
      NameIsFragment(s, i + 1, names[0]);
      NamesAreFragment(s, i + 1 + |p|, names[1..]);
    }
  }

  /** What is written behind `#` is a fragment of RFC 3986, whatever the names are. */
  lemma TextIsFragment(names: seq<bytes>)
    requires Text(names, true).Some?
    ensures var s := Text(names, true).value; s != [] && s[0] == 0x23 && IsFragment(s, 1)
  {
    TextIsSpelled(names, true);
    var s := Text(names, true).value;
    assert s[1..1 + |SpelledNames(names, true)|] == SpelledNames(names, true);
    NamesAreFragment(s, 1, names);
    hide IsFragment;
  }
}
