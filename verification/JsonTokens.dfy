/** The tokens of a text: they alone decide what the reader does with it, and spaces between them change none. */
module JsonTokens {
  import opened Bytes
  import opened Events
  import opened Utf8
  import opened StringText
  import opened Numbers
  import opened Grammar
  import opened JsonStrings
  import opened JsonNumbers
  import opened JsonValues

  // ------------------------------------------------------------ tokens

  /** A bracket, a brace, a comma or a colon; a string, a number or a word; what begins as one of these but is none; the
      end of the text. */
  datatype Token =
    | Mark(mark: byte)
    | Whole(event: Event)
    | Flawed(quoted: bool, error: ParseError)
    | End

  datatype Lexeme = Lexeme(token: Token, next: nat)

  predicate IsMark(c: byte) {
    c == LBRACE || c == RBRACE || c == LBRACKET || c == RBRACKET || c == COMMA || c == COLON
  }

  /** The token that begins at `i`. */
  function TokenAt(t: bytes, i: nat, flags: Flags): (l: Lexeme)
    requires i <= |t|
    ensures l.token.Mark? || l.token.Whole? ==> i < l.next <= |t|
  {
    var c := Peek(t, i);
    if c == 0 then Lexeme(End, i)
    else if IsMark(c) then Lexeme(Mark(c), i + 1)
    else match Atom(t, i, flags, [])
      case Parsed(p, log) => Lexeme(Whole(if log == [] then NullEvent else log[|log| - 1]), p)
      case Failed(e, _) => Lexeme(Flawed(c == QUOTE, e), i)
  }

  /** All tokens from `i` on, up to the end or to the first that is none. */
  function Tokens(t: bytes, i: nat, flags: Flags): (ts: seq<Token>)
    requires i <= |t|
    ensures ts != []
    decreases |t| - i
  {
    var l := TokenAt(t, SkipSpace(t, i), flags);
    [l.token] + if l.token.Mark? || l.token.Whole? then Tokens(t, l.next, flags) else []
  }

  // ------------------------------------------------------------ the reader sees tokens only

  /** The same tokens follow in both texts. */
  predicate Same(t: bytes, i: nat, u: bytes, j: nat, flags: Flags) {
    i <= |t| && j <= |u| && Tokens(t, i, flags) == Tokens(u, j, flags)
  }

  /** The same error and events, or the same events and the same tokens to go. */
  predicate Alike(o: Outcome, r: Outcome, t: bytes, u: bytes, flags: Flags) {
    o.log == r.log &&
    match o
    case Failed(e, _) => r.Failed? && r.error == e
    case Parsed(p, _) => r.Parsed? && Same(t, p, u, r.pos, flags)
  }

  lemma NextToken(t: bytes, i: nat, u: bytes, j: nat, flags: Flags)
    requires Same(t, i, u, j, flags)
    ensures var a, b := SkipSpace(t, i), SkipSpace(u, j);
      && Same(t, a, u, b, flags) && TokenAt(t, a, flags).token == TokenAt(u, b, flags).token
      && (TokenAt(t, a, flags).token.Mark? || TokenAt(t, a, flags).token.Whole? ==>
        Same(t, TokenAt(t, a, flags).next, u, TokenAt(u, b, flags).next, flags))
  {
    var a, b := SkipSpace(t, i), SkipSpace(u, j);
    SkipSpaceTwice(t, i);
    SkipSpaceTwice(u, j);
    hide TokenAt, SkipSpace;
    assert Tokens(t, i, flags)[0] == TokenAt(t, a, flags).token;
    assert Tokens(u, j, flags)[0] == TokenAt(u, b, flags).token;
    if TokenAt(t, a, flags).token.Mark? || TokenAt(t, a, flags).token.Whole? {
      assert Tokens(t, i, flags)[1..] == Tokens(t, TokenAt(t, a, flags).next, flags);
      assert Tokens(u, j, flags)[1..] == Tokens(u, TokenAt(u, b, flags).next, flags);
    }
  }

  /** What the token tells about its first character. */
  lemma TokenHead(t: bytes, i: nat, flags: Flags)
    requires i <= |t|
    ensures var k, c := TokenAt(t, i, flags).token, Peek(t, i);
      && (k.Mark? <==> IsMark(c)) && (k.Mark? ==> k == Mark(c) && TokenAt(t, i, flags).next == i + 1)
      && (k.End? <==> c == 0)
      && (c == QUOTE <==> (k.Whole? && k.event.StringEvent?) || (k.Flawed? && k.quoted))
  {
    hide DecodeFrom, NumberAt;
    NumberIsNoString(t, i, flags);
  }

  lemma NumberIsNoString(t: bytes, i: nat, flags: Flags)
    requires i <= |t|
    ensures NumberAt(t, i, flags).GoodNumber? ==> !NumberAt(t, i, flags).event.StringEvent?
  {
    hide IntegerEnd, FractionEnd, ExponentEnd, DecimalValue;
  }

  /** Reading a value that is no container gives what the token says. */
  lemma AtomIsToken(t: bytes, i: nat, flags: Flags, log: seq<Event>)
    requires i <= |t|
    ensures Peek(t, i) == 0 || IsMark(Peek(t, i)) ==> Atom(t, i, flags, log) == Failed(ValueInvalid, log)
    ensures var l := TokenAt(t, i, flags);
      match l.token
      case Whole(event) => Atom(t, i, flags, log) == Parsed(l.next, log + [event])
      case Flawed(_, e) => Atom(t, i, flags, log) == Failed(e, log)
      case _ => true
  {
    hide DecodeFrom;
  }

  /** And so does reading a member's name. */
  lemma NameIsToken(t: bytes, i: nat, flags: Flags)
    requires i <= |t| && Peek(t, i) == QUOTE
    ensures i + 1 <= |t|
    ensures var l, d := TokenAt(t, i, flags), DecodeFrom(t, i + 1, flags.validateEncoding, []);
      match l.token
      case Whole(event) => event.StringEvent? && d == Good(event.str, l.next)
      case Flawed(_, e) => d == Bad(e)
      case _ => false
  {
    hide DecodeFrom, NumberAt;
  }

  /** How a value, and a member, go on behind their first token. */
  function ValueFrom(t: bytes, l: Lexeme, flags: Flags, log: seq<Event>): Outcome
    requires l.token.Mark? ==> l.next <= |t|
  {
    match l.token
    case Mark(c) =>
      if c == LBRACE then AfterBrace(t, l.next, flags, log + [StartObjectEvent])
      else if c == LBRACKET then AfterBracket(t, l.next, flags, log + [StartArrayEvent])
      else Failed(ValueInvalid, log)
    case Whole(event) => Parsed(l.next, log + [event])
    case Flawed(_, e) => Failed(e, log)
    case End => Failed(ValueInvalid, log)
  }

  function MembersFrom(t: bytes, l: Lexeme, flags: Flags, count: nat, log: seq<Event>): Outcome
    requires l.token.Whole? ==> l.next <= |t|
  {
    match l.token
    case Whole(event) =>
      if event.StringEvent? then AfterName(t, l.next, flags, count, log + [KeyEvent(event.str)])
      else Failed(ObjectMissName, log)
    case Flawed(quoted, e) => Failed(if quoted then e else ObjectMissName, log)
    case _ => Failed(ObjectMissName, log)
  }

  lemma ValueIsToken(t: bytes, i: nat, flags: Flags, log: seq<Event>)
    requires i <= |t|
    ensures Value(t, i, flags, log) == ValueFrom(t, TokenAt(t, i, flags), flags, log)
  {
    TokenHead(t, i, flags);
    AtomIsToken(t, i, flags, log);
    hide TokenAt, Atom, AfterBrace, AfterBracket;
  }

  lemma MembersIsToken(t: bytes, i: nat, flags: Flags, count: nat, log: seq<Event>)
    requires i <= |t|
    ensures Members(t, i, flags, count, log) == MembersFrom(t, TokenAt(t, i, flags), flags, count, log)
  {
    TokenHead(t, i, flags);
    if Peek(t, i) == QUOTE {
      NameIsToken(t, i, flags);
    }
    hide TokenAt, DecodeFrom, AfterName;
  }

  lemma BothFail(e: ParseError, log: seq<Event>, t: bytes, u: bytes, flags: Flags)
    ensures Alike(Failed(e, log), Failed(e, log), t, u, flags)
  {
  }

  lemma BothParse(p: nat, q: nat, log: seq<Event>, t: bytes, u: bytes, flags: Flags)
    requires Same(t, p, u, q, flags)
    ensures Alike(Parsed(p, log), Parsed(q, log), t, u, flags)
  {
    hide Same;
  }

  lemma WhatAlikeMeans(o: Outcome, r: Outcome, t: bytes, u: bytes, flags: Flags)
    requires Alike(o, r, t, u, flags)
    ensures o.log == r.log && (o.Failed? ==> r.Failed? && r.error == o.error)
    ensures o.Parsed? ==> r.Parsed? && o.pos <= |t| && r.pos <= |u| && Same(t, o.pos, u, r.pos, flags)
  {
    hide Tokens;
  }

  lemma Skipped(t: bytes, i: nat, u: bytes, j: nat, flags: Flags)
    requires Same(t, i, u, j, flags)
    ensures i <= |t| && j <= |u| && Same(t, SkipSpace(t, i), u, SkipSpace(u, j), flags)
  {
    NextToken(t, i, u, j, flags);
    hide Tokens, TokenAt, SkipSpace;
  }

  /** Two equal tokens. */
  lemma TokensMatch(t: bytes, i: nat, u: bytes, j: nat, flags: Flags)
    requires Same(t, i, u, j, flags) && !IsSpace(Peek(t, i)) && !IsSpace(Peek(u, j))
    ensures i <= |t| && j <= |u|
    ensures var l, m := TokenAt(t, i, flags), TokenAt(u, j, flags);
      l.token == m.token && (l.token.Mark? || l.token.Whole? ==> Same(t, l.next, u, m.next, flags))
  {
    NextToken(t, i, u, j, flags);
    hide Tokens, TokenAt, Peek, IsSpace;
  }

  lemma ValueAlike(t: bytes, i: nat, u: bytes, j: nat, flags: Flags, log: seq<Event>)
    requires Same(t, i, u, j, flags) && !IsSpace(Peek(t, i)) && !IsSpace(Peek(u, j))
    ensures i <= |t| && j <= |u| && Alike(Value(t, i, flags, log), Value(u, j, flags, log), t, u, flags)
    decreases |t| - i, 1
  {
    hide Same, Alike, TokenAt, Value, AfterBrace, AfterBracket, Peek, IsSpace, Tokens;
    TokensMatch(t, i, u, j, flags);
    ValueIsToken(t, i, flags, log);
    ValueIsToken(u, j, flags, log);
    var l, m := TokenAt(t, i, flags), TokenAt(u, j, flags);
    match l.token
    case Mark(c) =>
      if c == LBRACE {
        AfterBraceAlike(t, l.next, u, m.next, flags, log + [StartObjectEvent]);
      } else if c == LBRACKET {
        AfterBracketAlike(t, l.next, u, m.next, flags, log + [StartArrayEvent]);
      } else {
        BothFail(ValueInvalid, log, t, u, flags);
      }
    case Whole(event) => BothParse(l.next, m.next, log + [event], t, u, flags);
    case Flawed(_, e) => BothFail(e, log, t, u, flags);
    case End => BothFail(ValueInvalid, log, t, u, flags);
  }

  lemma MembersAlike(t: bytes, i: nat, u: bytes, j: nat, flags: Flags, count: nat, log: seq<Event>)
    requires Same(t, i, u, j, flags) && !IsSpace(Peek(t, i)) && !IsSpace(Peek(u, j))
    ensures i <= |t| && j <= |u|
    ensures Alike(Members(t, i, flags, count, log), Members(u, j, flags, count, log), t, u, flags)
    decreases |t| - i, 2
  {
    hide Same, Alike, TokenAt, Members, AfterName, Peek, IsSpace, Tokens;
    TokensMatch(t, i, u, j, flags);
    MembersIsToken(t, i, flags, count, log);
    MembersIsToken(u, j, flags, count, log);
    var l, m := TokenAt(t, i, flags), TokenAt(u, j, flags);
    if l.token.Whole? && l.token.event.StringEvent? {
      AfterNameAlike(t, l.next, u, m.next, flags, count, log + [KeyEvent(l.token.event.str)]);
    } else {
      BothFail(ObjectMissName, log, t, u, flags);
      if l.token.Flawed? {
        BothFail(l.token.error, log, t, u, flags);
      }
    }
  }

  /** Where a token is the mark, it is so in both texts. */
  lemma MarksMatch(t: bytes, i: nat, u: bytes, j: nat, flags: Flags, c: byte)
    requires Same(t, i, u, j, flags) && (IsMark(c) || c == 0)
    ensures i <= |t| && j <= |u|
    ensures var a, b := SkipSpace(t, i), SkipSpace(u, j);
      && Same(t, a, u, b, flags) && (Peek(t, a) == c <==> Peek(u, b) == c)
      && (Peek(t, a) == c != 0 ==> a < |t| && b < |u| && Same(t, a + 1, u, b + 1, flags))
  {
    var a, b := SkipSpace(t, i), SkipSpace(u, j);
    NextToken(t, i, u, j, flags);
    TokenHead(t, a, flags);
    TokenHead(u, b, flags);
    hide Tokens, TokenAt, SkipSpace;
  }

  lemma AfterBraceAlike(t: bytes, i: nat, u: bytes, j: nat, flags: Flags, log: seq<Event>)
    requires Same(t, i, u, j, flags)
    ensures i <= |t| && j <= |u|
    ensures Alike(AfterBrace(t, i, flags, log), AfterBrace(u, j, flags, log), t, u, flags)
    decreases |t| - i, 3
  {
    hide Same, Alike, SkipSpace, Members, Peek, IsSpace;
    MarksMatch(t, i, u, j, flags, RBRACE);
    var a, b := SkipSpace(t, i), SkipSpace(u, j);
    if Peek(t, a) == RBRACE {
      BothParse(a + 1, b + 1, log + [EndObjectEvent(0)], t, u, flags);
    } else {
      MembersAlike(t, a, u, b, flags, 0, log);
    }
  }

  lemma AfterNameAlike(t: bytes, i: nat, u: bytes, j: nat, flags: Flags, count: nat, log: seq<Event>)
    requires Same(t, i, u, j, flags)
    ensures i <= |t| && j <= |u|
    ensures Alike(AfterName(t, i, flags, count, log), AfterName(u, j, flags, count, log), t, u, flags)
    decreases |t| - i, 3
  {
    hide Same, Alike, SkipSpace, AfterColon, Peek, IsSpace;
    MarksMatch(t, i, u, j, flags, COLON);
    var a, b := SkipSpace(t, i), SkipSpace(u, j);
    if Peek(t, a) == COLON {
      AfterColonAlike(t, a + 1, u, b + 1, flags, count, log);
    } else {
      BothFail(ObjectMissColon, log, t, u, flags);
    }
  }

  lemma AfterColonAlike(t: bytes, i: nat, u: bytes, j: nat, flags: Flags, count: nat, log: seq<Event>)
    requires Same(t, i, u, j, flags)
    ensures i <= |t| && j <= |u|
    ensures Alike(AfterColon(t, i, flags, count, log), AfterColon(u, j, flags, count, log), t, u, flags)
    decreases |t| - i, 2
  {
    hide Same, Alike, SkipSpace, Value, AfterMember, Peek, IsSpace;
    Skipped(t, i, u, j, flags);
    var a, b := SkipSpace(t, i), SkipSpace(u, j);
    ValueAlike(t, a, u, b, flags, log);
    var o, r := Value(t, a, flags, log), Value(u, b, flags, log);
    WhatAlikeMeans(o, r, t, u, flags);
    if o.Parsed? {
      AfterMemberAlike(t, o.pos, u, r.pos, flags, count + 1, o.log);
    } else {
      BothFail(o.error, o.log, t, u, flags);
    }
  }

  lemma AfterMemberAlike(t: bytes, i: nat, u: bytes, j: nat, flags: Flags, count: nat, log: seq<Event>)
    requires Same(t, i, u, j, flags)
    ensures i <= |t| && j <= |u|
    ensures Alike(AfterMember(t, i, flags, count, log), AfterMember(u, j, flags, count, log), t, u, flags)
    decreases |t| - i, 2
  {
    hide Same, Alike, SkipSpace, AfterMemberComma, Peek, IsSpace;
    MarksMatch(t, i, u, j, flags, COMMA);
    MarksMatch(t, i, u, j, flags, RBRACE);
    var a, b := SkipSpace(t, i), SkipSpace(u, j);
    if Peek(t, a) == COMMA {
      AfterMemberCommaAlike(t, a + 1, u, b + 1, flags, count, log);
    } else if Peek(t, a) == RBRACE {
      BothParse(a + 1, b + 1, log + [EndObjectEvent(count)], t, u, flags);
    } else {
      BothFail(ObjectMissCommaOrCurlyBracket, log, t, u, flags);
    }
  }

  lemma AfterMemberCommaAlike(t: bytes, i: nat, u: bytes, j: nat, flags: Flags, count: nat, log: seq<Event>)
    requires Same(t, i, u, j, flags)
    ensures i <= |t| && j <= |u|
    ensures Alike(AfterMemberComma(t, i, flags, count, log), AfterMemberComma(u, j, flags, count, log), t, u, flags)
    decreases |t| - i, 3
  {
    hide Same, Alike, SkipSpace, Members, Peek, IsSpace;
    MarksMatch(t, i, u, j, flags, RBRACE);
    var a, b := SkipSpace(t, i), SkipSpace(u, j);
    if flags.trailingCommas && Peek(t, a) == RBRACE {
      BothParse(a + 1, b + 1, log + [EndObjectEvent(count)], t, u, flags);
    } else {
      MembersAlike(t, a, u, b, flags, count, log);
    }
  }

  lemma AfterBracketAlike(t: bytes, i: nat, u: bytes, j: nat, flags: Flags, log: seq<Event>)
    requires Same(t, i, u, j, flags)
    ensures i <= |t| && j <= |u|
    ensures Alike(AfterBracket(t, i, flags, log), AfterBracket(u, j, flags, log), t, u, flags)
    decreases |t| - i, 3
  {
    hide Same, Alike, SkipSpace, Elements, Peek, IsSpace;
    MarksMatch(t, i, u, j, flags, RBRACKET);
    var a, b := SkipSpace(t, i), SkipSpace(u, j);
    if Peek(t, a) == RBRACKET {
      BothParse(a + 1, b + 1, log + [EndArrayEvent(0)], t, u, flags);
    } else {
      ElementsAlike(t, a, u, b, flags, 0, log);
    }
  }

  lemma ElementsAlike(t: bytes, i: nat, u: bytes, j: nat, flags: Flags, count: nat, log: seq<Event>)
    requires Same(t, i, u, j, flags) && !IsSpace(Peek(t, i)) && !IsSpace(Peek(u, j))
    ensures i <= |t| && j <= |u|
    ensures Alike(Elements(t, i, flags, count, log), Elements(u, j, flags, count, log), t, u, flags)
    decreases |t| - i, 2
  {
    hide Same, Alike, Value, AfterElement, Peek, IsSpace;
    ValueAlike(t, i, u, j, flags, log);
    var o, r := Value(t, i, flags, log), Value(u, j, flags, log);
    WhatAlikeMeans(o, r, t, u, flags);
    if o.Parsed? {
      AfterElementAlike(t, o.pos, u, r.pos, flags, count + 1, o.log);
    } else {
      BothFail(o.error, o.log, t, u, flags);
    }
  }

  lemma AfterElementAlike(t: bytes, i: nat, u: bytes, j: nat, flags: Flags, count: nat, log: seq<Event>)
    requires Same(t, i, u, j, flags)
    ensures i <= |t| && j <= |u|
    ensures Alike(AfterElement(t, i, flags, count, log), AfterElement(u, j, flags, count, log), t, u, flags)
    decreases |t| - i, 2
  {
    hide Same, Alike, SkipSpace, AfterElementComma, Peek, IsSpace;
    MarksMatch(t, i, u, j, flags, COMMA);
    MarksMatch(t, i, u, j, flags, RBRACKET);
    var a, b := SkipSpace(t, i), SkipSpace(u, j);
    if Peek(t, a) == COMMA {
      AfterElementCommaAlike(t, a + 1, u, b + 1, flags, count, log);
    } else if Peek(t, a) == RBRACKET {
      BothParse(a + 1, b + 1, log + [EndArrayEvent(count)], t, u, flags);
    } else {
      BothFail(ArrayMissCommaOrSquareBracket, log, t, u, flags);
    }
  }

  lemma AfterElementCommaAlike(t: bytes, i: nat, u: bytes, j: nat, flags: Flags, count: nat, log: seq<Event>)
    requires Same(t, i, u, j, flags)
    ensures i <= |t| && j <= |u|
    ensures Alike(AfterElementComma(t, i, flags, count, log), AfterElementComma(u, j, flags, count, log), t, u, flags)
    decreases |t| - i, 3
  {
    hide Same, Alike, SkipSpace, Elements, Peek, IsSpace;
    MarksMatch(t, i, u, j, flags, RBRACKET);
    var a, b := SkipSpace(t, i), SkipSpace(u, j);
    if flags.trailingCommas && Peek(t, a) == RBRACKET {
      BothParse(a + 1, b + 1, log + [EndArrayEvent(count)], t, u, flags);
    } else {
      ElementsAlike(t, a, u, b, flags, count, log);
    }
  }

  lemma AfterRootAlike(t: bytes, i: nat, u: bytes, j: nat, flags: Flags, log: seq<Event>)
    requires Same(t, i, u, j, flags)
    ensures i <= |t| && j <= |u|
    ensures Alike(AfterRoot(t, i, flags, log), AfterRoot(u, j, flags, log), t, u, flags)
  {
    hide Same, Alike, SkipSpace, Peek, IsSpace;
    MarksMatch(t, i, u, j, flags, 0);
    var a, b := SkipSpace(t, i), SkipSpace(u, j);
    BothFail(DocumentRootNotSingular, log, t, u, flags);
    BothParse(i, j, log, t, u, flags);
    BothParse(a, b, log, t, u, flags);
  }

  /** Texts with the same tokens have the same events and the same error, or none. */
  lemma TokensDecide(t: bytes, u: bytes, flags: Flags)
    requires Tokens(t, 0, flags) == Tokens(u, 0, flags)
    ensures Alike(Document(t, flags), Document(u, flags), t, u, flags)
  {
    assert Same(t, 0, u, 0, flags);
    hide Same, Alike, Tokens, SkipSpace, Value, AfterRoot, Peek, IsSpace;
    MarksMatch(t, 0, u, 0, flags, 0);
    var a, b := SkipSpace(t, 0), SkipSpace(u, 0);
    BothFail(DocumentEmpty, [], t, u, flags);
    if Peek(t, a) != 0 {
      ValueAlike(t, a, u, b, flags, []);
      var o, r := Value(t, a, flags, []), Value(u, b, flags, []);
      WhatAlikeMeans(o, r, t, u, flags);
      if o.Parsed? {
        AfterRootAlike(t, o.pos, u, r.pos, flags, o.log);
      } else {
        BothFail(o.error, o.log, t, u, flags);
      }
    }
  }

  // ------------------------------------------------------------ texts that agree

  predicate SamePeek(t: bytes, i: nat, u: bytes, j: nat, x: nat) {
    Peek(t, i + x) == Peek(u, j + x)
  }

  /** The `n` characters from `i` on and the one behind them are those from `j` on. */
  predicate Agree(t: bytes, i: nat, u: bytes, j: nat, n: nat) {
    forall x :: 0 <= x <= n ==> SamePeek(t, i, u, j, x)
  }

  lemma AgreeFrom(t: bytes, i: nat, u: bytes, j: nat, n: nat, x: nat)
    requires Agree(t, i, u, j, n) && x <= n
    ensures Agree(t, i + x, u, j + x, n - x)
  {
    var a, b := i + x, j + x;
    forall y | 0 <= y <= n - x
      ensures SamePeek(t, a, u, b, y)
    {
      assert SamePeek(t, i, u, j, x + y);
    }
  }

  lemma AgreeAt(t: bytes, i: nat, u: bytes, j: nat, n: nat, x: nat)
    requires Agree(t, i, u, j, n) && x <= n
    ensures Peek(t, i + x) == Peek(u, j + x)
  {
    assert SamePeek(t, i, u, j, x);
  }

  /** The rest of `t` from `i` on is the rest of `u` from `j` on. */
  predicate Rest(t: bytes, i: nat, u: bytes, j: nat) {
    i <= |t| && j <= |u| && t[i..] == u[j..]
  }

  lemma RestFrom(t: bytes, i: nat, u: bytes, j: nat, x: nat)
    requires Rest(t, i, u, j) && i + x <= |t|
    ensures Rest(t, i + x, u, j + x)
  {
    assert t[i + x..] == t[i..][x..] && u[j + x..] == u[j..][x..];
  }

  lemma RestAgrees(t: bytes, i: nat, u: bytes, j: nat, n: nat)
    requires Rest(t, i, u, j)
    ensures Agree(t, i, u, j, n) && |t| - i == |u| - j
  {
    forall x | 0 <= x <= n
      ensures SamePeek(t, i, u, j, x)
    {
      if i + x < |t| {
        assert t[i..][x] == u[j..][x];
      }
    }
  }

  // ------------------------------------------------------------ numbers

  lemma DigitsAgree(t: bytes, i: nat, u: bytes, j: nat, n: nat)
    requires Agree(t, i, u, j, n) && DigitsEnd(t, i) <= i + n
    ensures DigitsEnd(u, j) == DigitsEnd(t, i) - i + j
  {
    var m := DigitsEnd(t, i) - i;
    forall k | j <= k < j + m
      ensures IsDigit(Peek(u, k))
    {
      AgreeAt(t, i, u, j, n, k - j);
    }
    AgreeAt(t, i, u, j, n, m);
    DigitsEndIs(u, j, j + m);
  }

  lemma IntegerAgrees(t: bytes, i: nat, u: bytes, j: nat, n: nat)
    requires Agree(t, i, u, j, n) && (IntegerEnd(t, i).Some? ==> IntegerEnd(t, i).value <= i + n)
    ensures IntegerEnd(u, j) == match IntegerEnd(t, i) case None => None case Some(k) => Some(k - i + j)
  {
    AgreeAt(t, i, u, j, n, 0);
    if IsDigit(Peek(t, i)) && Peek(t, i) != ZERO {
      DigitsAgree(t, i, u, j, n);
    }
    hide DigitsEnd;
  }

  function Moved(s: Scan, i: nat, j: nat): Scan
    requires s.Range? ==> s.end >= i
  {
    match s
    case Stop(e) => Stop(e)
    case Range(end, isDouble) => Range(end - i + j, isDouble)
  }

  lemma FractionAgrees(t: bytes, i: nat, u: bytes, j: nat, n: nat)
    requires Agree(t, i, u, j, n)
    requires match FractionEnd(t, i) case Stop(_) => n > 0 case Range(end, _) => end <= i + n
    ensures FractionEnd(u, j) == Moved(FractionEnd(t, i), i, j)
  {
    AgreeAt(t, i, u, j, n, 0);
    if Peek(t, i) == DOT && n > 0 {
      AgreeAt(t, i, u, j, n, 1);
      AgreeFrom(t, i, u, j, n, 1);
      if IsDigit(Peek(t, i + 1)) {
        DigitsAgree(t, i + 1, u, j + 1, n - 1);
      }
    }
    hide DigitsEnd;
  }

  lemma ExponentAgrees(t: bytes, i: nat, u: bytes, j: nat, n: nat)
    requires Agree(t, i, u, j, n)
    requires match ExponentEnd(t, i) case Stop(_) => n > 1 case Range(end, _) => end <= i + n
    ensures ExponentEnd(u, j) == Moved(ExponentEnd(t, i), i, j)
  {
    hide DigitsEnd, Agree;
    AgreeAt(t, i, u, j, n, 0);
    if Peek(t, i) == 0x65 || Peek(t, i) == 0x45 {
      AgreeAt(t, i, u, j, n, 1);
      var d := if Peek(t, i + 1) == PLUS || Peek(t, i + 1) == MINUS then 2 else 1;
      AgreeAt(t, i, u, j, n, d);
      AgreeFrom(t, i, u, j, n, d);
      if IsDigit(Peek(t, i + d)) {
        DigitsAgree(t, i + d, u, j + d, n - d);
      }
    }
  }

  lemma {:induction false} ValueAgrees(t: bytes, i: nat, u: bytes, j: nat, m: nat)
    requires Agree(t, i, u, j, m) && forall k :: i <= k < i + m ==> IsDigit(Peek(t, k))
    ensures forall k :: j <= k < j + m ==> IsDigit(Peek(u, k))
    ensures DecimalValue(t, i, i + m) == DecimalValue(u, j, j + m)
    decreases m
  {
    forall k | j <= k < j + m
      ensures IsDigit(Peek(u, k))
    {
      AgreeAt(t, i, u, j, m, k - j);
    }
    if m > 0 {
      AgreeAt(t, i, u, j, m, m - 1);
      ValueAgrees(t, i, u, j, m - 1);
    }
  }

  lemma AgreeLess(t: bytes, i: nat, u: bytes, j: nat, n: nat, m: nat)
    requires Agree(t, i, u, j, n) && m <= n
    ensures Agree(t, i, u, j, m)
  {
  }

  lemma SlicesAgree(t: bytes, i: nat, u: bytes, j: nat, n: nat)
    requires Agree(t, i, u, j, n) && i + n <= |t| && j + n <= |u|
    ensures t[i..i + n] == u[j..j + n]
  {
    var a, b := t[i..i + n], u[j..j + n];
    forall x | 0 <= x < n
      ensures a[x] == b[x]
    {
      AgreeAt(t, i, u, j, n, x);
    }
  }

  /** Which parts of a number are there, and where they end. */
  datatype Extent =
    | NoNumber
    | NoFraction
    | NoExponent
    | Parted(integer: nat, end: nat, double: bool)

  function SignAt(t: bytes, i: nat): (a: nat)
    ensures a <= 1
  {
    if Peek(t, i) == MINUS then 1 else 0
  }

  /** The ends, counted from `i`. */
  function ExtentOf(t: bytes, i: nat): (x: Extent)
    ensures Inside(t, i, x)
  {
    match IntegerEnd(t, i + SignAt(t, i))
    case None => NoNumber
    case Some(k) =>
      match FractionEnd(t, k)
      case Stop(_) => NoFraction
      case Range(m, frac) =>
        match ExponentEnd(t, m)
        case Stop(_) => NoExponent
        case Range(e, exp) => Parted(k - i, e - i, frac || exp)
  }

  predicate Inside(t: bytes, i: nat, x: Extent) {
    x.Parted? ==>
      SignAt(t, i) <= x.integer <= x.end && i + x.end <= |t| &&
      forall y :: i + SignAt(t, i) <= y < i + x.integer ==> IsDigit(Peek(t, y))
  }

  /** The number that has these parts. */
  function NumberFor(t: bytes, i: nat, x: Extent, flags: Flags): (n: Number)
    requires Inside(t, i, x)
    ensures n.GoodNumber? ==> x.Parted? && n.next == i + x.end
  {
    match x
    case NoNumber => BadNumber(ValueInvalid)
    case NoFraction => BadNumber(NumberMissFraction)
    case NoExponent => BadNumber(NumberMissExponent)
    case Parted(k, e, double) =>
      var integer := IntegerEvent(SignAt(t, i) == 1, DecimalValue(t, i + SignAt(t, i), i + k));
      if !double && integer.Some? then GoodNumber(integer.value, i + e)
      else if flags.tooBig(t[i..i + e]) then BadNumber(NumberTooBig)
      else GoodNumber(DoubleEvent(t[i..i + e]), i + e)
  }

  lemma NumberByExtent(t: bytes, i: nat, flags: Flags)
    requires i <= |t|
    ensures NumberAt(t, i, flags) == NumberFor(t, i, ExtentOf(t, i), flags)
  {
    hide IntegerEnd, FractionEnd, ExponentEnd, DecimalValue, IntegerEvent, Inside;
    StopErrors(t);
  }

  lemma StopErrors(t: bytes)
    ensures forall k: nat :: FractionEnd(t, k).Stop? ==> FractionEnd(t, k).error == NumberMissFraction
    ensures forall k: nat :: ExponentEnd(t, k).Stop? ==> ExponentEnd(t, k).error == NumberMissExponent
  {
  }

  /** As far as the ends reach, the common characters and the one behind them decide. */
  lemma ExtentMoves(t: bytes, i: nat, u: bytes, j: nat, n: nat)
    requires Agree(t, i, u, j, n) && i <= |t|
    requires match ExtentOf(t, i) case Parted(_, e, _) => e <= n case _ => i + n >= |t| + 2
    ensures ExtentOf(u, j) == ExtentOf(t, i)
  {
    hide Agree, IntegerEnd, FractionEnd, ExponentEnd, Peek, Inside;
    AgreeAt(t, i, u, j, n, 0);
    SignMoves(t, i, u, j);
    var a := SignAt(t, i);
    AgreeFrom(t, i, u, j, n, a);
    IntegerAgrees(t, i + a, u, j + a, n - a);
    if IntegerEnd(t, i + a).Some? {
      var k := IntegerEnd(t, i + a).value - i;
      AgreeFrom(t, i, u, j, n, k);
      FractionAgrees(t, i + k, u, j + k, n - k);
      if FractionEnd(t, i + k).Range? {
        var m := FractionEnd(t, i + k).end - i;
        AgreeFrom(t, i, u, j, n, m);
        ExponentAgrees(t, i + m, u, j + m, n - m);
      }
    }
  }

  lemma SignMoves(t: bytes, i: nat, u: bytes, j: nat)
    requires Peek(t, i) == Peek(u, j)
    ensures SignAt(t, i) == SignAt(u, j)
  {
  }

  function MovedNumber(n: Number, i: nat, j: nat): Number
    requires n.GoodNumber? ==> n.next >= i
  {
    match n
    case BadNumber(e) => BadNumber(e)
    case GoodNumber(event, next) => GoodNumber(event, next - i + j)
  }

  lemma NumberForMoves(t: bytes, i: nat, u: bytes, j: nat, x: Extent, flags: Flags)
    requires Inside(t, i, x) && Inside(u, j, x) && (x.Parted? ==> Agree(t, i, u, j, x.end))
    ensures NumberFor(u, j, x, flags) == MovedNumber(NumberFor(t, i, x, flags), i, j)
  {
    hide Agree, DecimalValue, IntegerEvent, Peek, SignAt;
    if x.Parted? {
      AgreeAt(t, i, u, j, x.end, 0);
      SignMoves(t, i, u, j);
      var a := SignAt(t, i);
      AgreeFrom(t, i, u, j, x.end, a);
      AgreeLess(t, i + a, u, j + a, x.end - a, x.integer - a);
      ValueAgrees(t, i + a, u, j + a, x.integer - a);
      SlicesAgree(t, i, u, j, x.end);
    }
  }

  /** A number that the common characters and the one behind them decide. */
  lemma NumberAgrees(t: bytes, i: nat, u: bytes, j: nat, n: nat, flags: Flags)
    requires i <= |t| && j + n <= |u| && NumberAt(t, i, flags).GoodNumber? && NumberAt(t, i, flags).next == i + n
    requires Agree(t, i, u, j, n)
    ensures NumberAt(u, j, flags) == GoodNumber(NumberAt(t, i, flags).event, j + n)
  {
    hide Agree, NumberAt, NumberFor, ExtentOf, Inside;
    NumberByExtent(t, i, flags);
    NumberByExtent(u, j, flags);
    ExtentMoves(t, i, u, j, n);
    NumberForMoves(t, i, u, j, ExtentOf(t, i), flags);
  }

  /** A number that is refused, in front of the same rest. */
  lemma BadNumberMoves(t: bytes, i: nat, u: bytes, j: nat, flags: Flags)
    requires Rest(t, i, u, j) && NumberAt(t, i, flags).BadNumber?
    ensures NumberAt(u, j, flags) == NumberAt(t, i, flags)
  {
    RestAgrees(t, i, u, j, |t| + 2);
    NumberByExtent(t, i, flags);
    NumberByExtent(u, j, flags);
    var x := ExtentOf(t, i);
    assert x.Parted? ==> x.end <= |t|;
    hide Agree, NumberAt, NumberFor, ExtentOf, Inside;
    if x.Parted? {
      AgreeLess(t, i, u, j, |t| + 2, x.end);
    }
    ExtentMoves(t, i, u, j, |t| + 2);
    NumberForMoves(t, i, u, j, x, flags);
  }

  // ------------------------------------------------------------ strings

  lemma Hex4Moves(t: bytes, i: nat, u: bytes, j: nat)
    requires forall x :: 0 <= x < 4 ==> SamePeek(t, i, u, j, x)
    ensures Hex4(u, j) == Hex4(t, i)
  {
    assert SamePeek(t, i, u, j, 0) && SamePeek(t, i, u, j, 1) && SamePeek(t, i, u, j, 2) && SamePeek(t, i, u, j, 3);
    Hex4Digits(t, i);
    Hex4Digits(u, j);
    hide HexValue, Hex4;
  }

  lemma LengthMoves(t: bytes, i: nat, u: bytes, j: nat)
    requires Rest(t, i, u, j)
    ensures CharLength(u, j) == CharLength(t, i)
  {
    RestSlice(t, i, u, j, 1);
    RestSlice(t, i, u, j, 2);
    RestSlice(t, i, u, j, 3);
    RestSlice(t, i, u, j, 4);
    hide WellFormed, Rest;
  }

  lemma RestSlice(t: bytes, i: nat, u: bytes, j: nat, n: nat)
    requires Rest(t, i, u, j)
    ensures i + n <= |t| <==> j + n <= |u|
    ensures i + n <= |t| ==> t[i..i + n] == u[j..j + n]
  {
    assert |t[i..]| == |u[j..]|;
    if i + n <= |t| {
      assert t[i..i + n] == t[i..][..n] && u[j..j + n] == u[j..][..n];
    }
  }

  /** A step of the string scanner that fails, in front of the same rest. */
  lemma FailMoves(t: bytes, i: nat, u: bytes, j: nat, validate: bool)
    requires Rest(t, i, u, j) && UnitAt(t, i, validate).Fail?
    ensures UnitAt(u, j, validate) == UnitAt(t, i, validate)
  {
    RestAgrees(t, i, u, j, 12);
    LengthMoves(t, i, u, j);
    assert SamePeek(t, i, u, j, 0) && SamePeek(t, i, u, j, 1);
    if Peek(t, i) == BACKSLASH && EscapeChar(Peek(t, i + 1)) == 0 && Peek(t, i + 1) == LETTER_U {
      EscapeMoves(t, i, u, j);
    }
    hide CharLength, UnicodeEscape;
  }

  lemma EscapeMoves(t: bytes, i: nat, u: bytes, j: nat)
    requires Rest(t, i, u, j) && UnicodeEscape(t, i).Fail?
    ensures UnicodeEscape(u, j) == UnicodeEscape(t, i)
  {
    RestAgrees(t, i, u, j, 12);
    AgreeFrom(t, i, u, j, 12, 2);
    AgreeFrom(t, i, u, j, 12, 8);
    AgreeAt(t, i, u, j, 12, 6);
    AgreeAt(t, i, u, j, 12, 7);
    Hex4Moves(t, i + 2, u, j + 2);
    Hex4Moves(t, i + 8, u, j + 8);
    hide Hex4, Agree, Rest, Encode, Peek;
  }

  lemma {:induction false} BadStringMoves(t: bytes, i: nat, u: bytes, j: nat, validate: bool, acc: bytes)
    requires Rest(t, i, u, j) && DecodeFrom(t, i, validate, acc).Bad?
    ensures DecodeFrom(u, j, validate, acc) == DecodeFrom(t, i, validate, acc)
    decreases |t| - i
  {
    hide UnitAt, Written, Meaning, Allowed, At;
    if UnitAt(t, i, validate).Put? {
      var s := UnitIsSpelling(t, i, validate);
      SpellingMoves(t, i, u, j, Written(s));
      SpellingIsUnit(u, j, s, validate);
      RestFrom(t, i, u, j, |Written(s)|);
      BadStringMoves(t, i + |Written(s)|, u, j + |Written(s)|, validate, acc + Meaning(s));
    } else {
      FailMoves(t, i, u, j, validate);
    }
  }

  lemma SpellingMoves(t: bytes, i: nat, u: bytes, j: nat, s: bytes)
    requires Rest(t, i, u, j) && At(t, i, s)
    ensures At(u, j, s)
  {
    assert t[i..][..|s|] == u[j..][..|s|];
    assert t[i..i + |s|] == t[i..][..|s|] && u[j..j + |s|] == u[j..][..|s|];
  }

  lemma GoodStringMoves(t: bytes, i: nat, u: bytes, j: nat, validate: bool, n: nat)
    requires i <= |t| && DecodeFrom(t, i, validate, []).Good? && DecodeFrom(t, i, validate, []).next == i + n
    requires j + n <= |u| && t[i..i + n] == u[j..j + n]
    ensures DecodeFrom(u, j, validate, []) == Good(DecodeFrom(t, i, validate, []).text, j + n)
  {
    hide DecodeFrom, WrittenAll, MeaningAll, AllAllowed;
    var ss := ReadIsString(t, i, validate, []);
    StringIsRead(u, j, ss, validate, []);
  }

  // ------------------------------------------------------------ tokens in other places

  lemma WordMoves(t: bytes, i: nat, u: bytes, j: nat)
    requires Rest(t, i, u, j)
    ensures At(t, i, NULL_WORD) <==> At(u, j, NULL_WORD)
    ensures At(t, i, TRUE_WORD) <==> At(u, j, TRUE_WORD)
    ensures At(t, i, FALSE_WORD) <==> At(u, j, FALSE_WORD)
  {
    RestSlice(t, i, u, j, 4);
    RestSlice(t, i, u, j, 5);
    hide Rest;
  }

  /** A token in front of the same rest. */
  lemma TokenMoves(t: bytes, i: nat, u: bytes, j: nat, flags: Flags)
    requires Rest(t, i, u, j) && i <= |t| && j <= |u|
    ensures var l, m := TokenAt(t, i, flags), TokenAt(u, j, flags); l.token == m.token && l.next - i == m.next - j
  {
    hide Agree, Rest, DecodeFrom, NumberAt, At, Peek;
    RestAgrees(t, i, u, j, 0);
    AgreeAt(t, i, u, j, 0, 0);
    var c := Peek(t, i);
    if c == QUOTE {
      QuoteMoves(t, i, u, j, flags);
    } else if c == 0x6E || c == 0x74 || c == 0x66 {
      WordMoves(t, i, u, j);
    } else if c != 0 && !IsMark(c) {
      NumberMoves(t, i, u, j, flags);
    }
  }

  lemma QuoteMoves(t: bytes, i: nat, u: bytes, j: nat, flags: Flags)
    requires Rest(t, i, u, j) && Peek(t, i) == QUOTE
    ensures i + 1 <= |t| && j + 1 <= |u|
    ensures match DecodeFrom(t, i + 1, flags.validateEncoding, [])
      case Bad(e) => DecodeFrom(u, j + 1, flags.validateEncoding, []) == Bad(e)
      case Good(s, next) => DecodeFrom(u, j + 1, flags.validateEncoding, []) == Good(s, next - i + j)
  {
    RestSlice(t, i, u, j, 1);
    RestFrom(t, i, u, j, 1);
    var d := DecodeFrom(t, i + 1, flags.validateEncoding, []);
    if d.Bad? {
      BadStringMoves(t, i + 1, u, j + 1, flags.validateEncoding, []);
    } else {
      var n := d.next - (i + 1);
      RestSlice(t, i + 1, u, j + 1, n);
      GoodStringMoves(t, i + 1, u, j + 1, flags.validateEncoding, n);
    }
    hide DecodeFrom, Rest;
  }

  lemma NumberMoves(t: bytes, i: nat, u: bytes, j: nat, flags: Flags)
    requires Rest(t, i, u, j)
    ensures match NumberAt(t, i, flags)
      case BadNumber(e) => NumberAt(u, j, flags) == BadNumber(e)
      case GoodNumber(event, next) => NumberAt(u, j, flags) == GoodNumber(event, next - i + j)
  {
    var d := NumberAt(t, i, flags);
    if d.BadNumber? {
      BadNumberMoves(t, i, u, j, flags);
    } else {
      var n := d.next - i;
      RestSlice(t, i, u, j, n);
      RestAgrees(t, i, u, j, n);
      NumberAgrees(t, i, u, j, n, flags);
    }
    hide NumberAt, Rest, Agree;
  }

  /** All tokens in front of the same rest. */
  lemma {:induction false} TokensMove(t: bytes, i: nat, u: bytes, j: nat, flags: Flags)
    requires Rest(t, i, u, j)
    ensures Tokens(u, j, flags) == Tokens(t, i, flags)
    decreases |t| - i
  {
    hide Rest, TokenAt;
    SkipMoves(t, i, u, j);
    var a, b := SkipSpace(t, i), SkipSpace(u, j);
    RestFrom(t, i, u, j, a - i);
    TokenMoves(t, a, u, b, flags);
    var l := TokenAt(t, a, flags);
    if l.token.Mark? || l.token.Whole? {
      RestFrom(t, a, u, b, l.next - a);
      TokensMove(t, l.next, u, TokenAt(u, b, flags).next, flags);
    }
  }

  lemma {:induction false} SkipIs(t: bytes, i: nat, j: nat)
    requires i <= j <= |t| && !IsSpace(Peek(t, j)) && forall k :: i <= k < j ==> IsSpace(Peek(t, k))
    ensures SkipSpace(t, i) == j
    decreases j - i
  {
    if i < j {
      SkipIs(t, i + 1, j);
    }
  }

  lemma SkipMoves(t: bytes, i: nat, u: bytes, j: nat)
    requires Rest(t, i, u, j)
    ensures SkipSpace(t, i) - i == SkipSpace(u, j) - j
  {
    var n := SkipSpace(t, i) - i;
    RestAgrees(t, i, u, j, n);
    forall k | j <= k < j + n
      ensures IsSpace(Peek(u, k))
    {
      AgreeAt(t, i, u, j, n, k - j);
    }
    AgreeAt(t, i, u, j, n, n);
    SkipIs(u, j, j + n);
    hide Agree, Rest, IsSpace, SkipSpace;
  }

  lemma SliceAgrees(t: bytes, i: nat, u: bytes, n: nat)
    requires i + n <= |t| && i + n <= |u| && t[i..i + n] == u[i..i + n] && Peek(u, i + n) == Peek(t, i + n)
    ensures Agree(t, i, u, i, n)
  {
    forall x | 0 <= x <= n
      ensures SamePeek(t, i, u, i, x)
    {
      assert x < n ==> t[i..i + n][x] == u[i..i + n][x];
    }
  }

  lemma NotTooBig(t: bytes, i: nat, flags: Flags)
    requires i <= |t| && NumberAt(t, i, flags).GoodNumber? && NumberAt(t, i, flags).event.DoubleEvent?
    ensures !flags.tooBig(t[i..NumberAt(t, i, flags).next])
  {
    hide IntegerEnd, FractionEnd, ExponentEnd, DecimalValue;
  }

  lemma SpaceEndsNumber(t: bytes, i: nat, u: bytes, n: nat, flags: Flags)
    requires i + n <= |t| && i + n <= |u| && t[i..i + n] == u[i..i + n] && IsSpace(Peek(u, i + n))
    requires NumberAt(t, i, flags).GoodNumber? && NumberAt(t, i, flags).next == i + n
    ensures NumberAt(u, i, flags) == NumberAt(t, i, flags)
  {
    hide NumberAt, IsNumber, EventOf;
    ReadIsNumber(t, i, flags);
    NumberIsRead(u, i, t[i..i + n], flags);
    if NumberAt(t, i, flags).event.DoubleEvent? {
      NotTooBig(t, i, flags);
    }
  }

  lemma NumberStays(t: bytes, i: nat, u: bytes, n: nat, flags: Flags)
    requires i + n <= |t| && i + n <= |u| && t[i..i + n] == u[i..i + n]
    requires NumberAt(t, i, flags).GoodNumber? && NumberAt(t, i, flags).next == i + n
    requires Peek(u, i + n) == Peek(t, i + n) || IsSpace(Peek(u, i + n))
    ensures NumberAt(u, i, flags) == NumberAt(t, i, flags)
  {
    hide NumberAt, Agree, Peek, IsSpace;
    if Peek(u, i + n) == Peek(t, i + n) {
      SliceAgrees(t, i, u, n);
      NumberAgrees(t, i, u, i, n, flags);
    } else {
      SpaceEndsNumber(t, i, u, n, flags);
    }
  }

  lemma StringStays(t: bytes, i: nat, u: bytes, n: nat, flags: Flags)
    requires 0 < n && i + n <= |t| && i + n <= |u| && t[i..i + n] == u[i..i + n]
    requires var d := DecodeFrom(t, i + 1, flags.validateEncoding, []); d.Good? && d.next == i + n
    ensures DecodeFrom(u, i + 1, flags.validateEncoding, []) == DecodeFrom(t, i + 1, flags.validateEncoding, [])
  {
    hide DecodeFrom;
    SliceOfSlice(t, i, i + n, 1, n);
    SliceOfSlice(u, i, i + n, 1, n);
    GoodStringMoves(t, i + 1, u, i + 1, flags.validateEncoding, n - 1);
  }

  /** A token stays when its characters do, and the next character does or is a space. */
  lemma TokenStays(t: bytes, i: nat, u: bytes, n: nat, flags: Flags)
    requires 0 < n && i + n <= |t| && i + n <= |u| && t[i..i + n] == u[i..i + n]
    requires TokenAt(t, i, flags).token.Mark? || TokenAt(t, i, flags).token.Whole?
    requires TokenAt(t, i, flags).next == i + n
    requires Peek(u, i + n) == Peek(t, i + n) || IsSpace(Peek(u, i + n))
    ensures TokenAt(u, i, flags) == TokenAt(t, i, flags)
  {
    var c := Peek(t, i);
    assert c == Peek(u, i) by {
      assert t[i..i + n][0] == u[i..i + n][0];
    }
    if c == QUOTE {
      StringStays(t, i, u, n, flags);
    } else if c != 0x6E && c != 0x74 && c != 0x66 && !IsMark(c) {
      NumberStays(t, i, u, n, flags);
    }
    hide DecodeFrom, NumberAt, Peek, IsSpace;
  }

  // ------------------------------------------------------------ added spaces

  /** Position `k` is not inside a token. */
  predicate Boundary(t: bytes, i: nat, k: nat, flags: Flags)
    requires i <= |t|
    decreases |t| - i
  {
    i <= k &&
    (k <= SkipSpace(t, i) ||
     (var l := TokenAt(t, SkipSpace(t, i), flags);
      (l.token.Mark? || l.token.Whole?) && l.next <= k && Boundary(t, l.next, k, flags)))
  }

  /** `u` is `t` with the spaces `s` at `k`. */
  predicate Spaced(t: bytes, k: nat, s: bytes, u: bytes) {
    k <= |t| && Spaces(s) && u == t[..k] + s + t[k..]
  }

  lemma SpacedSlice(t: bytes, k: nat, s: bytes, u: bytes, i: nat, m: nat)
    requires Spaced(t, k, s, u) && i <= m <= k
    ensures m <= |u| && t[i..m] == u[i..m] && (Peek(u, m) == Peek(t, m) || IsSpace(Peek(u, m)))
  {
  }

  lemma SpacedRest(t: bytes, k: nat, s: bytes, u: bytes, m: nat)
    requires Spaced(t, k, s, u) && k <= m <= |t|
    ensures Rest(t, m, u, m + |s|) && Peek(u, m + |s|) == Peek(t, m)
  {
  }

  lemma SpacedSkip(t: bytes, i: nat, k: nat, s: bytes, u: bytes)
    requires Spaced(t, k, s, u) && i <= k
    ensures i <= |u|
    ensures SkipSpace(u, i) == if k <= SkipSpace(t, i) then SkipSpace(t, i) + |s| else SkipSpace(t, i)
  {
    var a := SkipSpace(t, i);
    if k <= a {
      forall m | i <= m < a + |s|
        ensures IsSpace(Peek(u, m))
      {
        if m < k {
          assert Peek(u, m) == Peek(t, m);
        } else if m < k + |s| {
          assert Peek(u, m) == s[m - k];
        } else {
          assert Peek(u, m) == Peek(t, m - |s|);
        }
      }
      SpacedRest(t, k, s, u, a);
      SkipIs(u, i, a + |s|);
    } else {
      forall m | i <= m <= a
        ensures Peek(u, m) == Peek(t, m)
      {
      }
      SkipIs(u, i, a);
    }
    hide SkipSpace, IsSpace;
  }

  lemma TokensSkip(t: bytes, i: nat, flags: Flags)
    requires i <= |t|
    ensures Tokens(t, i, flags) == Tokens(t, SkipSpace(t, i), flags)
  {
    SkipSpaceTwice(t, i);
    hide TokenAt, SkipSpace;
  }

  /** Spaces that are added between tokens change none. */
  lemma {:induction false} SpacesAdded(t: bytes, i: nat, k: nat, s: bytes, u: bytes, flags: Flags)
    requires Spaced(t, k, s, u) && i <= |t| && Boundary(t, i, k, flags)
    ensures i <= |u| && Tokens(u, i, flags) == Tokens(t, i, flags)
    decreases |t| - i
  {
    hide Spaced, TokenAt, SkipSpace, Peek, IsSpace, Rest;
    var a := SkipSpace(t, i);
    SpacedSkip(t, i, k, s, u);
    if k <= a {
      TokensSkip(t, i, flags);
      TokensSkip(u, i, flags);
      SpacedRest(t, k, s, u, a);
      TokensMove(t, a, u, a + |s|, flags);
    } else {
      var next := TokenAt(t, a, flags).next;
      SpacedSlice(t, k, s, u, a, next);
      TokenStays(t, a, u, next - a, flags);
      SpacesAdded(t, next, k, s, u, flags);
    }
  }

  /** Space characters that are added anywhere between two tokens of any text leave events and error as they are. */
  lemma SpacesChangeNothing(t: bytes, k: nat, s: bytes, flags: Flags)
    requires k <= |t| && Boundary(t, 0, k, flags) && Spaces(s)
    ensures var o, r := Document(t, flags), Document(t[..k] + s + t[k..], flags);
      o.log == r.log && (o.Parsed? <==> r.Parsed?) && (o.Failed? ==> o.error == r.error)
  {
    var u := t[..k] + s + t[k..];
    hide Document, Boundary, Tokens, Spaces;
    SpacesAdded(t, 0, k, s, u, flags);
    TokensDecide(t, u, flags);
  }
}
