/** The recursive-descent parser. */
module Reader {
  import opened Bytes
  import opened Streams
  import opened Events
  import opened StringText
  import opened StringReader
  import opened Numbers
  import opened Grammar

  /** A handler that records its events and never aborts the parse. */
  class Handler {
    var log: seq<Event>

    constructor ()
      ensures log == []
    {
      log := [];
    }

    method Emit(e: Event)
      modifies this
      ensures log == old(log) + [e]
    {
      log := log + [e];
    }
  }

  /** The parser has stopped with error `err`, or at `pos`, as outcome `o` says. */
  ghost predicate Reached(o: Outcome, err: ParseError, pos: nat, log: seq<Event>) {
    match o
    case Parsed(p, l) => err == NoError && pos == p && log == l
    case Failed(e, l) => err == e && err != NoError && log == l
  }

  method SkipWhitespace(s: StringStream)
    requires s.src <= |s.text|
    modifies s
    ensures s.src == SkipSpace(s.text, old(s.src))
  {
    while IsSpace(s.Peek())
      invariant s.src <= |s.text|
      invariant SkipSpace(s.text, s.src) == SkipSpace(s.text, old(s.src))
      decreases |s.text| - s.src
    {
      var _ := s.Take();
    }
  }

  /** `null`, `true` and `false`: the first letter has been seen, the others are consumed one by one. */
  method ParseWord(s: StringStream, h: Handler, word: bytes, event: Event) returns (err: ParseError)
    requires s.src < |s.text| && word != [] && s.text[s.src] == word[0]
    requires forall k :: 0 <= k < |word| ==> word[k] != 0
    modifies s, h
    ensures Reached(Word(s.text, old(s.src), word, event, old(h.log)), err, s.src, h.log)
  {
    ghost var i := s.src;
    var _ := s.Take();
    for k := 1 to |word|
      invariant s.src == i + k <= |s.text|
      invariant s.text[i..i + k] == word[0..k]
      invariant h.log == old(h.log)
    {
      var found := Consume(s, word[k]);
      if !found {
        AtHas(s.text, i, word, k);
        return ValueInvalid;
      }
      SplitLast(s.text, i, i + k);
      SplitLast(word, 0, k);
    }
    assert word[0..|word|] == word;
    h.Emit(event);
    return NoError;
  }

  method ParseString(s: StringStream, h: Handler, flags: Flags, isKey: bool) returns (err: ParseError)
    requires s.src < |s.text| && s.text[s.src] == QUOTE
    modifies s, h
    ensures match DecodeFrom(s.text, old(s.src) + 1, flags.validateEncoding, [])
      case Bad(e) => Reached(Failed(e, old(h.log)), err, s.src, h.log)
      case Good(str, next) =>
        Reached(Parsed(next, old(h.log) + [if isKey then KeyEvent(str) else StringEvent(str)]), err, s.src, h.log)
  {
    var _ := s.Take();
    var o := new OutputStream();
    err := ParseStringToStream(s, o, flags.validateEncoding);
    if err != NoError {
      return;
    }
    var str := o.out[..|o.out| - 1];
    assert match DecodeFrom(s.text, old(s.src) + 1, flags.validateEncoding, [])
      case Good(t, _) => o.out == [] + t + [0] && str == t
      case Bad(_) => false;
    h.Emit(if isKey then KeyEvent(str) else StringEvent(str));
  }

  method ParseAtom(s: StringStream, h: Handler, flags: Flags) returns (err: ParseError)
    requires s.src <= |s.text|
    modifies s, h
    ensures Reached(Atom(s.text, old(s.src), flags, old(h.log)), err, s.src, h.log)
  {
    hide DecodeFrom, NumberAt, Word;
    var c := s.Peek();
    if c == 0x6E {
      err := ParseWord(s, h, NULL_WORD, NullEvent);
    } else if c == 0x74 {
      err := ParseWord(s, h, TRUE_WORD, BoolEvent(true));
    } else if c == 0x66 {
      err := ParseWord(s, h, FALSE_WORD, BoolEvent(false));
    } else if c == QUOTE {
      err := ParseString(s, h, flags, false);
    } else {
      var event;
      err, event := ParseNumber(s, flags);
      if err == NoError {
        h.Emit(event);
      }
    }
  }

  method ParseValue(s: StringStream, h: Handler, flags: Flags) returns (err: ParseError)
    requires s.src <= |s.text|
    modifies s, h
    ensures Reached(Value(s.text, old(s.src), flags, old(h.log)), err, s.src, h.log)
    decreases |s.text| - s.src, 1
  {
    hide Atom, AfterBrace, AfterBracket;
    if s.Peek() == LBRACE {
      err := ParseObject(s, h, flags);
    } else if s.Peek() == LBRACKET {
      err := ParseArray(s, h, flags);
    } else {
      err := ParseAtom(s, h, flags);
    }
  }

  /** What follows a member: the end of the object, an error, or the next member. */
  method ParseMemberEnd(s: StringStream, h: Handler, flags: Flags, memberCount: nat)
    returns (done: bool, err: ParseError)
    requires s.src <= |s.text|
    modifies s, h
    ensures done ==>
      Reached(AfterMember(s.text, old(s.src), flags, memberCount, old(h.log)), err, s.src, h.log)
    ensures !done ==> old(s.src) < s.src <= |s.text|
    ensures !done ==>
      Members(s.text, s.src, flags, memberCount, h.log) ==
      AfterMember(s.text, old(s.src), flags, memberCount, old(h.log))
    decreases |s.text| - s.src, 0
  {
    hide Members;
    SkipWhitespace(s);
    if s.Peek() == COMMA {
      var _ := s.Take();
      SkipWhitespace(s);
    } else if s.Peek() == RBRACE {
      var _ := s.Take();
      h.Emit(EndObjectEvent(memberCount));
      return true, NoError;
    } else {
      return true, ObjectMissCommaOrCurlyBracket;
    }
    if flags.trailingCommas {
      if s.Peek() == RBRACE {
        h.Emit(EndObjectEvent(memberCount));
        var _ := s.Take();
        return true, NoError;
      }
    }
    return false, NoError;
  }


  method ParseObject(s: StringStream, h: Handler, flags: Flags) returns (err: ParseError)
    requires s.src < |s.text| && s.text[s.src] == LBRACE
    modifies s, h
    ensures Reached(AfterBrace(s.text, old(s.src) + 1, flags, old(h.log) + [StartObjectEvent]), err, s.src, h.log)
    decreases |s.text| - s.src, 0
  {
    hide Value, Members;
    ghost var i := s.src;
    ghost var whole := AfterBrace(s.text, i + 1, flags, h.log + [StartObjectEvent]);
    var _ := s.Take();
    h.Emit(StartObjectEvent);
    SkipWhitespace(s);
    var empty := Consume(s, RBRACE);
    if empty {
      h.Emit(EndObjectEvent(0));
      return NoError;
    }
    var memberCount := 0;
    var done := false;
    assert Members(s.text, s.src, flags, memberCount, h.log) == whole;
    hide AfterBrace, AfterMember, AfterMemberComma;
    while true
      invariant i < s.src <= |s.text|
      invariant Members(s.text, s.src, flags, memberCount, h.log) == whole
      decreases |s.text| - s.src
    {
      err := ParseMember(s, h, flags, memberCount);
      if err != NoError {
        return;
      }
      memberCount := memberCount + 1;
      done, err := ParseMemberEnd(s, h, flags, memberCount);
      if done {
        return;
      }
    }
  }

  /** One `name : value` of an object: the head of the member loop. */
  method ParseMember(s: StringStream, h: Handler, flags: Flags, ghost count: nat) returns (err: ParseError)
    requires s.src <= |s.text|
    modifies s, h
    ensures err != NoError ==> Reached(Members(s.text, old(s.src), flags, count, old(h.log)), err, s.src, h.log)
    ensures err == NoError ==> old(s.src) < s.src <= |s.text|
    ensures err == NoError ==>
      Members(s.text, old(s.src), flags, count, old(h.log)) == AfterMember(s.text, s.src, flags, count + 1, h.log)
    decreases |s.text| - s.src, 2
  {
    hide Value, DecodeFrom, AfterMember;
    ghost var whole := Members(s.text, s.src, flags, count, h.log);
    if s.Peek() != QUOTE {
      return ObjectMissName;
    }
    err := ParseString(s, h, flags, true);
    if err != NoError {
      return;
    }
    assert AfterName(s.text, s.src, flags, count, h.log) == whole;
    SkipWhitespace(s);
    var colon := Consume(s, COLON);
    if !colon {
      return ObjectMissColon;
    }
    assert AfterColon(s.text, s.src, flags, count, h.log) == whole;
    SkipWhitespace(s);
    err := ParseValue(s, h, flags);
  }

  method ParseArray(s: StringStream, h: Handler, flags: Flags) returns (err: ParseError)
    requires s.src < |s.text| && s.text[s.src] == LBRACKET
    modifies s, h
    ensures Reached(AfterBracket(s.text, old(s.src) + 1, flags, old(h.log) + [StartArrayEvent]), err, s.src, h.log)
    decreases |s.text| - s.src, 0
  {
    hide Value;
    ghost var i := s.src;
    ghost var whole := AfterBracket(s.text, i + 1, flags, h.log + [StartArrayEvent]);
    var _ := s.Take();
    h.Emit(StartArrayEvent);
    SkipWhitespace(s);
    var empty := Consume(s, RBRACKET);
    if empty {
      h.Emit(EndArrayEvent(0));
      return NoError;
    }
    var elementCount := 0;
    var done := false;
    assert Elements(s.text, s.src, flags, elementCount, h.log) == whole;
    hide AfterBracket, AfterElement, AfterElementComma;
    while true
      invariant i < s.src <= |s.text|
      invariant Elements(s.text, s.src, flags, elementCount, h.log) == whole
      decreases |s.text| - s.src
    {
      err := ParseValue(s, h, flags);
      if err != NoError {
        return;
      }
      elementCount := elementCount + 1;
      done, err := ParseElementEnd(s, h, flags, elementCount);
      if done {
        return;
      }
    }
  }

  /** What follows an element: the tail of the element loop. */
  method ParseElementEnd(s: StringStream, h: Handler, flags: Flags, elementCount: nat)
    returns (done: bool, err: ParseError)
    requires s.src <= |s.text|
    modifies s, h
    ensures done ==>
      Reached(AfterElement(s.text, old(s.src), flags, elementCount, old(h.log)), err, s.src, h.log)
    ensures !done ==> old(s.src) < s.src <= |s.text|
    ensures !done ==>
      Elements(s.text, s.src, flags, elementCount, h.log) ==
      AfterElement(s.text, old(s.src), flags, elementCount, old(h.log))
    decreases |s.text| - s.src, 0
  {
    hide Elements;
    SkipWhitespace(s);
    var comma := Consume(s, COMMA);
    if comma {
      SkipWhitespace(s);
    } else {
      var close := Consume(s, RBRACKET);
      if close {
        h.Emit(EndArrayEvent(elementCount));
        return true, NoError;
      }
      return true, ArrayMissCommaOrSquareBracket;
    }
    if flags.trailingCommas {
      if s.Peek() == RBRACKET {
        h.Emit(EndArrayEvent(elementCount));
        var _ := s.Take();
        return true, NoError;
      }
    }
    return false, NoError;
  }

  /** Parses a document by recursive descent. */
  method Parse(s: StringStream, h: Handler, flags: Flags) returns (err: ParseError)
    requires s.src == 0 && h.log == []
    modifies s, h
    ensures Reached(Document(s.text, flags), err, s.src, h.log)
  {
    hide Value;
    SkipWhitespace(s);
    if s.Peek() == 0 {
      return DocumentEmpty;
    }
    err := ParseValue(s, h, flags);
    if err != NoError {
      return;
    }
    if !flags.stopWhenDone {
      SkipWhitespace(s);
      if s.Peek() != 0 {
        return DocumentRootNotSingular;
      }
    }
  }
}
