/** The grammar of RFC 8259 with every space and every spelling in it, and that the reader accepts exactly its texts. */
module JsonValues {
  import opened Bytes
  import opened Events
  import opened StringText
  import opened Numbers
  import opened Grammar
  import opened JsonStrings
  import opened JsonNumbers

  // ------------------------------------------------------------ the grammar

  /** A JSON value as it is written. A trailing comma is no JSON; the reader has an option for it. */
  datatype Term =
    | NullTerm
    | TrueTerm
    | FalseTerm
    | NumberTerm(digits: bytes)
    | StringTerm(chars: seq<Spelling>)
    | EmptyArray(space: bytes)
    | ArrayTerm(space: bytes, first: Term, after: bytes, elements: ElementList)
    | EmptyObject(space: bytes)
    | ObjectTerm(space: bytes, pair: NameValue, members: MemberList)

  /** A member's name, the spaces around the colon, its value and the space behind it. */
  datatype NameValue = NameValue(name: seq<Spelling>, before: bytes, behind: bytes, value: Term, after: bytes)

  datatype ElementList =
    | NoElement
    | Element(space: bytes, value: Term, after: bytes, elements: ElementList)
    | ElementComma(space: bytes)

  datatype MemberList =
    | NoMember
    | OneMember(space: bytes, pair: NameValue, members: MemberList)
    | MemberComma(space: bytes)

  /** Section 2 of RFC 8259: space, tab, line feed, carriage return. */
  predicate Space(c: byte) {
    c == 0x20 || c == 0x09 || c == 0x0A || c == 0x0D
  }

  predicate Spaces(s: bytes) {
    forall k :: 0 <= k < |s| ==> Space(s[k])
  }

  function Quotes(chars: seq<Spelling>): bytes {
    [0x22] + (WrittenAll(chars) + [0x22])
  }

  /** The text of a value. */
  function Spell(v: Term): bytes {
    match v
    case NullTerm => [0x6E, 0x75, 0x6C, 0x6C]
    case TrueTerm => [0x74, 0x72, 0x75, 0x65]
    case FalseTerm => [0x66, 0x61, 0x6C, 0x73, 0x65]
    case NumberTerm(digits) => digits
    case StringTerm(chars) => Quotes(chars)
    case EmptyArray(space) => [0x5B] + (space + [0x5D])
    case ArrayTerm(space, first, after, elements) =>
      [0x5B] + (space + (Spell(first) + (after + SpellElements(elements))))
    case EmptyObject(space) => [0x7B] + (space + [0x7D])
    case ObjectTerm(space, first, members) => [0x7B] + (space + (SpellPair(first) + SpellMembers(members)))
  }

  function SpellElements(e: ElementList): bytes {
    match e
    case NoElement => [0x5D]
    case Element(space, value, after, elements) => [0x2C] + (space + (Spell(value) + (after + SpellElements(elements))))
    case ElementComma(space) => [0x2C] + (space + [0x5D])
  }

  function SpellPair(p: NameValue): bytes {
    Quotes(p.name) + (p.before + ([0x3A] + (p.behind + (Spell(p.value) + p.after))))
  }

  function SpellMembers(m: MemberList): bytes {
    match m
    case NoMember => [0x7D]
    case OneMember(space, pair, members) => [0x2C] + (space + (SpellPair(pair) + SpellMembers(members)))
    case MemberComma(space) => [0x2C] + (space + [0x7D])
  }

  // ------------------------------------------------------------ what is allowed

  ghost predicate IsString(chars: seq<Spelling>, flags: Flags) {
    AllAllowed(chars, flags.validateEncoding)
  }

  /** A number of RFC 8259 that is no double too big for its type. */
  ghost predicate IsNumeral(digits: bytes, flags: Flags) {
    IsNumber(digits) && digits != [] && !(EventOf(digits).DoubleEvent? && flags.tooBig(digits))
  }

  ghost predicate IsTerm(v: Term, flags: Flags) {
    match v
    case NumberTerm(digits) => IsNumeral(digits, flags)
    case StringTerm(chars) => IsString(chars, flags)
    case EmptyArray(space) => Spaces(space)
    case ArrayTerm(space, first, after, elements) =>
      Spaces(space) && IsTerm(first, flags) && Spaces(after) && AreElements(elements, flags)
    case EmptyObject(space) => Spaces(space)
    case ObjectTerm(space, first, members) => Spaces(space) && IsPair(first, flags) && AreMembers(members, flags)
    case _ => true
  }

  ghost predicate AreElements(e: ElementList, flags: Flags) {
    match e
    case NoElement => true
    case Element(space, value, after, elements) =>
      Spaces(space) && IsTerm(value, flags) && Spaces(after) && AreElements(elements, flags)
    case ElementComma(space) => flags.trailingCommas && Spaces(space)
  }

  ghost predicate IsPair(p: NameValue, flags: Flags) {
    IsString(p.name, flags) && Spaces(p.before) && Spaces(p.behind) && IsTerm(p.value, flags) && Spaces(p.after)
  }

  ghost predicate AreMembers(m: MemberList, flags: Flags) {
    match m
    case NoMember => true
    case OneMember(space, pair, members) => Spaces(space) && IsPair(pair, flags) && AreMembers(members, flags)
    case MemberComma(space) => flags.trailingCommas && Spaces(space)
  }

  // ------------------------------------------------------------ what it says

  /** The events of a value, whatever spaces and spellings it is written with. */
  function Says(v: Term, log: seq<Event>): seq<Event> {
    match v
    case NullTerm => log + [NullEvent]
    case TrueTerm => log + [BoolEvent(true)]
    case FalseTerm => log + [BoolEvent(false)]
    case NumberTerm(digits) => log + [if digits == [] then NullEvent else EventOf(digits)]
    case StringTerm(chars) => log + [StringEvent(MeaningAll(chars))]
    case EmptyArray(_) => log + [StartArrayEvent] + [EndArrayEvent(0)]
    case ArrayTerm(_, first, _, elements) => ElementsSay(elements, 1, Says(first, log + [StartArrayEvent]))
    case EmptyObject(_) => log + [StartObjectEvent] + [EndObjectEvent(0)]
    case ObjectTerm(_, first, members) => MembersSay(members, 1, PairSays(first, log + [StartObjectEvent]))
  }

  function ElementsSay(e: ElementList, count: nat, log: seq<Event>): seq<Event> {
    match e
    case NoElement => log + [EndArrayEvent(count)]
    case Element(_, value, _, elements) => ElementsSay(elements, count + 1, Says(value, log))
    case ElementComma(_) => log + [EndArrayEvent(count)]
  }

  function PairSays(p: NameValue, log: seq<Event>): seq<Event> {
    Says(p.value, log + [KeyEvent(MeaningAll(p.name))])
  }

  function MembersSay(m: MemberList, count: nat, log: seq<Event>): seq<Event> {
    match m
    case NoMember => log + [EndObjectEvent(count)]
    case OneMember(_, pair, members) => MembersSay(members, count + 1, PairSays(pair, log))
    case MemberComma(_) => log + [EndObjectEvent(count)]
  }

  // ------------------------------------------------------------ spaces and heads

  /** What may stand behind a number without making it longer. */
  predicate Stops(c: byte) {
    !(0x30 <= c <= 0x39) && c != 0x2E && c != 0x65 && c != 0x45
  }

  lemma SpacesSkipped(t: bytes, i: nat, s: bytes)
    requires Spaces(s) && At(t, i, s) && !Space(Peek(t, i + |s|))
    ensures i <= |t| && SkipSpace(t, i) == i + |s|
    decreases |s|
  {
    if s != [] {
      AtConcat(t, i, [s[0]], s[1..]);
      assert s == [s[0]] + s[1..];
      AtPeek(t, i, s, 0);
      SpacesSkipped(t, i + 1, s[1..]);
    }
  }

  lemma SkippedSpaces(t: bytes, i: nat)
    requires i <= |t|
    ensures Spaces(t[i..SkipSpace(t, i)]) && At(t, i, t[i..SkipSpace(t, i)])
  {
    var j := SkipSpace(t, i);
    forall k | 0 <= k < j - i
      ensures Space(t[i..j][k])
    {
      assert IsSpace(Peek(t, i + k));
    }
  }

  /** Where a space, or what cannot follow one, begins. */
  lemma SpacesStop(t: bytes, i: nat, s: bytes, rest: bytes)
    requires Spaces(s) && At(t, i, s + rest) && rest != [] && Stops(rest[0])
    ensures Stops(Peek(t, i))
  {
    AtPeek(t, i, s + rest, 0);
  }

  predicate ValueHead(c: byte) {
    !Space(c) && c != 0 && c != 0x5D && c != 0x7D && c != 0x2C && c != 0x3A
  }

  lemma NumeralHead(digits: bytes, flags: Flags)
    requires IsNumeral(digits, flags)
    ensures digits[0] == 0x2D || 0x30 <= digits[0] <= 0x39
  {
    var b, c := PartsOf(digits);
    NotEmpty(digits, b, c);
    assert digits[Sign(digits)..b][0] == digits[Sign(digits)];
  }

  lemma TermHead(v: Term, flags: Flags)
    requires IsTerm(v, flags)
    ensures Spell(v) != [] && ValueHead(Spell(v)[0])
    ensures match v
      case NullTerm => Spell(v)[0] == 0x6E
      case TrueTerm => Spell(v)[0] == 0x74
      case FalseTerm => Spell(v)[0] == 0x66
      case NumberTerm(_) => Spell(v)[0] == 0x2D || 0x30 <= Spell(v)[0] <= 0x39
      case StringTerm(_) => Spell(v)[0] == 0x22
      case EmptyArray(_) => Spell(v)[0] == 0x5B
      case ArrayTerm(_, _, _, _) => Spell(v)[0] == 0x5B
      case EmptyObject(_) => Spell(v)[0] == 0x7B
      case ObjectTerm(_, _, _) => Spell(v)[0] == 0x7B
  {
    if v.NumberTerm? {
      NumeralHead(v.digits, flags);
    }
    hide SpellElements, SpellMembers, SpellPair, WrittenAll, IsNumeral;
  }

  lemma TailHead(e: ElementList, m: MemberList)
    ensures SpellElements(e) != [] && !Space(SpellElements(e)[0]) && Stops(SpellElements(e)[0])
    ensures SpellElements(e)[0] == 0x2C || SpellElements(e) == [0x5D]
    ensures SpellMembers(m) != [] && !Space(SpellMembers(m)[0]) && Stops(SpellMembers(m)[0])
    ensures SpellMembers(m)[0] == 0x2C || SpellMembers(m) == [0x7D]
  {
    hide Spell, SpellPair;
  }

  // ------------------------------------------------------------ every text is read

  lemma WordIsRead(t: bytes, i: nat, v: Term, flags: Flags, log: seq<Event>)
    requires v.NullTerm? || v.TrueTerm? || v.FalseTerm?
    requires At(t, i, Spell(v))
    ensures i <= |t| && Value(t, i, flags, log) == Parsed(i + |Spell(v)|, Says(v, log))
  {
    AtPeek(t, i, Spell(v), 0);
    hide AfterBrace, AfterBracket, DecodeFrom, NumberAt;
  }

  lemma NumeralIsRead(t: bytes, i: nat, digits: bytes, flags: Flags, log: seq<Event>)
    requires IsNumeral(digits, flags) && At(t, i, digits) && Stops(Peek(t, i + |digits|))
    ensures i <= |t| && Value(t, i, flags, log) == Parsed(i + |digits|, log + [EventOf(digits)])
  {
    NumberIsRead(t, i, digits, flags);
    NumeralHead(digits, flags);
    AtPeek(t, i, digits, 0);
    hide AfterBrace, AfterBracket, DecodeFrom, NumberAt, EventOf, Word;
  }

  /** A quoted string behind its first quotation mark. */
  lemma QuotesAreRead(t: bytes, i: nat, chars: seq<Spelling>, flags: Flags)
    requires IsString(chars, flags) && At(t, i, Quotes(chars))
    ensures i + 1 <= |t| && t[i] == 0x22
    ensures DecodeFrom(t, i + 1, flags.validateEncoding, []) == Good(MeaningAll(chars), i + |Quotes(chars)|)
  {
    hide DecodeFrom, WrittenAll, MeaningAll, AllAllowed;
    AtConcat(t, i, [0x22], WrittenAll(chars) + [0x22]);
    AtPeek(t, i, [0x22], 0);
    StringIsRead(t, i + 1, chars, flags.validateEncoding, []);
    assert [] + MeaningAll(chars) == MeaningAll(chars);
  }

  lemma StringTermIsRead(t: bytes, i: nat, chars: seq<Spelling>, flags: Flags, log: seq<Event>)
    requires IsString(chars, flags) && At(t, i, Quotes(chars))
    ensures i <= |t| && Value(t, i, flags, log) == Parsed(i + |Quotes(chars)|, log + [StringEvent(MeaningAll(chars))])
  {
    QuotesAreRead(t, i, chars, flags);
    hide AfterBrace, AfterBracket, DecodeFrom, NumberAt, Word, Quotes, MeaningAll;
  }

  /** The first brackets. */
  lemma OpensArray(t: bytes, i: nat, flags: Flags, log: seq<Event>)
    requires At(t, i, [0x5B])
    ensures i + 1 <= |t| && Value(t, i, flags, log) == AfterBracket(t, i + 1, flags, log + [StartArrayEvent])
  {
    AtPeek(t, i, [0x5B], 0);
    hide AfterBrace, AfterBracket, Atom;
  }

  lemma OpensObject(t: bytes, i: nat, flags: Flags, log: seq<Event>)
    requires At(t, i, [0x7B])
    ensures i + 1 <= |t| && Value(t, i, flags, log) == AfterBrace(t, i + 1, flags, log + [StartObjectEvent])
  {
    AtPeek(t, i, [0x7B], 0);
    hide AfterBrace, AfterBracket, Atom;
  }

  /** Spaces, and then something else. */
  lemma SpacesThen(t: bytes, i: nat, space: bytes, rest: bytes)
    requires Spaces(space) && At(t, i, space + rest) && rest != [] && !Space(rest[0])
    ensures i <= |t| && SkipSpace(t, i) == i + |space| && At(t, i + |space|, rest) && Peek(t, i + |space|) == rest[0]
  {
    hide SkipSpace, At;
    AtConcat(t, i, space, rest);
    AtPeek(t, i + |space|, rest, 0);
    SpacesSkipped(t, i, space);
  }

  lemma TermIsRead(t: bytes, i: nat, v: Term, flags: Flags, log: seq<Event>)
    requires i <= |t| && IsTerm(v, flags) && At(t, i, Spell(v)) && Stops(Peek(t, i + |Spell(v)|))
    ensures Value(t, i, flags, log) == Parsed(i + |Spell(v)|, Says(v, log))
    decreases |t| - i, 2
  {
    hide Value, At, Stops, IsNumeral, IsString, Spaces, AfterBracket, AfterBrace, SkipSpace;
    match v
    case NullTerm => WordIsRead(t, i, v, flags, log);
    case TrueTerm => WordIsRead(t, i, v, flags, log);
    case FalseTerm => WordIsRead(t, i, v, flags, log);
    case NumberTerm(digits) => NumeralIsRead(t, i, digits, flags, log);
    case StringTerm(chars) => StringTermIsRead(t, i, chars, flags, log);
    case EmptyArray(space) =>
      AtConcat(t, i, [0x5B], space + [0x5D]);
      OpensArray(t, i, flags, log);
      EmptyArrayIsRead(t, i + 1, space, flags, log + [StartArrayEvent]);
    case ArrayTerm(space, first, after, elements) =>
      ArrayIsRead(t, i, v, flags, log);
    case EmptyObject(space) =>
      AtConcat(t, i, [0x7B], space + [0x7D]);
      OpensObject(t, i, flags, log);
      EmptyObjectIsRead(t, i + 1, space, flags, log + [StartObjectEvent]);
    case ObjectTerm(space, pair, members) =>
      ObjectIsRead(t, i, v, flags, log);
  }

  lemma EmptyArrayIsRead(t: bytes, i: nat, space: bytes, flags: Flags, log: seq<Event>)
    requires Spaces(space) && At(t, i, space + [0x5D])
    ensures i <= |t| && AfterBracket(t, i, flags, log) == Parsed(i + |space| + 1, log + [EndArrayEvent(0)])
  {
    SpacesThen(t, i, space, [0x5D]);
    hide Elements, SkipSpace;
  }

  lemma EmptyObjectIsRead(t: bytes, i: nat, space: bytes, flags: Flags, log: seq<Event>)
    requires Spaces(space) && At(t, i, space + [0x7D])
    ensures i <= |t| && AfterBrace(t, i, flags, log) == Parsed(i + |space| + 1, log + [EndObjectEvent(0)])
  {
    SpacesThen(t, i, space, [0x7D]);
    hide Members, SkipSpace;
  }

  lemma ArrayIsRead(t: bytes, i: nat, v: Term, flags: Flags, log: seq<Event>)
    requires i <= |t| && v.ArrayTerm? && IsTerm(v, flags) && At(t, i, Spell(v))
    ensures Value(t, i, flags, log) == Parsed(i + |Spell(v)|, Says(v, log))
    decreases |t| - i, 1
  {
    hide Value, At, Stops, Spaces, AfterBracket, AfterElement;
    hide SkipSpace, Elements, IsTerm, AreElements, Says, ElementsSay;
    var rest := Spell(v.first) + (v.after + SpellElements(v.elements));
    var j := i + 1 + |v.space|;
    ArrayParts(v, flags, log);
    TermHead(v.first, flags);
    AtConcat(t, i, [0x5B], v.space + rest);
    OpensArray(t, i, flags, log);
    SpacesThen(t, i + 1, v.space, rest);
    FirstElement(t, i + 1, flags, log + [StartArrayEvent]);
    ElementIsRead(t, j, v.first, v.after, v.elements, flags, 0, log + [StartArrayEvent]);
  }

  lemma ArrayParts(v: Term, flags: Flags, log: seq<Event>)
    requires v.ArrayTerm? && IsTerm(v, flags)
    ensures Spaces(v.space) && IsTerm(v.first, flags) && Spaces(v.after) && AreElements(v.elements, flags)
    ensures Says(v, log) == ElementsSay(v.elements, 1, Says(v.first, log + [StartArrayEvent]))
  {
  }

  lemma FirstElement(t: bytes, i: nat, flags: Flags, log: seq<Event>)
    requires i <= |t| && Peek(t, SkipSpace(t, i)) != 0x5D
    ensures AfterBracket(t, i, flags, log) == Elements(t, SkipSpace(t, i), flags, 0, log)
  {
    hide SkipSpace, Elements;
  }

  /** An element with what follows it. */
  lemma ElementIsRead(t: bytes, i: nat, v: Term, after: bytes, e: ElementList, flags: Flags,
                      count: nat, log: seq<Event>)
    requires IsTerm(v, flags) && Spaces(after) && AreElements(e, flags)
    requires i <= |t| && At(t, i, Spell(v) + (after + SpellElements(e)))
    ensures Elements(t, i, flags, count, log) ==
      Parsed(i + |Spell(v)| + |after| + |SpellElements(e)|, ElementsSay(e, count + 1, Says(v, log)))
    decreases |t| - i, 3
  {
    hide Value, At, Stops, Spaces, AfterElement, IsTerm, AreElements, Says, ElementsSay, Spell, SpellElements;
    AtConcat(t, i, Spell(v), after + SpellElements(e));
    TailHead(e, NoMember);
    TermHead(v, flags);
    AtEnds(t, i, Spell(v));
    SpacesStop(t, i + |Spell(v)|, after, SpellElements(e));
    TermIsRead(t, i, v, flags, log);
    ElementsAreRead(t, i + |Spell(v)|, after, e, flags, count + 1, Says(v, log));
  }

  lemma AtEnds(t: bytes, i: nat, s: bytes)
    requires At(t, i, s)
    ensures i + |s| <= |t|
  {
  }

  /** What follows an element. */
  lemma ElementsAreRead(t: bytes, i: nat, after: bytes, e: ElementList, flags: Flags, count: nat, log: seq<Event>)
    requires i <= |t| && Spaces(after) && AreElements(e, flags) && At(t, i, after + SpellElements(e))
    ensures AfterElement(t, i, flags, count, log) ==
      Parsed(i + |after| + |SpellElements(e)|, ElementsSay(e, count, log))
    decreases |t| - i, 0
  {
    hide Value, At, Stops, Spaces, Elements, IsTerm, AfterElement, AfterElementComma, SkipSpace, Spell;
    TailHead(e, NoMember);
    SpacesThen(t, i, after, SpellElements(e));
    var j := i + |after|;
    match e
    case NoElement => ArrayCloses(t, i, flags, count, log);
    case Element(space, value, behind, elements) =>
      var rest := Spell(value) + (behind + SpellElements(elements));
      AtConcat(t, j, [0x2C], space + rest);
      AtEnds(t, j, [0x2C]);
      TermHead(value, flags);
      SpacesThen(t, j + 1, space, rest);
      AtEnds(t, j + 1 + |space|, rest);
      ArrayGoesOn(t, i, flags, count, log);
      ElementIsRead(t, j + 1 + |space|, value, behind, elements, flags, count, log);
    case ElementComma(space) =>
      AtConcat(t, j, [0x2C], space + [0x5D]);
      AtEnds(t, j, [0x2C]);
      SpacesThen(t, j + 1, space, [0x5D]);
      ArrayTrails(t, i, flags, count, log);
  }

  lemma ArrayCloses(t: bytes, i: nat, flags: Flags, count: nat, log: seq<Event>)
    requires i <= |t| && Peek(t, SkipSpace(t, i)) == 0x5D
    ensures AfterElement(t, i, flags, count, log) == Parsed(SkipSpace(t, i) + 1, log + [EndArrayEvent(count)])
  {
    hide SkipSpace, Elements;
  }

  /** A comma, and no bracket that closes behind it. */
  lemma ArrayGoesOn(t: bytes, i: nat, flags: Flags, count: nat, log: seq<Event>)
    requires i <= |t| && Peek(t, SkipSpace(t, i)) == 0x2C
    requires SkipSpace(t, i) + 1 <= |t| && Peek(t, SkipSpace(t, SkipSpace(t, i) + 1)) != 0x5D
    ensures AfterElement(t, i, flags, count, log) ==
      Elements(t, SkipSpace(t, SkipSpace(t, i) + 1), flags, count, log)
  {
    hide SkipSpace, Elements;
  }

  lemma ArrayTrails(t: bytes, i: nat, flags: Flags, count: nat, log: seq<Event>)
    requires i <= |t| && Peek(t, SkipSpace(t, i)) == 0x2C && flags.trailingCommas
    requires SkipSpace(t, i) + 1 <= |t| && Peek(t, SkipSpace(t, SkipSpace(t, i) + 1)) == 0x5D
    ensures AfterElement(t, i, flags, count, log) ==
      Parsed(SkipSpace(t, SkipSpace(t, i) + 1) + 1, log + [EndArrayEvent(count)])
  {
    hide SkipSpace, Elements;
  }

  lemma ObjectIsRead(t: bytes, i: nat, v: Term, flags: Flags, log: seq<Event>)
    requires i <= |t| && v.ObjectTerm? && IsTerm(v, flags) && At(t, i, Spell(v))
    ensures Value(t, i, flags, log) == Parsed(i + |Spell(v)|, Says(v, log))
    decreases |t| - i, 1
  {
    hide Value, At, Stops, Spaces, AfterBrace, AfterMember;
    hide SkipSpace, Members, IsTerm, AreMembers, Says, MembersSay, IsPair;
    var rest := SpellPair(v.pair) + SpellMembers(v.members);
    var j := i + 1 + |v.space|;
    ObjectParts(v, flags, log);
    PairHead(v.pair);
    AtConcat(t, i, [0x7B], v.space + rest);
    OpensObject(t, i, flags, log);
    SpacesThen(t, i + 1, v.space, rest);
    AtEnds(t, j, rest);
    FirstMember(t, i + 1, flags, log + [StartObjectEvent]);
    MemberIsRead(t, j, v.pair, v.members, flags, 0, log + [StartObjectEvent]);
  }

  lemma ObjectParts(v: Term, flags: Flags, log: seq<Event>)
    requires v.ObjectTerm? && IsTerm(v, flags)
    ensures Spaces(v.space) && IsPair(v.pair, flags) && AreMembers(v.members, flags)
    ensures Says(v, log) == MembersSay(v.members, 1, PairSays(v.pair, log + [StartObjectEvent]))
  {
  }

  lemma PairHead(p: NameValue)
    ensures SpellPair(p) != [] && SpellPair(p)[0] == 0x22 && !Space(SpellPair(p)[0])
  {
    hide Spell, WrittenAll;
  }

  lemma FirstMember(t: bytes, i: nat, flags: Flags, log: seq<Event>)
    requires i <= |t| && Peek(t, SkipSpace(t, i)) != 0x7D
    ensures AfterBrace(t, i, flags, log) == Members(t, SkipSpace(t, i), flags, 0, log)
  {
    hide SkipSpace, Members;
  }

  /** A member with what follows it. */
  lemma MemberIsRead(t: bytes, i: nat, p: NameValue, m: MemberList, flags: Flags, count: nat, log: seq<Event>)
    requires IsPair(p, flags) && AreMembers(m, flags)
    requires i <= |t| && At(t, i, SpellPair(p) + SpellMembers(m))
    ensures Members(t, i, flags, count, log) ==
      Parsed(i + |SpellPair(p)| + |SpellMembers(m)|, MembersSay(m, count + 1, PairSays(p, log)))
    decreases |t| - i, 3
  {
    hide Value, At, Stops, Spaces, AfterMember, AreMembers, IsTerm;
    hide MembersSay, Says, Spell, SpellMembers, Quotes, IsString, MeaningAll;
    var tail := p.after + SpellMembers(m);
    var q := i + |Quotes(p.name)|;
    var j := q + |p.before| + 1 + |p.behind|;
    NameStands(t, i, p, SpellMembers(m), flags);
    AtConcat(t, j, Spell(p.value), tail);
    TermHead(p.value, flags);
    AtEnds(t, j, Spell(p.value));
    TailHead(NoElement, m);
    SpacesStop(t, j + |Spell(p.value)|, p.after, SpellMembers(m));
    TermIsRead(t, j, p.value, flags, log + [KeyEvent(MeaningAll(p.name))]);
    NameThenValue(t, i, flags, count, log, MeaningAll(p.name), q, j + |Spell(p.value)|, PairSays(p, log));
    MembersAreRead(t, j + |Spell(p.value)|, p.after, m, flags, count + 1, PairSays(p, log));
  }

  /** Where the parts of a member stand. */
  lemma NameStands(t: bytes, i: nat, p: NameValue, rest: bytes, flags: Flags)
    requires IsPair(p, flags) && At(t, i, SpellPair(p) + rest)
    ensures var q := i + |Quotes(p.name)|; var c := q + |p.before|; var j := c + 1 + |p.behind|;
      && i < |t| && t[i] == 0x22 && q <= |t|
      && DecodeFrom(t, i + 1, flags.validateEncoding, []) == Good(MeaningAll(p.name), q)
      && SkipSpace(t, q) == c && Peek(t, c) == 0x3A && c + 1 <= |t| && SkipSpace(t, c + 1) == j <= |t|
      && At(t, j, Spell(p.value) + (p.after + rest))
  {
    hide At, Spaces, Spell, Quotes, IsString, IsTerm, MeaningAll, SkipSpace, SpellPair, DecodeFrom;
    var body := Spell(p.value) + (p.after + rest);
    PairRegroups(p, rest);
    var q := i + |Quotes(p.name)|;
    AtConcat(t, i, Quotes(p.name), p.before + ([0x3A] + (p.behind + body)));
    QuotesAreRead(t, i, p.name, flags);
    AtEnds(t, i, Quotes(p.name));
    SpacesThen(t, q, p.before, [0x3A] + (p.behind + body));
    var c := q + |p.before|;
    AtConcat(t, c, [0x3A], p.behind + body);
    AtEnds(t, c, [0x3A]);
    TermHead(p.value, flags);
    SpacesThen(t, c + 1, p.behind, body);
    AtEnds(t, c + 1 + |p.behind|, body);
  }

  lemma PairRegroups(p: NameValue, rest: bytes)
    ensures SpellPair(p) + rest ==
      Quotes(p.name) + (p.before + ([0x3A] + (p.behind + (Spell(p.value) + (p.after + rest)))))
  {
    Associative(Spell(p.value), p.after, rest);
    Associative(p.behind, Spell(p.value) + p.after, rest);
    Associative([0x3A], p.behind + (Spell(p.value) + p.after), rest);
    Associative(p.before, [0x3A] + (p.behind + (Spell(p.value) + p.after)), rest);
    Associative(Quotes(p.name), p.before + ([0x3A] + (p.behind + (Spell(p.value) + p.after))), rest);
    hide Quotes, Spell;
  }

  /** A name, a colon and a value, with the spaces that are skipped. */
  lemma NameThenValue(t: bytes, i: nat, flags: Flags, count: nat, log: seq<Event>, name: bytes, q: nat, e: nat,
                      log1: seq<Event>)
    requires i < |t| && t[i] == 0x22 && q <= |t|
    requires DecodeFrom(t, i + 1, flags.validateEncoding, []) == Good(name, q)
    requires Peek(t, SkipSpace(t, q)) == 0x3A && SkipSpace(t, q) + 1 <= |t|
    requires Value(t, SkipSpace(t, SkipSpace(t, q) + 1), flags, log + [KeyEvent(name)]) == Parsed(e, log1)
    ensures e <= |t|
    ensures Members(t, i, flags, count, log) == AfterMember(t, e, flags, count + 1, log1)
  {
    hide SkipSpace, Value, DecodeFrom, AfterMember;
    var named := log + [KeyEvent(name)];
    var c := SkipSpace(t, q) + 1;
    assert AfterColon(t, c, flags, count, named) == AfterMember(t, e, flags, count + 1, log1);
    assert AfterName(t, q, flags, count, named) == AfterColon(t, c, flags, count, named);
  }

  /** What follows a member. */
  lemma MembersAreRead(t: bytes, i: nat, after: bytes, m: MemberList, flags: Flags, count: nat, log: seq<Event>)
    requires i <= |t| && Spaces(after) && AreMembers(m, flags) && At(t, i, after + SpellMembers(m))
    ensures AfterMember(t, i, flags, count, log) ==
      Parsed(i + |after| + |SpellMembers(m)|, MembersSay(m, count, log))
    decreases |t| - i, 0
  {
    hide Value, At, Stops, Spaces, Members, IsTerm;
    hide AfterMember, AfterMemberComma, SkipSpace, Spell, IsPair, SpellPair, PairSays;
    TailHead(NoElement, m);
    SpacesThen(t, i, after, SpellMembers(m));
    var j := i + |after|;
    match m
    case NoMember => ObjectCloses(t, i, flags, count, log);
    case OneMember(space, pair, members) =>
      var rest := SpellPair(pair) + SpellMembers(members);
      AtConcat(t, j, [0x2C], space + rest);
      AtEnds(t, j, [0x2C]);
      PairHead(pair);
      SpacesThen(t, j + 1, space, rest);
      AtEnds(t, j + 1 + |space|, rest);
      ObjectGoesOn(t, i, flags, count, log);
      MemberIsRead(t, j + 1 + |space|, pair, members, flags, count, log);
    case MemberComma(space) =>
      AtConcat(t, j, [0x2C], space + [0x7D]);
      AtEnds(t, j, [0x2C]);
      SpacesThen(t, j + 1, space, [0x7D]);
      ObjectTrails(t, i, flags, count, log);
  }

  lemma ObjectCloses(t: bytes, i: nat, flags: Flags, count: nat, log: seq<Event>)
    requires i <= |t| && Peek(t, SkipSpace(t, i)) == 0x7D
    ensures AfterMember(t, i, flags, count, log) == Parsed(SkipSpace(t, i) + 1, log + [EndObjectEvent(count)])
  {
    hide SkipSpace, Members;
  }

  lemma ObjectGoesOn(t: bytes, i: nat, flags: Flags, count: nat, log: seq<Event>)
    requires i <= |t| && Peek(t, SkipSpace(t, i)) == 0x2C
    requires SkipSpace(t, i) + 1 <= |t| && Peek(t, SkipSpace(t, SkipSpace(t, i) + 1)) != 0x7D
    ensures AfterMember(t, i, flags, count, log) ==
      Members(t, SkipSpace(t, SkipSpace(t, i) + 1), flags, count, log)
  {
    hide SkipSpace, Members;
  }

  lemma ObjectTrails(t: bytes, i: nat, flags: Flags, count: nat, log: seq<Event>)
    requires i <= |t| && Peek(t, SkipSpace(t, i)) == 0x2C && flags.trailingCommas
    requires SkipSpace(t, i) + 1 <= |t| && Peek(t, SkipSpace(t, SkipSpace(t, i) + 1)) == 0x7D
    ensures AfterMember(t, i, flags, count, log) ==
      Parsed(SkipSpace(t, SkipSpace(t, i) + 1) + 1, log + [EndObjectEvent(count)])
  {
    hide SkipSpace, Members;
  }

  // ------------------------------------------------------------ and nothing else

  lemma OneAt(t: bytes, i: nat, c: byte)
    requires Peek(t, i) == c != 0
    ensures i + 1 <= |t| && At(t, i, [c])
  {
  }

  /** Skipped spaces, and what stands behind them. */
  lemma SpacesAnd(t: bytes, i: nat, rest: bytes)
    requires i <= |t| && At(t, SkipSpace(t, i), rest)
    ensures Spaces(t[i..SkipSpace(t, i)]) && At(t, i, t[i..SkipSpace(t, i)] + rest)
    ensures |t[i..SkipSpace(t, i)]| == SkipSpace(t, i) - i
  {
    SkippedSpaces(t, i);
    AtConcat(t, i, t[i..SkipSpace(t, i)], rest);
    hide At, Spaces;
  }

  lemma NotTooBig(t: bytes, i: nat, flags: Flags)
    requires i <= |t| && NumberAt(t, i, flags).GoodNumber? && NumberAt(t, i, flags).event.DoubleEvent?
    ensures !flags.tooBig(t[i..NumberAt(t, i, flags).next])
  {
    hide IntegerEnd, FractionEnd, ExponentEnd, DecimalValue;
  }

  lemma ReadIsNumeral(t: bytes, i: nat, flags: Flags) returns (digits: bytes)
    requires i <= |t| && NumberAt(t, i, flags).GoodNumber?
    ensures IsNumeral(digits, flags) && At(t, i, digits)
    ensures NumberAt(t, i, flags) == GoodNumber(EventOf(digits), i + |digits|)
  {
    ReadIsNumber(t, i, flags);
    if NumberAt(t, i, flags).event.DoubleEvent? {
      NotTooBig(t, i, flags);
    }
    hide NumberAt, IsNumber, EventOf;
    digits := t[i..NumberAt(t, i, flags).next];
  }

  lemma ReadIsQuotes(t: bytes, i: nat, flags: Flags) returns (chars: seq<Spelling>)
    requires Peek(t, i) == 0x22 && i + 1 <= |t| && DecodeFrom(t, i + 1, flags.validateEncoding, []).Good?
    ensures IsString(chars, flags) && At(t, i, Quotes(chars))
    ensures DecodeFrom(t, i + 1, flags.validateEncoding, []) == Good(MeaningAll(chars), i + |Quotes(chars)|)
  {
    hide DecodeFrom, WrittenAll, MeaningAll, AllAllowed;
    chars := ReadIsString(t, i + 1, flags.validateEncoding, []);
    OneAt(t, i, 0x22);
    AtConcat(t, i, [0x22], WrittenAll(chars) + [0x22]);
    assert [] + MeaningAll(chars) == MeaningAll(chars);
  }

  /** A value that is no container. */
  lemma ReadIsAtom(t: bytes, i: nat, flags: Flags, log: seq<Event>) returns (v: Term)
    requires i <= |t| && Atom(t, i, flags, log).Parsed? && Peek(t, i) != 0x7B && Peek(t, i) != 0x5B
    ensures IsTerm(v, flags) && At(t, i, Spell(v))
    ensures Atom(t, i, flags, log) == Parsed(i + |Spell(v)|, Says(v, log))
  {
    hide DecodeFrom, NumberAt, IsNumeral, IsString, Quotes, MeaningAll, EventOf;
    if Peek(t, i) == 0x6E {
      v := NullTerm;
    } else if Peek(t, i) == 0x74 {
      v := TrueTerm;
    } else if Peek(t, i) == 0x66 {
      v := FalseTerm;
    } else if Peek(t, i) == 0x22 {
      OneAt(t, i, 0x22);
      var chars := ReadIsQuotes(t, i, flags);
      v := StringTerm(chars);
    } else {
      var digits := ReadIsNumeral(t, i, flags);
      NumeralNotEmpty(digits, flags);
      v := NumberTerm(digits);
    }
  }

  lemma NumeralNotEmpty(digits: bytes, flags: Flags)
    requires IsNumeral(digits, flags)
    ensures digits != []
  {
  }

  lemma ReadIsTerm(t: bytes, i: nat, flags: Flags, log: seq<Event>) returns (v: Term)
    requires i <= |t| && Value(t, i, flags, log).Parsed?
    ensures IsTerm(v, flags) && At(t, i, Spell(v))
    ensures Value(t, i, flags, log) == Parsed(i + |Spell(v)|, Says(v, log))
    decreases |t| - i, 2
  {
    hide At, Spaces, AfterBracket, AfterBrace, Atom, SkipSpace, IsTerm, Spell, Says;
    if Peek(t, i) == 0x5B {
      OneAt(t, i, 0x5B);
      v := ReadIsArray(t, i, flags, log);
    } else if Peek(t, i) == 0x7B {
      OneAt(t, i, 0x7B);
      v := ReadIsObject(t, i, flags, log);
    } else {
      v := ReadIsAtom(t, i, flags, log);
    }
  }

  lemma ReadIsArray(t: bytes, i: nat, flags: Flags, log: seq<Event>) returns (v: Term)
    requires i < |t| && At(t, i, [0x5B]) && Value(t, i, flags, log).Parsed?
    ensures IsTerm(v, flags) && At(t, i, Spell(v))
    ensures Value(t, i, flags, log) == Parsed(i + |Spell(v)|, Says(v, log))
    decreases |t| - i, 1
  {
    hide Value, At, Spaces, Elements, SkipSpace, AfterElement;
    hide IsTerm, AreElements, Spell, SpellElements, Says, ElementsSay;
    OpensArray(t, i, flags, log);
    var j := SkipSpace(t, i + 1);
    var space := t[i + 1..j];
    if Peek(t, j) == 0x5D {
      OneAt(t, j, 0x5D);
      SpacesAnd(t, i + 1, [0x5D]);
      AtConcat(t, i, [0x5B], space + [0x5D]);
      v := EmptyArray(space);
      EmptyTerms(space, flags, log);
    } else {
      FirstElement(t, i + 1, flags, log + [StartArrayEvent]);
      var first, after, e := ReadIsElement(t, j, flags, 0, log + [StartArrayEvent]);
      var rest := Spell(first) + (after + SpellElements(e));
      SpacesAnd(t, i + 1, rest);
      AtConcat(t, i, [0x5B], space + rest);
      v := ArrayTerm(space, first, after, e);
      ArrayMade(v, flags, log);
    }
  }

  lemma EmptyTerms(space: bytes, flags: Flags, log: seq<Event>)
    ensures Spell(EmptyArray(space)) == [0x5B] + (space + [0x5D])
    ensures IsTerm(EmptyArray(space), flags) <==> Spaces(space)
    ensures Says(EmptyArray(space), log) == log + [StartArrayEvent] + [EndArrayEvent(0)]
    ensures Spell(EmptyObject(space)) == [0x7B] + (space + [0x7D])
    ensures IsTerm(EmptyObject(space), flags) <==> Spaces(space)
    ensures Says(EmptyObject(space), log) == log + [StartObjectEvent] + [EndObjectEvent(0)]
  {
  }

  lemma ArrayMade(v: Term, flags: Flags, log: seq<Event>)
    requires v.ArrayTerm?
    ensures Spell(v) == [0x5B] + (v.space + (Spell(v.first) + (v.after + SpellElements(v.elements))))
    ensures IsTerm(v, flags) <==>
      Spaces(v.space) && IsTerm(v.first, flags) && Spaces(v.after) && AreElements(v.elements, flags)
    ensures Says(v, log) == ElementsSay(v.elements, 1, Says(v.first, log + [StartArrayEvent]))
  {
  }

  lemma ReadIsElement(t: bytes, i: nat, flags: Flags, count: nat, log: seq<Event>)
    returns (v: Term, after: bytes, e: ElementList)
    requires i <= |t| && Elements(t, i, flags, count, log).Parsed?
    ensures IsTerm(v, flags) && Spaces(after) && AreElements(e, flags)
    ensures At(t, i, Spell(v) + (after + SpellElements(e)))
    ensures Elements(t, i, flags, count, log) ==
      Parsed(i + |Spell(v)| + |after| + |SpellElements(e)|, ElementsSay(e, count + 1, Says(v, log)))
    decreases |t| - i, 3
  {
    hide Value, At, Spaces, AfterElement, IsTerm, AreElements, Spell, SpellElements, Says, ElementsSay;
    v := ReadIsTerm(t, i, flags, log);
    TermHead(v, flags);
    AtEnds(t, i, Spell(v));
    after, e := ReadAreElements(t, i + |Spell(v)|, flags, count + 1, Says(v, log));
    AtConcat(t, i, Spell(v), after + SpellElements(e));
  }

  lemma ReadAreElements(t: bytes, i: nat, flags: Flags, count: nat, log: seq<Event>)
    returns (after: bytes, e: ElementList)
    requires i <= |t| && AfterElement(t, i, flags, count, log).Parsed?
    ensures Spaces(after) && AreElements(e, flags) && At(t, i, after + SpellElements(e))
    ensures AfterElement(t, i, flags, count, log) ==
      Parsed(i + |after| + |SpellElements(e)|, ElementsSay(e, count, log))
    decreases |t| - i, 0
  {
    hide Value, At, Spaces, Elements, AfterElement, IsTerm, Spell, SkipSpace, Says;
    ElementNext(t, i, flags, count, log);
    var j := SkipSpace(t, i);
    after := t[i..j];
    if Peek(t, j) == 0x5D {
      OneAt(t, j, 0x5D);
      SpacesAnd(t, i, [0x5D]);
      e := NoElement;
      ArrayCloses(t, i, flags, count, log);
    } else {
      OneAt(t, j, 0x2C);
      var k := SkipSpace(t, j + 1);
      var space := t[j + 1..k];
      if Peek(t, k) == 0x5D {
        OneAt(t, k, 0x5D);
        SpacesAnd(t, j + 1, [0x5D]);
        AtConcat(t, j, [0x2C], space + [0x5D]);
        SpacesAnd(t, i, [0x2C] + (space + [0x5D]));
        e := ElementComma(space);
        ElementsEnd(space, flags, count, log);
      } else {
        ArrayGoesOn(t, i, flags, count, log);
        var v, behind, more := ReadIsElement(t, k, flags, count, log);
        var rest := Spell(v) + (behind + SpellElements(more));
        SpacesAnd(t, j + 1, rest);
        AtConcat(t, j, [0x2C], space + rest);
        SpacesAnd(t, i, [0x2C] + (space + rest));
        e := Element(space, v, behind, more);
      }
    }
  }

  lemma ElementsEnd(space: bytes, flags: Flags, count: nat, log: seq<Event>)
    ensures SpellElements(ElementComma(space)) == [0x2C] + (space + [0x5D])
    ensures ElementsSay(ElementComma(space), count, log) == log + [EndArrayEvent(count)]
  {
  }

  /** A comma or a bracket follows an element; a bracket behind a comma only when the reader allows it. */
  lemma ElementNext(t: bytes, i: nat, flags: Flags, count: nat, log: seq<Event>)
    requires i <= |t| && AfterElement(t, i, flags, count, log).Parsed?
    ensures var j := SkipSpace(t, i);
      Peek(t, j) == 0x5D || (Peek(t, j) == 0x2C && j + 1 <= |t| &&
        (Peek(t, SkipSpace(t, j + 1)) == 0x5D ==>
          flags.trailingCommas && AfterElement(t, i, flags, count, log) ==
            Parsed(SkipSpace(t, j + 1) + 1, log + [EndArrayEvent(count)])))
  {
    hide SkipSpace, Value;
    var j := SkipSpace(t, i);
    if Peek(t, j) == 0x2C {
      OneAt(t, j, 0x2C);
      var k := SkipSpace(t, j + 1);
      if Peek(t, k) == 0x5D && !flags.trailingCommas {
        NoElementHere(t, j + 1, flags, count, log);
      }
    }
  }

  lemma NoElementHere(t: bytes, i: nat, flags: Flags, count: nat, log: seq<Event>)
    requires i <= |t| && Peek(t, SkipSpace(t, i)) == 0x5D && !flags.trailingCommas
    ensures AfterElementComma(t, i, flags, count, log).Failed?
  {
    hide SkipSpace, Value;
    NoValueHere(t, SkipSpace(t, i), flags, log);
    assert Elements(t, SkipSpace(t, i), flags, count, log).Failed?;
  }

  /** A closing bracket begins no value. */
  lemma NoValueHere(t: bytes, i: nat, flags: Flags, log: seq<Event>)
    requires i <= |t| && (Peek(t, i) == 0x5D || Peek(t, i) == 0x7D)
    ensures Value(t, i, flags, log).Failed?
  {
    hide AfterBrace, AfterBracket, DecodeFrom, Word;
  }

  lemma ReadIsObject(t: bytes, i: nat, flags: Flags, log: seq<Event>) returns (v: Term)
    requires i < |t| && At(t, i, [0x7B]) && Value(t, i, flags, log).Parsed?
    ensures IsTerm(v, flags) && At(t, i, Spell(v))
    ensures Value(t, i, flags, log) == Parsed(i + |Spell(v)|, Says(v, log))
    decreases |t| - i, 1
  {
    hide Value, At, Spaces, Members, SkipSpace, AfterMember, IsTerm, AreMembers, Spell, SpellMembers, Says, MembersSay;
    hide IsPair, SpellPair, PairSays;
    OpensObject(t, i, flags, log);
    var j := SkipSpace(t, i + 1);
    var space := t[i + 1..j];
    if Peek(t, j) == 0x7D {
      OneAt(t, j, 0x7D);
      SpacesAnd(t, i + 1, [0x7D]);
      AtConcat(t, i, [0x7B], space + [0x7D]);
      v := EmptyObject(space);
      EmptyTerms(space, flags, log);
    } else {
      FirstMember(t, i + 1, flags, log + [StartObjectEvent]);
      var pair, m := ReadIsMember(t, j, flags, 0, log + [StartObjectEvent]);
      var rest := SpellPair(pair) + SpellMembers(m);
      SpacesAnd(t, i + 1, rest);
      AtConcat(t, i, [0x7B], space + rest);
      v := ObjectTerm(space, pair, m);
      ObjectMade(v, flags, log);
    }
  }

  lemma ObjectMade(v: Term, flags: Flags, log: seq<Event>)
    requires v.ObjectTerm?
    ensures Spell(v) == [0x7B] + (v.space + (SpellPair(v.pair) + SpellMembers(v.members)))
    ensures IsTerm(v, flags) <==> Spaces(v.space) && IsPair(v.pair, flags) && AreMembers(v.members, flags)
    ensures Says(v, log) == MembersSay(v.members, 1, PairSays(v.pair, log + [StartObjectEvent]))
  {
  }

  lemma ReadIsMember(t: bytes, i: nat, flags: Flags, count: nat, log: seq<Event>) returns (p: NameValue, m: MemberList)
    requires i <= |t| && Members(t, i, flags, count, log).Parsed?
    ensures IsPair(p, flags) && AreMembers(m, flags) && At(t, i, SpellPair(p) + SpellMembers(m))
    ensures Members(t, i, flags, count, log) ==
      Parsed(i + |SpellPair(p)| + |SpellMembers(m)|, MembersSay(m, count + 1, PairSays(p, log)))
    decreases |t| - i, 3
  {
    hide Value, At, Spaces, Members, AfterMember, SkipSpace, IsTerm, AreMembers, Spell, SpellMembers, Says, MembersSay;
    hide Quotes, IsString, MeaningAll, DecodeFrom, IsPair, SpellPair;
    var q := MemberName(t, i, flags, count, log);
    OneAt(t, i, 0x22);
    var name := ReadIsQuotes(t, i, flags);
    var named := log + [KeyEvent(MeaningAll(name))];
    var c := SkipSpace(t, q);
    OneAt(t, c, 0x3A);
    var j := SkipSpace(t, c + 1);
    var value := ReadIsTerm(t, j, flags, named);
    TermHead(value, flags);
    AtEnds(t, j, Spell(value));
    var e := j + |Spell(value)|;
    NameThenValue(t, i, flags, count, log, MeaningAll(name), q, e, Says(value, named));
    var after;
    after, m := ReadAreMembers(t, e, flags, count + 1, Says(value, named));
    p := NameValue(name, t[q..c], t[c + 1..j], value, after);
    PairMade(p, flags, log);
    PairStands(t, i, p, SpellMembers(m), q, c, j);
  }

  lemma PairMade(p: NameValue, flags: Flags, log: seq<Event>)
    ensures IsPair(p, flags) <==>
      IsString(p.name, flags) && Spaces(p.before) && Spaces(p.behind) && IsTerm(p.value, flags) && Spaces(p.after)
    ensures PairSays(p, log) == Says(p.value, log + [KeyEvent(MeaningAll(p.name))])
    ensures |SpellPair(p)| == |Quotes(p.name)| + |p.before| + 1 + |p.behind| + |Spell(p.value)| + |p.after|
  {
    hide IsString, Spaces, IsTerm, Says, MeaningAll, Quotes, Spell;
  }

  lemma PairStands(t: bytes, i: nat, p: NameValue, rest: bytes, q: nat, c: nat, j: nat)
    requires At(t, i, Quotes(p.name)) && q == i + |Quotes(p.name)| <= c && c + 1 <= j
    requires q <= |t| && c == SkipSpace(t, q) && c + 1 <= |t| && j == SkipSpace(t, c + 1)
    requires p.before == t[q..c] && p.behind == t[c + 1..j] && At(t, c, [0x3A]) && At(t, j, Spell(p.value))
    requires At(t, j + |Spell(p.value)|, p.after + rest)
    ensures Spaces(p.before) && Spaces(p.behind) && At(t, i, SpellPair(p) + rest)
  {
    hide SkipSpace, At, Spaces, Quotes, Spell, SpellPair;
    var body := Spell(p.value) + (p.after + rest);
    AtConcat(t, j, Spell(p.value), p.after + rest);
    SpacesAnd(t, c + 1, body);
    AtConcat(t, c, [0x3A], p.behind + body);
    SpacesAnd(t, q, [0x3A] + (p.behind + body));
    AtConcat(t, i, Quotes(p.name), p.before + ([0x3A] + (p.behind + body)));
    PairRegroups(p, rest);
  }

  /** The name of a member that was accepted, and that a colon and a value follow it. */
  lemma MemberName(t: bytes, i: nat, flags: Flags, count: nat, log: seq<Event>) returns (q: nat)
    requires i <= |t| && Members(t, i, flags, count, log).Parsed?
    ensures Peek(t, i) == 0x22 && i + 1 <= |t| && DecodeFrom(t, i + 1, flags.validateEncoding, []).Good?
    ensures q == DecodeFrom(t, i + 1, flags.validateEncoding, []).next <= |t|
    ensures Peek(t, SkipSpace(t, q)) == 0x3A && SkipSpace(t, q) + 1 <= |t|
    ensures var named := log + [KeyEvent(DecodeFrom(t, i + 1, flags.validateEncoding, []).text)];
      var v := Value(t, SkipSpace(t, SkipSpace(t, q) + 1), flags, named);
      v.Parsed? && AfterMember(t, v.pos, flags, count + 1, v.log).Parsed?
  {
    hide DecodeFrom, SkipSpace, AfterMember, Value;
    q := DecodeFrom(t, i + 1, flags.validateEncoding, []).next;
    var named := log + [KeyEvent(DecodeFrom(t, i + 1, flags.validateEncoding, []).text)];
    assert AfterName(t, q, flags, count, named).Parsed?;
    assert AfterColon(t, SkipSpace(t, q) + 1, flags, count, named).Parsed?;
  }

  lemma ReadAreMembers(t: bytes, i: nat, flags: Flags, count: nat, log: seq<Event>)
    returns (after: bytes, m: MemberList)
    requires i <= |t| && AfterMember(t, i, flags, count, log).Parsed?
    ensures Spaces(after) && AreMembers(m, flags) && At(t, i, after + SpellMembers(m))
    ensures AfterMember(t, i, flags, count, log) ==
      Parsed(i + |after| + |SpellMembers(m)|, MembersSay(m, count, log))
    decreases |t| - i, 0
  {
    hide Value, At, Spaces, Members, AfterMember, IsTerm, IsPair, Spell, SpellPair, SkipSpace, Says, PairSays;
    MemberNext(t, i, flags, count, log);
    var j := SkipSpace(t, i);
    after := t[i..j];
    if Peek(t, j) == 0x7D {
      OneAt(t, j, 0x7D);
      SpacesAnd(t, i, [0x7D]);
      m := NoMember;
      ObjectCloses(t, i, flags, count, log);
    } else {
      OneAt(t, j, 0x2C);
      var k := SkipSpace(t, j + 1);
      var space := t[j + 1..k];
      if Peek(t, k) == 0x7D {
        OneAt(t, k, 0x7D);
        SpacesAnd(t, j + 1, [0x7D]);
        AtConcat(t, j, [0x2C], space + [0x7D]);
        SpacesAnd(t, i, [0x2C] + (space + [0x7D]));
        m := MemberComma(space);
        MembersEnd(space, flags, count, log);
      } else {
        ObjectGoesOn(t, i, flags, count, log);
        var pair, more := ReadIsMember(t, k, flags, count, log);
        var rest := SpellPair(pair) + SpellMembers(more);
        SpacesAnd(t, j + 1, rest);
        AtConcat(t, j, [0x2C], space + rest);
        SpacesAnd(t, i, [0x2C] + (space + rest));
        m := OneMember(space, pair, more);
      }
    }
  }

  lemma MembersEnd(space: bytes, flags: Flags, count: nat, log: seq<Event>)
    ensures SpellMembers(MemberComma(space)) == [0x2C] + (space + [0x7D])
    ensures MembersSay(MemberComma(space), count, log) == log + [EndObjectEvent(count)]
  {
  }

  lemma MemberNext(t: bytes, i: nat, flags: Flags, count: nat, log: seq<Event>)
    requires i <= |t| && AfterMember(t, i, flags, count, log).Parsed?
    ensures var j := SkipSpace(t, i);
      Peek(t, j) == 0x7D || (Peek(t, j) == 0x2C && j + 1 <= |t| &&
        (Peek(t, SkipSpace(t, j + 1)) == 0x7D ==>
          flags.trailingCommas && AfterMember(t, i, flags, count, log) ==
            Parsed(SkipSpace(t, j + 1) + 1, log + [EndObjectEvent(count)])))
  {
    hide SkipSpace, Members;
    var j := SkipSpace(t, i);
    if Peek(t, j) == 0x2C {
      OneAt(t, j, 0x2C);
      if Peek(t, SkipSpace(t, j + 1)) == 0x7D && !flags.trailingCommas {
        NoMemberHere(t, j + 1, flags, count, log);
      }
    }
  }

  lemma NoMemberHere(t: bytes, i: nat, flags: Flags, count: nat, log: seq<Event>)
    requires i <= |t| && Peek(t, SkipSpace(t, i)) == 0x7D && !flags.trailingCommas
    ensures AfterMemberComma(t, i, flags, count, log).Failed?
  {
    hide SkipSpace;
    assert Members(t, SkipSpace(t, i), flags, count, log).Failed?;
  }

  // ------------------------------------------------------------ whole documents

  /** A value between spaces. */
  ghost predicate IsDocument(t: bytes, flags: Flags, before: bytes, v: Term, after: bytes) {
    Spaces(before) && IsTerm(v, flags) && Spaces(after) && t == before + (Spell(v) + after)
  }

  lemma DocumentIsRead(t: bytes, flags: Flags, before: bytes, v: Term, after: bytes)
    requires IsDocument(t, flags, before, v, after)
    ensures Document(t, flags).Parsed? && Document(t, flags).log == Says(v, [])
  {
    hide At, Spaces, Value, IsTerm, Spell, Says, SkipSpace;
    TermHead(v, flags);
    assert t[0..0 + |t|] == t;
    WholeStands(t, before + (Spell(v) + after));
    SpacesThen(t, 0, before, Spell(v) + after);
    AtConcat(t, |before|, Spell(v), after);
    var e := |before| + |Spell(v)|;
    EndStops(t, e, after);
    TermIsRead(t, |before|, v, flags, []);
    SpacesSkipped(t, e, after);
  }

  lemma WholeStands(t: bytes, s: bytes)
    requires t == s
    ensures At(t, 0, s)
  {
    assert t[0..|s|] == t;
  }

  lemma EndStops(t: bytes, i: nat, s: bytes)
    requires Spaces(s) && At(t, i, s) && i + |s| == |t|
    ensures i <= |t| && Stops(Peek(t, i)) && !Space(Peek(t, i + |s|))
  {
    if s != [] {
      AtPeek(t, i, s, 0);
    }
  }

  lemma ReadIsDocument(t: bytes, flags: Flags) returns (before: bytes, v: Term, after: bytes)
    requires 0 !in t && !flags.stopWhenDone && Document(t, flags).Parsed?
    ensures IsDocument(t, flags, before, v, after)
  {
    hide At, Spaces, Value, IsTerm, Spell, Says, SkipSpace;
    var j := SkipSpace(t, 0);
    before := t[0..j];
    v := ReadIsTerm(t, j, flags, []);
    AtEnds(t, j, Spell(v));
    var e := j + |Spell(v)|;
    var k := SkipSpace(t, e);
    NulIsEnd(t, k);
    after := t[e..k];
    SkippedSpaces(t, 0);
    SkippedSpaces(t, e);
    StandsThere(t, j, Spell(v));
    assert t == t[0..j] + (t[j..e] + t[e..k]);
  }

  lemma NulIsEnd(t: bytes, k: nat)
    requires 0 !in t && k <= |t| && Peek(t, k) == 0
    ensures k == |t|
  {
  }

  /** A text is accepted if and only if it is a JSON text of RFC 8259 (or one with trailing commas, when the reader
      allows them), and then its events are those of its value. */
  lemma AcceptedIff(t: bytes, flags: Flags)
    requires 0 !in t && !flags.stopWhenDone
    ensures Document(t, flags).Parsed? <==> exists before, v, after :: IsDocument(t, flags, before, v, after)
    ensures forall before, v, after :: IsDocument(t, flags, before, v, after) ==> Document(t, flags).log == Says(v, [])
  {
    hide Document, IsDocument;
    if Document(t, flags).Parsed? {
      var before, v, after := ReadIsDocument(t, flags);
    }
    forall before, v, after | IsDocument(t, flags, before, v, after)
      ensures Document(t, flags).Parsed? && Document(t, flags).log == Says(v, [])
    {
      DocumentIsRead(t, flags, before, v, after);
    }
  }

  // ------------------------------------------------------------ spaces say nothing

  /** The same value without a space. */
  function Tight(v: Term): Term {
    match v
    case EmptyArray(_) => EmptyArray([])
    case ArrayTerm(_, first, _, elements) => ArrayTerm([], Tight(first), [], TightElements(elements))
    case EmptyObject(_) => EmptyObject([])
    case ObjectTerm(_, pair, members) => ObjectTerm([], TightPair(pair), TightMembers(members))
    case _ => v
  }

  function TightElements(e: ElementList): ElementList {
    match e
    case NoElement => NoElement
    case Element(_, value, _, elements) => Element([], Tight(value), [], TightElements(elements))
    case ElementComma(_) => ElementComma([])
  }

  function TightPair(p: NameValue): NameValue {
    NameValue(p.name, [], [], Tight(p.value), [])
  }

  function TightMembers(m: MemberList): MemberList {
    match m
    case NoMember => NoMember
    case OneMember(_, pair, members) => OneMember([], TightPair(pair), TightMembers(members))
    case MemberComma(_) => MemberComma([])
  }

  lemma {:induction false} TightSays(v: Term, log: seq<Event>)
    ensures Says(Tight(v), log) == Says(v, log)
    decreases v
  {
    if v.ArrayTerm? {
      TightSays(v.first, log + [StartArrayEvent]);
      TightElementsSay(v.elements, 1, Says(v.first, log + [StartArrayEvent]));
    } else if v.ObjectTerm? {
      TightSays(v.pair.value, log + [StartObjectEvent] + [KeyEvent(MeaningAll(v.pair.name))]);
      TightMembersSay(v.members, 1, PairSays(v.pair, log + [StartObjectEvent]));
    }
  }

  lemma {:induction false} TightElementsSay(e: ElementList, count: nat, log: seq<Event>)
    ensures ElementsSay(TightElements(e), count, log) == ElementsSay(e, count, log)
    decreases e
  {
    if e.Element? {
      TightSays(e.value, log);
      TightElementsSay(e.elements, count + 1, Says(e.value, log));
    }
  }

  lemma {:induction false} TightMembersSay(m: MemberList, count: nat, log: seq<Event>)
    ensures MembersSay(TightMembers(m), count, log) == MembersSay(m, count, log)
    decreases m
  {
    if m.OneMember? {
      TightSays(m.pair.value, log + [KeyEvent(MeaningAll(m.pair.name))]);
      TightMembersSay(m.members, count + 1, PairSays(m.pair, log));
    }
  }

  /** Two texts that differ only in the spaces between their tokens are both accepted, with the same events. */
  lemma SpacesDoNotMatter(t: bytes, u: bytes, flags: Flags, b0: bytes, v: Term, a0: bytes,
                          b1: bytes, w: Term, a1: bytes)
    requires IsDocument(t, flags, b0, v, a0) && IsDocument(u, flags, b1, w, a1) && Tight(v) == Tight(w)
    ensures Document(t, flags).Parsed? && Document(u, flags).Parsed? && Document(t, flags).log == Document(u, flags).log
  {
    hide Document, IsDocument, Says, Tight;
    DocumentIsRead(t, flags, b0, v, a0);
    DocumentIsRead(u, flags, b1, w, a1);
    TightSays(v, []);
    TightSays(w, []);
  }
}
