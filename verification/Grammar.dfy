/**
 * The meaning of a JSON text: the events it stands for, or the error it contains. Every function takes the
 * log of the events before position `i` and returns it extended.
 */
module Grammar {
  import opened Bytes
  import opened Events
  import opened StringText
  import opened Numbers

  datatype Outcome =
    | Parsed(pos: nat, log: seq<Event>)
    | Failed(error: ParseError, log: seq<Event>)

  function SkipSpace(t: bytes, i: nat): (j: nat)
    requires i <= |t|
    ensures i <= j <= |t| && !IsSpace(Peek(t, j))
    ensures forall k :: i <= k < j ==> IsSpace(Peek(t, k))
    decreases |t| - i
  {
    if IsSpace(Peek(t, i)) then SkipSpace(t, i + 1) else i
  }

  lemma SkipSpaceTwice(t: bytes, i: nat)
    requires i <= |t|
    ensures SkipSpace(t, SkipSpace(t, i)) == SkipSpace(t, i)
  {
  }

  const NULL_WORD: bytes := [0x6E, 0x75, 0x6C, 0x6C]
  const TRUE_WORD: bytes := [0x74, 0x72, 0x75, 0x65]
  const FALSE_WORD: bytes := [0x66, 0x61, 0x6C, 0x73, 0x65]

  function Word(t: bytes, i: nat, word: bytes, event: Event, log: seq<Event>): Outcome {
    if At(t, i, word) then Parsed(i + |word|, log + [event]) else Failed(ValueInvalid, log)
  }

  /** A value that is no container. */
  function Atom(t: bytes, i: nat, flags: Flags, log: seq<Event>): (o: Outcome)
    requires i <= |t|
    ensures o.Parsed? ==> i < o.pos <= |t|
  {
    var c := Peek(t, i);
    if c == 0x6E then Word(t, i, NULL_WORD, NullEvent, log)
    else if c == 0x74 then Word(t, i, TRUE_WORD, BoolEvent(true), log)
    else if c == 0x66 then Word(t, i, FALSE_WORD, BoolEvent(false), log)
    else if c == QUOTE then
      match DecodeFrom(t, i + 1, flags.validateEncoding, [])
      case Bad(e) => Failed(e, log)
      case Good(str, next) => Parsed(next, log + [StringEvent(str)])
    else
      match NumberAt(t, i, flags)
      case BadNumber(e) => Failed(e, log)
      case GoodNumber(event, next) => Parsed(next, log + [event])
  }

  function Value(t: bytes, i: nat, flags: Flags, log: seq<Event>): (o: Outcome)
    requires i <= |t|
    ensures o.Parsed? ==> i < o.pos <= |t|
    decreases |t| - i, 1
  {
    var c := Peek(t, i);
    if c == LBRACE then AfterBrace(t, i + 1, flags, log + [StartObjectEvent])
    else if c == LBRACKET then AfterBracket(t, i + 1, flags, log + [StartArrayEvent])
    else Atom(t, i, flags, log)
  }

  // ---------------------------------------------------------------------- objects

  /** The rest of an object after its opening brace. */
  function AfterBrace(t: bytes, i: nat, flags: Flags, log: seq<Event>): (o: Outcome)
    requires i <= |t|
    ensures o.Parsed? ==> i < o.pos <= |t|
    decreases |t| - i, 3
  {
    var j := SkipSpace(t, i);
    if Peek(t, j) == RBRACE then Parsed(j + 1, log + [EndObjectEvent(0)])
    else Members(t, j, flags, 0, log)
  }

  /** The rest of an object from the name of its member number `count` on. */
  function Members(t: bytes, i: nat, flags: Flags, count: nat, log: seq<Event>): (o: Outcome)
    requires i <= |t|
    ensures o.Parsed? ==> i < o.pos <= |t|
    decreases |t| - i, 2
  {
    if Peek(t, i) != QUOTE then Failed(ObjectMissName, log)
    else
      match DecodeFrom(t, i + 1, flags.validateEncoding, [])
      case Bad(e) => Failed(e, log)
      case Good(name, next) => AfterName(t, next, flags, count, log + [KeyEvent(name)])
  }

  function AfterName(t: bytes, i: nat, flags: Flags, count: nat, log: seq<Event>): (o: Outcome)
    requires i <= |t|
    ensures o.Parsed? ==> i < o.pos <= |t|
    decreases |t| - i, 3
  {
    var j := SkipSpace(t, i);
    if Peek(t, j) != COLON then Failed(ObjectMissColon, log) else AfterColon(t, j + 1, flags, count, log)
  }

  function AfterColon(t: bytes, i: nat, flags: Flags, count: nat, log: seq<Event>): (o: Outcome)
    requires i <= |t|
    ensures o.Parsed? ==> i < o.pos <= |t|
    decreases |t| - i, 2
  {
    match Value(t, SkipSpace(t, i), flags, log)
    case Failed(e, log1) => Failed(e, log1)
    case Parsed(p, log1) => AfterMember(t, p, flags, count + 1, log1)
  }

  /** The rest of an object after `count` complete members. */
  function AfterMember(t: bytes, i: nat, flags: Flags, count: nat, log: seq<Event>): (o: Outcome)
    requires i <= |t|
    ensures o.Parsed? ==> i < o.pos <= |t|
    decreases |t| - i, 2
  {
    var j := SkipSpace(t, i);
    if Peek(t, j) == COMMA then AfterMemberComma(t, j + 1, flags, count, log)
    else if Peek(t, j) == RBRACE then Parsed(j + 1, log + [EndObjectEvent(count)])
    else Failed(ObjectMissCommaOrCurlyBracket, log)
  }

  function AfterMemberComma(t: bytes, i: nat, flags: Flags, count: nat, log: seq<Event>): (o: Outcome)
    requires i <= |t|
    ensures o.Parsed? ==> i < o.pos <= |t|
    decreases |t| - i, 3
  {
    var j := SkipSpace(t, i);
    if flags.trailingCommas && Peek(t, j) == RBRACE then Parsed(j + 1, log + [EndObjectEvent(count)])
    else Members(t, j, flags, count, log)
  }

  // ----------------------------------------------------------------------- arrays

  /** The rest of an array after its opening bracket. */
  function AfterBracket(t: bytes, i: nat, flags: Flags, log: seq<Event>): (o: Outcome)
    requires i <= |t|
    ensures o.Parsed? ==> i < o.pos <= |t|
    decreases |t| - i, 3
  {
    var j := SkipSpace(t, i);
    if Peek(t, j) == RBRACKET then Parsed(j + 1, log + [EndArrayEvent(0)])
    else Elements(t, j, flags, 0, log)
  }

  /** The rest of an array from its element number `count` on. */
  function Elements(t: bytes, i: nat, flags: Flags, count: nat, log: seq<Event>): (o: Outcome)
    requires i <= |t|
    ensures o.Parsed? ==> i < o.pos <= |t|
    decreases |t| - i, 2
  {
    match Value(t, i, flags, log)
    case Failed(e, log1) => Failed(e, log1)
    case Parsed(p, log1) => AfterElement(t, p, flags, count + 1, log1)
  }

  /** The rest of an array after `count` complete elements. */
  function AfterElement(t: bytes, i: nat, flags: Flags, count: nat, log: seq<Event>): (o: Outcome)
    requires i <= |t|
    ensures o.Parsed? ==> i < o.pos <= |t|
    decreases |t| - i, 2
  {
    var j := SkipSpace(t, i);
    if Peek(t, j) == COMMA then AfterElementComma(t, j + 1, flags, count, log)
    else if Peek(t, j) == RBRACKET then Parsed(j + 1, log + [EndArrayEvent(count)])
    else Failed(ArrayMissCommaOrSquareBracket, log)
  }

  function AfterElementComma(t: bytes, i: nat, flags: Flags, count: nat, log: seq<Event>): (o: Outcome)
    requires i <= |t|
    ensures o.Parsed? ==> i < o.pos <= |t|
    decreases |t| - i, 3
  {
    var j := SkipSpace(t, i);
    if flags.trailingCommas && Peek(t, j) == RBRACKET then Parsed(j + 1, log + [EndArrayEvent(count)])
    else Elements(t, j, flags, count, log)
  }

  // -------------------------------------------------------------------- documents

  /** What follows a complete root value. */
  function AfterRoot(t: bytes, i: nat, flags: Flags, log: seq<Event>): Outcome
    requires i <= |t|
  {
    if flags.stopWhenDone then Parsed(i, log)
    else
      var j := SkipSpace(t, i);
      if Peek(t, j) != 0 then Failed(DocumentRootNotSingular, log) else Parsed(j, log)
  }

  function Root(t: bytes, i: nat, flags: Flags, log: seq<Event>): Outcome
    requires i <= |t|
  {
    var j := SkipSpace(t, i);
    if Peek(t, j) == 0 then Failed(DocumentEmpty, log)
    else match Value(t, j, flags, log)
      case Failed(e, log1) => Failed(e, log1)
      case Parsed(p, log1) => AfterRoot(t, p, flags, log1)
  }

  function Document(t: bytes, flags: Flags): Outcome {
    Root(t, 0, flags, [])
  }
}
