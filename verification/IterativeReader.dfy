/** The table-driven parser: one loop, a prediction table and an explicit stack. */
module IterativeReader {
  import opened Bytes
  import opened Streams
  import opened Events
  import opened StringText
  import opened StringReader
  import opened Numbers
  import opened Grammar
  import opened Reader

  datatype State =
    | Finish
    | Error
    | Start
    | ObjectInitial
    | MemberKey
    | MemberValue
    | ObjectFinish
    | ArrayInitial
    | Element
    | ArrayFinish
    | SingleValue
    | ElementDelimiter
    | MemberDelimiter
    | KeyValueDelimiter

  datatype Token =
    | LeftBracket
    | RightBracket
    | LeftCurlyBracket
    | RightCurlyBracket
    | CommaToken
    | ColonToken
    | StringToken
    | FalseToken
    | TrueToken
    | NullToken
    | NumberToken

  function Tokenize(c: byte): Token {
    match c
    case 0x22 => StringToken
    case 0x2C => CommaToken
    case 0x3A => ColonToken
    case 0x5B => LeftBracket
    case 0x5D => RightBracket
    case 0x66 => FalseToken
    case 0x6E => NullToken
    case 0x74 => TrueToken
    case 0x7B => LeftCurlyBracket
    case 0x7D => RightCurlyBracket
    case _ => NumberToken
  }

  /** One row of the table where a value may stand: `value` for a scalar, `close` on a right bracket. */
  function ValueRow(token: Token, value: State, close: State): State {
    match token
    case LeftBracket => ArrayInitial
    case RightBracket => close
    case LeftCurlyBracket => ObjectInitial
    case RightCurlyBracket => Error
    case CommaToken => Error
    case ColonToken => Error
    case _ => value
  }

  /** Current state and one token of lookahead give the state to move to. */
  function Predict(state: State, token: Token): State {
    match state
    case Start => ValueRow(token, SingleValue, Error)
    case ArrayInitial => ValueRow(token, Element, ArrayFinish)
    case ElementDelimiter => ValueRow(token, Element, ArrayFinish)
    case KeyValueDelimiter => ValueRow(token, MemberValue, Error)
    case ObjectInitial =>
      if token == RightCurlyBracket then ObjectFinish else if token == StringToken then MemberKey else Error
    case MemberDelimiter =>
      if token == RightCurlyBracket then ObjectFinish else if token == StringToken then MemberKey else Error
    case MemberKey => if token == ColonToken then KeyValueDelimiter else Error
    case MemberValue =>
      if token == RightCurlyBracket then ObjectFinish else if token == CommaToken then MemberDelimiter else Error
    case Element =>
      if token == RightBracket then ArrayFinish else if token == CommaToken then ElementDelimiter else Error
    case _ => Error
  }

  /** The error reported when `state` can go no further. */
  function StuckError(state: State): ParseError {
    match state
    case Start => DocumentEmpty
    case Finish => DocumentRootNotSingular
    case ObjectInitial => ObjectMissName
    case MemberDelimiter => ObjectMissName
    case MemberKey => ObjectMissColon
    case MemberValue => ObjectMissCommaOrCurlyBracket
    case KeyValueDelimiter => ValueInvalid
    case ArrayInitial => ValueInvalid
    case ElementDelimiter => ValueInvalid
    case _ => ArrayMissCommaOrSquareBracket
  }

  /** An open container: the state to return to when it closes, and its member or element count. */
  datatype Frame = Frame(state: State, count: nat)

  // ------------------------------------------- what is still to come, recursively

  predicate InObject(state: State) {
    state in {ObjectInitial, MemberKey, MemberValue, MemberDelimiter, KeyValueDelimiter}
  }

  predicate InArray(state: State) {
    state in {ArrayInitial, Element, ElementDelimiter}
  }

  ghost predicate Valid(state: State, stack: seq<Frame>) {
    && (if state == Start || state == Finish then stack == [] else (InObject(state) || InArray(state)) && stack != [])
    && (state == ObjectInitial || state == ArrayInitial ==> Top(stack).count == 0)
    && forall k :: 0 <= k < |stack| ==>
         if k == 0 then stack[k].state == Start else stack[k].state == Element || stack[k].state == MemberValue
  }

  function Top(stack: seq<Frame>): Frame {
    if stack == [] then Frame(Start, 0) else stack[|stack| - 1]
  }

  /** The rest of the innermost container. */
  function Local(t: bytes, i: nat, flags: Flags, state: State, count: nat, log: seq<Event>): (o: Outcome)
    requires i <= |t|
    ensures o.Parsed? ==> i < o.pos <= |t|
  {
    match state
    case ObjectInitial => AfterBrace(t, i, flags, log)
    case MemberKey => AfterName(t, i, flags, count, log)
    case KeyValueDelimiter => AfterColon(t, i, flags, count, log)
    case MemberValue => AfterMember(t, i, flags, count + 1, log)
    case MemberDelimiter => AfterMemberComma(t, i, flags, count, log)
    case ArrayInitial => AfterBracket(t, i, flags, log)
    case Element => AfterElement(t, i, flags, count + 1, log)
    case ElementDelimiter => AfterElementComma(t, i, flags, count, log)
    case _ => Failed(ValueInvalid, log)
  }

  /** What recursive descent would still do, were it stopped at `i` in `state` inside the containers of `stack`. */
  function Resume(t: bytes, i: nat, flags: Flags, state: State, stack: seq<Frame>, log: seq<Event>): Outcome
    requires i <= |t|
    decreases |stack|, 1
  {
    if state == Finish then AfterRoot(t, i, flags, log)
    else if stack == [] then Root(t, i, flags, log)
    else Close(t, Local(t, i, flags, state, Top(stack).count, log), flags, stack)
  }

  /** The innermost container of `stack` has ended with outcome `o`. */
  function Close(t: bytes, o: Outcome, flags: Flags, stack: seq<Frame>): Outcome
    requires stack != [] && (o.Parsed? ==> o.pos <= |t|)
    decreases |stack|, 0
  {
    match o
    case Failed(e, log) => Failed(e, log)
    case Parsed(p, log) =>
      if |stack| == 1 then AfterRoot(t, p, flags, log)
      else Resume(t, p, flags, Top(stack).state, stack[..|stack| - 1], log)
  }

  // ------------------------------------------------------- one lemma per transition

  /** The table has no step from `state` at `i`, or the text ends there too early. */
  ghost predicate NoStep(t: bytes, i: nat, flags: Flags, state: State, stack: seq<Frame>) {
    && !IsSpace(Peek(t, i)) && Valid(state, stack)
    && (Predict(state, Tokenize(Peek(t, i))) == Error || Peek(t, i) == 0)
    && (state == Finish ==> !flags.stopWhenDone && Peek(t, i) != 0)
  }

  /** The error of a stuck state is the error recursive descent reports there. */
  lemma Stuck(t: bytes, i: nat, flags: Flags, state: State, stack: seq<Frame>, log: seq<Event>)
    requires i <= |t| && NoStep(t, i, flags, state, stack)
    requires state == Start ==> Peek(t, i) == 0
    ensures Resume(t, i, flags, state, stack, log) == Failed(StuckError(state), log)
  {
    hide Value, DecodeFrom;
    assert SkipSpace(t, i) == i;
    var count := Top(stack).count;
    if state == KeyValueDelimiter || InArray(state) {
      if state != Element {
        NoValue(t, i, flags, log);
        assert Elements(t, i, flags, count, log) == Failed(ValueInvalid, log);
      }
    } else if InObject(state) {
      assert Peek(t, i) != QUOTE ==> Members(t, i, flags, count, log) == Failed(ObjectMissName, log);
    }
    if state != Finish && state != Start {
      assert Local(t, i, flags, state, count, log) == Failed(StuckError(state), log);
    }
  }

  /** A closing bracket, a comma, a colon or the end of the text starts no value. */
  lemma NoValue(t: bytes, i: nat, flags: Flags, log: seq<Event>)
    requires i <= |t| && Peek(t, i) in {RBRACKET, RBRACE, COMMA, COLON, 0}
    ensures Value(t, i, flags, log) == Failed(ValueInvalid, log)
  {
  }

  /** A step has ended with outcome `o`, which leads to `state` if it is no failure. */
  function Continue(t: bytes, o: Outcome, flags: Flags, state: State, stack: seq<Frame>): Outcome
    requires o.Parsed? ==> o.pos <= |t|
  {
    match o
    case Failed(e, log) => Failed(e, log)
    case Parsed(p, log) => Resume(t, p, flags, state, stack, log)
  }

  /** A member name as a step of its own. */
  function Key(t: bytes, i: nat, flags: Flags, log: seq<Event>): (o: Outcome)
    requires i < |t|
    ensures o.Parsed? ==> i < o.pos <= |t|
  {
    match DecodeFrom(t, i + 1, flags.validateEncoding, [])
    case Bad(e) => Failed(e, log)
    case Good(name, next) => Parsed(next, log + [KeyEvent(name)])
  }

  /** The state after a complete value that was begun in `state`. */
  function ValueDone(state: State): State {
    match state
    case Start => Finish
    case KeyValueDelimiter => MemberValue
    case _ => Element
  }

  /** A value may begin in `state` with character `c`. */
  predicate ValueBegins(state: State, c: byte) {
    if state == Start then c != 0
    else state == KeyValueDelimiter || ((state == ArrayInitial || state == ElementDelimiter) && c != RBRACKET)
  }

  /** A value in the middle of a container, or at the root, leads to `ValueDone`. */
  lemma ValueStep(t: bytes, i: nat, flags: Flags, state: State, stack: seq<Frame>, log: seq<Event>)
    requires i <= |t| && !IsSpace(Peek(t, i)) && Valid(state, stack) && ValueBegins(state, Peek(t, i))
    ensures Resume(t, i, flags, state, stack, log) == Continue(t, Value(t, i, flags, log), flags, ValueDone(state), stack)
    ensures Valid(ValueDone(state), stack)
  {
    hide Value, AfterElement, AfterMember, AfterRoot;
    assert SkipSpace(t, i) == i;
    if state != Start {
      var count := Top(stack).count;
      if state != KeyValueDelimiter {
        assert Local(t, i, flags, state, count, log) == Elements(t, i, flags, count, log);
      }
      var o := Value(t, i, flags, log);
      if o.Parsed? {
        assert Local(t, i, flags, state, count, log) == Local(t, o.pos, flags, ValueDone(state), count, o.log);
      } else {
        assert Local(t, i, flags, state, count, log) == o;
      }
    }
  }

  /** The frame pushed for a container that opens in `state`. */
  function Opened(state: State): Frame {
    Frame(if state == Start then Start else ValueDone(state), 0)
  }

  /** Opening a container pushes the state to return to. */
  lemma OpenStep(t: bytes, i: nat, flags: Flags, state: State, stack: seq<Frame>, log: seq<Event>)
    requires i < |t| && Valid(state, stack) && ValueBegins(state, t[i])
    requires t[i] == LBRACE || t[i] == LBRACKET
    ensures var inner := if t[i] == LBRACE then ObjectInitial else ArrayInitial;
      var event := if t[i] == LBRACE then StartObjectEvent else StartArrayEvent;
      && Valid(inner, stack + [Opened(state)])
      && Resume(t, i, flags, state, stack, log) ==
         Resume(t, i + 1, flags, inner, stack + [Opened(state)], log + [event])
  {
    ValueStep(t, i, flags, state, stack, log);
    OpenValid(t, i, state, stack);
    assert state == Start <==> stack == [];
    hide AfterBrace, AfterBracket, AfterRoot, ValueBegins, Valid, Resume;
    var inner := if t[i] == LBRACE then ObjectInitial else ArrayInitial;
    var event := if t[i] == LBRACE then StartObjectEvent else StartArrayEvent;
    var o := Value(t, i, flags, log);
    ContainerOpens(t, i, flags, log);
    GrownResume(t, i + 1, flags, inner, stack, Opened(state), log + [event]);
    if state == Start && o.Parsed? {
      FinishResume(t, o.pos, flags, o.log);
    }
  }

  lemma FinishResume(t: bytes, i: nat, flags: Flags, log: seq<Event>)
    requires i <= |t|
    ensures Resume(t, i, flags, Finish, [], log) == AfterRoot(t, i, flags, log)
  {
  }

  lemma ContainerOpens(t: bytes, i: nat, flags: Flags, log: seq<Event>)
    requires i < |t| && (t[i] == LBRACE || t[i] == LBRACKET)
    ensures Value(t, i, flags, log) ==
      if t[i] == LBRACE then AfterBrace(t, i + 1, flags, log + [StartObjectEvent])
      else AfterBracket(t, i + 1, flags, log + [StartArrayEvent])
  {
    hide AfterBrace, AfterBracket;
  }

  /** At the start of a container, its rest is parsed, and then what its frame says. */
  lemma GrownResume(t: bytes, i: nat, flags: Flags, state: State, stack: seq<Frame>, frame: Frame, log: seq<Event>)
    requires i <= |t| && (state == ObjectInitial || state == ArrayInitial)
    ensures var o := if state == ObjectInitial then AfterBrace(t, i, flags, log) else AfterBracket(t, i, flags, log);
      Resume(t, i, flags, state, stack + [frame], log) ==
      if o.Failed? then o
      else if stack == [] then AfterRoot(t, o.pos, flags, o.log)
      else Resume(t, o.pos, flags, frame.state, stack, o.log)
  {
    hide AfterBrace, AfterBracket, AfterRoot;
    var grown := stack + [frame];
    assert grown[..|grown| - 1] == stack && Top(grown) == frame;
  }

  lemma OpenValid(t: bytes, i: nat, state: State, stack: seq<Frame>)
    requires i < |t| && Valid(state, stack) && ValueBegins(state, t[i])
    ensures Valid(ObjectInitial, stack + [Opened(state)]) && Valid(ArrayInitial, stack + [Opened(state)])
  {
  }

  /** A member name. */
  lemma KeyStep(t: bytes, i: nat, flags: Flags, state: State, stack: seq<Frame>, log: seq<Event>)
    requires i < |t| && t[i] == QUOTE && Valid(state, stack)
    requires state == ObjectInitial || state == MemberDelimiter
    ensures Resume(t, i, flags, state, stack, log) == Continue(t, Key(t, i, flags, log), flags, MemberKey, stack)
    ensures Valid(MemberKey, stack)
  {
    hide DecodeFrom, AfterName;
    assert SkipSpace(t, i) == i;
    var count := Top(stack).count;
    assert Local(t, i, flags, state, count, log) == Members(t, i, flags, count, log);
  }

  lemma ColonStep(t: bytes, i: nat, flags: Flags, stack: seq<Frame>, log: seq<Event>)
    requires i < |t| && t[i] == COLON && Valid(MemberKey, stack)
    ensures Resume(t, i, flags, MemberKey, stack, log) == Resume(t, i + 1, flags, KeyValueDelimiter, stack, log)
    ensures Valid(KeyValueDelimiter, stack)
  {
    hide AfterColon;
    assert SkipSpace(t, i) == i;
  }

  /** The stack with one more member or element counted in its innermost container. */
  function Counted(stack: seq<Frame>): seq<Frame>
    requires stack != []
  {
    stack[|stack| - 1 := Top(stack).(count := Top(stack).count + 1)]
  }

  /** A comma counts the member or element before it. */
  lemma CommaStep(t: bytes, i: nat, flags: Flags, state: State, stack: seq<Frame>, log: seq<Event>)
    requires i < |t| && t[i] == COMMA && Valid(state, stack) && (state == MemberValue || state == Element)
    ensures var next := if state == MemberValue then MemberDelimiter else ElementDelimiter;
      && Valid(next, Counted(stack))
      && Resume(t, i, flags, state, stack, log) == Resume(t, i + 1, flags, next, Counted(stack), log)
  {
    hide AfterElementComma, AfterMemberComma;
    assert SkipSpace(t, i) == i;
    var grown := Counted(stack);
    assert grown[..|grown| - 1] == stack[..|stack| - 1];
    assert Top(grown) == Frame(Top(stack).state, Top(stack).count + 1);
  }

  /** The count reported for a container that closes in `state`. */
  function FinalCount(state: State, count: nat): nat {
    if state == MemberValue || state == Element then count + 1 else count
  }

  /** The state to return to when the innermost container of `stack` has closed. */
  function Returned(stack: seq<Frame>): State {
    if Top(stack).state == Start then Finish else Top(stack).state
  }

  /** A closing bracket pops the frame, unless it follows a comma that may not trail. */
  lemma CloseStep(t: bytes, i: nat, flags: Flags, state: State, stack: seq<Frame>, log: seq<Event>)
    requires i < |t| && Valid(state, stack)
    requires Predict(state, Tokenize(t[i])) == (if InObject(state) then ObjectFinish else ArrayFinish)
    ensures var event := if InObject(state) then EndObjectEvent(FinalCount(state, Top(stack).count))
                         else EndArrayEvent(FinalCount(state, Top(stack).count));
      Resume(t, i, flags, state, stack, log) ==
      if !flags.trailingCommas && state == MemberDelimiter then Failed(ObjectMissName, log)
      else if !flags.trailingCommas && state == ElementDelimiter then Failed(ValueInvalid, log)
      else Resume(t, i + 1, flags, Returned(stack), stack[..|stack| - 1], log + [event])
    ensures Valid(Returned(stack), stack[..|stack| - 1])
  {
    ClosingCharacter(state, t[i]);
    CloseValid(state, stack);
    CloseLocal(t, i, flags, state, Top(stack).count, log);
    assert state != Start && state != Finish && stack != [];
    hide Value, AfterRoot, Local, Predict, Tokenize;
    assert |stack| == 1 <==> Top(stack).state == Start;
    hide Valid;
  }

  /** The states that close, and the character that closes them. */
  lemma ClosingCharacter(state: State, c: byte)
    requires Predict(state, Tokenize(c)) == (if InObject(state) then ObjectFinish else ArrayFinish)
    ensures if InObject(state) then c == RBRACE && state in {ObjectInitial, MemberDelimiter, MemberValue}
      else c == RBRACKET && state in {ArrayInitial, ElementDelimiter, Element}
  {
  }

  lemma FinishMeans(state: State, c: byte)
    ensures Predict(state, Tokenize(c)) == ObjectFinish ==>
      InObject(state) && state != Start && state != Finish && state != Element && state != ElementDelimiter
    ensures Predict(state, Tokenize(c)) == ArrayFinish ==>
      !InObject(state) && state != Start && state != Finish && state != MemberValue && state != MemberDelimiter
  {
  }

  lemma ReturnedState(state: State, stack: seq<Frame>)
    requires Valid(state, stack) && stack != []
    ensures Returned(stack) != Start && Returned(stack) != Error
  {
    assert Top(stack) == stack[|stack| - 1];
  }

  lemma CloseValid(state: State, stack: seq<Frame>)
    requires Valid(state, stack) && stack != []
    ensures Valid(Returned(stack), stack[..|stack| - 1])
  {
    assert Top(stack) == stack[|stack| - 1];
  }

  lemma CloseLocal(t: bytes, i: nat, flags: Flags, state: State, count: nat, log: seq<Event>)
    requires i < |t| && (state == ObjectInitial || state == ArrayInitial ==> count == 0)
    requires if InObject(state) then t[i] == RBRACE && state in {ObjectInitial, MemberDelimiter, MemberValue}
      else t[i] == RBRACKET && state in {ArrayInitial, ElementDelimiter, Element}
    ensures var event := if InObject(state) then EndObjectEvent(FinalCount(state, count))
                         else EndArrayEvent(FinalCount(state, count));
      Local(t, i, flags, state, count, log) ==
      if !flags.trailingCommas && state == MemberDelimiter then Failed(ObjectMissName, log)
      else if !flags.trailingCommas && state == ElementDelimiter then Failed(ValueInvalid, log)
      else Parsed(i + 1, log + [event])
  {
    hide Value, DecodeFrom;
    assert SkipSpace(t, i) == i;
    if state == ElementDelimiter && !flags.trailingCommas {
      NoValue(t, i, flags, log);
      assert Elements(t, i, flags, count, log) == Failed(ValueInvalid, log);
    }
    if state == MemberDelimiter && !flags.trailingCommas {
      assert Members(t, i, flags, count, log) == Failed(ObjectMissName, log);
    }
  }

  /** Where the steps that take one token come from. */
  lemma PredictMeans(state: State, c: byte)
    ensures var d := Predict(state, Tokenize(c));
      && (d == MemberKey ==> c == QUOTE && (state == ObjectInitial || state == MemberDelimiter))
      && (d == KeyValueDelimiter ==> c == COLON && state == MemberKey)
      && (d == MemberDelimiter ==> c == COMMA && state == MemberValue)
      && (d == ElementDelimiter ==> c == COMMA && state == Element)
      && d != Start && d != Finish
  {
  }

  // --------------------------------------------------------------------- the code

  /** A root value that starts with a closing bracket, a comma or a colon. */
  predicate StrayRoot(t: bytes) {
    Peek(t, SkipSpace(t, 0)) in {RBRACKET, RBRACE, COMMA, COLON}
  }

  /** The outcome of the table-driven parser: the recursive one's, but for the error code of a stray root. */
  function IterativeOutcome(t: bytes, flags: Flags): Outcome {
    if StrayRoot(t) then Failed(DocumentEmpty, []) else Document(t, flags)
  }

  /** A step from (`i`, `src`, `stack`) has led to `d` without changing what recursive descent would report. */
  ghost predicate Stepped(t: bytes, i: nat, flags: Flags, src: State, stack: seq<Frame>, log: seq<Event>,
                          d: State, next: nat, stack1: seq<Frame>, log1: seq<Event>, err: ParseError)
    requires i <= |t|
  {
    if d == Error then
      err != NoError && Resume(t, i, flags, src, stack, log) == Failed(err, log1)
    else
      && err == NoError && d != Start && Valid(d, stack1) && i < next <= |t|
      && Resume(t, i, flags, src, stack, log) == Resume(t, next, flags, d, stack1, log1)
  }

  class Parser {
    var stack: seq<Frame>
    var err: ParseError

    constructor ()
      ensures stack == [] && err == NoError
    {
      stack, err := [], NoError;
    }

    lemma ValidStack(state: State, stack: seq<Frame>)
      requires Valid(state, stack)
      ensures state != Start && state != Finish ==> stack != []
    {
    }

    /** Opens a container: pushes its frame. */
    method TransitOpen(src: State, dst: State, s: StringStream, h: Handler, flags: Flags) returns (d: State)
      requires err == NoError && Valid(src, stack)
      requires s.src < |s.text| && dst == Predict(src, Tokenize(s.text[s.src]))
      requires dst == ObjectInitial || dst == ArrayInitial
      modifies this, s, h
      ensures Stepped(s.text, old(s.src), flags, src, old(stack), old(h.log), d, s.src, stack, h.log, err)
    {
      hide Resume;
      OpenStep(s.text, s.src, flags, src, stack, h.log);
      stack := stack + [Opened(src)];
      h.Emit(if dst == ObjectInitial then StartObjectEvent else StartArrayEvent);
      var _ := s.Take();
      d := dst;
    }

    /** Closes a container: pops its frame and reports its count. */
    method TransitClose(src: State, dst: State, s: StringStream, h: Handler, flags: Flags) returns (d: State)
      requires err == NoError && Valid(src, stack)
      requires s.src < |s.text| && dst == Predict(src, Tokenize(s.text[s.src]))
      requires dst == ObjectFinish || dst == ArrayFinish
      modifies this, s, h
      ensures Stepped(s.text, old(s.src), flags, src, old(stack), old(h.log), d, s.src, stack, h.log, err)
    {
      hide Resume, Tokenize, Predict, Valid;
      FinishMeans(src, s.Peek());
      ValidStack(src, stack);
      CloseStep(s.text, s.src, flags, src, stack, h.log);
      if !flags.trailingCommas && (src == MemberDelimiter || src == ElementDelimiter) {
        err := if dst == ObjectFinish then ObjectMissName else ValueInvalid;
        return Error;
      }
      var c := Top(stack).count;
      if src == MemberValue || src == Element {
        c := c + 1;
      }
      d := Returned(stack);
      ReturnedState(src, stack);
      stack := stack[..|stack| - 1];
      h.Emit(if dst == ObjectFinish then EndObjectEvent(c) else EndArrayEvent(c));
      var _ := s.Take();
    }

    /** Parses a scalar value on the spot. */
    method TransitValue(src: State, dst: State, s: StringStream, h: Handler, flags: Flags) returns (d: State)
      requires err == NoError && Valid(src, stack)
      requires s.src < |s.text| && s.text[s.src] != 0 && !IsSpace(s.text[s.src])
      requires dst == Predict(src, Tokenize(s.text[s.src]))
      requires dst == MemberValue || dst == Element || dst == SingleValue
      modifies this, s, h
      ensures Stepped(s.text, old(s.src), flags, src, old(stack), old(h.log), d, s.src, stack, h.log, err)
    {
      hide Resume, Value;
      ValueStep(s.text, s.src, flags, src, stack, h.log);
      err := ParseValue(s, h, flags);
      d := if err != NoError then Error else if dst == SingleValue then Finish else dst;
    }

    method TransitKey(src: State, dst: State, s: StringStream, h: Handler, flags: Flags) returns (d: State)
      requires err == NoError && Valid(src, stack) && dst == MemberKey
      requires s.src < |s.text| && s.text[s.src] == QUOTE && (src == ObjectInitial || src == MemberDelimiter)
      modifies this, s, h
      ensures Stepped(s.text, old(s.src), flags, src, old(stack), old(h.log), d, s.src, stack, h.log, err)
    {
      hide Resume, DecodeFrom, Valid;
      KeyStep(s.text, s.src, flags, src, stack, h.log);
      err := ParseString(s, h, flags, true);
      d := if err != NoError then Error else dst;
    }

    method TransitComma(src: State, dst: State, s: StringStream, ghost log: seq<Event>, flags: Flags) returns (d: State)
      requires err == NoError && Valid(src, stack) && s.src < |s.text| && s.text[s.src] == COMMA
      requires (src == MemberValue && dst == MemberDelimiter) || (src == Element && dst == ElementDelimiter)
      modifies this, s
      ensures Stepped(s.text, old(s.src), flags, src, old(stack), log, d, s.src, stack, log, err)
    {
      hide Resume, Valid;
      ValidStack(src, stack);
      CommaStep(s.text, s.src, flags, src, stack, log);
      var _ := s.Take();
      stack := Counted(stack);
      d := dst;
    }


    /** Takes the step the table predicts; the state it returns may come from a popped frame. */
    method Transit(src: State, dst: State, s: StringStream, h: Handler, flags: Flags) returns (d: State)
      requires err == NoError && Valid(src, stack)
      requires s.src < |s.text| && s.text[s.src] != 0 && !IsSpace(s.text[s.src])
      requires dst == Predict(src, Tokenize(s.text[s.src]))
      modifies this, s, h
      ensures dst == Error ==> d == Error && err == NoError && h.log == old(h.log) && stack == old(stack)
      ensures dst != Error ==>
        Stepped(s.text, old(s.src), flags, src, old(stack), old(h.log), d, s.src, stack, h.log, err)
    {
      hide Resume, Value, DecodeFrom, Tokenize, Predict, Valid;
      ghost var t, i, log := s.text, s.src, h.log;
      PredictMeans(src, s.Peek());
      match dst
      case Error =>
        d := dst;
      case ObjectInitial =>
        d := TransitOpen(src, dst, s, h, flags);
      case ArrayInitial =>
        d := TransitOpen(src, dst, s, h, flags);
      case MemberKey =>
        d := TransitKey(src, dst, s, h, flags);
      case KeyValueDelimiter =>
        ColonStep(t, i, flags, stack, log);
        var _ := s.Take();
        d := dst;
      case MemberDelimiter =>
        d := TransitComma(src, dst, s, h.log, flags);
      case ElementDelimiter =>
        d := TransitComma(src, dst, s, h.log, flags);
      case ObjectFinish =>
        d := TransitClose(src, dst, s, h, flags);
      case ArrayFinish =>
        d := TransitClose(src, dst, s, h, flags);
      case MemberValue =>
        d := TransitValue(src, dst, s, h, flags);
      case Element =>
        d := TransitValue(src, dst, s, h, flags);
      case SingleValue =>
        d := TransitValue(src, dst, s, h, flags);
    }

    /** An error that was found while stepping stays. Where the table has no step, the error is the one that recursive
        descent reports at `i` after `log`; on a stray root it is DocumentEmpty instead. */
    method HandleError(state: State, ghost t: bytes, ghost i: nat, ghost flags: Flags, ghost log: seq<Event>)
      requires i <= |t| && (err == NoError ==> NoStep(t, i, flags, state, stack))
      modifies this`err
      ensures err != NoError
      ensures old(err) != NoError ==> err == old(err)
      ensures old(err) == NoError && (state == Start ==> Peek(t, i) == 0) ==>
        Resume(t, i, flags, state, stack, log) == Failed(err, log)
      ensures old(err) == NoError && state == Start ==> err == DocumentEmpty
    {
      if err == NoError {
        err := StuckError(state);
        if state == Start ==> Peek(t, i) == 0 {
          Stuck(t, i, flags, state, stack, log);
        }
        hide Resume, NoStep;
      }
    }

    /** Parses a document with the table; it agrees with recursive descent except on a stray root. */
    method IterativeParse(s: StringStream, h: Handler, flags: Flags)
      requires s.src == 0 && h.log == [] && stack == [] && err == NoError
      modifies this, s, h
      ensures Reached(IterativeOutcome(s.text, flags), err, s.src, h.log)
    {
      hide Value, Resume, Document, Valid, Tokenize, Predict, StrayRoot;
      ghost var t := s.text;
      var state := Start;
      SkipWhitespace(s);
      ParseStarts(t, flags);
      var done := false;
      while !done && s.Peek() != 0
        invariant err == NoError && s.src <= |t| && Valid(state, stack)
        invariant Resume(t, s.src, flags, state, stack, h.log) == Document(t, flags)
        invariant !done ==> !IsSpace(s.Peek())
        invariant state == Start ==> s.src == SkipSpace(t, 0) && h.log == []
        invariant state != Start ==> !StrayRoot(t)
        invariant done <==> flags.stopWhenDone && state == Finish
        decreases |t| - s.src, !done
      {
        ghost var i := s.src;
        var n := Predict(state, Tokenize(s.Peek()));
        StrayIffStuck(t);
        var d := Transit(state, n, s, h, flags);
        if d == Error {
          HandleError(state, t, i, flags, h.log);
          return;
        }
        state := d;
        if flags.stopWhenDone && state == Finish {
          done := true;
        } else {
          ghost var p := s.src;
          SkipWhitespace(s);
          ResumeAfterSpace(t, p, flags, state, stack, h.log);
        }
      }
      if state != Finish {
        if state == Start {
          NotStray(t);
        }
        HandleError(state, t, s.src, flags, h.log);
      } else {
        ParseEnds(t, s.src, flags, stack, h.log);
      }
    }
  }

  lemma ParseStarts(t: bytes, flags: Flags)
    ensures Valid(Start, []) && !IsSpace(Peek(t, SkipSpace(t, 0)))
    ensures Resume(t, SkipSpace(t, 0), flags, Start, [], []) == Document(t, flags)
  {
    hide Value;
    SkipSpaceTwice(t, 0);
  }

  /** A finished parse stands at its end. */
  lemma ParseEnds(t: bytes, i: nat, flags: Flags, stack: seq<Frame>, log: seq<Event>)
    requires i <= |t| && Valid(Finish, stack) && (flags.stopWhenDone || Peek(t, i) == 0)
    ensures Resume(t, i, flags, Finish, stack, log) == Parsed(i, log)
  {
    assert Peek(t, i) == 0 ==> SkipSpace(t, i) == i;
  }

  /** The table has no step from the start on exactly the characters of a stray root. */
  lemma StrayIffStuck(t: bytes)
    ensures StrayRoot(t) <==> Predict(Start, Tokenize(Peek(t, SkipSpace(t, 0)))) == Error
  {
  }

  lemma NotStray(t: bytes)
    requires Peek(t, SkipSpace(t, 0)) == 0
    ensures !StrayRoot(t)
  {
  }

  /** Skipping whitespace early changes nothing, except where the parse stops without looking ahead. */
  lemma ResumeAfterSpace(t: bytes, i: nat, flags: Flags, state: State, stack: seq<Frame>, log: seq<Event>)
    requires i <= |t| && Valid(state, stack)
    requires state == Finish ==> !flags.stopWhenDone
    ensures Resume(t, SkipSpace(t, i), flags, state, stack, log) == Resume(t, i, flags, state, stack, log)
  {
    hide Value, Members, Elements;
    SkipSpaceTwice(t, i);
  }

  /** On a stray root the recursive parser reports an invalid value, before any event. */
  lemma StrayRootError(t: bytes, flags: Flags)
    requires StrayRoot(t)
    ensures Document(t, flags) == Failed(ValueInvalid, [])
  {
    NoValue(t, SkipSpace(t, 0), flags, []);
  }

  /** Running both parsers on one text: same acceptance, same events, and the same code except on a stray root. */
  method ParseBothWays(text: bytes, flags: Flags)
    returns (recursive: ParseError, iterative: ParseError, log0: seq<Event>, log1: seq<Event>)
    ensures log0 == log1
    ensures recursive == NoError <==> iterative == NoError
    ensures !StrayRoot(text) ==> recursive == iterative
    ensures StrayRoot(text) ==> recursive == ValueInvalid && iterative == DocumentEmpty
  {
    hide Document;
    if StrayRoot(text) {
      StrayRootError(text, flags);
    }
    var s0 := new StringStream(text);
    var h0 := new Handler();
    recursive := Parse(s0, h0, flags);
    var s1 := new StringStream(text);
    var h1 := new Handler();
    var parser := new Parser();
    parser.IterativeParse(s1, h1, flags);
    iterative, log0, log1 := parser.err, h0.log, h1.log;
  }
}
