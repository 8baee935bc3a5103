/** Printing a document and parsing the text again rebuilds the document. */
module RoundTrip {
  import opened Bytes
  import opened Streams
  import opened Events
  import opened Utf8
  import opened StringText
  import opened StringWriter
  import opened Numbers
  import opened Grammar
  import opened Reader
  import opened Dom
  import opened Printer

  // --------------------------------------------------- the events of a printed tree

  /** The events the reader reports for the printed form of `v`, after those in `log`. */
  ghost function ReaderEvents(v: Json, log: seq<Event>): seq<Event>
    requires ValidTree(v)
    decreases v, 0
  {
    match v
    case Null => log + [NullEvent]
    case Bool(b) => log + [BoolEvent(b)]
    case Number(value, _) => log + [IntegerEvent(value < 0, if value < 0 then -value else value).value]
    case String(str) => log + [StringEvent(str)]
    case Array(elements) => ElementEvents(elements, 0, log + [StartArrayEvent])
    case Object(members) => MemberEvents(members, 0, log + [StartObjectEvent])
  }

  ghost function ElementEvents(vs: seq<Json>, k: nat, log: seq<Event>): seq<Event>
    requires k <= |vs| && forall j :: 0 <= j < |vs| ==> ValidTree(vs[j])
    decreases vs, |vs| - k
  {
    if k == |vs| then log + [EndArrayEvent(|vs|)] else ElementEvents(vs, k + 1, ReaderEvents(vs[k], log))
  }

  ghost function MemberEvents(ms: seq<Member>, k: nat, log: seq<Event>): seq<Event>
    requires k <= |ms| && forall j :: 0 <= j < |ms| ==> ValidTree(ms[j].value)
    decreases ms, |ms| - k
  {
    if k == |ms| then log + [EndObjectEvent(|ms|)]
    else MemberEvents(ms, k + 1, ReaderEvents(ms[k].value, log + [KeyEvent(ms[k].name)]))
  }

  // -------------------------------------------------------- those events rebuild it

  lemma BuildNext(log: seq<Event>, e: Event)
    ensures BuildAll(log + [e]) == match BuildAll(log) case None => None case Some(stack) => Build(stack, e)
  {
    assert (log + [e])[..|log + [e]| - 1] == log;
  }

  lemma {:induction false} PopAllMembers(below: seq<Json>, ms: seq<Member>, k: nat)
    requires k <= |ms|
    ensures PopMembers(below + Flat(ms, k), k) == Some(ms[..k])
  {
    if k > 0 {
      PopAllMembers(below, ms, k - 1);
      var stack := below + Flat(ms, k);
      assert stack[..|stack| - 2] == below + Flat(ms, k - 1);
      assert ms[..k] == ms[..k - 1] + [ms[k - 1]];
    }
  }

  /** The first `k` members as they lie on the stack: name, value, name, value, and so on. */
  function Flat(ms: seq<Member>, k: nat): (f: seq<Json>)
    requires k <= |ms|
    ensures |f| == 2 * k
  {
    if k == 0 then [] else Flat(ms, k - 1) + [String(ms[k - 1].name), ms[k - 1].value]
  }

  /** Feeding the events of a printed tree to the builder pushes exactly that tree. */
  lemma {:induction false} Rebuild(v: Json, log: seq<Event>, stack: seq<Json>)
    requires ValidTree(v) && BuildAll(log) == Some(stack)
    ensures BuildAll(ReaderEvents(v, log)) == Some(stack + [v])
    decreases v, 0
  {
    hide BuildAll, PopMembers;
    match v
    case Null => BuildNext(log, NullEvent);
    case Bool(b) => BuildNext(log, BoolEvent(b));
    case Number(value, _) =>
      FlagsAreExact(value);
      BuildNext(log, IntegerEvent(value < 0, if value < 0 then -value else value).value);
    case String(str) => BuildNext(log, StringEvent(str));
    case Array(elements) =>
      BuildNext(log, StartArrayEvent);
      assert stack + [Array([])] == stack + [Array([])] + elements[..0];
      RebuildElements(elements, 0, log + [StartArrayEvent], stack);
    case Object(members) =>
      BuildNext(log, StartObjectEvent);
      assert stack + [Object([])] == stack + [Object([])] + Flat(members, 0);
      RebuildMembers(members, 0, log + [StartObjectEvent], stack);
  }

  lemma {:induction false} RebuildElements(vs: seq<Json>, k: nat, log: seq<Event>, stack: seq<Json>)
    requires k <= |vs| && forall j :: 0 <= j < |vs| ==> ValidTree(vs[j])
    requires BuildAll(log) == Some(stack + [Array([])] + vs[..k])
    ensures BuildAll(ElementEvents(vs, k, log)) == Some(stack + [Array(vs)])
    decreases vs, |vs| - k
  {
    hide BuildAll, PopMembers;
    var full := stack + [Array([])] + vs[..k];
    if k == |vs| {
      BuildNext(log, EndArrayEvent(|vs|));
      assert full[..|full| - |vs| - 1] == stack && full[|full| - |vs|..] == vs;
    } else {
      Rebuild(vs[k], log, full);
      assert vs[..k + 1] == vs[..k] + [vs[k]];
      assert full + [vs[k]] == stack + [Array([])] + vs[..k + 1];
      RebuildElements(vs, k + 1, ReaderEvents(vs[k], log), stack);
    }
  }

  lemma {:induction false} RebuildMembers(ms: seq<Member>, k: nat, log: seq<Event>, stack: seq<Json>)
    requires k <= |ms| && forall j :: 0 <= j < |ms| ==> ValidTree(ms[j].value)
    requires BuildAll(log) == Some(stack + [Object([])] + Flat(ms, k))
    ensures BuildAll(MemberEvents(ms, k, log)) == Some(stack + [Object(ms)])
    decreases ms, |ms| - k
  {
    hide BuildAll, PopMembers;
    var full := stack + [Object([])] + Flat(ms, k);
    if k == |ms| {
      BuildNext(log, EndObjectEvent(|ms|));
      PopAllMembers(stack + [Object([])], ms, |ms|);
      assert full[..|full| - 2 * |ms| - 1] == stack && ms[..|ms|] == ms;
    } else {
      BuildNext(log, KeyEvent(ms[k].name));
      var named := full + [String(ms[k].name)];
      Rebuild(ms[k].value, log + [KeyEvent(ms[k].name)], named);
      assert named + [ms[k].value] == stack + [Object([])] + Flat(ms, k + 1);
      RebuildMembers(ms, k + 1, ReaderEvents(ms[k].value, log + [KeyEvent(ms[k].name)]), stack);
    }
  }

  // ---------------------------------------------------- the reader reports those events

  /** Every string of the tree is UTF-8; needed only when the reader validates encodings. */
  ghost predicate Encoded(v: Json) {
    match v
    case String(str) => DecodeAll(str, 0).Some?
    case Array(elements) => forall k :: 0 <= k < |elements| ==> Encoded(elements[k])
    case Object(members) =>
      forall k :: 0 <= k < |members| ==> DecodeAll(members[k].name, 0).Some? && Encoded(members[k].value)
    case _ => true
  }

  /** A character that ends a value: it neither continues a number nor is part of one. */
  predicate Delimiter(c: byte) {
    c in {0, COMMA, RBRACKET, RBRACE} || IsSpace(c)
  }

  lemma SkipGap(t: bytes, i: nat, gap: bytes)
    requires At(t, i, gap) && forall k :: 0 <= k < |gap| ==> IsSpace(gap[k])
    requires !IsSpace(Peek(t, i + |gap|))
    ensures i <= |t| && SkipSpace(t, i) == i + |gap|
  {
    var j := SkipSpace(t, i);
    forall k | i <= k < i + |gap| ensures IsSpace(Peek(t, k)) {
      AtPeek(t, i, gap, k - i);
    }
    assert !IsSpace(Peek(t, j));
  }

  lemma GapIsSpace(style: Style, inArray: bool, count: nat, depth: nat)
    requires ValidStyle(style)
    ensures forall k :: 0 <= k < |Gap(style, inArray, count, depth)| ==> IsSpace(Gap(style, inArray, count, depth)[k])
    ensures forall k :: 0 <= k < |Tail(style, inArray, count, depth)| ==> IsSpace(Tail(style, inArray, count, depth)[k])
  {
  }

  lemma DecimalHead(n: nat)
    ensures IsDigit(Decimal(n)[0])
  {
    if n >= 10 {
      DecimalHead(n / 10);
    }
  }

  /** The first character of a printed value is no whitespace and closes nothing. */
  lemma PrintHead(v: Json, style: Style, depth: nat)
    requires ValidTree(v)
    ensures var p := Print(v, style, depth);
      p != [] && !IsSpace(p[0]) && p[0] !in {0, RBRACKET, RBRACE, COMMA, COLON}
  {
    hide PrintElements, PrintMembers, Escaped, Decimal;
    if v.Number? {
      DecimalHead(if v.value < 0 then -v.value else v.value);
    }
  }

  /** What follows a printed element begins with a delimiter. */
  lemma ElementsHead(vs: seq<Json>, k: nat, style: Style, depth: nat)
    requires 0 < k <= |vs| && ValidStyle(style)
    ensures var p := PrintElements(vs, k, style, depth); p != [] && Delimiter(p[0])
  {
    GapIsSpace(style, true, |vs|, depth);
  }

  lemma MembersHead(ms: seq<Member>, k: nat, style: Style, depth: nat)
    requires 0 < k <= |ms| && ValidStyle(style)
    ensures var p := PrintMembers(ms, k, style, depth); p != [] && Delimiter(p[0])
  {
    GapIsSpace(style, false, 2 * |ms|, depth);
  }

  lemma StandsAt(t: bytes, i: nat, v: Json, style: Style, depth: nat)
    requires ValidTree(v) && At(t, i, Print(v, style, depth))
    ensures Print(v, style, depth) != [] && i < |t| && t[i] == Print(v, style, depth)[0] == Peek(t, i)
  {
    hide Print, At, ValidTree;
    PrintHead(v, style, depth);
    AtPeek(t, i, Print(v, style, depth), 0);
  }

  /** The reader reports a printed value as its events, wherever it stands and whatever delimiter follows. */
  lemma {:induction false} ParsePrinted(t: bytes, i: nat, v: Json, style: Style, depth: nat, flags: Flags, log: seq<Event>)
    requires ValidTree(v) && ValidStyle(style) && (flags.validateEncoding ==> Encoded(v))
    requires At(t, i, Print(v, style, depth)) && Delimiter(Peek(t, i + |Print(v, style, depth)|))
    ensures Value(t, i, flags, log) == Parsed(i + |Print(v, style, depth)|, ReaderEvents(v, log))
    decreases v, 1
  {
    hide PrintElements, PrintMembers, AfterBrace, AfterBracket, Quoted, NumberAt, DecodeFrom;
    StandsAt(t, i, v, style, depth);
    match v
    case Null => AtomWord(t, i, NULL_WORD);
    case Bool(b) => AtomWord(t, i, if b then TRUE_WORD else FALSE_WORD);
    case Number(value, _) => PrintedInteger(t, i, value, flags);
    case String(str) => QuotedRoundTrip(t, i, str, false, flags.validateEncoding);
    case Array(elements) =>
      AtConcat(t, i, [LBRACKET], PrintElements(elements, 0, style, depth));
      ParsePrintedElements(t, i + 1, elements, 0, style, depth, flags, log + [StartArrayEvent]);
    case Object(members) =>
      AtConcat(t, i, [LBRACE], PrintMembers(members, 0, style, depth));
      ParsePrintedMembers(t, i + 1, members, 0, style, depth, flags, log + [StartObjectEvent]);
  }

  lemma AtomWord(t: bytes, i: nat, word: bytes)
    requires At(t, i, word) && word in {NULL_WORD, TRUE_WORD, FALSE_WORD}
    ensures Peek(t, i) == word[0]
  {
    AtPeek(t, i, word, 0);
  }

  /** What is left of an array from its element number `k` on. */
  function ArrayRest(t: bytes, i: nat, flags: Flags, k: nat, log: seq<Event>): Outcome
    requires i <= |t|
  {
    if k == 0 then AfterBracket(t, i, flags, log) else AfterElement(t, i, flags, k, log)
  }

  /** Skipping the separator of an element brings the reader to its value. */
  lemma ElementSeparator(t: bytes, i: nat, style: Style, k: nat, depth: nat, flags: Flags, log: seq<Event>)
    requires ValidStyle(style) && At(t, i, Mark(true, k)) && At(t, i + |Mark(true, k)|, Gap(style, true, k, depth))
    requires var c := Peek(t, i + |Mark(true, k)| + |Gap(style, true, k, depth)|); !IsSpace(c) && c != RBRACKET
    ensures i + |Mark(true, k)| + |Gap(style, true, k, depth)| <= |t|
    ensures ArrayRest(t, i, flags, k, log) ==
      Elements(t, i + |Mark(true, k)| + |Gap(style, true, k, depth)|, flags, k, log)
  {
    hide Elements, Gap;
    GapIsSpace(style, true, k, depth);
    SkipGap(t, i + |Mark(true, k)|, Gap(style, true, k, depth));
    if k > 0 {
      AtPeek(t, i, Mark(true, k), 0);
      assert SkipSpace(t, i) == i;
      assert AfterElement(t, i, flags, k, log) == AfterElementComma(t, i + 1, flags, k, log);
    }
  }

  lemma {:induction false} ParsePrintedElements(
    t: bytes, i: nat, vs: seq<Json>, k: nat, style: Style, depth: nat, flags: Flags, log: seq<Event>)
    requires k <= |vs| && ValidStyle(style)
    requires forall j :: 0 <= j < |vs| ==> ValidTree(vs[j]) && (flags.validateEncoding ==> Encoded(vs[j]))
    requires i <= |t| && At(t, i, PrintElements(vs, k, style, depth))
    ensures ArrayRest(t, i, flags, k, log) ==
      Parsed(i + |PrintElements(vs, k, style, depth)|, ElementEvents(vs, k, log))
    decreases vs, |vs| - k
  {
    hide Value, ValidTree, Encoded, Print, Mark, Gap, At, Elements, AfterElement, AfterBracket;
    if k == |vs| {
      ArrayEnd(t, i, vs, style, depth, flags, log);
    } else {
      var mark, gap := Mark(true, k), Gap(style, true, k, depth + 1);
      var text, rest := Print(vs[k], style, depth + 1), PrintElements(vs, k + 1, style, depth);
      AtConcat(t, i, mark, gap + (text + rest));
      AtConcat(t, i + |mark|, gap, text + rest);
      var j := i + |mark| + |gap|;
      AtConcat(t, j, text, rest);
      PrintHead(vs[k], style, depth + 1);
      AtPeek(t, j, text, 0);
      ElementSeparator(t, i, style, k, depth + 1, flags, log);
      ElementsHead(vs, k + 1, style, depth);
      AtPeek(t, j + |text|, rest, 0);
      ParsePrinted(t, j, vs[k], style, depth + 1, flags, log);
      ElementParsed(t, j, flags, k, log, j + |text|, ReaderEvents(vs[k], log));
      ParsePrintedElements(t, j + |text|, vs, k + 1, style, depth, flags, ReaderEvents(vs[k], log));
    }
  }

  lemma ElementParsed(t: bytes, i: nat, flags: Flags, k: nat, log: seq<Event>, p: nat, log1: seq<Event>)
    requires i <= |t| && Value(t, i, flags, log) == Parsed(p, log1)
    ensures Elements(t, i, flags, k, log) == ArrayRest(t, p, flags, k + 1, log1)
  {
    hide Value, AfterElement;
  }

  lemma ArrayEnd(t: bytes, i: nat, vs: seq<Json>, style: Style, depth: nat, flags: Flags, log: seq<Event>)
    requires ValidStyle(style) && i <= |t| && At(t, i, Tail(style, true, |vs|, depth) + [RBRACKET])
    ensures ArrayRest(t, i, flags, |vs|, log) ==
      Parsed(i + |Tail(style, true, |vs|, depth)| + 1, log + [EndArrayEvent(|vs|)])
  {
    hide Tail, Elements, AfterElementComma;
    GapIsSpace(style, true, |vs|, depth);
    AtConcat(t, i, Tail(style, true, |vs|, depth), [RBRACKET]);
    AtPeek(t, i + |Tail(style, true, |vs|, depth)|, [RBRACKET], 0);
    SkipGap(t, i, Tail(style, true, |vs|, depth));
  }

  /** What is left of an object from its member number `k` on. */
  function ObjectRest(t: bytes, i: nat, flags: Flags, k: nat, log: seq<Event>): Outcome
    requires i <= |t|
  {
    if k == 0 then AfterBrace(t, i, flags, log) else AfterMember(t, i, flags, k, log)
  }

  /** Skipping the separator of a member brings the reader to its name. */
  lemma MemberSeparator(t: bytes, i: nat, style: Style, k: nat, depth: nat, flags: Flags, log: seq<Event>)
    requires ValidStyle(style)
    requires At(t, i, Mark(false, 2 * k)) && At(t, i + |Mark(false, 2 * k)|, Gap(style, false, 2 * k, depth))
    requires Peek(t, i + |Mark(false, 2 * k)| + |Gap(style, false, 2 * k, depth)|) == QUOTE
    ensures i + |Mark(false, 2 * k)| + |Gap(style, false, 2 * k, depth)| <= |t|
    ensures ObjectRest(t, i, flags, k, log) ==
      Members(t, i + |Mark(false, 2 * k)| + |Gap(style, false, 2 * k, depth)|, flags, k, log)
  {
    hide Members, Gap;
    GapIsSpace(style, false, 2 * k, depth);
    SkipGap(t, i + |Mark(false, 2 * k)|, Gap(style, false, 2 * k, depth));
    if k > 0 {
      AtPeek(t, i, Mark(false, 2 * k), 0);
      assert SkipSpace(t, i) == i;
      assert AfterMember(t, i, flags, k, log) == AfterMemberComma(t, i + 1, flags, k, log);
    }
  }

  lemma ObjectEnd(t: bytes, i: nat, ms: seq<Member>, style: Style, depth: nat, flags: Flags, log: seq<Event>)
    requires ValidStyle(style) && i <= |t| && At(t, i, Tail(style, false, 2 * |ms|, depth) + [RBRACE])
    ensures ObjectRest(t, i, flags, |ms|, log) ==
      Parsed(i + |Tail(style, false, 2 * |ms|, depth)| + 1, log + [EndObjectEvent(|ms|)])
  {
    hide Tail, Members, AfterMemberComma;
    GapIsSpace(style, false, 2 * |ms|, depth);
    AtConcat(t, i, Tail(style, false, 2 * |ms|, depth), [RBRACE]);
    AtPeek(t, i + |Tail(style, false, 2 * |ms|, depth)|, [RBRACE], 0);
    SkipGap(t, i, Tail(style, false, 2 * |ms|, depth));
  }

  /** The name of member `k` is read back, and the reader stands before its colon. */
  lemma NameStep(t: bytes, i: nat, name: bytes, flags: Flags, k: nat, log: seq<Event>)
    requires At(t, i, Quoted(name, false)) && (flags.validateEncoding ==> DecodeAll(name, 0).Some?)
    ensures i < i + |Quoted(name, false)| <= |t| && Peek(t, i) == QUOTE
    ensures Members(t, i, flags, k, log) == AfterName(t, i + |Quoted(name, false)|, flags, k, log + [KeyEvent(name)])
  {
    hide DecodeFrom, Quoted, AfterName;
    QuotedRoundTrip(t, i, name, false, flags.validateEncoding);
  }

  /** The colon and the gap after it are skipped. */
  lemma ColonSkipped(t: bytes, i: nat, style: Style, count: nat, depth: nat, flags: Flags, k: nat, log: seq<Event>)
    requires ValidStyle(style) && i < |t| && t[i] == COLON && At(t, i + 1, Gap(style, false, count, depth))
    requires !IsSpace(Peek(t, i + 1 + |Gap(style, false, count, depth)|))
    ensures i + 1 + |Gap(style, false, count, depth)| <= |t|
    ensures AfterName(t, i, flags, k, log) ==
      Valued(t, Value(t, i + 1 + |Gap(style, false, count, depth)|, flags, log), flags, k)
  {
    hide Gap, Value, AfterMember;
    GapIsSpace(style, false, count, depth);
    SkipGap(t, i + 1, Gap(style, false, count, depth));
    assert SkipSpace(t, i) == i;
    assert AfterName(t, i, flags, k, log) == AfterColon(t, i + 1, flags, k, log);
  }

  /** A member value has been parsed with outcome `o`. */
  function Valued(t: bytes, o: Outcome, flags: Flags, k: nat): Outcome
    requires o.Parsed? ==> o.pos <= |t|
  {
    match o
    case Failed(e, log) => Failed(e, log)
    case Parsed(p, log) => AfterMember(t, p, flags, k + 1, log)
  }

  lemma {:induction false} ParsePrintedMembers(
    t: bytes, i: nat, ms: seq<Member>, k: nat, style: Style, depth: nat, flags: Flags, log: seq<Event>)
    requires k <= |ms| && ValidStyle(style)
    requires forall j :: 0 <= j < |ms| ==> ValidTree(ms[j].value)
    requires flags.validateEncoding ==>
      forall j :: 0 <= j < |ms| ==> DecodeAll(ms[j].name, 0).Some? && Encoded(ms[j].value)
    requires i <= |t| && At(t, i, PrintMembers(ms, k, style, depth))
    ensures ObjectRest(t, i, flags, k, log) ==
      Parsed(i + |PrintMembers(ms, k, style, depth)|, MemberEvents(ms, k, log))
    decreases ms, |ms| - k, 0
  {
    hide Value, ValidTree, Encoded, Print, Mark, Gap, At, AfterMemberComma, AfterName, Members, Quoted, DecodeAll;
    if k == |ms| {
      ObjectEnd(t, i, ms, style, depth, flags, log);
    } else {
      var mark, gap, name := Mark(false, 2 * k), Gap(style, false, 2 * k, depth + 1), Quoted(ms[k].name, false);
      var after := PrintValueOf(ms, k, style, depth);
      AtConcat(t, i, mark, gap + (name + after));
      AtConcat(t, i + |mark|, gap, name + after);
      var j := i + |mark| + |gap|;
      AtConcat(t, j, name, after);
      NameStep(t, j, ms[k].name, flags, k, log);
      MemberSeparator(t, i, style, k, depth + 1, flags, log);
      ParsePrintedValueOf(t, j + |name|, ms, k, style, depth, flags, log + [KeyEvent(ms[k].name)]);
    }
  }

  lemma {:induction false} ParsePrintedValueOf(
    t: bytes, i: nat, ms: seq<Member>, k: nat, style: Style, depth: nat, flags: Flags, log: seq<Event>)
    requires k < |ms| && ValidStyle(style)
    requires forall j :: 0 <= j < |ms| ==> ValidTree(ms[j].value)
    requires flags.validateEncoding ==>
      forall j :: 0 <= j < |ms| ==> DecodeAll(ms[j].name, 0).Some? && Encoded(ms[j].value)
    requires i <= |t| && At(t, i, PrintValueOf(ms, k, style, depth))
    ensures AfterName(t, i, flags, k, log) ==
      Parsed(i + |PrintValueOf(ms, k, style, depth)|, MemberEvents(ms, k + 1, ReaderEvents(ms[k].value, log)))
    decreases ms, |ms| - k - 1, 1
  {
    hide Value, ValidTree, Encoded, Print, Gap, At, AfterMember, AfterName, PrintMembers, DecodeAll;
    var gap, text := Gap(style, false, 2 * k + 1, depth + 1), Print(ms[k].value, style, depth + 1);
    var rest := PrintMembers(ms, k + 1, style, depth);
    AtConcat(t, i, [COLON], gap + (text + rest));
    AtPeek(t, i, [COLON], 0);
    AtConcat(t, i + 1, gap, text + rest);
    var j := i + 1 + |gap|;
    AtConcat(t, j, text, rest);
    PrintHead(ms[k].value, style, depth + 1);
    AtPeek(t, j, text, 0);
    ColonSkipped(t, i, style, 2 * k + 1, depth + 1, flags, k, log);
    MembersHead(ms, k + 1, style, depth);
    AtPeek(t, j + |text|, rest, 0);
    ParsePrinted(t, j, ms[k].value, style, depth + 1, flags, log);
    ParsePrintedMembers(t, j + |text|, ms, k + 1, style, depth, flags, ReaderEvents(ms[k].value, log));
  }

  /** The whole text of a document parses, and its events rebuild the document. */
  lemma PrintParse(v: Json, style: Style, flags: Flags)
    requires ValidTree(v) && ValidStyle(style) && (flags.validateEncoding ==> Encoded(v))
    ensures Document(Print(v, style, 0), flags) == Parsed(|Print(v, style, 0)|, ReaderEvents(v, []))
    ensures BuildAll(ReaderEvents(v, [])) == Some([v])
  {
    hide Value, Print;
    var t := Print(v, style, 0);
    PrintHead(v, style, 0);
    assert SkipSpace(t, 0) == 0;
    assert SkipSpace(t, |t|) == |t|;
    assert t[0..|t|] == t;
    ParsePrinted(t, 0, v, style, 0, flags, []);
    Rebuild(v, [], []);
    assert [] + [v] == [v];
  }

  // --------------------------------------------- every accepted text builds one root

  lemma {:induction false} ValueBuilds(t: bytes, i: nat, flags: Flags, log: seq<Event>, stack: seq<Json>) returns (v: Json)
    requires i <= |t| && BuildAll(log) == Some(stack) && Value(t, i, flags, log).Parsed?
    ensures BuildAll(Value(t, i, flags, log).log) == Some(stack + [v])
    decreases |t| - i, 1
  {
    hide BuildAll, DecodeFrom, NumberAt, AfterBrace, AfterBracket;
    var c := Peek(t, i);
    if c == LBRACE {
      BuildNext(log, StartObjectEvent);
      assert stack + [Object([])] == stack + [Object([])] + Flat([], 0);
      v := BraceBuilds(t, i + 1, flags, log + [StartObjectEvent], stack);
    } else if c == LBRACKET {
      BuildNext(log, StartArrayEvent);
      assert stack + [Array([])] == stack + [Array([])] + [];
      v := BracketBuilds(t, i + 1, flags, log + [StartArrayEvent], stack);
    } else {
      v := AtomBuilds(t, i, flags, log, stack);
    }
  }

  lemma AtomBuilds(t: bytes, i: nat, flags: Flags, log: seq<Event>, stack: seq<Json>) returns (v: Json)
    requires i <= |t| && BuildAll(log) == Some(stack) && Atom(t, i, flags, log).Parsed?
    ensures BuildAll(Atom(t, i, flags, log).log) == Some(stack + [v])
  {
    hide BuildAll, DecodeFrom, DecimalValue, DigitsEnd;
    var log1 := Atom(t, i, flags, log).log;
    var e := log1[|log|];
    assert log1 == log + [e];
    BuildNext(log, e);
    v := Build(stack, e).value[|stack|];
  }

  lemma {:induction false} BracketBuilds(t: bytes, i: nat, flags: Flags, log: seq<Event>, stack: seq<Json>)
    returns (v: Json)
    requires i <= |t| && BuildAll(log) == Some(stack + [Array([])] + []) && AfterBracket(t, i, flags, log).Parsed?
    ensures BuildAll(AfterBracket(t, i, flags, log).log) == Some(stack + [v])
    decreases |t| - i, 3
  {
    hide BuildAll, Build, Elements;
    var j := SkipSpace(t, i);
    if Peek(t, j) == RBRACKET {
      v := ArrayFolds(log, stack, []);
    } else {
      v := ElementsBuild(t, j, flags, [], log, stack);
    }
  }

  lemma ArrayFolds(log: seq<Event>, stack: seq<Json>, vs: seq<Json>) returns (v: Json)
    requires BuildAll(log) == Some(stack + [Array([])] + vs)
    ensures BuildAll(log + [EndArrayEvent(|vs|)]) == Some(stack + [v])
  {
    hide BuildAll;
    BuildNext(log, EndArrayEvent(|vs|));
    var full := stack + [Array([])] + vs;
    assert full[..|full| - |vs| - 1] == stack && full[|full| - |vs|..] == vs;
    v := Array(vs);
  }

  lemma {:induction false} ElementsBuild(t: bytes, i: nat, flags: Flags, vs: seq<Json>, log: seq<Event>, stack: seq<Json>)
    returns (v: Json)
    requires i <= |t| && BuildAll(log) == Some(stack + [Array([])] + vs) && Elements(t, i, flags, |vs|, log).Parsed?
    ensures BuildAll(Elements(t, i, flags, |vs|, log).log) == Some(stack + [v])
    decreases |t| - i, 2
  {
    hide BuildAll, Build, Value, AfterElementComma;
    var o := Value(t, i, flags, log);
    var w := ValueBuilds(t, i, flags, log, stack + [Array([])] + vs);
    var ws := vs + [w];
    assert stack + [Array([])] + vs + [w] == stack + [Array([])] + ws;
    var j := SkipSpace(t, o.pos);
    assert AfterElement(t, o.pos, flags, |ws|, o.log).Parsed?;
    if Peek(t, j) == COMMA {
      v := ElementCommaBuilds(t, j + 1, flags, ws, o.log, stack);
    } else {
      v := ArrayFolds(o.log, stack, ws);
    }
  }

  lemma {:induction false} ElementCommaBuilds(
    t: bytes, i: nat, flags: Flags, vs: seq<Json>, log: seq<Event>, stack: seq<Json>) returns (v: Json)
    requires i <= |t| && BuildAll(log) == Some(stack + [Array([])] + vs)
    requires AfterElementComma(t, i, flags, |vs|, log).Parsed?
    ensures BuildAll(AfterElementComma(t, i, flags, |vs|, log).log) == Some(stack + [v])
    decreases |t| - i, 3
  {
    hide BuildAll, Build, Elements;
    var j := SkipSpace(t, i);
    if flags.trailingCommas && Peek(t, j) == RBRACKET {
      v := ArrayFolds(log, stack, vs);
    } else {
      v := ElementsBuild(t, j, flags, vs, log, stack);
    }
  }

  lemma {:induction false} BraceBuilds(t: bytes, i: nat, flags: Flags, log: seq<Event>, stack: seq<Json>)
    returns (v: Json)
    requires i <= |t| && BuildAll(log) == Some(stack + [Object([])] + Flat([], 0)) && AfterBrace(t, i, flags, log).Parsed?
    ensures BuildAll(AfterBrace(t, i, flags, log).log) == Some(stack + [v])
    decreases |t| - i, 3
  {
    hide BuildAll, Build, Members;
    var j := SkipSpace(t, i);
    if Peek(t, j) == RBRACE {
      v := ObjectFolds(log, stack, []);
    } else {
      v := MembersBuild(t, j, flags, [], log, stack);
    }
  }

  lemma ObjectFolds(log: seq<Event>, stack: seq<Json>, ms: seq<Member>) returns (v: Json)
    requires BuildAll(log) == Some(stack + [Object([])] + Flat(ms, |ms|))
    ensures BuildAll(log + [EndObjectEvent(|ms|)]) == Some(stack + [v])
  {
    hide BuildAll, PopMembers;
    BuildNext(log, EndObjectEvent(|ms|));
    PopAllMembers(stack + [Object([])], ms, |ms|);
    var full := stack + [Object([])] + Flat(ms, |ms|);
    assert full[..|full| - 2 * |ms| - 1] == stack && ms[..|ms|] == ms;
    v := Object(ms);
  }

  lemma {:induction false} FlatPrefix(ms: seq<Member>, m: Member, k: nat)
    requires k <= |ms|
    ensures Flat(ms + [m], k) == Flat(ms, k)
  {
    if k > 0 {
      FlatPrefix(ms, m, k - 1);
    }
  }

  lemma {:induction false} MembersBuild(t: bytes, i: nat, flags: Flags, ms: seq<Member>, log: seq<Event>, stack: seq<Json>)
    returns (v: Json)
    requires i <= |t| && BuildAll(log) == Some(stack + [Object([])] + Flat(ms, |ms|))
    requires Members(t, i, flags, |ms|, log).Parsed?
    ensures BuildAll(Members(t, i, flags, |ms|, log).log) == Some(stack + [v])
    decreases |t| - i, 2
  {
    hide BuildAll, Build, Value, DecodeFrom, AfterMember;
    var d := DecodeFrom(t, i + 1, flags.validateEncoding, []);
    var log1 := log + [KeyEvent(d.text)];
    var colon := SkipSpace(t, d.next);
    assert AfterName(t, d.next, flags, |ms|, log1).Parsed?;
    assert AfterColon(t, colon + 1, flags, |ms|, log1).Parsed?;
    var k := SkipSpace(t, colon + 1);
    var o := Value(t, k, flags, log1);
    NameBuilds(log, d.text, stack + [Object([])] + Flat(ms, |ms|));
    var w := ValueBuilds(t, k, flags, log1, stack + [Object([])] + Flat(ms, |ms|) + [String(d.text)]);
    var ns := ms + [Member(d.text, w)];
    FlatPrefix(ms, Member(d.text, w), |ms|);
    assert stack + [Object([])] + Flat(ms, |ms|) + [String(d.text)] + [w] == stack + [Object([])] + Flat(ns, |ns|);
    v := MemberBuilds(t, o.pos, flags, ns, o.log, stack);
  }

  lemma NameBuilds(log: seq<Event>, name: bytes, stack: seq<Json>)
    requires BuildAll(log) == Some(stack)
    ensures BuildAll(log + [KeyEvent(name)]) == Some(stack + [String(name)])
  {
    BuildNext(log, KeyEvent(name));
  }

  lemma {:induction false} MemberBuilds(t: bytes, i: nat, flags: Flags, ms: seq<Member>, log: seq<Event>, stack: seq<Json>)
    returns (v: Json)
    requires i <= |t| && BuildAll(log) == Some(stack + [Object([])] + Flat(ms, |ms|))
    requires AfterMember(t, i, flags, |ms|, log).Parsed?
    ensures BuildAll(AfterMember(t, i, flags, |ms|, log).log) == Some(stack + [v])
    decreases |t| - i, 3
  {
    hide BuildAll, Build, Members;
    var j := SkipSpace(t, i);
    if Peek(t, j) == RBRACE {
      v := ObjectFolds(log, stack, ms);
    } else {
      assert AfterMemberComma(t, j + 1, flags, |ms|, log).Parsed?;
      var k := SkipSpace(t, j + 1);
      if flags.trailingCommas && Peek(t, k) == RBRACE {
        v := ObjectFolds(log, stack, ms);
      } else {
        v := MembersBuild(t, k, flags, ms, log, stack);
      }
    }
  }

  /** Every text the reader accepts leaves exactly one value, the root, on the builder's stack. */
  lemma AcceptedBuildsRoot(t: bytes, flags: Flags)
    requires Document(t, flags).Parsed?
    ensures BuildAll(Document(t, flags).log).Some? && |BuildAll(Document(t, flags).log).value| == 1
  {
    hide Value, Build;
    var j := SkipSpace(t, 0);
    var v := ValueBuilds(t, j, flags, [], []);
    assert Value(t, j, flags, []).log == Document(t, flags).log;
  }

  /** Parses a text into a tree: the document's stack ends with exactly the root. */
  method ParseDocument(text: bytes, flags: Flags) returns (err: ParseError, root: Json)
    ensures match Document(text, flags)
      case Failed(e, _) => err == e && err != NoError
      case Parsed(_, log) => err == NoError && BuildAll(log) == Some([root])
  {
    hide Document, Build;
    root := Null;
    var s := new StringStream(text);
    var h := new Handler();
    err := Parse(s, h, flags);
    if err != NoError {
      return;
    }
    AcceptedBuildsRoot(text, flags);
    var document := new Builder();
    var log := h.log;
    assert log[..|log|] == log;
    for k := 0 to |log|
      invariant BuildAll(log[..k]) == Some(document.stack)
    {
      BuildPrefix(log, k + 1, |log|);
      assert log[..k + 1][..k] == log[..k];
      document.Handle(log[k]);
    }
    assert log[..|log|] == log;
    root := document.stack[0];
    assert document.stack == [root];
  }

  lemma BuildPrefix(log: seq<Event>, k: nat, n: nat)
    requires k <= n <= |log| && BuildAll(log[..n]).Some?
    ensures BuildAll(log[..k]).Some?
    decreases n - k
  {
    if k < n {
      assert log[..n][..n - 1] == log[..n - 1];
      BuildPrefix(log, k, n - 1);
    }
  }

  /** Writing a document and parsing the text gives the same document, number flags included. */
  method WriteThenParse(v: Json, style: Style, flags: Flags) returns (text: bytes, err: ParseError, root: Json)
    requires ValidTree(v) && ValidStyle(style) && (flags.validateEncoding ==> Encoded(v))
    ensures text == Print(v, style, 0) && err == NoError && root == v
  {
    hide Print, Document;
    var w := new Writer(style);
    Accept(v, w);
    text := w.os.out;
    assert text == [] + ([] + Print(v, style, 0));
    PrintParse(v, style, flags);
    err, root := ParseDocument(text, flags);
  }
}
