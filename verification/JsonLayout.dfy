/** Where the writers put spaces: the printed text as a text of RFC 8259 with every space in it. */
module JsonLayout {
  import opened Bytes
  import opened StringText
  import opened StringWriter
  import opened Numbers
  import opened Dom
  import opened Printer
  import opened JsonStrings
  import opened JsonWriting
  import opened JsonValues

  // ------------------------------------------------------------ the spaces of a style

  /** A line feed and the indentation of so many levels, in the pretty style. */
  function Break(style: Style, depth: nat): bytes {
    match style
    case Compact => []
    case Pretty(c, count, _) => [0x0A] + seq(depth * count, i => c)
  }

  predicate SingleLine(style: Style) {
    style.Pretty? && style.singleLineArray
  }

  /** Behind the opening bracket of an array that has elements, and before its closing one. */
  function ArrayBreak(style: Style, depth: nat): bytes {
    if SingleLine(style) then [] else Break(style, depth)
  }

  /** Behind the comma of an array. */
  function ElementBreak(style: Style, depth: nat): bytes {
    if SingleLine(style) then [0x20] else Break(style, depth)
  }

  /** Behind a colon. */
  function ColonSpace(style: Style): bytes {
    if style.Pretty? then [0x20] else []
  }

  /** The text of a tree: nothing stands before a comma or a colon or in an empty container, every element and member
      begins its line one level deeper, and a closing bracket stands at the level of its container. */
  function Laid(v: Json, style: Style, depth: nat): Term
    decreases v, 0
  {
    match v
    case Null => NullTerm
    case Bool(b) => if b then TrueTerm else FalseTerm
    case Number(value, _) => NumberTerm(PrintInteger(value))
    case Double(literal) => NumberTerm(literal)
    case String(str) => StringTerm(SpelledBytes(str))
    case Array(vs) =>
      if vs == [] then EmptyArray([])
      else ArrayTerm(ArrayBreak(style, depth + 1), Laid(vs[0], style, depth + 1), BeforeNext(vs, 1, style, depth),
                     LaidElements(vs, 1, style, depth))
    case Object(ms) =>
      if ms == [] then EmptyObject([])
      else ObjectTerm(Break(style, depth + 1), LaidMember(ms, 0, style, depth), LaidMembers(ms, 1, style, depth))
  }

  /** Behind the element before place `k`. */
  function BeforeNext(vs: seq<Json>, k: nat, style: Style, depth: nat): bytes {
    if k == |vs| then ArrayBreak(style, depth) else []
  }

  function LaidElements(vs: seq<Json>, k: nat, style: Style, depth: nat): ElementList
    requires k <= |vs|
    decreases vs, |vs| - k
  {
    if k == |vs| then NoElement
    else Element(ElementBreak(style, depth + 1), Laid(vs[k], style, depth + 1), BeforeNext(vs, k + 1, style, depth),
                 LaidElements(vs, k + 1, style, depth))
  }

  function LaidMember(ms: seq<Member>, k: nat, style: Style, depth: nat): NameValue
    requires k < |ms|
    decreases ms, |ms| - k, 0
  {
    NameValue(SpelledBytes(ms[k].name), [], ColonSpace(style), Laid(ms[k].value, style, depth + 1),
              if k + 1 == |ms| then Break(style, depth) else [])
  }

  function LaidMembers(ms: seq<Member>, k: nat, style: Style, depth: nat): MemberList
    requires k <= |ms|
    decreases ms, |ms| - k, 1
  {
    if k == |ms| then NoMember
    else OneMember(Break(style, depth + 1), LaidMember(ms, k, style, depth), LaidMembers(ms, k + 1, style, depth))
  }

  // ------------------------------------------------------------ the printed text

  lemma BreakIsNewLine(style: Style, depth: nat)
    ensures NewLine(style, depth) == Break(style, depth)
  {
  }

  lemma StringIsQuoted(str: bytes)
    ensures Quoted(str, false) == Quotes(SpelledBytes(str))
  {
    EscapedIsSpelled(str, 0);
    assert str[0..] == str;
  }

  lemma ArrayGaps(vs: seq<Json>, k: nat, style: Style, depth: nat)
    requires k <= |vs|
    ensures k == 0 < |vs| ==> Mark(true, k) == [] && Gap(style, true, k, depth + 1) == ArrayBreak(style, depth + 1)
    ensures 0 < k < |vs| ==> Mark(true, k) == [0x2C] && Gap(style, true, k, depth + 1) == ElementBreak(style, depth + 1)
    ensures Printer.Tail(style, true, |vs|, depth) == if vs == [] then [] else ArrayBreak(style, depth)
  {
    BreakIsNewLine(style, depth);
    BreakIsNewLine(style, depth + 1);
  }

  lemma ObjectGaps(ms: seq<Member>, k: nat, style: Style, depth: nat)
    requires k <= |ms|
    ensures Mark(false, 2 * k) == if k == 0 then [] else [0x2C]
    ensures Gap(style, false, 2 * k, depth + 1) == Break(style, depth + 1)
    ensures Gap(style, false, 2 * k + 1, depth + 1) == ColonSpace(style)
    ensures Printer.Tail(style, false, 2 * |ms|, depth) == if ms == [] then [] else Break(style, depth)
  {
    BreakIsNewLine(style, depth);
    BreakIsNewLine(style, depth + 1);
  }

  /** The printed text of every tree, in every style and at every depth, is the text with just these spaces. */
  lemma {:induction false} PrintIsLaid(v: Json, style: Style, depth: nat)
    ensures Print(v, style, depth) == Spell(Laid(v, style, depth))
    decreases v, 0
  {
    hide PrintElements, PrintMembers, Quoted, Quotes, Break, SpelledBytes;
    match v
    case String(str) => StringIsQuoted(str);
    case Array(vs) => ArrayIsLaid(vs, style, depth);
    case Object(ms) => ObjectIsLaid(ms, style, depth);
    case _ =>
  }

  lemma {:induction false} ArrayIsLaid(vs: seq<Json>, style: Style, depth: nat)
    ensures [0x5B] + PrintElements(vs, 0, style, depth) == Spell(Laid(Array(vs), style, depth))
    decreases vs, |vs| + 1
  {
    hide Mark, Gap, Printer.Tail, ArrayBreak, ElementBreak, Print, Break;
    ArrayGaps(vs, 0, style, depth);
    if vs != [] {
      PrintIsLaid(vs[0], style, depth + 1);
      ElementsAreLaid(vs, 1, style, depth);
      var rest := Spell(Laid(vs[0], style, depth + 1)) + PrintElements(vs, 1, style, depth);
      assert [] + (ArrayBreak(style, depth + 1) + rest) == ArrayBreak(style, depth + 1) + rest;
    }
  }

  lemma {:induction false} ElementsAreLaid(vs: seq<Json>, k: nat, style: Style, depth: nat)
    requires 0 < k <= |vs|
    ensures PrintElements(vs, k, style, depth) ==
      BeforeNext(vs, k, style, depth) + SpellElements(LaidElements(vs, k, style, depth))
    decreases vs, |vs| - k
  {
    hide Mark, Gap, Printer.Tail, ArrayBreak, ElementBreak, Print, Spell, Laid;
    ArrayGaps(vs, k, style, depth);
    if k < |vs| {
      PrintIsLaid(vs[k], style, depth + 1);
      ElementsAreLaid(vs, k + 1, style, depth);
      var e := LaidElements(vs, k, style, depth);
      assert [] + SpellElements(e) == SpellElements(e);
    }
  }

  lemma {:induction false} ObjectIsLaid(ms: seq<Member>, style: Style, depth: nat)
    ensures [0x7B] + PrintMembers(ms, 0, style, depth) == Spell(Laid(Object(ms), style, depth))
    decreases ms, |ms| + 1
  {
    hide Mark, Gap, Printer.Tail, Print, Break, LaidMember, SpellPair;
    ObjectGaps(ms, 0, style, depth);
    if ms != [] {
      MemberIsLaid(ms, 0, style, depth);
    } else {
      assert [] + [0x7D] == [0x7D];
    }
  }

  /** Member `k` and what follows it, behind the comma. */
  lemma {:induction false} MemberIsLaid(ms: seq<Member>, k: nat, style: Style, depth: nat)
    requires k < |ms|
    ensures PrintMembers(ms, k, style, depth) ==
      (if k == 0 then [] else [0x2C]) +
      (Break(style, depth + 1) +
        (SpellPair(LaidMember(ms, k, style, depth)) + SpellMembers(LaidMembers(ms, k + 1, style, depth))))
    decreases ms, |ms| - k, 0
  {
    hide Mark, Gap, Printer.Tail, Print, Quoted, Quotes, Break, Spell, Laid, SpelledBytes;
    ObjectGaps(ms, k, style, depth);
    StringIsQuoted(ms[k].name);
    PrintIsLaid(ms[k].value, style, depth + 1);
    var p, tail := LaidMember(ms, k, style, depth), SpellMembers(LaidMembers(ms, k + 1, style, depth));
    MembersTail(ms, k, style, depth);
    PairRegroups(p, tail);
    var value := Spell(p.value) + (p.after + tail);
    assert p.before + ([0x3A] + (p.behind + value)) == [0x3A] + (p.behind + value);
  }

  /** What follows member `k`. */
  lemma {:induction false} MembersTail(ms: seq<Member>, k: nat, style: Style, depth: nat)
    requires k < |ms|
    ensures PrintMembers(ms, k + 1, style, depth) ==
      LaidMember(ms, k, style, depth).after + SpellMembers(LaidMembers(ms, k + 1, style, depth))
    decreases ms, |ms| - k - 1, 1
  {
    hide Mark, Gap, Printer.Tail, Print, Quoted, Break, Spell, Laid, SpellPair;
    ObjectGaps(ms, k + 1, style, depth);
    if k + 1 < |ms| {
      MemberIsLaid(ms, k + 1, style, depth);
      var m := LaidMembers(ms, k + 1, style, depth);
      assert [] + SpellMembers(m) == SpellMembers(m);
    }
  }

  // ------------------------------------------------------------ compact and pretty

  /** Without its spaces, the text of any style at any depth is the compact text; so the compact text has none. */
  lemma {:induction false} CompactIsTight(v: Json, style: Style, depth: nat, e: nat)
    ensures Tight(Laid(v, style, depth)) == Laid(v, Compact, e)
    decreases v, 0
  {
    hide Break, ArrayBreak, ElementBreak, SpelledBytes;
    match v
    case Array(vs) =>
      CompactSpaces(e);
      if vs != [] {
        CompactIsTight(vs[0], style, depth + 1, e + 1);
        CompactElements(vs, 1, style, depth, e);
      }
    case Object(ms) =>
      CompactSpaces(e);
      if ms != [] {
        CompactMember(ms, 0, style, depth, e);
        CompactMembers(ms, 1, style, depth, e);
      }
    case _ =>
  }

  lemma CompactSpaces(e: nat)
    ensures Break(Compact, e) == [] && Break(Compact, e + 1) == [] && ColonSpace(Compact) == []
    ensures ArrayBreak(Compact, e) == [] && ArrayBreak(Compact, e + 1) == [] && ElementBreak(Compact, e + 1) == []
  {
  }

  lemma {:induction false} CompactElements(vs: seq<Json>, k: nat, style: Style, depth: nat, e: nat)
    requires k <= |vs|
    ensures TightElements(LaidElements(vs, k, style, depth)) == LaidElements(vs, k, Compact, e)
    decreases vs, |vs| - k
  {
    hide Break, ArrayBreak, ElementBreak, Laid, Tight;
    CompactSpaces(e);
    if k < |vs| {
      CompactIsTight(vs[k], style, depth + 1, e + 1);
      CompactElements(vs, k + 1, style, depth, e);
    }
  }

  lemma {:induction false} CompactMember(ms: seq<Member>, k: nat, style: Style, depth: nat, e: nat)
    requires k < |ms|
    ensures TightPair(LaidMember(ms, k, style, depth)) == LaidMember(ms, k, Compact, e)
    decreases ms, |ms| - k, 0
  {
    hide Break, Laid, Tight, SpelledBytes;
    CompactSpaces(e);
    CompactIsTight(ms[k].value, style, depth + 1, e + 1);
  }

  lemma {:induction false} CompactMembers(ms: seq<Member>, k: nat, style: Style, depth: nat, e: nat)
    requires k <= |ms|
    ensures TightMembers(LaidMembers(ms, k, style, depth)) == LaidMembers(ms, k, Compact, e)
    decreases ms, |ms| - k, 1
  {
    hide Break, LaidMember, TightPair;
    CompactSpaces(e);
    if k < |ms| {
      CompactMember(ms, k, style, depth, e);
      CompactMembers(ms, k + 1, style, depth, e);
    }
  }
}
