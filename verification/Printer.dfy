/** The text a document is printed as, and the level-stack writer that prints it. */
module Printer {
  import opened Bytes
  import opened Streams
  import opened StringText
  import opened StringReader
  import opened StringWriter
  import opened Numbers
  import opened Grammar
  import opened Dom

  /** `Writer` prints compactly; `PrettyWriter` indents and may keep arrays on one line. */
  datatype Style =
    | Compact
    | Pretty(indentChar: byte, indentCount: nat, singleLineArray: bool)

  predicate ValidStyle(style: Style) {
    style.Pretty? ==> IsSpace(style.indentChar)
  }

  // ---------------------------------------------------------------- the printed text

  function Repeat(c: byte, n: nat): (r: bytes)
    ensures |r| == n && forall k :: 0 <= k < n ==> r[k] == c
  {
    if n == 0 then [] else Repeat(c, n - 1) + [c]
  }

  function NewLine(style: Style, depth: nat): bytes {
    if style.Compact? then [] else [0x0A] + Repeat(style.indentChar, depth * style.indentCount)
  }

  /** The punctuation before value number `count` of a level. */
  function Mark(inArray: bool, count: nat): bytes {
    if count == 0 then [] else if !inArray && count % 2 == 1 then [COLON] else [COMMA]
  }

  /** The whitespace before value number `count` of a level; `depth` is the number of open levels. */
  function Gap(style: Style, inArray: bool, count: nat, depth: nat): bytes {
    if style.Compact? then []
    else if inArray && style.singleLineArray then (if count > 0 then [0x20] else [])
    else if !inArray && count % 2 == 1 then [0x20]
    else NewLine(style, depth)
  }

  /** The whitespace before a closing bracket. */
  function Tail(style: Style, inArray: bool, count: nat, depth: nat): bytes {
    if style.Compact? || count == 0 || (inArray && style.singleLineArray) then [] else NewLine(style, depth)
  }

  /** The text of a value inside `depth` open levels; a double is printed as its literal. */
  function Print(v: Json, style: Style, depth: nat): bytes
    decreases v, 0
  {
    match v
    case Null => NULL_WORD
    case Bool(b) => if b then TRUE_WORD else FALSE_WORD
    case Number(value, _) => PrintInteger(value)
    case Double(literal) => literal
    case String(str) => Quoted(str, false)
    case Array(elements) => [LBRACKET] + PrintElements(elements, 0, style, depth)
    case Object(members) => [LBRACE] + PrintMembers(members, 0, style, depth)
  }

  /** The rest of an array from element `k` on, with its bracket; `depth` does not count the array. */
  function PrintElements(vs: seq<Json>, k: nat, style: Style, depth: nat): bytes
    requires k <= |vs|
    decreases vs, |vs| - k
  {
    if k == |vs| then Tail(style, true, |vs|, depth) + [RBRACKET]
    else
      Mark(true, k) + (Gap(style, true, k, depth + 1) + (Print(vs[k], style, depth + 1) + PrintElements(vs, k + 1, style, depth)))
  }

  /** The rest of an object from member `k` on, with its bracket. */
  function PrintMembers(ms: seq<Member>, k: nat, style: Style, depth: nat): bytes
    requires k <= |ms|
    decreases ms, |ms| - k, 0
  {
    if k == |ms| then Tail(style, false, 2 * |ms|, depth) + [RBRACE]
    else
      Mark(false, 2 * k) + (Gap(style, false, 2 * k, depth + 1) + (Quoted(ms[k].name, false) + PrintValueOf(ms, k, style, depth)))
  }

  /** The rest of an object from the value of member `k` on. */
  function PrintValueOf(ms: seq<Member>, k: nat, style: Style, depth: nat): bytes
    requires k < |ms|
    decreases ms, |ms| - k - 1, 1
  {
    [COLON] + (Gap(style, false, 2 * k + 1, depth + 1) + (Print(ms[k].value, style, depth + 1) + PrintMembers(ms, k + 1, style, depth)))
  }

  // ------------------------------------------------------------------- the writer

  /** One open array or object, and how many values (names included) it has received. */
  datatype Level = Level(valueCount: nat, inArray: bool)

  class Writer {
    const os: OutputStream
    const style: Style
    var levels: seq<Level>
    var hasRoot: bool

    constructor (style: Style)
      ensures fresh(os) && os.out == [] && this.style == style && levels == [] && !hasRoot
    {
      this.style := style;
      levels, hasRoot := [], false;
      os := new OutputStream();
    }

    /** The assertions of `Prefix`: one root only, and names are strings. */
    predicate Ready(isString: bool)
      reads this
    {
      if levels == [] then !hasRoot
      else Last(levels).inArray || Last(levels).valueCount % 2 == 1 || isString
    }

    method WriteIndent()
      requires style.Pretty?
      modifies os
      ensures os.out == old(os.out) + Repeat(style.indentChar, |levels| * style.indentCount)
    {
      var count := |levels| * style.indentCount;
      for k := 0 to count
        invariant os.out == old(os.out) + Repeat(style.indentChar, k)
      {
        os.Put(style.indentChar);
      }
    }

    /** Compact separator of a value inside an open level. */
    method PutSeparator(level: Level)
      requires style.Compact?
      modifies os
      ensures os.out == old(os.out) + Mark(level.inArray, level.valueCount)
    {
      if level.valueCount > 0 {
        if level.inArray {
          os.Put(COMMA);
        } else {
          os.Put(if level.valueCount % 2 == 0 then COMMA else COLON);
        }
      }
    }

    method PutLine()
      requires style.Pretty?
      modifies os
      ensures os.out == old(os.out) + NewLine(style, |levels|)
    {
      os.Put(0x0A);
      WriteIndent();
      Associative(old(os.out), [0x0A], Repeat(style.indentChar, |levels| * style.indentCount));
    }

    /** Indented separator of a value inside an open array. */
    method PutElementSeparator(level: Level)
      requires style.Pretty? && level.inArray
      modifies os
      ensures os.out == old(os.out) + (Mark(true, level.valueCount) + Gap(style, true, level.valueCount, |levels|))
    {
      hide NewLine;
      if level.valueCount > 0 {
        os.Put(COMMA);
        if style.singleLineArray {
          os.Put(0x20);
        }
      }
      if !style.singleLineArray {
        PutLine();
        Associative(old(os.out), Mark(true, level.valueCount), NewLine(style, |levels|));
      }
    }

    /** Indented separator of a name or value inside an open object. */
    method PutMemberSeparator(level: Level)
      requires style.Pretty? && !level.inArray
      modifies os
      ensures os.out == old(os.out) + (Mark(false, level.valueCount) + Gap(style, false, level.valueCount, |levels|))
    {
      hide Repeat;
      if level.valueCount > 0 {
        if level.valueCount % 2 == 0 {
          os.Put(COMMA);
          os.Put(0x0A);
        } else {
          os.Put(COLON);
          os.Put(0x20);
        }
      } else {
        os.Put(0x0A);
      }
      if level.valueCount % 2 == 0 {
        WriteIndent();
      }
    }

    /** Puts what separates this value from the one before it, and counts it. */
    method Prefix(isString: bool)
      requires Ready(isString)
      modifies this, os
      ensures os.out == old(os.out) + PrefixText(style, old(levels))
      ensures levels == Received(old(levels)) && hasRoot == (old(hasRoot) || old(levels) == [])
    {
      hide NewLine;
      if levels != [] {
        var level := Last(levels);
        if style.Compact? {
          PutSeparator(level);
        } else if level.inArray {
          PutElementSeparator(level);
        } else {
          PutMemberSeparator(level);
        }
        levels := levels[|levels| - 1 := level.(valueCount := level.valueCount + 1)];
      } else {
        hasRoot := true;
      }
    }

    /** Null, booleans and the four integer widths: the prefix and then the literal. */
    method Literal(text: bytes)
      requires Ready(false)
      modifies this, os
      ensures os.out == old(os.out) + (PrefixText(style, old(levels)) + text)
      ensures levels == Received(old(levels)) && hasRoot == (old(hasRoot) || old(levels) == [])
    {
      Prefix(false);
      PutAll(os, text);
      Associative(old(os.out), PrefixText(style, old(levels)), text);
    }

    method Str(str: bytes)
      requires Ready(true)
      modifies this, os
      ensures os.out == old(os.out) + (PrefixText(style, old(levels)) + Quoted(str, false))
      ensures levels == Received(old(levels)) && hasRoot == (old(hasRoot) || old(levels) == [])
    {
      Prefix(true);
      var _ := WriteString(os, str, false, false);
      Associative(old(os.out), PrefixText(style, old(levels)), Quoted(str, false));
    }

    method Start(inArray: bool)
      requires Ready(false)
      modifies this, os
      ensures os.out == old(os.out) + (PrefixText(style, old(levels)) + [if inArray then LBRACKET else LBRACE])
      ensures levels == Received(old(levels)) + [Level(0, inArray)] && hasRoot == (old(hasRoot) || old(levels) == [])
    {
      Prefix(false);
      levels := levels + [Level(0, inArray)];
      os.Put(if inArray then LBRACKET else LBRACE);
    }

    /** Its requires are the assertions of `EndObject` and `EndArray`. */
    method End(inArray: bool)
      requires levels != [] && Last(levels).inArray == inArray
      requires !inArray ==> Last(levels).valueCount % 2 == 0
      modifies this, os
      ensures os.out == old(os.out) +
        (Tail(style, inArray, Last(old(levels)).valueCount, |old(levels)| - 1) + [if inArray then RBRACKET else RBRACE])
      ensures levels == old(levels)[..|old(levels)| - 1] && hasRoot == old(hasRoot)
    {
      var empty := Last(levels).valueCount == 0;
      levels := levels[..|levels| - 1];
      if style.Pretty? && !empty && !(inArray && style.singleLineArray) {
        os.Put(0x0A);
        WriteIndent();
      }
      os.Put(if inArray then RBRACKET else RBRACE);
    }
  }

  function Last(levels: seq<Level>): Level
    requires levels != []
  {
    levels[|levels| - 1]
  }

  function PrefixText(style: Style, levels: seq<Level>): bytes {
    if levels == [] then []
    else
      var level := Last(levels);
      Mark(level.inArray, level.valueCount) + Gap(style, level.inArray, level.valueCount, |levels|)
  }

  /** The level stack after one more value. */
  function Received(levels: seq<Level>): seq<Level> {
    if levels == [] then [] else levels[|levels| - 1 := Last(levels).(valueCount := Last(levels).valueCount + 1)]
  }

  // ------------------------------------------------------------------- traversal

  lemma Regroup(a: bytes, m: bytes, g: bytes, p: bytes, r: bytes)
    ensures a + (m + (g + (p + r))) == a + (m + g + p) + r
  {
    Associative(g, p, r);
    Associative(m, g + p, r);
    Associative(m, g, p);
    Associative(a, m + g + p, r);
  }

  /** Writes a whole value: every assertion of the writer holds, and the text is the printed one. */
  method Accept(v: Json, w: Writer)
    requires w.Ready(false)
    modifies w, w.os
    ensures w.os.out == old(w.os.out) + (PrefixText(w.style, old(w.levels)) + Print(v, w.style, |old(w.levels)|))
    ensures w.levels == Received(old(w.levels)) && w.hasRoot == (old(w.hasRoot) || old(w.levels) == [])
    decreases v, 2
  {
    hide PrefixText, Received, PrintElements, PrintMembers, PrintInteger, Quoted;
    match v
    case Null => w.Literal(NULL_WORD);
    case Bool(b) => w.Literal(if b then TRUE_WORD else FALSE_WORD);
    case Number(value, _) => w.Literal(PrintInteger(value));
    case Double(literal) => w.Literal(literal);
    case String(str) =>
      ReadyForString(w);
      w.Str(str);
    case Array(elements) => AcceptArray(v, w);
    case Object(members) => AcceptObject(v, w);
  }

  lemma ReadyForString(w: Writer)
    requires w.Ready(false)
    ensures w.Ready(true)
  {
  }

  method AcceptArray(v: Json, w: Writer)
    requires v.Array? && w.Ready(false)
    modifies w, w.os
    ensures w.os.out == old(w.os.out) + (PrefixText(w.style, old(w.levels)) + Print(v, w.style, |old(w.levels)|))
    ensures w.levels == Received(old(w.levels)) && w.hasRoot == (old(w.hasRoot) || old(w.levels) == [])
    decreases v, 0
  {
    hide PrefixText, Mark, Gap, Tail;
    ghost var style, depth, vs := w.style, |w.levels|, v.elements;
    ghost var head := w.os.out + (PrefixText(style, w.levels) + [LBRACKET]);
    ghost var outer := Received(w.levels);
    w.Start(true);
    for k := 0 to |v.elements|
      invariant w.levels == outer + [Level(k, true)]
      invariant w.hasRoot == (old(w.hasRoot) || old(w.levels) == [])
      invariant w.os.out + PrintElements(vs, k, style, depth) == head + PrintElements(vs, 0, style, depth)
    {
      hide Received, Print;
      ghost var before := w.os.out;
      LevelFacts(style, outer, Level(k, true));
      Accept(v.elements[k], w);
      Regroup(before, Mark(true, k), Gap(style, true, k, depth + 1), Print(vs[k], style, depth + 1),
              PrintElements(vs, k + 1, style, depth));
    }
    assert w.levels[..|w.levels| - 1] == outer;
    w.End(true);
    Associative(old(w.os.out) + PrefixText(style, old(w.levels)), [LBRACKET], PrintElements(vs, 0, style, depth));
    Associative(old(w.os.out), PrefixText(style, old(w.levels)), [LBRACKET] + PrintElements(vs, 0, style, depth));
    Associative(old(w.os.out), PrefixText(style, old(w.levels)), [LBRACKET]);
  }

  lemma LevelFacts(style: Style, outer: seq<Level>, level: Level)
    ensures Received(outer + [level]) == outer + [level.(valueCount := level.valueCount + 1)]
    ensures PrefixText(style, outer + [level]) ==
      Mark(level.inArray, level.valueCount) + Gap(style, level.inArray, level.valueCount, |outer| + 1)
  {
  }

  method AcceptObject(v: Json, w: Writer)
    requires v.Object? && w.Ready(false)
    modifies w, w.os
    ensures w.os.out == old(w.os.out) + (PrefixText(w.style, old(w.levels)) + Print(v, w.style, |old(w.levels)|))
    ensures w.levels == Received(old(w.levels)) && w.hasRoot == (old(w.hasRoot) || old(w.levels) == [])
    decreases v, 1
  {
    hide PrefixText, Mark, Gap, Tail, Quoted;
    ghost var style, depth, ms := w.style, |w.levels|, v.members;
    ghost var head := w.os.out + (PrefixText(style, w.levels) + [LBRACE]);
    ghost var outer := Received(w.levels);
    w.Start(false);
    for k := 0 to |v.members|
      invariant w.levels == outer + [Level(2 * k, false)]
      invariant w.hasRoot == (old(w.hasRoot) || old(w.levels) == [])
      invariant w.os.out + PrintMembers(ms, k, style, depth) == head + PrintMembers(ms, 0, style, depth)
    {
      hide Received, Print, PrintMembers;
      AcceptMember(v, k, w, outer);
    }
    assert w.levels[..|w.levels| - 1] == outer;
    w.End(false);
    Associative(old(w.os.out) + PrefixText(style, old(w.levels)), [LBRACE], PrintMembers(ms, 0, style, depth));
    Associative(old(w.os.out), PrefixText(style, old(w.levels)), [LBRACE] + PrintMembers(ms, 0, style, depth));
    Associative(old(w.os.out), PrefixText(style, old(w.levels)), [LBRACE]);
  }

  /** One turn of the loop: a name and its value. */
  method AcceptMember(v: Json, k: nat, w: Writer, ghost outer: seq<Level>)
    requires v.Object? && k < |v.members| && w.levels == outer + [Level(2 * k, false)]
    modifies w, w.os
    ensures w.levels == outer + [Level(2 * (k + 1), false)] && w.hasRoot == old(w.hasRoot)
    ensures w.os.out + PrintMembers(v.members, k + 1, w.style, |outer|) ==
      old(w.os.out) + PrintMembers(v.members, k, w.style, |outer|)
    decreases v, 0
  {
    hide Received, Print, PrefixText, Mark, Gap, Tail, Quoted;
    ghost var ms, style, depth := v.members, w.style, |outer|;
    ghost var before := w.os.out;
    LevelFacts(style, outer, Level(2 * k, false));
    w.Str(v.members[k].name);
    Regroup(before, Mark(false, 2 * k), Gap(style, false, 2 * k, depth + 1), Quoted(ms[k].name, false),
            PrintValueOf(ms, k, style, depth));
    ghost var middle := w.os.out;
    LevelFacts(style, outer, Level(2 * k + 1, false));
    Accept(v.members[k].value, w);
    ColonMark(2 * k + 1);
    Regroup(middle, Mark(false, 2 * k + 1), Gap(style, false, 2 * k + 1, depth + 1),
            Print(ms[k].value, style, depth + 1), PrintMembers(ms, k + 1, style, depth));
  }

  lemma ColonMark(count: nat)
    requires count % 2 == 1
    ensures Mark(false, count) == [COLON]
  {
  }
}
