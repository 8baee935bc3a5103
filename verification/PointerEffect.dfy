/** What creating or setting the value of a pointer makes of a document, said without the steps of the code. */
module PointerEffect {
  import opened Bytes
  import opened Dom
  import opened PointerTree

  const NO_INDEX := 0xFFFF_FFFF

  /** The child of `w` at `i` is what the other tokens make of `c`; the other elements are those of `v`, then nulls. */
  ghost predicate MakesElement(v: seq<Json>, i: nat, w: Json, rest: seq<Token>, leaf: Option<Json>)
    decreases |rest|, 1
  {
    w.Array? && |w.elements| == (if i < |v| then |v| else i + 1) &&
    (forall k :: 0 <= k < |w.elements| && k != i ==> w.elements[k] == if k < |v| then v[k] else Null) &&
    Makes(if i < |v| then v[i] else Null, rest, leaf, w.elements[i])
  }

  /** Member `i` of `w`, which is named `name`, is what the other tokens make of the member of `v`, or of null when it
      is new; all others are those of `v`. */
  ghost predicate MakesMember(v: seq<Member>, i: nat, name: bytes, w: Json, rest: seq<Token>, leaf: Option<Json>)
    decreases |rest|, 1
  {
    w.Object? && i <= |v| && |w.members| == (if i < |v| then |v| else |v| + 1) &&
    (forall k :: 0 <= k < |v| && k != i ==> w.members[k] == v[k]) &&
    w.members[i].name == name && Makes(if i < |v| then v[i].value else Null, rest, leaf, w.members[i].value)
  }

  /** The first member of that name, or the place behind the last member when there is none. */
  predicate FirstOf(v: seq<Member>, name: bytes, i: nat) {
    i <= |v| && (i < |v| ==> v[i].name == name) && forall k :: 0 <= k < i ==> v[k].name != name
  }

  /**
   * `w` is what `tokens` make of `v`; the last value is kept, or becomes `leaf`. A `-` appends to an array. An index is
   * an element of an array, which is padded with nulls when it is too short; in an object the token is a name. What is
   * neither becomes an array of just as many elements as the index needs, or an object with one member when there is no
   * index.
   */
  ghost predicate Makes(v: Json, tokens: seq<Token>, leaf: Option<Json>, w: Json)
    decreases |tokens|, 0
  {
    if tokens == [] then w == (match leaf case None => v case Some(x) => x)
    else
      var t, rest := tokens[0], tokens[1..];
      if v.Array? && t.name == [0x2D] then MakesElement(v.elements, |v.elements|, w, rest, leaf)
      else if v.Array? && t.index != NO_INDEX then MakesElement(v.elements, t.index, w, rest, leaf)
      else if v.Object? then
        exists i :: FirstOf(v.members, t.name, i) && MakesMember(v.members, i, t.name, w, rest, leaf)
      else if t.index != NO_INDEX then MakesElement([], t.index, w, rest, leaf)
      else MakesMember([], 0, t.name, w, rest, leaf)
  }

  // ------------------------------------------------------------ what the code makes

  function Outcome(v: Json, tokens: seq<Token>, leaf: Option<Json>): Json {
    match leaf
    case None => Created(v, tokens).tree
    case Some(x) => WithValue(v, tokens, x)
  }

  lemma OutcomeStep(v: Json, tokens: seq<Token>, leaf: Option<Json>)
    requires tokens != []
    ensures var s := CreateStep(v, tokens[0]);
      Outcome(v, tokens, leaf) ==
      WithChild(s.container, s.child, Outcome(Child(s.container, s.child), tokens[1..], leaf))
  {
    hide CreateStep;
    var s := CreateStep(v, tokens[0]);
    var c := Created(Child(s.container, s.child), tokens[1..]);
    if leaf.Some? {
      assert ([s.child] + c.path)[1..] == c.path;
      ChildTwice(s.container, s.child, c.tree, Replace(c.tree, c.path, leaf.value));
    }
  }

  lemma ChildTwice(v: Json, i: nat, x: Json, y: Json)
    requires i < Children(v)
    ensures WithChild(WithChild(v, i, x), i, y) == WithChild(v, i, y)
  {
    if v.Array? {
      assert v.elements[i := x][i := y] == v.elements[i := y];
    } else {
      assert v.members[i := Member(v.members[i].name, x)][i := Member(v.members[i].name, y)] ==
        v.members[i := Member(v.members[i].name, y)];
    }
  }

  function Padded(v: seq<Json>, i: nat): (w: seq<Json>)
    ensures i < |w| && |w| >= |v|
  {
    if i < |v| then v else v + Nulls(i + 1 - |v|)
  }

  /** Only `x` comes out of the other tokens. */
  ghost predicate Determined(v: Json, rest: seq<Token>, leaf: Option<Json>, x: Json) {
    forall w :: Makes(v, rest, leaf, w) <==> w == x
  }

  lemma ElementIff(v: seq<Json>, i: nat, w: Json, rest: seq<Token>, leaf: Option<Json>, x: Json)
    requires Determined(if i < |v| then v[i] else Null, rest, leaf, x)
    ensures MakesElement(v, i, w, rest, leaf) <==> w == WithChild(Array(Padded(v, i)), i, x)
  {
    hide Makes;
    var r := WithChild(Array(Padded(v, i)), i, x);
    var d := if i < |v| then v[i] else Null;
    assert Makes(d, rest, leaf, x);
    if MakesElement(v, i, w, rest, leaf) {
      assert Makes(d, rest, leaf, w.elements[i]);
      assert forall k :: 0 <= k < |w.elements| ==> w.elements[k] == r.elements[k];
    }
  }

  /** The members with a place at `i`. */
  function Grown(v: seq<Member>, name: bytes, i: nat): (w: seq<Member>)
    requires i <= |v|
    ensures i < |w|
  {
    if i < |v| then v else v + [Member(name, Null)]
  }

  lemma MemberIff(v: seq<Member>, i: nat, name: bytes, w: Json, rest: seq<Token>, leaf: Option<Json>, x: Json)
    requires i <= |v| && (i < |v| ==> v[i].name == name)
    requires Determined(if i < |v| then v[i].value else Null, rest, leaf, x)
    ensures MakesMember(v, i, name, w, rest, leaf) <==> w == WithChild(Object(Grown(v, name, i)), i, x)
  {
    hide Makes;
    var d := if i < |v| then v[i].value else Null;
    assert Makes(d, rest, leaf, x);
    var r := WithChild(Object(Grown(v, name, i)), i, x);
    if MakesMember(v, i, name, w, rest, leaf) {
      assert Makes(d, rest, leaf, w.members[i].value);
      assert forall k :: 0 <= k < |w.members| ==> w.members[k] == r.members[k];
    }
  }

  /** Which container and child a step of the code gives. */
  lemma StepIs(v: Json, t: Token)
    ensures var s := CreateStep(v, t);
      if v.Array? && t.name == [0x2D] then
        s.child == |v.elements| && s.container == Array(Padded(v.elements, |v.elements|))
      else if v.Array? && t.index != NO_INDEX then
        s.child == t.index && s.container == Array(Padded(v.elements, t.index))
      else if v.Object? then
        FirstOf(v.members, t.name, s.child) && s.container == Object(Grown(v.members, t.name, s.child))
      else if t.index != NO_INDEX then
        s.child == t.index && s.container == Array(Padded([], t.index))
      else
        s.child == 0 && s.container == Object(Grown([], t.name, 0))
  {
    assert Nulls(1) == [Null];
    assert [] + Nulls(t.index + 1) == Nulls(t.index + 1);
    assert [] + [Member(t.name, Null)] == [Member(t.name, Null)];
  }

  lemma FirstIsOne(v: seq<Member>, name: bytes, i: nat, j: nat)
    requires FirstOf(v, name, i) && FirstOf(v, name, j)
    ensures i == j
  {
  }

  lemma NewIsNull(v: seq<Json>, i: nat, m: seq<Member>, name: bytes, j: nat)
    requires j <= |m|
    ensures Padded(v, i)[i] == if i < |v| then v[i] else Null
    ensures Grown(m, name, j)[j].value == if j < |m| then m[j].value else Null
  {
  }

  /** For every tree and all tokens, the code makes what is said above, and only that tree is what is said above. */
  lemma {:induction false} MakesIff(v: Json, tokens: seq<Token>, leaf: Option<Json>)
    ensures Determined(v, tokens, leaf, Outcome(v, tokens, leaf))
    decreases |tokens|
  {
    if tokens != [] {
      var t, rest := tokens[0], tokens[1..];
      var s := CreateStep(v, t);
      var x := Outcome(Child(s.container, s.child), rest, leaf);
      MakesIff(Child(s.container, s.child), rest, leaf);
      OutcomeStep(v, tokens, leaf);
      StepIs(v, t);
      hide CreateStep, Outcome, Padded, Grown, MakesElement, MakesMember, WithChild, FirstOf, Determined;
      forall w
        ensures Makes(v, tokens, leaf, w) <==> w == WithChild(s.container, s.child, x)
      {
        StepMakes(v, tokens, leaf, s, x, w);
      }
      DeterminedBy(v, tokens, leaf, WithChild(s.container, s.child, x));
    }
  }

  lemma DeterminedBy(v: Json, tokens: seq<Token>, leaf: Option<Json>, x: Json)
    requires forall w :: Makes(v, tokens, leaf, w) <==> w == x
    ensures Determined(v, tokens, leaf, x)
  {
    hide Makes;
  }

  lemma MakesCases(v: Json, tokens: seq<Token>, leaf: Option<Json>, w: Json)
    requires tokens != []
    ensures Makes(v, tokens, leaf, w) <==>
      var t, rest := tokens[0], tokens[1..];
      if v.Array? && t.name == [0x2D] then MakesElement(v.elements, |v.elements|, w, rest, leaf)
      else if v.Array? && t.index != NO_INDEX then MakesElement(v.elements, t.index, w, rest, leaf)
      else if v.Object? then
        exists i :: FirstOf(v.members, t.name, i) && MakesMember(v.members, i, t.name, w, rest, leaf)
      else if t.index != NO_INDEX then MakesElement([], t.index, w, rest, leaf)
      else MakesMember([], 0, t.name, w, rest, leaf)
  {
    hide MakesElement, MakesMember, FirstOf;
  }

  lemma StepMakes(v: Json, tokens: seq<Token>, leaf: Option<Json>, s: Step, x: Json, w: Json)
    requires tokens != [] && s == CreateStep(v, tokens[0])
    requires Determined(Child(s.container, s.child), tokens[1..], leaf, x)
    ensures Makes(v, tokens, leaf, w) <==> w == WithChild(s.container, s.child, x)
  {
    var t, rest := tokens[0], tokens[1..];
    hide *;
    StepIs(v, t);
    MakesCases(v, tokens, leaf, w);
    if v.Array? && t.name == [0x2D] {
      ElementMakes(v.elements, |v.elements|, s, rest, leaf, x, w);
    } else if v.Array? && t.index != NO_INDEX {
      ElementMakes(v.elements, t.index, s, rest, leaf, x, w);
    } else if v.Object? {
      MemberMakes(v.members, tokens, leaf, s, x, w);
    } else if t.index != NO_INDEX {
      ElementMakes([], t.index, s, rest, leaf, x, w);
    } else {
      NewIsNull([], 0, [], t.name, 0);
      MemberIff([], 0, t.name, w, rest, leaf, x);
    }
  }

  lemma ElementMakes(v: seq<Json>, i: nat, s: Step, rest: seq<Token>, leaf: Option<Json>, x: Json, w: Json)
    requires s.child == i && s.container == Array(Padded(v, i))
    requires Determined(Child(s.container, s.child), rest, leaf, x)
    ensures MakesElement(v, i, w, rest, leaf) <==> w == WithChild(s.container, s.child, x)
  {
    hide MakesElement, WithChild, Determined, Padded;
    NewIsNull(v, i, [], [], 0);
    ElementIff(v, i, w, rest, leaf, x);
  }

  lemma MemberMakes(v: seq<Member>, tokens: seq<Token>, leaf: Option<Json>, s: Step, x: Json, w: Json)
    requires tokens != [] && FirstOf(v, tokens[0].name, s.child)
    requires s.container == Object(Grown(v, tokens[0].name, s.child))
    requires Determined(Child(s.container, s.child), tokens[1..], leaf, x)
    ensures (exists i :: FirstOf(v, tokens[0].name, i) && MakesMember(v, i, tokens[0].name, w, tokens[1..], leaf)) <==>
      w == WithChild(s.container, s.child, x)
  {
    var name, rest := tokens[0].name, tokens[1..];
    NewIsNull([], 0, v, name, s.child);
    hide Determined, MakesMember, WithChild, Grown;
    MemberIff(v, s.child, name, w, rest, leaf, x);
    forall i | FirstOf(v, name, i)
      ensures i == s.child
    {
      FirstIsOne(v, name, i, s.child);
    }
  }

  // ------------------------------------------------------------ what stays

  /** The container needs not become another one for the token. */
  predicate Suits(v: Json, t: Token) {
    v.Object? || (v.Array? && (t.name == [0x2D] || t.index != NO_INDEX))
  }

  /** The place `p` parts from the created place at a container that suits its token, as all those above it do. */
  predicate Beside(v: Json, tokens: seq<Token>, path: Path, p: Path)
    decreases |p|
  {
    p != [] && tokens != [] && path != [] && p[0] < Children(v) && Suits(v, tokens[0]) &&
    (p[0] != path[0] || Beside(Child(v, p[0]), tokens[1..], path[1..], p[1..]))
  }

  lemma StepKeepsChildren(v: Json, t: Token, i: nat)
    requires Suits(v, t) && i < Children(v)
    ensures var s := CreateStep(v, t); i < Children(s.container) && Child(s.container, i) == Child(v, i)
  {
    StepIs(v, t);
    hide CreateStep;
  }

  /** Every value beside the created one stays in its place. */
  lemma {:induction false} BesideIsKept(v: Json, tokens: seq<Token>, leaf: Option<Json>, p: Path)
    requires HasPath(v, p) && Beside(v, tokens, Created(v, tokens).path, p)
    ensures HasPath(Outcome(v, tokens, leaf), p) && ValueAt(Outcome(v, tokens, leaf), p) == ValueAt(v, p)
    decreases |tokens|
  {
    var s := CreateStep(v, tokens[0]);
    OutcomeStep(v, tokens, leaf);
    StepKeepsChildren(v, tokens[0], p[0]);
    if p[0] == s.child {
      var c := Created(Child(v, p[0]), tokens[1..]);
      assert Created(v, tokens).path[1..] == c.path;
      BesideIsKept(Child(v, p[0]), tokens[1..], leaf, p[1..]);
    }
    hide CreateStep, Outcome, WithChild, Beside, Suits;
  }
}
