/** JSON pointers applied to a document tree: looking up, creating and setting values. */
module PointerTree {
  import opened Bytes
  import opened Dom
  import PointerText

  const INVALID_INDEX := PointerText.INVALID_INDEX

  datatype Token = Token(name: bytes, index: nat)

  /** A place in a tree: which child to take at every level. */
  type Path = seq<nat>

  // -------------------------------------------------------------------------- trees

  function Children(v: Json): nat {
    match v
    case Array(elements) => |elements|
    case Object(members) => |members|
    case _ => 0
  }

  function Child(v: Json, i: nat): (c: Json)
    requires i < Children(v)
    ensures c < v
  {
    if v.Array? then v.elements[i] else v.members[i].value
  }

  function WithChild(v: Json, i: nat, c: Json): (w: Json)
    requires i < Children(v)
    ensures Children(w) == Children(v) && Child(w, i) == c
    ensures forall j :: 0 <= j < Children(v) && j != i ==> Child(w, j) == Child(v, j)
  {
    if v.Array? then Array(v.elements[i := c]) else Object(v.members[i := Member(v.members[i].name, c)])
  }

  predicate HasPath(v: Json, p: Path) {
    p == [] || (p[0] < Children(v) && HasPath(Child(v, p[0]), p[1..]))
  }

  function ValueAt(v: Json, p: Path): Json
    requires HasPath(v, p)
  {
    if p == [] then v else ValueAt(Child(v, p[0]), p[1..])
  }

  /** The tree with another value at a place. */
  function Replace(v: Json, p: Path, x: Json): (w: Json)
    requires HasPath(v, p)
    ensures HasPath(w, p) && ValueAt(w, p) == x
  {
    if p == [] then x else WithChild(v, p[0], Replace(Child(v, p[0]), p[1..], x))
  }

  // ----------------------------------------------------------------------- one token

  /** The first member of that name from `i` on, or their number. */
  function FindMember(members: seq<Member>, name: bytes, i: nat): (m: nat)
    requires i <= |members|
    ensures i <= m <= |members| && (m < |members| ==> members[m].name == name)
    ensures forall k :: i <= k < m ==> members[k].name != name
    decreases |members| - i
  {
    if i == |members| || members[i].name == name then i else FindMember(members, name, i + 1)
  }

  /** The child that a token leads to. */
  function Select(v: Json, t: Token): (c: Option<nat>)
    ensures c.Some? ==> c.value < Children(v)
  {
    match v
    case Object(members) =>
      var m := FindMember(members, t.name, 0);
      if m < |members| then Some(m) else None
    case Array(elements) =>
      if t.index != INVALID_INDEX && t.index < |elements| then Some(t.index) else None
    case _ => None
  }

  datatype Resolution = Found(path: Path) | Unresolved(token: nat)

  /** Evaluation of a pointer (section 4 of RFC 6901); `k` tokens are behind. */
  function Resolve(v: Json, tokens: seq<Token>, k: nat): Resolution {
    if tokens == [] then Found([])
    else match Select(v, tokens[0])
      case None => Unresolved(k)
      case Some(i) =>
        match Resolve(Child(v, i), tokens[1..], k + 1)
        case Found(p) => Found([i] + p)
        case Unresolved(u) => Unresolved(u)
  }

  function Nulls(n: nat): seq<Json> {
    seq(n, i => Null)
  }

  predicate IsDash(t: Token) {
    t.name == [MINUS]
  }

  /** What a token needs its container to be: an object unless it has an index, else whichever it is, or an array. */
  function Retyped(v: Json, t: Token): Json {
    if t.index == INVALID_INDEX then (if v.Object? then v else Object([]))
    else if v.Array? || v.Object? then v
    else Array([])
  }

  /** A container in which the token has a child, the child, and whether it was there before. */
  datatype Step = Step(container: Json, child: nat, exist: bool)

  function CreateStep(v: Json, t: Token): (s: Step)
    ensures s.child < Children(s.container)
  {
    if v.Array? && IsDash(t) then Step(Array(v.elements + [Null]), |v.elements|, false)
    else
      var c := Retyped(v, t);
      if c.Array? then
        if t.index >= |c.elements|
        then Step(Array(c.elements + Nulls(t.index + 1 - |c.elements|)), t.index, false)
        else Step(c, t.index, true)
      else
        var m := FindMember(c.members, t.name, 0);
        if m == |c.members| then Step(Object(c.members + [Member(t.name, Null)]), m, false)
        else Step(c, m, true)
  }

  /** The tree with a place for the pointer, the place, and whether it was there before. */
  datatype Creation = Creation(tree: Json, path: Path, exist: bool)

  function Created(v: Json, tokens: seq<Token>): (c: Creation)
    ensures HasPath(c.tree, c.path) && |c.path| == |tokens|
    decreases |tokens|
  {
    if tokens == [] then Creation(v, [], true)
    else
      var s := CreateStep(v, tokens[0]);
      var c := Created(Child(s.container, s.child), tokens[1..]);
      Creation(WithChild(s.container, s.child, c.tree), [s.child] + c.path, s.exist && c.exist)
  }

  // --------------------------------------------------------------- Create and Get

  /** A token `-` has no index; parsed tokens are like that. */
  predicate Proper(tokens: seq<Token>) {
    forall t <- tokens :: IsDash(t) ==> t.index == INVALID_INDEX
  }

  lemma ParsedIsProper(names: seq<bytes>)
    ensures Proper(seq(|names|, i requires 0 <= i < |names| => Token(names[i], PointerText.IndexOf(names[i]))))
  {
    assert Peek([MINUS], 0) == MINUS;
    assert !PointerText.AllDigits([MINUS]);
  }

  lemma StepExists(v: Json, t: Token)
    requires IsDash(t) ==> t.index == INVALID_INDEX
    ensures CreateStep(v, t).exist <==> Select(v, t).Some?
    ensures CreateStep(v, t).exist ==> CreateStep(v, t).container == v && Select(v, t) == Some(CreateStep(v, t).child)
  {
  }

  lemma SameChild(v: Json, i: nat)
    requires i < Children(v)
    ensures WithChild(v, i, Child(v, i)) == v
  {
    if v.Array? {
      assert v.elements[i := v.elements[i]] == v.elements;
    } else {
      assert v.members[i := v.members[i]] == v.members;
    }
  }

  /** `alreadyExist` says whether `Get` resolved the pointer; then the document is unchanged. */
  lemma {:induction false} ExistIffResolved(v: Json, tokens: seq<Token>, k: nat)
    requires Proper(tokens)
    ensures Created(v, tokens).exist <==> Resolve(v, tokens, k).Found?
    ensures Created(v, tokens).exist ==>
      Created(v, tokens).tree == v && Resolve(v, tokens, k) == Found(Created(v, tokens).path)
    decreases |tokens|
  {
    if tokens != [] {
      var s := CreateStep(v, tokens[0]);
      StepExists(v, tokens[0]);
      ExistIffResolved(Child(s.container, s.child), tokens[1..], k + 1);
      SameChild(s.container, s.child);
      hide CreateStep, Select, WithChild;
    }
  }

  lemma NewChildIsNull(v: Json, t: Token)
    requires !CreateStep(v, t).exist
    ensures Child(CreateStep(v, t).container, CreateStep(v, t).child) == Null
  {
  }

  /** What did not exist is created as null. */
  lemma {:induction false} CreatedIsNull(v: Json, tokens: seq<Token>)
    requires !Created(v, tokens).exist
    ensures ValueAt(Created(v, tokens).tree, Created(v, tokens).path) == Null
    decreases |tokens|
  {
    var s := CreateStep(v, tokens[0]);
    var next := Child(s.container, s.child);
    if !s.exist {
      NewChildIsNull(v, tokens[0]);
    }
    if Created(next, tokens[1..]).exist {
      assert next == Null;
      NullCreates(tokens[1..]);
    } else {
      CreatedIsNull(next, tokens[1..]);
    }
  }

  lemma NullCreates(tokens: seq<Token>)
    requires Created(Null, tokens).exist
    ensures tokens == [] && ValueAt(Created(Null, tokens).tree, []) == Null
  {
  }

  /** Somewhere on the way, a `-` appended to an array. */
  predicate DashLanded(v: Json, tokens: seq<Token>)
    decreases |tokens|
  {
    tokens != [] &&
    ((v.Array? && IsDash(tokens[0])) ||
     var s := CreateStep(v, tokens[0]); DashLanded(Child(s.container, s.child), tokens[1..]))
  }

  /** After a step, the token leads to the child, unless it is a `-` on an array. */
  lemma StepSelects(v: Json, t: Token, c: Json)
    requires IsDash(t) ==> t.index == INVALID_INDEX
    ensures var s := CreateStep(v, t);
      Select(WithChild(s.container, s.child, c), t) == if v.Array? && IsDash(t) then None else Some(s.child)
  {
    var s := CreateStep(v, t);
    if s.container.Object? {
      NamesKept(s.container, s.child, c, t.name);
    }
  }

  lemma NamesKept(v: Json, i: nat, c: Json, name: bytes)
    requires v.Object? && i < Children(v)
    ensures FindMember(WithChild(v, i, c).members, name, 0) == FindMember(v.members, name, 0)
  {
    FirstMember(WithChild(v, i, c).members, name, FindMember(v.members, name, 0));
  }

  lemma FirstMember(members: seq<Member>, name: bytes, m: nat)
    requires m <= |members| && (m < |members| ==> members[m].name == name)
    requires forall k :: 0 <= k < m ==> members[k].name != name
    ensures FindMember(members, name, 0) == m
  {
  }

  /** Afterwards `Get` reaches the created value, exactly unless a `-` landed on an array. */
  lemma {:induction false} GetAfterCreate(v: Json, tokens: seq<Token>, k: nat)
    requires Proper(tokens)
    ensures var c := Created(v, tokens);
      if DashLanded(v, tokens) then Resolve(c.tree, tokens, k).Unresolved? else Resolve(c.tree, tokens, k) == Found(c.path)
    decreases |tokens|
  {
    if tokens != [] {
      var s := CreateStep(v, tokens[0]);
      var c := Created(Child(s.container, s.child), tokens[1..]);
      GetAfterCreate(Child(s.container, s.child), tokens[1..], k + 1);
      StepSelects(v, tokens[0], c.tree);
      hide CreateStep, Select, WithChild;
    }
  }

  // ------------------------------------------------------------------- other pointers

  /** The step left the container an array, or an object, with its children. */
  predicate KeepsType(v: Json, t: Token) {
    var c := CreateStep(v, t).container;
    (v.Array? && c.Array?) || (v.Object? && c.Object?)
  }

  /** Pointer `q` parts from the created one at a container that was not retyped. */
  predicate Parts(v: Json, tokens: seq<Token>, q: seq<Token>)
    decreases |tokens|
  {
    tokens != [] && q != [] && KeepsType(v, tokens[0]) &&
    match Select(v, q[0])
    case None => true
    case Some(j) => j != CreateStep(v, tokens[0]).child || Parts(Child(v, j), tokens[1..], q[1..])
  }

  predicate PathsPart(p: Path, q: Path) {
    p != [] && q != [] && (p[0] != q[0] || PathsPart(p[1..], q[1..]))
  }

  lemma {:induction false} FoundHasPath(v: Json, q: seq<Token>, k: nat)
    requires Resolve(v, q, k).Found?
    ensures HasPath(v, Resolve(v, q, k).path)
    decreases |q|
  {
    if q != [] {
      FoundHasPath(Child(v, Select(v, q[0]).value), q[1..], k + 1);
    }
  }

  lemma SelectKept(v: Json, i: nat, c: Json, t: Token)
    requires i < Children(v)
    ensures Select(WithChild(v, i, c), t) == Select(v, t)
  {
    if v.Object? {
      NamesKept(v, i, c, t.name);
    }
  }

  /** A step that keeps the container's type keeps what was found in it. */
  lemma StepKeepsFound(v: Json, t: Token, q: Token)
    requires KeepsType(v, t) && Select(v, q).Some?
    ensures var s, j := CreateStep(v, t), Select(v, q).value;
      Select(s.container, q) == Some(j) && Child(s.container, j) == Child(v, j) && (j == s.child ==> s.container == v)
  {
    if v.Object? {
      FirstMember(CreateStep(v, t).container.members, q.name, Select(v, q).value);
    }
  }

  lemma StepAside(v: Json, t: Token, q: Token, c: Json)
    requires KeepsType(v, t) && Select(v, q).Some? && Select(v, q).value != CreateStep(v, t).child
    ensures var s, j := CreateStep(v, t), Select(v, q).value;
      Select(WithChild(s.container, s.child, c), q) == Some(j) &&
      Child(WithChild(s.container, s.child, c), j) == Child(v, j)
  {
    StepKeepsFound(v, t, q);
    SelectKept(CreateStep(v, t).container, CreateStep(v, t).child, c, q);
  }

  /** A pointer that resolved before, and parts from the created one at a container that was not retyped, still
      resolves to the same place and the same value. */
  lemma {:induction false} OthersKept(v: Json, tokens: seq<Token>, q: seq<Token>, k: nat)
    requires Resolve(v, q, k).Found? && Parts(v, tokens, q)
    ensures var c, p := Created(v, tokens), Resolve(v, q, k).path;
      Resolve(c.tree, q, k) == Found(p) && HasPath(v, p) && HasPath(c.tree, p) && ValueAt(c.tree, p) == ValueAt(v, p) &&
      PathsPart(c.path, p)
    decreases |tokens|
  {
    FoundHasPath(v, q, k);
    var s, j := CreateStep(v, tokens[0]), Select(v, q[0]).value;
    var c := Created(Child(s.container, s.child), tokens[1..]);
    StepKeepsFound(v, tokens[0], q[0]);
    SelectKept(s.container, s.child, c.tree, q[0]);
    if j == s.child {
      OthersKept(Child(v, j), tokens[1..], q[1..], k + 1);
    } else {
      StepAside(v, tokens[0], q[0], c.tree);
      FoundHasPath(Child(v, j), q[1..], k + 1);
    }
  }

  /** `Set`: the created place gets a value. */
  function WithValue(v: Json, tokens: seq<Token>, x: Json): Json {
    var c := Created(v, tokens);
    Replace(c.tree, c.path, x)
  }

  lemma {:induction false} ReplaceFound(v: Json, q: seq<Token>, k: nat, x: Json)
    requires Resolve(v, q, k).Found? && HasPath(v, Resolve(v, q, k).path)
    ensures Resolve(Replace(v, Resolve(v, q, k).path, x), q, k) == Resolve(v, q, k)
    decreases |q|
  {
    if q != [] {
      var i := Select(v, q[0]).value;
      var p := Resolve(v, q, k).path;
      ReplaceFound(Child(v, i), q[1..], k + 1, x);
      SelectKept(v, i, Replace(Child(v, i), p[1..], x), q[0]);
    }
  }

  lemma {:induction false} ReplaceAside(v: Json, p: Path, q: seq<Token>, k: nat, x: Json)
    requires HasPath(v, p) && Resolve(v, q, k).Found? && PathsPart(p, Resolve(v, q, k).path)
    requires HasPath(v, Resolve(v, q, k).path)
    ensures var r := Resolve(v, q, k).path;
      Resolve(Replace(v, p, x), q, k) == Found(r) && HasPath(Replace(v, p, x), r) && ValueAt(Replace(v, p, x), r) == ValueAt(v, r)
    decreases |q|
  {
    var i := Select(v, q[0]).value;
    var c := Replace(Child(v, p[0]), p[1..], x);
    SelectKept(v, p[0], c, q[0]);
    if i == p[0] {
      ReplaceAside(Child(v, i), p[1..], q[1..], k + 1, x);
    } else {
      FoundHasPath(Child(v, i), q[1..], k + 1);
    }
  }

  /** What was set is what `Get` finds, unless a `-` landed on an array. */
  lemma GetAfterSet(v: Json, tokens: seq<Token>, x: Json, k: nat)
    requires Proper(tokens) && !DashLanded(v, tokens)
    ensures Resolve(WithValue(v, tokens, x), tokens, k).Found?
    ensures var p := Resolve(WithValue(v, tokens, x), tokens, k).path;
      HasPath(WithValue(v, tokens, x), p) && ValueAt(WithValue(v, tokens, x), p) == x
  {
    hide Resolve, DashLanded;
    var c := Created(v, tokens);
    GetAfterCreate(v, tokens, k);
    ReplaceFound(c.tree, tokens, k, x);
  }

  /** Pointers that part from the one that was set keep their places and values. */
  lemma OthersKeptBySet(v: Json, tokens: seq<Token>, x: Json, q: seq<Token>, k: nat)
    requires Resolve(v, q, k).Found? && Parts(v, tokens, q)
    ensures var p := Resolve(v, q, k).path;
      Resolve(WithValue(v, tokens, x), q, k) == Found(p) && HasPath(v, p) && HasPath(WithValue(v, tokens, x), p) &&
      ValueAt(WithValue(v, tokens, x), p) == ValueAt(v, p)
  {
    hide Resolve, Parts, ValueAt;
    OthersKept(v, tokens, q, k);
    ReplaceAside(Created(v, tokens).tree, Created(v, tokens).path, q, k, x);
  }

  // ------------------------------------------------------------------------ the code

  /** Replacing a child of what was put at a place. */
  lemma {:induction false} ReplaceChild(r: Json, p: Path, x: Json, i: nat, y: Json)
    requires HasPath(r, p) && i < Children(x)
    ensures var w := Replace(r, p, x);
      HasPath(w, p + [i]) && ValueAt(w, p + [i]) == Child(x, i) &&
      Replace(w, p + [i], y) == Replace(r, p, WithChild(x, i, y))
  {
    var w := Replace(r, p, x);
    if p == [] {
      assert p + [i] == [i] && [i][1..] == [];
      assert Replace(Child(w, i), [], y) == y;
    } else {
      ReplaceChild(Child(r, p[0]), p[1..], x, i, y);
      assert (p + [i])[1..] == p[1..] + [i];
      ReplaceTwice(r, p[0], Replace(Child(r, p[0]), p[1..], x), Replace(Child(r, p[0]), p[1..], WithChild(x, i, y)));
    }
  }

  lemma ReplaceTwice(v: Json, i: nat, c: Json, d: Json)
    requires i < Children(v)
    ensures WithChild(WithChild(v, i, c), i, d) == WithChild(v, i, d)
  {
  }

  /** In tree `r`, creating `tokens` below `v` completes the creation `c`. */
  ghost predicate Walking(r: Json, v: Path, tokens: seq<Token>, exist: bool, c: Creation)
    requires HasPath(r, v)
  {
    var rest := Created(ValueAt(r, v), tokens);
    c.tree == Replace(r, v, rest.tree) && c.path == v + rest.path && c.exist == (exist && rest.exist)
  }

  lemma WalkStarts(r: Json, tokens: seq<Token>)
    ensures HasPath(r, []) && Walking(r, [], tokens, true, Created(r, tokens))
  {
    var c := Created(r, tokens);
    assert [] + c.path == c.path;
  }

  lemma WalkStep(r: Json, v: Path, tokens: seq<Token>, exist: bool, c: Creation)
    requires tokens != [] && HasPath(r, v) && Walking(r, v, tokens, exist, c)
    ensures var s := CreateStep(ValueAt(r, v), tokens[0]);
      HasPath(Replace(r, v, s.container), v + [s.child]) &&
      Walking(Replace(r, v, s.container), v + [s.child], tokens[1..], exist && s.exist, c)
  {
    hide CreateStep, Replace, ValueAt, WithChild, HasPath, Created, Child, Children;
    var s := CreateStep(ValueAt(r, v), tokens[0]);
    var below := Created(Child(s.container, s.child), tokens[1..]);
    CreatedNext(ValueAt(r, v), tokens);
    ReplaceChild(r, v, s.container, s.child, below.tree);
    PathConcat(v, s.child, below.path);
    assert c.path == v + [s.child] + below.path;
  }

  lemma PathConcat(v: Path, i: nat, p: Path)
    ensures v + ([i] + p) == v + [i] + p
  {
  }

  lemma CreatedNext(v: Json, tokens: seq<Token>)
    requires tokens != []
    ensures var s := CreateStep(v, tokens[0]);
      var below := Created(Child(s.container, s.child), tokens[1..]);
      Created(v, tokens) ==
      Creation(WithChild(s.container, s.child, below.tree), [s.child] + below.path, s.exist && below.exist)
  {
  }

  lemma WalkEnds(r: Json, v: Path, exist: bool, c: Creation)
    requires HasPath(r, v) && Walking(r, v, [], exist, c)
    ensures c == Creation(r, v, exist)
  {
    ReplaceSame(r, v);
    assert v + [] == v;
  }

  /** A document: a pointer into it is the path to a value. */
  class Document {
    var root: Json

    constructor (root: Json)
      ensures this.root == root
    {
      this.root := root;
    }

    /** `*v = x`. */
    method Assign(v: Path, x: Json)
      requires HasPath(root, v)
      modifies this
      ensures root == Replace(old(root), v, x)
    {
      root := Replace(root, v, x);
    }
  
    /** PushBack: a null at the end of the array at `v`. */
    method PushBackNull(v: Path)
      requires HasPath(root, v) && ValueAt(root, v).Array?
      modifies this
      ensures root == Replace(old(root), v, Array(old(ValueAt(root, v).elements) + [Null]))
    {
      Assign(v, Array(ValueAt(root, v).elements + [Null]));
    }

    /** Nulls are pushed until the array has `index`. */
    method PushBackUpTo(v: Path, index: nat)
      requires HasPath(root, v) && ValueAt(root, v).Array? && index >= Children(ValueAt(root, v))
      modifies this
      ensures var e := old(ValueAt(root, v).elements);
        root == Replace(old(root), v, Array(e + Nulls(index + 1 - |e|)))
    {
      ghost var e := ValueAt(root, v).elements;
      ghost var n := 0;
      assert e + Nulls(0) == e;
      ReplaceSame(root, v);
      while index >= Children(ValueAt(root, v))
        invariant HasPath(root, v) && |e| + n <= index + 1
        invariant root == Replace(old(root), v, Array(e + Nulls(n)))
        decreases index + 1 - |e| - n
      {
        PushBackNull(v);
        ReplaceAgain(old(root), v, Array(e + Nulls(n)), Array(e + Nulls(n) + [Null]));
        n := n + 1;
        assert e + Nulls(n) == e + Nulls(n - 1) + [Null];
      }
    }

    /** The container at `v` becomes what the token needs. */
    method ChangeType(v: Path, t: Token)
      requires HasPath(root, v)
      modifies this
      ensures root == Replace(old(root), v, Retyped(old(ValueAt(root, v)), t))
    {
      ReplaceSame(root, v);
      if t.index == INVALID_INDEX {
        if !ValueAt(root, v).Object? {
          Assign(v, Object([]));
        }
      } else {
        if !ValueAt(root, v).Array? && !ValueAt(root, v).Object? {
          Assign(v, Array([]));
        }
      }
    }

    /** FindMember on the object at `v`: the first member of that name. */
    method Find(v: Path, name: bytes) returns (m: nat)
      requires HasPath(root, v) && ValueAt(root, v).Object?
      ensures m == FindMember(ValueAt(root, v).members, name, 0)
    {
      var members := ValueAt(root, v).members;
      m := 0;
      while m < |members| && members[m].name != name
        invariant m <= |members| && FindMember(members, name, 0) == FindMember(members, name, m)
      {
        m := m + 1;
      }
    }

    /** One round of the loop of Create. */
    method Descend(v: Path, t: Token) returns (w: Path, exist: bool)
      requires HasPath(root, v)
      modifies this
      ensures var s := CreateStep(old(ValueAt(root, v)), t);
        root == Replace(old(root), v, s.container) && w == v + [s.child] && exist == s.exist
    {
      ghost var r, at := root, ValueAt(root, v);
      exist := true;
      if ValueAt(root, v).Array? && IsDash(t) {
        PushBackNull(v);
        return v + [Children(ValueAt(root, v)) - 1], false;
      }
      ChangeType(v, t);
      ghost var c := Retyped(at, t);
      if ValueAt(root, v).Array? {
        if t.index >= Children(ValueAt(root, v)) {
          PushBackUpTo(v, t.index);
          ReplaceAgain(r, v, c, Array(c.elements + Nulls(t.index + 1 - |c.elements|)));
          exist := false;
        }
        w := v + [t.index];
      } else {
        var m := Find(v, t.name);
        if m == Children(ValueAt(root, v)) {
          Assign(v, Object(ValueAt(root, v).members + [Member(t.name, Null)]));
          ReplaceAgain(r, v, c, Object(c.members + [Member(t.name, Null)]));
          exist := false;
        }
        w := v + [m];
      }
    }

    /** Walks down, making what is missing; the pointer to the last value is returned. */
    method Create(tokens: seq<Token>) returns (v: Path, alreadyExist: bool)
      modifies this
      ensures var c := Created(old(root), tokens);
        root == c.tree && v == c.path && alreadyExist == c.exist
    {
      hide Created, CreateStep, Replace, ValueAt, Walking;
      ghost var c := Created(root, tokens);
      v := [];
      alreadyExist := true;
      assert tokens[0..] == tokens;
      WalkStarts(root, tokens);
      for k := 0 to |tokens|
        invariant HasPath(root, v) && Walking(root, v, tokens[k..], alreadyExist, c)
      {
        assert tokens[k..][0] == tokens[k] && tokens[k..][1..] == tokens[k + 1..];
        WalkStep(root, v, tokens[k..], alreadyExist, c);
        var exist;
        v, exist := Descend(v, tokens[k]);
        alreadyExist := alreadyExist && exist;
      }
      assert tokens[|tokens|..] == [];
      WalkEnds(root, v, alreadyExist, c);
    }

    method Set(tokens: seq<Token>, value: Json)
      modifies this
      ensures root == WithValue(old(root), tokens, value)
    {
      var v, exist := Create(tokens);
      Assign(v, value);
    }

    /** Looks a pointer up; when it fails, tells at which token. */
    method Get(tokens: seq<Token>) returns (result: Resolution)
      ensures result == Resolve(root, tokens, 0)
    {
      var v := root;
      var path: Path := [];
      assert tokens[0..] == tokens;
      Through([], Resolve(root, tokens, 0));
      for k := 0 to |tokens|
        invariant Resolve(root, tokens, 0) == Under(path, Resolve(v, tokens[k..], k))
      {
        var t := tokens[k];
        assert tokens[k..][0] == t && tokens[k..][1..] == tokens[k + 1..];
        var child := Select(v, t);
        if child == None {
          return Unresolved(k);
        }
        UnderTwice(path, child.value, Resolve(Child(v, child.value), tokens[k + 1..], k + 1));
        path := path + [child.value];
        v := Child(v, child.value);
      }
      assert path + [] == path;
      return Found(path);
    }
  }

  function Under(path: Path, r: Resolution): Resolution {
    match r
    case Found(p) => Found(path + p)
    case Unresolved(u) => Unresolved(u)
  }

  lemma Through(path: Path, r: Resolution)
    requires path == []
    ensures Under(path, r) == r
  {
    if r.Found? {
      assert [] + r.path == r.path;
    }
  }

  lemma UnderTwice(path: Path, i: nat, r: Resolution)
    ensures Under(path, Under([i], r)) == Under(path + [i], r)
  {
    if r.Found? {
      assert path + ([i] + r.path) == path + [i] + r.path;
    }
  }

  lemma {:induction false} ReplaceSame(r: Json, p: Path)
    requires HasPath(r, p)
    ensures Replace(r, p, ValueAt(r, p)) == r
  {
    if p != [] {
      ReplaceSame(Child(r, p[0]), p[1..]);
      SameChild(r, p[0]);
    }
  }

  lemma {:induction false} ReplaceAgain(r: Json, p: Path, x: Json, y: Json)
    requires HasPath(r, p)
    ensures Replace(Replace(r, p, x), p, y) == Replace(r, p, y)
  {
    if p != [] {
      ReplaceAgain(Child(r, p[0]), p[1..], x, y);
      ReplaceTwice(r, p[0], Replace(Child(r, p[0]), p[1..], x), Replace(Child(r, p[0]), p[1..], y));
    }
  }
}
