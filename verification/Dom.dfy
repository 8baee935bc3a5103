/** The document tree, the type flags of its numbers, and the stack that builds it from events. */
module Dom {
  import opened Bytes
  import opened Events

  /** Which of the integer types can hold a number exactly. */
  datatype NumberFlags = NumberFlags(isInt: bool, isUint: bool, isInt64: bool, isUint64: bool)

  datatype Json =
    | Null
    | Bool(b: bool)
    | Number(value: int, flags: NumberFlags)
    | Double(literal: bytes)
    | String(str: bytes)
    | Array(elements: seq<Json>)
    | Object(members: seq<Member>)

  datatype Member = Member(name: bytes, value: Json)

  // ---------------------------------------------------------------- number flags

  /** `GenericValue(int)` */
  function FromInt(i: int): Json {
    Number(i, if i >= 0 then NumberFlags(true, true, true, true) else NumberFlags(true, false, true, false))
  }

  /** `GenericValue(unsigned)`: bit 31 decides. */
  function FromUint(u: nat): Json {
    Number(u, if u / 0x8000_0000 % 2 != 0 then NumberFlags(false, true, true, true) else NumberFlags(true, true, true, true))
  }

  /** `GenericValue(int64_t)`: the high 32 and 33 bits of a non-negative value decide. */
  function FromInt64(i: int): Json {
    Number(i,
      if i >= 0 then NumberFlags(i / 0x8000_0000 == 0, i / 0x1_0000_0000 == 0, true, true)
      else NumberFlags(i >= -0x8000_0000, false, true, false))
  }

  /** `GenericValue(uint64_t)`: bit 63 and the high 32 and 33 bits decide. */
  function FromUint64(u: nat): Json {
    Number(u, NumberFlags(u / 0x8000_0000 == 0, u / 0x1_0000_0000 == 0, u / 0x8000_0000_0000_0000 % 2 == 0, true))
  }

  /** Each flag says whether the value is in the range of its type. */
  function Exact(v: int): Json {
    Number(v, NumberFlags(-0x8000_0000 <= v <= 0x7FFF_FFFF, 0 <= v <= 0xFFFF_FFFF,
                          -0x8000_0000_0000_0000 <= v <= 0x7FFF_FFFF_FFFF_FFFF, 0 <= v <= 0xFFFF_FFFF_FFFF_FFFF))
  }

  /** Whichever constructor makes a number, its flags are the ranges its value lies in. */
  lemma FlagsAreExact(v: int)
    ensures -0x8000_0000 <= v <= 0x7FFF_FFFF ==> FromInt(v) == Exact(v)
    ensures 0 <= v <= 0xFFFF_FFFF ==> FromUint(v) == Exact(v)
    ensures -0x8000_0000_0000_0000 <= v <= 0x7FFF_FFFF_FFFF_FFFF ==> FromInt64(v) == Exact(v)
    ensures 0 <= v <= 0xFFFF_FFFF_FFFF_FFFF ==> FromUint64(v) == Exact(v)
  {
  }

  /** A tree of null, booleans, 64-bit integers, byte strings, arrays and objects. */
  ghost predicate ValidTree(v: Json) {
    match v
    case Number(value, flags) =>
      -0x8000_0000_0000_0000 <= value <= 0xFFFF_FFFF_FFFF_FFFF && v == Exact(value)
    case Double(_) => false
    case Array(elements) => forall k :: 0 <= k < |elements| ==> ValidTree(elements[k])
    case Object(members) => forall k :: 0 <= k < |members| ==> ValidTree(members[k].value)
    case _ => true
  }

  // ------------------------------------------------------------------ the builder

  /** The last `count` pairs of the stack as members, if there are that many and every name is a string. */
  function PopMembers(stack: seq<Json>, count: nat): Option<seq<Member>> {
    if count == 0 then Some([])
    else if |stack| < 2 * count || !stack[|stack| - 2].String? then None
    else match PopMembers(stack[..|stack| - 2], count - 1)
      case None => None
      case Some(ms) => Some(ms + [Member(stack[|stack| - 2].str, stack[|stack| - 1])])
  }

  /** What one event does to the stack of values; None where the stack discipline is broken. */
  function Build(stack: seq<Json>, e: Event): Option<seq<Json>> {
    match e
    case NullEvent => Some(stack + [Null])
    case BoolEvent(b) => Some(stack + [Bool(b)])
    case IntEvent(i) => Some(stack + [FromInt(i)])
    case UintEvent(u) => Some(stack + [FromUint(u)])
    case Int64Event(i) => Some(stack + [FromInt64(i)])
    case Uint64Event(u) => Some(stack + [FromUint64(u)])
    case DoubleEvent(d) => Some(stack + [Double(d)])
    case StringEvent(s) => Some(stack + [String(s)])
    case KeyEvent(s) => Some(stack + [String(s)])
    case StartObjectEvent => Some(stack + [Object([])])
    case StartArrayEvent => Some(stack + [Array([])])
    case EndArrayEvent(count) =>
      if |stack| < count + 1 || !stack[|stack| - count - 1].Array? then None
      else Some(stack[..|stack| - count - 1] + [Array(stack[|stack| - count..])])
    case EndObjectEvent(count) =>
      if |stack| < 2 * count + 1 || !stack[|stack| - 2 * count - 1].Object? then None
      else match PopMembers(stack, count)
        case None => None
        case Some(ms) => Some(stack[..|stack| - 2 * count - 1] + [Object(ms)])
  }

  function BuildAll(log: seq<Event>): Option<seq<Json>> {
    if log == [] then Some([])
    else match BuildAll(log[..|log| - 1])
      case None => None
      case Some(stack) => Build(stack, log[|log| - 1])
  }

  /** A document under construction: its handler methods push values and fold finished containers. */
  class Builder {
    var stack: seq<Json>

    constructor ()
      ensures stack == []
    {
      stack := [];
    }

    method Push(v: Json)
      modifies this
      ensures stack == old(stack) + [v]
    {
      stack := stack + [v];
    }

    /** Pops the elements and stores them in the array below them. */
    method EndArray(elementCount: nat)
      requires Build(stack, EndArrayEvent(elementCount)).Some?
      modifies this
      ensures Build(old(stack), EndArrayEvent(elementCount)) == Some(stack)
    {
      var elements := stack[|stack| - elementCount..];
      stack := stack[..|stack| - elementCount];
      stack := stack[|stack| - 1 := Array(elements)];
      assert stack == old(stack)[..|stack| - 1] + [Array(elements)];
    }

    /** Pops the name and value pairs and stores them in the object below them. */
    method EndObject(memberCount: nat)
      requires Build(stack, EndObjectEvent(memberCount)).Some?
      modifies this
      ensures Build(old(stack), EndObjectEvent(memberCount)) == Some(stack)
    {
      var members: seq<Member> := [];
      ghost var whole := stack;
      assert PopMembers(whole, memberCount).value + [] == PopMembers(whole, memberCount).value;
      for k := 0 to memberCount
        invariant |stack| == |whole| - 2 * k && stack == whole[..|stack|]
        invariant PopMembers(stack, memberCount - k).Some?
        invariant PopMembers(whole, memberCount) == Some(PopMembers(stack, memberCount - k).value + members)
      {
        ghost var rest := PopMembers(stack[..|stack| - 2], memberCount - k - 1).value;
        var m := Member(stack[|stack| - 2].str, stack[|stack| - 1]);
        assert rest + [m] + members == rest + ([m] + members);
        members := [m] + members;
        stack := stack[..|stack| - 2];
      }
      assert PopMembers(stack, 0) == Some([]) && [] + members == members;
      stack := stack[|stack| - 1 := Object(members)];
      assert stack == whole[..|stack| - 1] + [Object(members)];
    }

    method Handle(e: Event)
      requires Build(stack, e).Some?
      modifies this
      ensures Build(old(stack), e) == Some(stack)
    {
      match e
      case NullEvent => Push(Null);
      case BoolEvent(b) => Push(Bool(b));
      case IntEvent(i) => Push(FromInt(i));
      case UintEvent(u) => Push(FromUint(u));
      case Int64Event(i) => Push(FromInt64(i));
      case Uint64Event(u) => Push(FromUint64(u));
      case DoubleEvent(d) => Push(Double(d));
      case StringEvent(s) => Push(String(s));
      case KeyEvent(s) => Push(String(s));
      case StartObjectEvent => Push(Object([]));
      case StartArrayEvent => Push(Array([]));
      case EndArrayEvent(count) => EndArray(count);
      case EndObjectEvent(count) => EndObject(count);
    }
  }
}
