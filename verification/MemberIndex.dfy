/** The members of an object, kept in an array with a multimap from names to positions beside it. */
module MemberIndex {
  import opened Bytes
  import opened Dom

  /** One place of the members' array. */
  datatype Slot = Unused | Used(member: Member)

  /** A node of the multimap: the name it is found under, and the position it leads to. Nodes keep their identity, so
      an iterator is the number of a node. */
  datatype Node = Node(name: bytes, position: nat)

  /** On the positions `live`, the index and the members agree: the multimap has exactly one node for each, with the
      member's name, and the iterator there points to it. */
  ghost predicate Indexed(nodes: map<nat, Node>, iterators: seq<nat>, members: seq<Slot>, live: set<nat>) {
    |iterators| == |members| &&
    (forall i <- live :: i < |members| && members[i].Used? && iterators[i] in nodes &&
      nodes[iterators[i]] == Node(members[i].member.name, i)) &&
    forall id <- nodes :: nodes[id].position in live && iterators[nodes[id].position] == id
  }

  lemma DropNode(nodes: map<nat, Node>, iterators: seq<nat>, members: seq<Slot>, live: set<nat>, i: nat)
    requires Indexed(nodes, iterators, members, live) && i in live
    ensures Indexed(nodes - {iterators[i]}, iterators, members, live - {i})
  {
  }

  lemma InsertNode(nodes: map<nat, Node>, iterators: seq<nat>, members: seq<Slot>, live: set<nat>, i: nat, id: nat)
    requires Indexed(nodes, iterators, members, live) && i !in live && id !in nodes
    requires i < |members| && members[i].Used?
    ensures Indexed(nodes[id := Node(members[i].member.name, i)], iterators[i := id], members, live + {i})
  {
  }

  lemma MoveNode(nodes: map<nat, Node>, iterators: seq<nat>, members: seq<Slot>, live: set<nat>, from: nat, to: nat)
    requires Indexed(nodes, iterators, members, live) && from in live && to !in live && to < |members|
    ensures Indexed(nodes[iterators[from] := Node(members[from].member.name, to)], iterators[to := iterators[from]],
      members[to := members[from]], live - {from} + {to})
  {
  }

  /** Only the places in use matter. */
  lemma SameIndex(nodes: map<nat, Node>, iterators: seq<nat>, members: seq<Slot>,
                  iterators': seq<nat>, members': seq<Slot>, live: set<nat>)
    requires Indexed(nodes, iterators, members, live) && |iterators'| == |members'|
    requires forall i <- live :: i < |members'| && iterators'[i] == iterators[i] && members'[i] == members[i]
    ensures Indexed(nodes, iterators', members', live)
  {
  }

  lemma OutsideIndex(nodes: map<nat, Node>, iterators: seq<nat>, members: seq<Slot>, live: set<nat>, i: nat, slot: Slot)
    requires Indexed(nodes, iterators, members, live) && i !in live && i < |members|
    ensures Indexed(nodes, iterators, members[i := slot], live)
  {
  }

  /** The multimap is the set of pairs of a name and its position, each once. */
  lemma {:induction false} IndexIsExact(nodes: map<nat, Node>, iterators: seq<nat>, members: seq<Slot>, live: set<nat>)
    requires Indexed(nodes, iterators, members, live)
    ensures nodes.Values == (set i <- live :: Node(members[i].member.name, i))
    ensures |nodes| == |live|
    decreases |live|
  {
    if live != {} {
      var i :| i in live;
      DropNode(nodes, iterators, members, live, i);
      IndexIsExact(nodes - {iterators[i]}, iterators, members, live - {i});
      assert (nodes - {iterators[i]}).Keys == nodes.Keys - {iterators[i]};
    }
  }

  /** The positions in use. */
  ghost function Positions(n: nat): set<nat> {
    if n == 0 then {} else Positions(n - 1) + {n - 1}
  }

  lemma InPositions(n: nat)
    ensures forall i: nat :: i in Positions(n) <==> i < n
    ensures |Positions(n)| == n
  {
    if n > 0 {
      InPositions(n - 1);
    }
  }

  lemma PositionsDown(n: nat)
    requires n > 0
    ensures Positions(n - 1) == Positions(n) - {n - 1}
    ensures n - 1 in Positions(n)
    ensures n - 1 !in Positions(n - 1)
  {
    InPositions(n - 1);
  }

  /** The positions below `gap`, and those from `resume` on. */
  ghost function Around(gap: nat, resume: nat, n: nat): set<nat>
    requires gap <= resume <= n
  {
    Positions(gap) + (Positions(n) - Positions(resume))
  }

  /** Erasing the pair at `resume`, or moving it to `gap`. */
  lemma AroundNext(gap: nat, resume: nat, n: nat)
    requires gap <= resume < n
    ensures Around(gap, resume, n) - {resume} == Around(gap, resume + 1, n)
    ensures gap < resume ==> Around(gap, resume, n) - {resume} + {gap} == Around(gap + 1, resume + 1, n)
    ensures resume in Around(gap, resume, n) && (gap < resume ==> gap !in Around(gap, resume, n))
  {
    InAround(gap, resume, n);
    InAround(gap, resume + 1, n);
    if gap < resume {
      InAround(gap + 1, resume + 1, n);
    }
    hide Around;
  }

  lemma InAround(gap: nat, resume: nat, n: nat)
    requires gap <= resume <= n
    ensures forall i: nat :: i in Around(gap, resume, n) <==> i < gap || resume <= i < n
  {
    InPositions(gap);
    InPositions(resume);
    InPositions(n);
    hide Positions;
  }

  /** Nothing is left out at first, and nothing follows at last. */
  lemma AroundEnds(gap: nat, n: nat)
    requires gap <= n
    ensures Around(gap, gap, n) == Positions(n) && Around(gap, n, n) == Positions(gap)
  {
    InPositions(gap);
    InPositions(n);
    hide Positions;
  }

  function MemberIn(place: Slot): Member {
    if place.Used? then place.member else Member([], Null)
  }

  /** The members in a stretch of places. */
  function MembersOf(places: seq<Slot>): (s: seq<Member>)
    ensures |s| == |places|
  {
    seq(|places|, i requires 0 <= i < |places| => MemberIn(places[i]))
  }

  /** The pair of every member's name and its position. */
  function Pairs(s: seq<Member>): set<Node> {
    set i | 0 <= i < |s| :: Node(s[i].name, i)
  }

  lemma PairsAt(places: seq<Slot>, n: nat)
    requires n <= |places| && forall i <- Positions(n) :: i < |places| && places[i].Used?
    ensures Pairs(MembersOf(places[..n])) == set i <- Positions(n) :: Node(places[i].member.name, i)
  {
    InPositions(n);
    hide Positions;
    var s := MembersOf(places[..n]);
    assert forall i :: 0 <= i < n ==> i in Positions(n) && s[i] == places[i].member;
    forall p <- (set i <- Positions(n) :: Node(places[i].member.name, i))
      ensures p in Pairs(s)
    {
      assert s[p.position].name == p.name;
    }
  }

  lemma MembersAppend(places: seq<Slot>, member: Member)
    ensures MembersOf(places + [Used(member)]) == MembersOf(places) + [member]
  {
  }

  lemma MembersSwap(places: seq<Slot>, m: nat)
    requires m < |places|
    ensures MembersOf(places[m := places[|places| - 1]][..|places| - 1]) ==
      MembersOf(places)[m := MembersOf(places)[|places| - 1]][..|places| - 1]
  {
    var q := places[m := places[|places| - 1]][..|places| - 1];
    assert forall i :: 0 <= i < |q| ==> q[i] == if i == m then places[|places| - 1] else places[i];
  }

  lemma MembersErased(places: seq<Slot>, first: nat, last: nat)
    requires first <= last <= |places|
    ensures MembersOf(places[..first] + places[last..]) == MembersOf(places)[..first] + MembersOf(places)[last..]
  {
  }

  const DEFAULT_OBJECT_CAPACITY: nat := 16

  class ObjectMembers {
    var members: array<Slot>
    var iterators: array<nat>
    var size: nat
    var nodes: map<nat, Node>
    /** The next node's number: nodes are never confused with freed ones. */
    var nextNode: nat

    /** The index agrees with the members at the positions `live`. */
    ghost predicate Agrees(live: set<nat>)
      reads this`members, this`iterators, this`nodes, this`nextNode, members, iterators
    {
      members.Length == iterators.Length && (forall id <- nodes :: id < nextNode) &&
      Indexed(nodes, iterators[..], members[..], live)
    }

    ghost predicate Valid()
      reads this, members, iterators
    {
      size <= members.Length && Agrees(Positions(size))
    }

    ghost function Contents(): (s: seq<Member>)
      reads this, members, iterators
      requires size <= members.Length
      ensures |s| == size
    {
      MembersOf(members[..size])
    }

    constructor ()
      ensures Valid() && Contents() == [] && members.Length == 0
    {
      members, iterators, size, nodes, nextNode := new Slot[0], new nat[0], 0, map[], 0;
    }

    /** The indexed lookup: any node of that name will do. */
    method FindMember(name: bytes) returns (m: nat)
      requires Valid()
      ensures m <= size && (m < size ==> Contents()[m].name == name)
      ensures m == size ==> forall i :: 0 <= i < size ==> Contents()[i].name != name
    {
      InPositions(size);
      if id :| id in nodes && nodes[id].name == name {
        return nodes[id].position;
      }
      return size;
    }

    /** The lookup without the index. */
    method FindMemberLinear(name: bytes) returns (m: nat)
      requires Valid()
      ensures m <= size && (m < size ==> Contents()[m].name == name)
      ensures forall i :: 0 <= i < m ==> Contents()[i].name != name
    {
      InPositions(size);
      m := 0;
      while m < size
        invariant m <= size && forall i :: 0 <= i < m ==> Contents()[i].name != name
      {
        if members[m].member.name == name {
          return;
        }
        m := m + 1;
      }
    }
  
    /** With distinct names both lookups find the same member, or none. */
    lemma SameLookup(name: bytes, m: nat, n: nat)
      requires Valid() && m <= size && n <= size
      requires m < size ==> Contents()[m].name == name
      requires m == size ==> forall i :: 0 <= i < size ==> Contents()[i].name != name
      requires n < size ==> Contents()[n].name == name
      requires n == size ==> forall i :: 0 <= i < size ==> Contents()[i].name != name
      requires forall i, j :: 0 <= i < j < size ==> Contents()[i].name != Contents()[j].name
      ensures m == n
    {
    }

    /** The multimap holds the pairs of name and position, one for every member. */
    lemma HoldsExactly()
      requires Valid()
      ensures nodes.Values == Pairs(Contents()) && |nodes| == size
    {
      InPositions(size);
      IndexIsExact(nodes, iterators[..], members[..], Positions(size));
      PairsAt(members[..], size);
    }

    // ---------------------------------------------------------------- one node at a time

    /** A place that is not in use is written. */
    method PutMember(i: nat, slot: Slot, ghost live: set<nat>)
      requires Agrees(live) && i < members.Length && i !in live
      modifies members
      ensures Agrees(live) && members[..] == old(members[..])[i := slot]
    {
      OutsideIndex(nodes, iterators[..], members[..], live, i, slot);
      hide Indexed;
      members[i] := slot;
      assert members[..] == old(members[..])[i := slot];
    }

    /** Inserts the pair for place `i`, and keeps the iterator. */
    method InsertAt(i: nat, ghost live: set<nat>)
      requires Agrees(live) && i < members.Length && i !in live && members[i].Used?
      modifies this`nodes, this`nextNode, iterators
      ensures Agrees(live + {i})
    {
      InsertNode(nodes, iterators[..], members[..], live, i, nextNode);
      hide Indexed;
      nodes := nodes[nextNode := Node(members[i].member.name, i)];
      iterators[i] := nextNode;
      assert iterators[..] == old(iterators[..])[i := nextNode];
      nextNode := nextNode + 1;
    }

    /** Erases the pair for place `i` by its iterator. */
    method EraseAt(i: nat, ghost live: set<nat>)
      requires Agrees(live) && i in live && i < members.Length
      modifies this`nodes
      ensures Agrees(live - {i})
    {
      DropNode(nodes, iterators[..], members[..], live, i);
      hide Indexed;
      nodes := nodes - {iterators[i]};
    }

    /** Moves a member and its iterator to a free place, and tells the pair its new position. */
    method MoveTo(from: nat, to: nat, ghost live: set<nat>)
      requires Agrees(live) && from in live && from < members.Length && to < members.Length && to !in live
      modifies this`nodes, members, iterators
      ensures Agrees(live - {from} + {to}) && members[..] == old(members[..])[to := old(members[from])]
    {
      InUse(from, live);
      MoveNode(nodes, iterators[..], members[..], live, from, to);
      hide Indexed;
      iterators[to] := iterators[from];
      assert iterators[..] == old(iterators[..])[to := old(iterators[from])];
      nodes := nodes[iterators[to] := nodes[iterators[to]].(position := to)];
      members[to] := members[from];
      assert members[..] == old(members[..])[to := old(members[from])];
    }

    lemma InUse(i: nat, live: set<nat>)
      requires Agrees(live) && i in live
      ensures i < members.Length && members[i].Used? && iterators[i] in nodes
      ensures nodes[iterators[i]] == Node(members[i].member.name, i) && iterators[i] < nextNode
    {
    }

    // -------------------------------------------------------------------- whole operations

    /** New places and iterators with as many of the old ones as the multimap has nodes. */
    method DoReallocMap(newCapacity: nat) returns (newMembers: array<Slot>, newIterators: array<nat>)
      requires |nodes| <= members.Length == iterators.Length <= newCapacity
      ensures fresh(newMembers) && fresh(newIterators) && newMembers.Length == newIterators.Length == newCapacity
      ensures newMembers[..|nodes|] == members[..|nodes|] && newIterators[..|nodes|] == iterators[..|nodes|]
    {
      newMembers, newIterators := new Slot[newCapacity], new nat[newCapacity];
      var count := |nodes|;
      forall i | 0 <= i < count {
        newMembers[i] := members[i];
      }
      forall i | 0 <= i < count {
        newIterators[i] := iterators[i];
      }
    }

    /** The multimap has as many nodes as there are members. */
    lemma NodesAreMembers()
      requires Valid()
      ensures |nodes| == size
    {
      IndexIsExact(nodes, iterators[..], members[..], Positions(size));
      InPositions(size);
    }

    /** Grows the array and the iterators; the multimap stays. */
    method DoReserveMembers(newCapacity: nat)
      requires Valid()
      modifies this`members, this`iterators
      ensures Valid() && Contents() == old(Contents())
      ensures members.Length == if newCapacity > old(members.Length) then newCapacity else old(members.Length)
      ensures newCapacity > old(members.Length) ==> fresh(members) && fresh(iterators)
      ensures newCapacity <= old(members.Length) ==> members == old(members) && iterators == old(iterators)
    {
      hide Indexed, MembersOf, Positions;
      if newCapacity > members.Length {
        NodesAreMembers();
        var newMembers, newIterators := DoReallocMap(newCapacity);
        Regrown(newMembers[..], newIterators[..]);
        members, iterators := newMembers, newIterators;
      }
    }

    lemma Regrown(newMembers: seq<Slot>, newIterators: seq<nat>)
      requires Valid() && size <= |newMembers| == |newIterators|
      requires newMembers[..size] == members[..size] && newIterators[..size] == iterators[..size]
      ensures Indexed(nodes, newIterators, newMembers, Positions(size))
    {
      hide Indexed, MembersOf, Positions;
      InPositions(size);
      forall i <- Positions(size)
        ensures i < |newMembers| && newIterators[i] == iterators[i] && newMembers[i] == members[i]
      {
        assert newMembers[..size][i] == members[..size][i] && newIterators[..size][i] == iterators[..size][i];
      }
      SameIndex(nodes, iterators[..], members[..], newIterators, newMembers, Positions(size));
    }

    method DoAddMember(name: bytes, value: Json)
      requires Valid()
      modifies this, members, iterators
      ensures Valid() && Contents() == old(Contents()) + [Member(name, value)]
      ensures members.Length ==
        if old(size < members.Length) then old(members.Length)
        else if old(members.Length) > 0 then old(members.Length + (members.Length + 1) / 2)
        else DEFAULT_OBJECT_CAPACITY
    {
      hide Indexed, Positions, MembersOf;
      if size >= members.Length {
        DoReserveMembers(
          if members.Length > 0 then members.Length + (members.Length + 1) / 2 else DEFAULT_OBJECT_CAPACITY);
      }
      Append(Member(name, value));
    }

    /** Writes the place after the last member and indexes it. */
    method Append(member: Member)
      requires Valid() && size < members.Length
      modifies this`size, this`nodes, this`nextNode, members, iterators
      ensures Valid() && Contents() == old(Contents()) + [member]
      ensures members == old(members)
    {
      hide Indexed, Agrees, MembersOf, Positions;
      ghost var before := members[..];
      ghost var live := Positions(size);
      PositionsDown(size + 1);
      PutMember(size, Used(member), live);
      InsertAt(size, live);
      assert live + {size} == Positions(size + 1);
      size := size + 1;
      assert members[..size] == before[..size - 1] + [Used(member)];
      MembersAppend(before[..size - 1], member);
    }

    /** What removing member `m` leaves: the last member takes its place. */
    static function WithoutSwapped(s: seq<Member>, m: nat): seq<Member>
      requires m < |s|
    {
      s[m := s[|s| - 1]][..|s| - 1]
    }

    method DoRemoveMember(m: nat)
      requires Valid() && m < size
      modifies this`size, this`nodes, members, iterators
      ensures Valid() && Contents() == WithoutSwapped(old(Contents()), m) && members == old(members)
    {
      hide Indexed, Agrees, MembersOf, Positions;
      ghost var live := Positions(size);
      ghost var before := members[..];
      PositionsDown(size);
      InPositions(size);
      EraseAt(m, live);
      var last := size - 1;
      if size > 1 && m != last {
        MoveTo(last, m, live - {m});
        assert Positions(size - 1) == live - {m} - {last} + {m};
      } else {
        assert Positions(size - 1) == live - {m};
      }
      size := size - 1;
      assert members[..size] == before[..size + 1][m := before[size]][..size];
      MembersSwap(before[..size + 1], m);
    }
  
    /** The pairs of the erased stretch go, one by one. */
    method ErasePairs(first: nat, last: nat)
      requires Valid() && first <= last <= size
      modifies this`nodes
      ensures Agrees(Around(first, last, size))
    {
      hide Indexed, Agrees, Around, Positions;
      var i := first;
      AroundEnds(first, size);
      while i != last
        invariant first <= i <= last && Agrees(Around(first, i, size))
      {
        AroundNext(first, i, size);
        EraseAt(i, Around(first, i, size));
        i := i + 1;
      }
    }

    /** The members after the erased stretch move down one by one. */
    method CloseGap(first: nat, last: nat)
      requires first < last <= size <= members.Length && Agrees(Around(first, last, size))
      modifies this`nodes, members, iterators
      ensures members.Length == |old(members[..])| && members[..first] == old(members[..first])
      ensures members[first..size - (last - first)] == old(members[last..size])
      ensures Agrees(Positions(size - (last - first)))
    {
      hide Indexed, Agrees, Around, Positions;
      ghost var before := members[..];
      var to, next := first, last;
      while next != size
        invariant last <= next <= size && next - to == last - first && Agrees(Around(to, next, size))
        invariant members[..to] == before[..first] + before[last..next] && members[next..] == before[next..]
      {
        AroundNext(to, next, size);
        ghost var now := members[..];
        MoveTo(next, to, Around(to, next, size));
        assert members[..to + 1] == now[..to] + [now[next]];
        assert members[next + 1..] == now[next..][1..];
        assert before[last..next + 1] == before[last..next] + [before[next]];
        to, next := to + 1, next + 1;
      }
      AroundEnds(to, size);
    }

    /** Keeps the order of the other members. */
    method DoEraseMembers(first: nat, last: nat)
      requires Valid() && first <= last <= size && size > 0
      modifies this`size, this`nodes, members, iterators
      ensures Valid() && Contents() == old(Contents()[..first] + Contents()[last..]) && members == old(members)
    {
      hide Indexed, Agrees, MembersOf, Around, Positions;
      ghost var before := members[..size];
      ErasePairs(first, last);
      AroundEnds(first, size);
      if first != last {
        CloseGap(first, last);
      }
      size := size - (last - first);
      MembersErased(before, first, last);
      assert members[..size] == before[..first] + before[last..];
    }

    method DoClearMembers()
      requires Valid()
      modifies this`size, this`nodes
      ensures Valid() && Contents() == [] && nodes == map[]
    {
      hide Agrees, Around, Positions;
      ErasePairs(0, size);
      AroundEnds(0, size);
      size := 0;
      NothingIndexed();
    }

    lemma NothingIndexed()
      requires Agrees(Positions(0))
      ensures nodes == map[]
    {
    }
  
    /** Starts afresh with places for exactly the members of another object, and indexes each as it is copied. */
    method DoCopyMembers(rhs: seq<Member>)
      modifies this
      ensures Valid() && Contents() == rhs && members.Length == |rhs| && fresh(members) && fresh(iterators)
    {
      hide Indexed, Agrees, Positions, MembersOf;
      var count := |rhs|;
      members, iterators, nodes, nextNode := new Slot[count], new nat[count], map[], 0;
      NothingYet();
      var i := 0;
      while i < count
        invariant i <= count == members.Length && fresh(members) && fresh(iterators)
        invariant Agrees(Positions(i)) && MembersOf(members[..i]) == rhs[..i]
      {
        PositionsDown(i + 1);
        ghost var before := members[..i];
        PutMember(i, Used(rhs[i]), Positions(i));
        InsertAt(i, Positions(i));
        assert Positions(i) + {i} == Positions(i + 1);
        assert members[..i + 1] == before + [Used(rhs[i])];
        MembersAppend(before, rhs[i]);
        i := i + 1;
      }
      size := count;
    }

    lemma NothingYet()
      requires members.Length == iterators.Length && nodes == map[]
      ensures Agrees(Positions(0)) && MembersOf(members[..0]) == []
    {
    }
  }
}
