/** The bump allocator over a list of chunks that serves the parser and the document. */
module PoolAllocator {
  import opened Bytes

  const SIZEOF_CHUNK_HEADER: nat := 24
  const SIZEOF_SHARED_DATA: nat := 32

  /** The next multiple of eight. */
  function Align(n: nat): (r: nat)
    ensures n <= r < n + 8 && r % 8 == 0
  {
    (n + 7) / 8 * 8
  }

  // ------------------------------------------------------------------ size_t

  const SIZE_T: nat := 0x1_0000_0000_0000_0000

  /** The sum of two sizes as size_t computes it. */
  function Plus(a: nat, b: nat): nat {
    (a + b) % SIZE_T
  }

  /** RAPIDJSON_ALIGN as size_t computes it. */
  function AlignSize(n: nat): nat {
    Plus(n, 7) / 8 * 8
  }

  /** Whether the head chunk serves a request is decided by a sum that wraps: when it does serve it, the block lies
      inside the chunk exactly when neither the rounding nor the sum has wrapped. */
  lemma HeadTestExactIff(used: nat, capacity: nat, size: nat)
    requires used <= capacity < SIZE_T && used % 8 == 0 && 0 < size < SIZE_T
    requires Plus(used, AlignSize(size)) <= capacity
    ensures used + Align(size) <= capacity <==> used + Align(size) < SIZE_T
  {
    if used + Align(size) < SIZE_T {
      NoWrap(used, size);
    }
  }

  lemma NoWrap(used: nat, size: nat)
    requires used + Align(size) < SIZE_T
    ensures AlignSize(size) == Align(size) && Plus(used, AlignSize(size)) == used + Align(size)
  {
    assert SIZE_T % 8 == 0;
    assert size + 7 < SIZE_T;
    assert Plus(size, 7) == size + 7;
  }

  /** Eight bytes short of the whole address space, on a chunk with eight bytes used, passes the test. */
  lemma HeadTestCounterexample()
    ensures Plus(8, AlignSize(SIZE_T - 8)) <= 64 && 8 + Align(SIZE_T - 8) > 64
  {
  }

  /** What the code asks for a chunk to hold, when it needs one for `size` bytes. */
  function ChunkSize(chunkCapacity: nat, size: nat): nat {
    if chunkCapacity > AlignSize(size) then chunkCapacity else AlignSize(size)
  }

  /** Where `Malloc` puts a block, by the sums as size_t computes them: inside the head chunk, or inside the memory that
      it asks the base allocator for. */
  predicate MallocInside(used: nat, capacity: nat, chunkCapacity: nat, size: nat) {
    if Plus(used, AlignSize(size)) <= capacity then used + Align(size) <= capacity
    else SIZEOF_CHUNK_HEADER + Align(size) <= Plus(SIZEOF_CHUNK_HEADER, ChunkSize(chunkCapacity, size))
  }

  /** The sums that `Malloc` needs for this request stay below 2^64; the size of a chunk only when one is needed. */
  predicate MallocFits(used: nat, capacity: nat, chunkCapacity: nat, size: nat) {
    used + Align(size) < SIZE_T &&
    (used + Align(size) <= capacity ||
     (SIZEOF_CHUNK_HEADER + chunkCapacity < SIZE_T && SIZEOF_CHUNK_HEADER + Align(size) < SIZE_T))
  }

  /** `Malloc` returns memory of its own exactly for these requests. */
  lemma MallocExactIff(used: nat, capacity: nat, chunkCapacity: nat, size: nat)
    requires used <= capacity < SIZE_T && used % 8 == 0 && 0 < size < SIZE_T
    requires chunkCapacity < SIZE_T
    ensures MallocInside(used, capacity, chunkCapacity, size) <==> MallocFits(used, capacity, chunkCapacity, size)
  {
    if used + Align(size) < SIZE_T {
      NoWrap(used, size);
    } else {
      WrapPasses(used, capacity, size);
    }
  }

  /** A sum that wraps, in the rounding or in the addition, passes the head test. */
  lemma WrapPasses(used: nat, capacity: nat, size: nat)
    requires used <= capacity < SIZE_T && used % 8 == 0 && 0 < size < SIZE_T && used + Align(size) >= SIZE_T
    ensures Plus(used, AlignSize(size)) <= capacity
  {
  }

  /** Sixteen bytes short of the whole address space: the head test is right, but eight bytes are asked for. */
  lemma ChunkCounterexample()
    ensures Plus(0, AlignSize(SIZE_T - 16)) > 64
    ensures Plus(SIZEOF_CHUNK_HEADER, ChunkSize(65536, SIZE_T - 16)) == 8
  {
  }

  /** Where `Realloc` has a block of `size` bytes that had `original`, again by the sums as size_t computes them; `last`
      tells whether the block ends where the used part of the head chunk ends. */
  predicate ReallocInside(used: nat, capacity: nat, chunkCapacity: nat, last: bool, original: nat, size: nat)
  {
    if AlignSize(original) >= AlignSize(size) then Align(size) <= Align(original)
    else if last && Plus(used, AlignSize(size) - AlignSize(original)) <= capacity then
      used + Align(size) <= capacity + Align(original)
    else MallocInside(used, capacity, chunkCapacity, AlignSize(size))
  }

  /** The sums that `Realloc` needs: rounding; growing, for the last block; and those of `Malloc`, when the block moves. */
  predicate ReallocFits(used: nat, capacity: nat, chunkCapacity: nat, last: bool, original: nat, size: nat) {
    Align(size) < SIZE_T &&
    (Align(size) <= Align(original) ||
     if last then
       used + Align(size) - Align(original) < SIZE_T &&
       (used + Align(size) - Align(original) <= capacity || MallocFits(used, capacity, chunkCapacity, size))
     else MallocFits(used, capacity, chunkCapacity, size))
  }

  /** `Realloc` returns memory of its own exactly for these requests. */
  lemma ReallocExactIff(used: nat, capacity: nat, chunkCapacity: nat, last: bool, original: nat, size: nat)
    requires used <= capacity < SIZE_T && used % 8 == 0 && 0 < size < SIZE_T && chunkCapacity < SIZE_T
    requires Align(original) < SIZE_T && (last ==> Align(original) <= used)
    ensures AlignSize(original) == Align(original)
    ensures ReallocInside(used, capacity, chunkCapacity, last, original, size) <==>
      ReallocFits(used, capacity, chunkCapacity, last, original, size)
  {
    hide MallocInside, MallocFits, Plus;
    NoWrap(0, original);
    if Align(size) < SIZE_T {
      NoWrap(0, size);
      AlignAligned(used, capacity, chunkCapacity, size);
      if Align(original) < Align(size) {
        MallocExactIff(used, capacity, chunkCapacity, Align(size));
        GrowTest(used, capacity, Align(size) - Align(original));
      }
    } else {
      RoundsToNone(size);
    }
  }

  lemma RoundsToNone(size: nat)
    requires size < SIZE_T <= Align(size)
    ensures AlignSize(size) == 0
  {
  }

  lemma AlignAligned(used: nat, capacity: nat, chunkCapacity: nat, size: nat)
    ensures MallocFits(used, capacity, chunkCapacity, Align(size)) == MallocFits(used, capacity, chunkCapacity, size)
  {
  }

  /** The test whether the last block can grow: it wraps only to let a block through that does not fit. */
  lemma GrowTest(used: nat, capacity: nat, increment: nat)
    requires used <= capacity < SIZE_T && increment < SIZE_T
    ensures Plus(used, increment) <= capacity <==> used + increment <= capacity || used + increment >= SIZE_T
  {
  }

  /** For a last block of 16 bytes, with 24 used of 64, 2^64 - 8 bytes are granted in place; 2^64 - 7 bytes, which round
      to none, as well. */
  lemma GrowCounterexample()
    ensures AlignSize(16) == 16 < AlignSize(SIZE_T - 8) && Plus(24, AlignSize(SIZE_T - 8) - 16) <= 64
    ensures AlignSize(16) >= AlignSize(SIZE_T - 7)
  {
  }

  // ------------------------------------------------------------------ chunks

  class ChunkHeader {
    /** Where the header stands; the buffer follows it. */
    const address: nat
    const capacity: nat
    var size: nat
    var next: ChunkHeader?

    constructor (address: nat, capacity: nat, next: ChunkHeader?)
      ensures this.address == address && this.capacity == capacity && size == 0 && this.next == next
    {
      this.address, this.capacity, size, this.next := address, capacity, 0, next;
    }

    function Buffer(): nat {
      address + SIZEOF_CHUNK_HEADER
    }

    /** The first address after the chunk. */
    function End(): nat {
      Buffer() + capacity
    }

    /** The memory of the chunk does not meet the `n` bytes at `a`. */
    predicate ApartFrom(a: nat, n: nat) {
      End() <= a || a + n <= address
    }
  }

  /** The list that starts at `head` is exactly `chunks`. */
  ghost predicate Chain(head: ChunkHeader?, chunks: seq<ChunkHeader>)
    reads chunks`next
  {
    if chunks == [] then head == null
    else head == chunks[0] && chunks[0] !in chunks[1..] && Chain(chunks[0].next, chunks[1..])
  }

  ghost predicate AllApart(chunks: seq<ChunkHeader>) {
    forall c <- chunks, d <- chunks :: c != d ==> c.ApartFrom(d.address, d.End() - d.address)
  }

  lemma OneMoreApart(chunks: seq<ChunkHeader>, c: ChunkHeader)
    requires AllApart(chunks) && forall d <- chunks :: d.ApartFrom(c.address, c.End() - c.address)
    ensures AllApart([c] + chunks)
  {
  }

  ghost function TotalSize(chunks: seq<ChunkHeader>): nat
    reads chunks`size
  {
    if chunks == [] then 0 else chunks[0].size + TotalSize(chunks[1..])
  }

  function TotalCapacity(chunks: seq<ChunkHeader>): nat {
    if chunks == [] then 0 else chunks[0].capacity + TotalCapacity(chunks[1..])
  }

  /** The block of `n` bytes at `p` lies in the used part of a chunk, aligned to eight from the buffer's start. */
  ghost predicate Inside(c: ChunkHeader, p: nat, n: nat)
    reads c`size
  {
    c.Buffer() <= p && p + Align(n) <= c.Buffer() + c.size && (p - c.Buffer()) % 8 == 0
  }

  ghost predicate AllHoused(live: map<nat, nat>, home: map<nat, ChunkHeader>, chunks: seq<ChunkHeader>)
    reads chunks`size
  {
    forall p <- live :: p in home && live[p] > 0 && home[p] in chunks && Inside(home[p], p, live[p])
  }

  lemma HousedEnter(live: map<nat, nat>, home: map<nat, ChunkHeader>, chunks: seq<ChunkHeader>,
                    c: ChunkHeader, p: nat, n: nat)
    requires AllHoused(live, home, chunks) && c in chunks && n > 0 && Inside(c, p, n)
    ensures AllHoused(live[p := n], home[p := c], chunks)
  {
    hide Inside;
  }

  lemma MoreHouses(live: map<nat, nat>, home: map<nat, ChunkHeader>, chunks: seq<ChunkHeader>, c: ChunkHeader)
    requires AllHoused(live, home, chunks)
    ensures AllHoused(live, home, [c] + chunks)
  {
    hide Inside;
  }

  predicate BlocksApart(p: nat, m: nat, q: nat, n: nat) {
    p + Align(m) <= q || q + Align(n) <= p
  }

  ghost predicate Disjoint(blocks: map<nat, nat>) {
    forall p <- blocks, q <- blocks :: p != q ==> BlocksApart(p, blocks[p], q, blocks[q])
  }

  lemma DisjointEnter(blocks: map<nat, nat>, p: nat, size: nat)
    requires Disjoint(blocks) && forall q <- blocks :: q != p ==> BlocksApart(q, blocks[q], p, size)
    ensures Disjoint(blocks[p := size])
  {
  }

  lemma ApartFromOthers(blocks: map<nat, nat>, p: nat)
    requires Disjoint(blocks) && p in blocks
    ensures forall q <- blocks :: q != p ==> BlocksApart(q, blocks[q], p, blocks[p])
  {
  }

  lemma ShorterDisjoint(blocks: map<nat, nat>, p: nat, size: nat)
    requires Disjoint(blocks) && p in blocks && Align(size) <= Align(blocks[p])
    ensures Disjoint(blocks[p := size])
  {
    hide Align;
  }

  lemma ShorterInside(c: ChunkHeader, p: nat, m: nat, n: nat)
    requires Inside(c, p, m) && Align(n) <= Align(m)
    ensures Inside(c, p, n)
  {
    hide Align;
  }

  lemma BlockGrows(q: nat, m: nat, p: nat, before: nat, after: nat)
    requires Align(before) <= Align(after) && m > 0
    requires BlocksApart(q, m, p, before) && BlocksApart(q, m, p + Align(before), Align(after) - Align(before))
    ensures BlocksApart(q, m, p, after)
  {
    AlignDifference(before, after);
  }

  lemma AlignDifference(before: nat, after: nat)
    requires Align(before) <= Align(after)
    ensures Align(Align(after) - Align(before)) == Align(after) - Align(before)
  {
  }

  lemma AlignedTwice(size: nat)
    ensures Align(Align(size)) == Align(size)
  {
  }

  lemma ReplacedBlock(blocks: map<nat, nat>, p: nat, q: nat, m: nat, n: nat)
    requires q != p
    ensures blocks[q := m][q := n] - {p} == (blocks - {p})[q := n]
  {
  }

  class MemoryPoolAllocator {
    const chunkCapacity: nat
    var chunkHead: ChunkHeader
    /** What is at every address. */
    var memory: nat -> byte
    ghost var chunks: seq<ChunkHeader>
    /** The blocks the callers have, with the sizes they asked for, and the chunk each lies in. */
    ghost var live: map<nat, nat>
    ghost var home: map<nat, ChunkHeader>

    ghost predicate Chained()
      reads this`chunkHead, this`chunks, chunks`next
    {
      chunks != [] && Chain(chunkHead, chunks)
    }

    ghost predicate Bounded()
      reads this`chunks, chunks`size
    {
      forall c <- chunks :: c.size <= c.capacity < SIZE_T && c.size % 8 == 0
    }

    ghost predicate Separate()
      reads this`chunks
    {
      AllApart(chunks)
    }

    ghost predicate Housed()
      reads this`chunks, this`live, this`home, chunks`size
    {
      AllHoused(live, home, chunks)
    }

    ghost predicate Valid()
      reads this, chunks
    {
      Chained() && Bounded() && Separate() && Housed() && Disjoint(live)
    }

    /** No byte belongs to two blocks, and every byte of a block is in the used part of one chunk. */
    lemma NoByteShared(p: nat, q: nat, a: nat)
      requires Valid() && p in live && q in live && p <= a < p + live[p] && q <= a < q + live[q]
      ensures p == q
      ensures p in home && home[p] in chunks && home[p].Buffer() <= a < home[p].Buffer() + home[p].size <= home[p].End()
    {
      ApartFromOthers(live, q);
      assert Inside(home[p], p, live[p]);
    }

    /** The pool's own first chunk, of no capacity, or the one that a user's buffer of `size` bytes has room for. */
    constructor (address: nat, size: nat, chunkCapacity: nat)
      requires SIZEOF_SHARED_DATA + SIZEOF_CHUNK_HEADER <= size < SIZE_T
      ensures Valid() && live == map[] && TotalSize(chunks) == 0 && this.chunkCapacity == chunkCapacity
      ensures TotalCapacity(chunks) == size - SIZEOF_SHARED_DATA - SIZEOF_CHUNK_HEADER
    {
      var first :=
        new ChunkHeader(address + SIZEOF_SHARED_DATA, size - SIZEOF_SHARED_DATA - SIZEOF_CHUNK_HEADER, null);
      this.chunkCapacity := chunkCapacity;
      chunkHead := first;
      memory := a => 0;
      chunks := [first];
      live, home := map[], map[];
    }

    // -------------------------------------------------------------- what the code sums up

    method Size() returns (size: nat)
      requires Valid()
      ensures size == TotalSize(chunks) <= TotalCapacity(chunks)
    {
      size := 0;
      var c: ChunkHeader? := chunkHead;
      ghost var rest := chunks;
      while c != null
        invariant Chain(c, rest) && size + TotalSize(rest) == TotalSize(chunks)
        decreases |rest|
      {
        size := size + c.size;
        c := c.next;
        rest := rest[1..];
      }
      SizeWithinCapacity(chunks);
    }

    method Capacity() returns (capacity: nat)
      requires Valid()
      ensures capacity == TotalCapacity(chunks)
    {
      capacity := 0;
      var c: ChunkHeader? := chunkHead;
      ghost var rest := chunks;
      while c != null
        invariant Chain(c, rest) && capacity + TotalCapacity(rest) == TotalCapacity(chunks)
        decreases |rest|
      {
        capacity := capacity + c.capacity;
        c := c.next;
        rest := rest[1..];
      }
    }

    lemma {:induction false} SizeWithinCapacity(s: seq<ChunkHeader>)
      requires forall c <- s :: c.size <= c.capacity
      ensures TotalSize(s) <= TotalCapacity(s)
    {
      if s != [] {
        SizeWithinCapacity(s[1..]);
      }
    }

    /** Frees every chunk but the first one made, which becomes empty. */
    method Clear()
      requires Valid()
      modifies this`chunkHead, this`chunks, this`live, this`home, chunks`size
      ensures Valid() && live == map[] && chunks == [old(chunks[|chunks| - 1])] && TotalSize(chunks) == 0
    {
      hide Chained, Bounded, Separate, Housed, Disjoint;
      ghost var k: nat := 0;
      HeadOfChunks();
      ForgetBlocks();
      while true
        invariant k < |old(chunks)| && chunks == old(chunks)[k..]
        invariant Valid() && live == map[]
        decreases |chunks|
      {
        var c := chunkHead;
        if c.next == null {
          break;
        }
        HeadOfChunks();
        DropHead();
        k := k + 1;
      }
      HeadOfChunks();
      EmptyLast();
    }

    lemma HeadOfChunks()
      requires Valid()
      ensures chunks != [] && chunkHead == chunks[0]
      ensures if chunkHead.next == null then chunks == [chunkHead] else |chunks| > 1
    {
      assert Chain(chunks[0].next, chunks[1..]);
    }

    method EmptyLast()
      requires Valid() && live == map[] && chunks == [chunkHead]
      modifies chunkHead`size
      ensures Valid() && TotalSize(chunks) == 0
    {
      chunkHead.size := 0;
    }

    method ForgetBlocks()
      requires Valid()
      modifies this`live, this`home
      ensures Valid() && live == map[]
    {
      live, home := map[], map[];
    }

    /** The head chunk leaves the list. */
    method DropHead()
      requires Valid() && chunkHead.next != null && live == map[]
      modifies this`chunkHead, this`chunks
      ensures Valid() && chunks == old(chunks)[1..]
    {
      assert Chain(chunks[0].next, chunks[1..]);
      chunkHead := chunkHead.next;
      chunks := chunks[1..];
    }
  
    // ------------------------------------------------------------------------ allocation

    /** No sum that the code makes for a request of `size` bytes wraps. */
    predicate Fits(size: nat)
      reads this`chunkHead, chunkHead`size
    {
      MallocFits(chunkHead.size, chunkHead.capacity, chunkCapacity, size)
    }

    predicate IsLast(p: nat, size: nat)
      reads this`chunkHead, chunkHead`size
    {
      p + Align(size) == chunkHead.Buffer() + chunkHead.size
    }

    /** The same for resizing the block at `p`. */
    predicate ResizeFits(p: nat, originalSize: nat, newSize: nat)
      reads this`chunkHead, chunkHead`size
    {
      ReallocFits(chunkHead.size, chunkHead.capacity, chunkCapacity, IsLast(p, originalSize), originalSize, newSize)
    }

    /** What the code asks the base allocator for, when it needs a chunk for `size` bytes. */
    function ChunkFor(size: nat): nat {
      if chunkCapacity > Align(size) then chunkCapacity else Align(size)
    }

    /** Memory that the base allocator may return: the chunks do not meet it. */
    ghost predicate Unused(a: nat, n: nat)
      reads this`chunks
    {
      forall c <- chunks :: c.ApartFrom(a, n)
    }

    predicate HeadHasRoom(size: nat)
      reads this`chunkHead, chunkHead`size
    {
      chunkHead.size + Align(size) <= chunkHead.capacity
    }

    /** `base` is what the base allocator returns. */
    method AddChunk(capacity: nat, base: Option<nat>) returns (ok: bool)
      requires Valid() && SIZEOF_CHUNK_HEADER + capacity < SIZE_T
      requires base.Some? ==> Unused(base.value, SIZEOF_CHUNK_HEADER + capacity)
      modifies this`chunkHead, this`chunks
      ensures Valid() && ok == base.Some?
      ensures !ok ==> chunks == old(chunks) && chunkHead == old(chunkHead)
      ensures ok ==> fresh(chunkHead) && chunks == [chunkHead] + old(chunks)
      ensures ok ==> chunkHead.address == base.value && chunkHead.capacity == capacity && chunkHead.size == 0
    {
      match base
      case None =>
        return false;
      case Some(address) =>
        hide AllApart, AllHoused, Disjoint;
        var chunk := new ChunkHeader(address, capacity, chunkHead);
        OneMoreApart(chunks, chunk);
        chunkHead := chunk;
        chunks := [chunk] + chunks;
        assert chunks[1..] == old(chunks);
        MoreHouses(live, home, old(chunks), chunk);
        return true;
    }

    /** The head chunk's unused bytes do not meet any block. */
    lemma BeyondBlocks(q: nat, a: nat, n: nat)
      requires Valid() && q in live
      requires chunkHead.Buffer() + chunkHead.size <= a && a + Align(n) <= chunkHead.End()
      ensures BlocksApart(q, live[q], a, n) && (n > 0 ==> q != a)
    {
      hide Chain;
      HeadOfChunks();
      var c := home[q];
      assert Inside(c, q, live[q]) && c.size <= c.capacity;
      SeparateChunks(c, chunkHead);
    }

    /** Moves the end of the used part of the head chunk. */
    method Advance(increment: nat)
      requires Valid() && increment % 8 == 0 && chunkHead.size + increment <= chunkHead.capacity
      modifies chunkHead`size
      ensures Valid() && chunkHead.size == old(chunkHead.size) + increment
      ensures TotalSize(chunks) == old(TotalSize(chunks)) + increment
    {
      HeadOfChunks();
      assert forall c <- chunks[1..] :: c in chunks && c != chunkHead by { HeadOnce(); }
      hide Chain;
      chunkHead.size := chunkHead.size + increment;
    }

    lemma HeadOnce()
      requires Valid()
      ensures chunkHead !in chunks[1..]
    {
    }

    /** A block in the head chunk that meets no other is a live block, perhaps in place of one at the same address. */
    method Enter(ghost p: nat, ghost size: nat)
      requires Valid() && size > 0 && Inside(chunkHead, p, size)
      requires forall q <- live :: q != p ==> BlocksApart(q, live[q], p, size)
      modifies this`live, this`home
      ensures Valid() && live == old(live)[p := size]
    {
      HeadOfChunks();
      hide Chained, Bounded, Separate, Disjoint, BlocksApart, Inside, Align, AllHoused;
      DisjointEnter(live, p, size);
      HousedEnter(live, home, chunks, chunkHead, p, size);
      live := live[p := size];
      home := home[p := chunkHead];
    }

    /** The next bytes of the head chunk become a block. */
    method Bump(size: nat, aligned: nat) returns (p: nat)
      requires Valid() && size > 0 && aligned == Align(size) && HeadHasRoom(size)
      modifies this`live, this`home, chunkHead`size
      ensures Valid() && p == old(chunkHead.Buffer() + chunkHead.size) && p !in old(live) && live == old(live)[p := size]
      ensures TotalSize(chunks) == old(TotalSize(chunks)) + aligned
    {
      hide Chain, Chained, Bounded, Separate, Disjoint, Housed, BlocksApart, Align;
      HeadBounded();
      p := chunkHead.Buffer() + chunkHead.size;
      forall q <- live
        ensures BlocksApart(q, live[q], p, size) && p != q
      {
        BeyondBlocks(q, p, size);
      }
      Advance(aligned);
      Enter(p, size);
    }

    lemma HeadBounded()
      requires Valid()
      ensures chunkHead.size <= chunkHead.capacity && chunkHead.size % 8 == 0
    {
      HeadOfChunks();
    }

    /** `base` is what the base allocator returns, should it be asked. */
    method Malloc(size: nat, base: Option<nat>) returns (p: Option<nat>)
      requires Valid() && (size == 0 || Fits(size))
      requires base.Some? ==> Unused(base.value, SIZEOF_CHUNK_HEADER + ChunkFor(size))
      modifies this`chunkHead, this`chunks, this`live, this`home, chunkHead`size
      ensures Valid()
      ensures p.None? <==> size == 0 || (!old(HeadHasRoom(size)) && base.None?)
      ensures p.None? ==> live == old(live) && chunks == old(chunks) && TotalSize(chunks) == old(TotalSize(chunks))
      ensures p.Some? ==> p.value !in old(live) && live == old(live)[p.value := size]
      ensures p.Some? ==> TotalSize(chunks) == old(TotalSize(chunks)) + Align(size)
      ensures p.Some? ==> chunks == if old(HeadHasRoom(size)) then old(chunks) else [chunkHead] + old(chunks)
    {
      hide Chained, Bounded, Separate, Housed, Disjoint;
      if size == 0 {
        return None;
      }
      NoWrap(chunkHead.size, size);
      var aligned := AlignSize(size);
      if Plus(chunkHead.size, aligned) > chunkHead.capacity {
        var ok := AddChunk(if chunkCapacity > aligned then chunkCapacity else aligned, base);
        if !ok {
          return None;
        }
      }
      var q := Bump(size, aligned);
      p := Some(q);
    }
  
    /** The `n` bytes at `to` are those that `before` has at `from`. */
    ghost predicate Copied(to: nat, from: nat, n: nat, before: nat -> byte)
      reads this`memory
    {
      forall a: nat :: to <= a < to + n ==> memory(a) == before(a - to + from)
    }

    /** The contents of every block in `blocks` are those of `before`. */
    ghost predicate Kept(blocks: map<nat, nat>, before: nat -> byte)
      reads this`memory
    {
      forall q <- blocks, a: nat :: q <= a < q + blocks[q] ==> memory(a) == before(a)
    }
  
    /** The caller gives a block up, or keeps fewer of its bytes. */
    method Shorten(ghost p: nat, ghost size: nat)
      requires Valid() && p in live && 0 < size && Align(size) <= Align(live[p])
      modifies this`live
      ensures Valid() && live == old(live)[p := size]
    {
      hide Chained, Bounded, Separate, Align, Disjoint, Inside;
      ShorterDisjoint(live, p, size);
      ShorterInside(home[p], p, live[p], size);
      live := live[p := size];
    }

    method Retire(ghost p: nat)
      requires Valid()
      modifies this`live
      ensures Valid() && live == old(live) - {p}
    {
      hide Chained, Bounded, Separate, Align, Inside;
      live := live - {p};
    }

    /** memcpy of `n` bytes into a block of `aligned` bytes that meets neither the source nor `others`. */
    method CopyBlock(to: nat, from: nat, n: nat, ghost aligned: nat, ghost others: map<nat, nat>)
      requires n <= aligned && (from + n <= to || to + aligned <= from)
      requires forall q <- others :: BlocksApart(q, others[q], to, aligned)
      modifies this`memory
      ensures Copied(to, from, n, old(memory)) && Kept(others, old(memory))
    {
      var before := memory;
      memory := (a: nat) => if to <= a < to + n then before(a - to + from) else before(a);
    }

    /** A block whose end is the end of the head chunk's used part is in that chunk. */
    lemma LastIsInHead(p: nat)
      requires Valid() && p in live && IsLast(p, live[p])
      ensures Inside(chunkHead, p, live[p])
    {
      hide Chain, Align;
      HeadOfChunks();
      var c := home[p];
      assert Inside(c, p, live[p]) && c.size <= c.capacity;
      SeparateChunks(c, chunkHead);
    }

    lemma SeparateChunks(c: ChunkHeader, d: ChunkHeader)
      requires Valid() && c in chunks && d in chunks
      ensures c == d || c.End() <= d.address || d.End() <= c.address
    {
      hide Chained, Bounded, Housed, Disjoint;
      assert c != d ==> c.ApartFrom(d.address, d.End() - d.address);
    }

    /** The last block grows in place. */
    method Expand(ghost p: nat, ghost size: nat, increment: nat)
      requires Valid() && p in live && IsLast(p, live[p])
      requires Align(size) == Align(live[p]) + increment && chunkHead.size + increment <= chunkHead.capacity
      modifies this`live, this`home, chunkHead`size
      ensures Valid() && live == old(live)[p := size]
      ensures TotalSize(chunks) == old(TotalSize(chunks)) + increment
    {
      LastIsInHead(p);
      HeadBounded();
      AlignedGap(live[p], size, increment);
      hide Chain, Chained, Bounded, Separate, Align, Housed;
      forall q <- live | q != p
        ensures BlocksApart(q, live[q], p, size)
      {
        GrowsApart(q, p, size);
      }
      Advance(increment);
      Enter(p, size);
    }

    lemma AlignedGap(before: nat, after: nat, increment: nat)
      requires Align(after) == Align(before) + increment
      ensures increment % 8 == 0
    {
    }

    lemma GrowsApart(q: nat, p: nat, size: nat)
      requires Valid() && q in live && p in live && q != p
      requires IsLast(p, live[p]) && p + Align(size) <= chunkHead.End()
      requires Align(live[p]) <= Align(size)
      ensures BlocksApart(q, live[q], p, size)
    {
      hide Chain, Chained, Bounded, Separate, Align, Inside;
      assert BlocksApart(q, live[q], p, live[p]) && live[q] > 0;
      AlignDifference(live[p], size);
      BeyondBlocks(q, p + Align(live[p]), Align(size) - Align(live[p]));
      hide BlocksApart;
      BlockGrows(q, live[q], p, live[p], size);
    }

    /** The old block's bytes move to a new one; the old one is given up. */
    method Move(p: nat, originalAligned: nat, ghost size: nat, aligned: nat, base: Option<nat>) returns (r: Option<nat>)
      requires Valid() && p in live && originalAligned == Align(live[p]) < aligned == Align(size) && Fits(size)
      requires base.Some? ==> Unused(base.value, SIZEOF_CHUNK_HEADER + ChunkFor(size))
      modifies this`memory, this`chunkHead, this`chunks, this`live, this`home, chunkHead`size
      ensures Valid()
      ensures r.None? <==> !old(HeadHasRoom(size)) && base.None?
      ensures r.None? ==> live == old(live) && memory == old(memory) && TotalSize(chunks) == old(TotalSize(chunks))
      ensures r.Some? ==> r.value !in old(live) && live == (old(live) - {p})[r.value := size]
      ensures r.Some? ==> Copied(r.value, p, originalAligned, old(memory))
      ensures r.Some? ==> Kept(old(live) - {p}, old(memory))
      ensures r.Some? ==> TotalSize(chunks) == old(TotalSize(chunks)) + aligned
    {
      hide Chained, Bounded, Separate, Housed, Disjoint, Copied, Kept, BlocksApart;
      r := Malloc(aligned, base);
      if r.Some? {
        MoveBlock(p, r.value, originalAligned, size, aligned, old(live));
      }
    }

    /** The bytes of the block at `p`, one of those before the block at `q` was made, are copied there. */
    method MoveBlock(p: nat, q: nat, originalAligned: nat, ghost size: nat, ghost aligned: nat,
                     ghost before: map<nat, nat>)
      requires Valid() && p in before && q !in before && live == before[q := aligned]
      requires originalAligned == Align(before[p]) < aligned == Align(size)
      modifies this`memory, this`live
      ensures Valid() && live == (before - {p})[q := size]
      ensures Copied(q, p, originalAligned, old(memory)) && Kept(before - {p}, old(memory))
    {
      hide Chained, Bounded, Separate, Housed, Disjoint, Copied, Kept, BlocksApart, Align;
      AlignedTwice(size);
      NewApart(q, aligned, before, p);
      CopyBlock(q, p, originalAligned, aligned, before - {p});
      ReplacedBlock(before, p, q, aligned, size);
      Shorten(q, size);
      Retire(p);
    }

    lemma NewApart(q: nat, size: nat, before: map<nat, nat>, p: nat)
      requires Valid() && q !in before && live == before[q := size] && size == Align(size) && p in before
      ensures forall b <- before :: BlocksApart(b, before[b], q, size)
      ensures p + Align(before[p]) <= q || q + size <= p
    {
      hide Chained, Bounded, Separate, Housed;
      forall b <- before
        ensures BlocksApart(b, before[b], q, size)
      {
        assert b in live && q in live && b != q;
        assert BlocksApart(b, live[b], q, live[q]);
      }
    }

    lemma SizesFit(p: nat, size: nat)
      requires Valid() && p in live && Align(size) < SIZE_T
      ensures AlignSize(live[p]) == Align(live[p]) && AlignSize(size) == Align(size)
    {
      assert Inside(home[p], p, live[p]) && home[p].capacity < SIZE_T;
      NoWrap(0, live[p]);
      NoWrap(0, size);
    }

    /** Says of every call whether it grows in place, moves or fails, and that no byte of any block is lost. */
    method Realloc(original: Option<nat>, originalSize: nat, newSize: nat, base: Option<nat>) returns (r: Option<nat>)
      requires Valid()
      requires original.None? ==> newSize == 0 || Fits(newSize)
      requires original.Some? ==> original.value in live && live[original.value] == originalSize
      requires original.Some? ==> newSize == 0 || ResizeFits(original.value, originalSize, newSize)
      requires base.Some? ==> Unused(base.value, SIZEOF_CHUNK_HEADER + ChunkFor(newSize))
      modifies this`memory, this`chunkHead, this`chunks, this`live, this`home, chunkHead`size
      ensures Valid()
      ensures r.None? ==> live == old(live) && memory == old(memory)
      ensures r.None? <==>
        newSize == 0 ||
        (!old(HeadHasRoom(newSize)) && base.None? && (original.None? || old(!StaysInPlace(original.value, newSize))))
      ensures original.None? && r.Some? ==>
        r.value !in old(live) && live == old(live)[r.value := newSize] && memory == old(memory)
      ensures original.Some? && r.Some? ==>
        live == (old(live) - {original.value})[r.value := newSize] &&
        (r == original <==> old(StaysInPlace(original.value, newSize))) &&
        (r != original ==> r.value !in old(live)) &&
        Copied(r.value, original.value, if originalSize < newSize then originalSize else newSize, old(memory)) &&
        Kept(old(live) - {original.value}, old(memory))
    {
      hide Chained, Bounded, Separate, Housed, Disjoint, MallocFits;
      if original == None {
        r := Malloc(newSize, base);
        return;
      }
      if newSize == 0 {
        return None;
      }
      var p := original.value;
      SizesFit(p, newSize);
      hide Align, AlignSize, Copied, Kept;
      var originalAligned, newAligned := AlignSize(originalSize), AlignSize(newSize);
      if originalAligned >= newAligned {
        Unmoved(p, if originalSize < newSize then originalSize else newSize, live - {p});
        Shorten(p, newSize);
        return original;
      }
      if p + originalAligned == chunkHead.Buffer() + chunkHead.size {
        var increment := newAligned - originalAligned;
        assert Plus(chunkHead.size, increment) == chunkHead.size + increment;
        if Plus(chunkHead.size, increment) <= chunkHead.capacity {
          Unmoved(p, if originalSize < newSize then originalSize else newSize, live - {p});
          Expand(p, newSize, increment);
          return original;
        }
      }
      r := Move(p, originalAligned, newSize, newAligned, base);
      if r.Some? {
        CopiedLess(r.value, p, originalAligned, if originalSize < newSize then originalSize else newSize, old(memory));
      }
    }

    lemma Unmoved(p: nat, n: nat, blocks: map<nat, nat>)
      ensures Copied(p, p, n, memory) && Kept(blocks, memory)
    {
    }

    lemma CopiedLess(to: nat, from: nat, n: nat, m: nat, before: nat -> byte)
      requires Copied(to, from, n, before) && m <= n
      ensures Copied(to, from, m, before)
    {
    }

    /** The new size needs no more bytes, or the block is the last one and the head chunk has them. */
    ghost predicate StaysInPlace(p: nat, size: nat)
      reads this`live, this`chunkHead, chunkHead`size
    {
      p in live &&
      (Align(size) <= Align(live[p]) ||
       (IsLast(p, live[p]) &&
        chunkHead.size + (Align(size) - Align(live[p])) <= chunkHead.capacity))
    }
  }
}
