/** The pooled allocator of ServerCore/Memory.cpp and MemoryPool.cpp: a table from request sizes to
    pools, and per pool a free list and two counters.

    `_poolTable` holds positions in `_pools` where the original holds pointers. A block is its header,
    a `MemoryHeader`; its bytes are not modelled. */
module MemoryPools {
  import opened Wire

  const MAX_ALLOC_SIZE := 4096
  const HEADER_SIZE := 32          // sizeof(MemoryHeader): a 16-byte list entry, an int32, 16-alignment
  const POOLS := 50
  const INT32_MAX := 0x7FFF_FFFF

  /** The cast to int32 of a sum that is at most 32 too large. */
  function Int32(n: int): int { if n > INT32_MAX then n - 0x1_0000_0000 else n }

  // ----- the size classes -----

  /** 32 classes of 32 bytes, 9 of 128 and 9 of 256; 1024 and 2048 appear twice. */
  function PoolSize(i: nat): nat {
    if i < 32 then 32 * (i + 1) else if i < 41 then 1024 + 128 * (i - 32) else 2048 + 256 * (i - 41)
  }

  function PoolOf(size: nat): nat {
    if size == 0 then 0
    else if size <= 1024 then (size - 1) / 32
    else if size <= 2048 then 33 + (size - 1025) / 128
    else 42 + (size - 2049) / 256
  }

  /** Each size goes to the first pool of the smallest class that fits it. */
  lemma PoolOfIsSmallestFit(size: nat, j: nat)
    requires size <= MAX_ALLOC_SIZE && j < POOLS
    ensures PoolOf(size) < POOLS && size <= PoolSize(PoolOf(size))
    ensures size <= PoolSize(j) ==> PoolSize(PoolOf(size)) <= PoolSize(j) && PoolOf(size) <= j
  {
    if size == 0 {
    } else if size <= 1024 {
      assert 32 * PoolOf(size) < size <= 32 * (PoolOf(size) + 1);
    } else if size <= 2048 {
      assert 1024 + 128 * (PoolOf(size) - 33) < size <= 1024 + 128 * (PoolOf(size) - 32);
    } else {
      assert 2048 + 256 * (PoolOf(size) - 42) < size <= 2048 + 256 * (PoolOf(size) - 41);
    }
  }

  lemma SlackIsSmall(size: nat)
    requires 0 < size <= MAX_ALLOC_SIZE
    ensures PoolSize(PoolOf(size)) - size < if size <= 1024 then 32 else if size <= 2048 then 128 else 256
  {
  }

  predicate TableUpTo(table: seq<nat>, n: nat) {
    n <= |table| && forall s :: 0 <= s < n ==> table[s] == PoolOf(s)
  }

  /** The inner loop of the three: every size not yet in the table, up to the new pool's. */
  method MapUpTo(table: array<nat>, from: nat, size: nat, pool: nat) returns (tableIndex: nat)
    requires size < table.Length && from <= size + 1 && TableUpTo(table[..], from)
    requires forall s :: from <= s <= size ==> PoolOf(s) == pool
    modifies table
    ensures tableIndex == size + 1 && TableUpTo(table[..], tableIndex)
  {
    tableIndex := from;
    while tableIndex <= size
      invariant from <= tableIndex <= size + 1 && TableUpTo(table[..], tableIndex)
    {
      table[tableIndex] := pool;
      tableIndex := tableIndex + 1;
    }
  }

  /** No entry stays unset although two classes are repeated. */
  method BuildTable() returns (pools: seq<nat>, table: array<nat>)
    ensures |pools| == POOLS && forall i :: 0 <= i < POOLS ==> pools[i] == PoolSize(i)
    ensures fresh(table) && table.Length == MAX_ALLOC_SIZE + 1
    ensures forall s :: 0 <= s <= MAX_ALLOC_SIZE ==> table[s] == PoolOf(s)
  {
    pools, table := [], new nat[MAX_ALLOC_SIZE + 1];
    var size, tableIndex := 32, 0;
    while size <= 1024
      invariant size == 32 * (|pools| + 1) && |pools| <= 32 && tableIndex == (if pools == [] then 0 else size - 31)
      invariant forall i :: 0 <= i < |pools| ==> pools[i] == PoolSize(i)
      invariant TableUpTo(table[..], tableIndex)
    {
      pools := pools + [size];
      tableIndex := MapUpTo(table, tableIndex, size, |pools| - 1);
      size := size + 32;
    }
    size := 1024;
    while size <= 2048
      invariant size == 1024 + 128 * (|pools| - 32) && 32 <= |pools| <= 41
      invariant tableIndex == (if |pools| == 32 then 1025 else size - 127)
      invariant forall i :: 0 <= i < |pools| ==> pools[i] == PoolSize(i)
      invariant TableUpTo(table[..], tableIndex)
    {
      pools := pools + [size];
      tableIndex := MapUpTo(table, tableIndex, size, |pools| - 1);
      size := size + 128;
    }
    size := 2048;
    while size <= 4096
      invariant size == 2048 + 256 * (|pools| - 41) && 41 <= |pools| <= 50
      invariant tableIndex == (if |pools| == 41 then 2049 else size - 255)
      invariant forall i :: 0 <= i < |pools| ==> pools[i] == PoolSize(i)
      invariant TableUpTo(table[..], tableIndex)
    {
      pools := pools + [size];
      tableIndex := MapUpTo(table, tableIndex, size, |pools| - 1);
      size := size + 256;
    }
  }

  // ----- the heap as a value -----

  /** `capacity` bytes were allocated for it, by pool `home`, or by malloc when `home` is POOLS. */
  class MemoryHeader {
    const capacity: nat
    const home: nat
    var allocSize: int

    constructor (capacity: nat, home: nat)
      ensures this.capacity == capacity && this.home == home
    {
      this.capacity, this.home := capacity, home;
    }
  }

  /** `free` is the list's order, the next block to go first; `out` the blocks callers have. */
  datatype Pool = Pool(free: seq<MemoryHeader>, out: set<MemoryHeader>, useCount: int, reserveCount: int)

  /** `sizes` is the allocSize of every block that exists, `large` the blocks from malloc. */
  datatype Heap = Heap(pools: seq<Pool>, large: set<MemoryHeader>, sizes: map<MemoryHeader, int>)

  predicate NoRepeats(s: seq<MemoryHeader>) {
    forall i, j :: 0 <= i < j < |s| ==> s[i] != s[j]
  }

  ghost predicate PoolInv(i: nat, p: Pool, sizes: map<MemoryHeader, int>) {
    && NoRepeats(p.free)
    && (forall h :: h in p.free ==>
          && h.home == i && h.capacity == PoolSize(i)
          && h in sizes && sizes[h] == 0 && h !in p.out)
    && (forall h :: h in p.out ==>
          && h.home == i && h.capacity == PoolSize(i)
          && h in sizes && 0 < sizes[h] <= MAX_ALLOC_SIZE && PoolOf(sizes[h]) == i)
    && p.useCount == |p.out| && p.reserveCount + |p.free| == 0
  }

  /** Every block that exists is live or in the free list of the pool it came from, and never both. */
  ghost predicate HeapInv(a: Heap) {
    && |a.pools| == POOLS
    && (forall i :: 0 <= i < POOLS ==> PoolInv(i, a.pools[i], a.sizes))
    && (forall h :: h in a.large ==>
          h.home == POOLS && h in a.sizes && a.sizes[h] > MAX_ALLOC_SIZE && h.capacity == a.sizes[h])
    && (forall h :: h in a.sizes ==>
          if h.home < POOLS then h in a.pools[h.home].out || h in a.pools[h.home].free else h in a.large)
  }

  predicate Live(a: Heap, h: MemoryHeader)
    requires |a.pools| == POOLS
  {
    if h.home < POOLS then h in a.pools[h.home].out else h in a.large
  }

  // ----- what the operations do -----

  function Popped(p: Pool, h: MemoryHeader): Pool {
    if p.free == [] then p.(out := p.out + {h}, useCount := p.useCount + 1)
    else p.(free := p.free[1..], out := p.out + {h}, useCount := p.useCount + 1, reserveCount := p.reserveCount + 1)
  }

  function Pushed(p: Pool, h: MemoryHeader): Pool {
    p.(free := [h] + p.free, out := p.out - {h}, useCount := p.useCount - 1, reserveCount := p.reserveCount - 1)
  }

  /** `allocSize` bytes, header included, in block `h`. */
  function Allocated(a: Heap, h: MemoryHeader, allocSize: int): Heap
    requires |a.pools| == POOLS && 0 <= allocSize
  {
    if allocSize > MAX_ALLOC_SIZE then a.(large := a.large + {h}, sizes := a.sizes[h := allocSize])
    else
      PoolOfIsSmallestFit(allocSize, 0);
      var i := PoolOf(allocSize);
      a.(pools := a.pools[i := Popped(a.pools[i], h)], sizes := a.sizes[h := allocSize])
  }

  /** The block the pool hands out, or one that did not exist before. */
  predicate Handed(a: Heap, h: MemoryHeader, allocSize: int)
    requires |a.pools| == POOLS && 0 <= allocSize
  {
    if allocSize > MAX_ALLOC_SIZE then h !in a.sizes && h.home == POOLS && h.capacity == allocSize
    else
      PoolOfIsSmallestFit(allocSize, 0);
      var i := PoolOf(allocSize);
      if a.pools[i].free == [] then h !in a.sizes && h.home == i && h.capacity == PoolSize(i)
      else h == a.pools[i].free[0]
  }

  function Released(a: Heap, h: MemoryHeader): Heap
    requires |a.pools| == POOLS && h in a.sizes && 0 < a.sizes[h]
  {
    if a.sizes[h] > MAX_ALLOC_SIZE then a.(large := a.large - {h}, sizes := a.sizes - {h})
    else
      PoolOfIsSmallestFit(a.sizes[h], 0);
      var i := PoolOf(a.sizes[h]);
      a.(pools := a.pools[i := Pushed(a.pools[i], h)], sizes := a.sizes[h := 0])
  }

  // ----- and that they keep the invariant -----

  lemma OtherSizes(i: nat, p: Pool, sizes: map<MemoryHeader, int>, sizes': map<MemoryHeader, int>)
    requires PoolInv(i, p, sizes)
    requires forall h :: h in sizes && h.home == i ==> h in sizes' && sizes'[h] == sizes[h]
    ensures PoolInv(i, p, sizes')
  {
  }

  lemma PopKeepsPool(i: nat, p: Pool, sizes: map<MemoryHeader, int>, h: MemoryHeader, size: int)
    requires PoolInv(i, p, sizes) && 0 < size <= MAX_ALLOC_SIZE && PoolOf(size) == i
    requires if p.free == [] then h !in sizes && h.home == i && h.capacity == PoolSize(i) else h == p.free[0]
    ensures PoolInv(i, Popped(p, h), sizes[h := size])
  {
    assert h !in p.out;
    if p.free != [] {
      assert p.free == [h] + p.free[1..];
      assert forall g :: g in p.free[1..] ==> g in p.free && g != h;
    }
  }

  lemma PushKeepsPool(i: nat, p: Pool, sizes: map<MemoryHeader, int>, h: MemoryHeader)
    requires PoolInv(i, p, sizes) && h in p.out
    ensures PoolInv(i, Pushed(p, h), sizes[h := 0])
  {
  }

  lemma AllocateKeepsInv(a: Heap, h: MemoryHeader, allocSize: int)
    requires HeapInv(a) && 0 < allocSize && Handed(a, h, allocSize)
    ensures var a' := Allocated(a, h, allocSize);
            HeapInv(a') && !Live(a, h) && Live(a', h) && allocSize <= h.capacity
  {
    var a' := Allocated(a, h, allocSize);
    if allocSize > MAX_ALLOC_SIZE {
      forall j | 0 <= j < POOLS
        ensures PoolInv(j, a'.pools[j], a'.sizes)
      {
        OtherSizes(j, a.pools[j], a.sizes, a'.sizes);
      }
    } else {
      PoolOfIsSmallestFit(allocSize, 0);
      var i := PoolOf(allocSize);
      assert PoolInv(i, a.pools[i], a.sizes);
      PopKeepsPool(i, a.pools[i], a.sizes, h, allocSize);
      forall j | 0 <= j < POOLS && j != i
        ensures PoolInv(j, a'.pools[j], a'.sizes)
      {
        OtherSizes(j, a.pools[j], a.sizes, a'.sizes);
      }
    }
  }

  /** A live block goes back to the pool it came from, whatever its size. */
  lemma ReleaseKeepsInv(a: Heap, h: MemoryHeader)
    requires HeapInv(a) && Live(a, h)
    ensures h in a.sizes && 0 < a.sizes[h] && HeapInv(Released(a, h)) && !Live(Released(a, h), h)
    ensures h.home < POOLS ==> PoolOf(a.sizes[h]) == h.home && h in Released(a, h).pools[h.home].free
  {
    if h.home < POOLS {
      var i := h.home;
      assert PoolInv(i, a.pools[i], a.sizes);
      PushKeepsPool(i, a.pools[i], a.sizes, h);
    }
    var a' := Released(a, h);
    forall j | 0 <= j < POOLS && j != h.home
      ensures PoolInv(j, a'.pools[j], a'.sizes)
    {
      assert PoolInv(j, a.pools[j], a.sizes);
      OtherSizes(j, a.pools[j], a.sizes, a'.sizes);
    }
  }

  /** The assertion in Release fails exactly for a pooled block that was released before. */
  lemma ReleasedBlocksHaveNoSize(a: Heap, h: MemoryHeader)
    requires HeapInv(a) && h in a.sizes
    ensures a.sizes[h] <= 0 <==> !Live(a, h)
  {
    if h.home < POOLS {
      assert PoolInv(h.home, a.pools[h.home], a.sizes);
    }
  }

  /** What is released is handed out again: the next request that goes to the block's pool gets it, and the
      requests that go elsewhere get what they would have got. */
  lemma ReleasedIsReused(a: Heap, h: MemoryHeader, n: int, g: MemoryHeader)
    requires HeapInv(a) && Live(a, h) && h.home < POOLS && 0 < n <= MAX_ALLOC_SIZE
    ensures (ReleaseKeepsInv(a, h); |Released(a, h).pools|) == POOLS
    ensures PoolOf(n) == h.home ==> (Handed(Released(a, h), g, n) <==> g == h)
    ensures PoolOf(n) != h.home && g != h ==> (Handed(Released(a, h), g, n) <==> Handed(a, g, n))
  {
    ReleaseKeepsInv(a, h);
    PoolOfIsSmallestFit(n, 0);
    PoolOfIsSmallestFit(a.sizes[h], 0);
  }

  // ----- every run -----

  const EMPTY_HEAP := Heap(seq(POOLS, _ => Pool([], {}, 0, 0)), {}, map[])

  datatype Step = Allocate(block: MemoryHeader, allocSize: int) | Release(block: MemoryHeader)

  ghost predicate Legal(a: Heap, step: Step)
    requires HeapInv(a)
  {
    match step
    case Allocate(h, n) => 0 < n && Handed(a, h, n)
    case Release(h) => Live(a, h)
  }

  ghost function Apply(a: Heap, step: Step): (a': Heap)
    requires HeapInv(a) && Legal(a, step)
    ensures HeapInv(a')
  {
    match step
    case Allocate(h, n) =>
      AllocateKeepsInv(a, h, n);
      Allocated(a, h, n)
    case Release(h) =>
      ReleaseKeepsInv(a, h);
      Released(a, h)
  }

  ghost predicate IsRun(a: Heap, steps: seq<Step>, a': Heap)
    requires HeapInv(a)
    decreases |steps|
  {
    if steps == [] then a' == a else Legal(a, steps[0]) && IsRun(Apply(a, steps[0]), steps[1..], a')
  }

  lemma {:induction false} RunKeepsInv(a: Heap, steps: seq<Step>, a': Heap)
    requires HeapInv(a) && IsRun(a, steps, a')
    ensures HeapInv(a')
    decreases |steps|
  {
    if steps == [] {
    } else {
      RunKeepsInv(Apply(a, steps[0]), steps[1..], a');
    }
  }

  lemma EmptyHeapIsValid()
    ensures HeapInv(EMPTY_HEAP)
  {
    forall i | 0 <= i < POOLS
      ensures PoolInv(i, EMPTY_HEAP.pools[i], map[])
    {
      assert EMPTY_HEAP.pools[i] == Pool([], {}, 0, 0);
    }
  }

  /** After any sequence of allocations and releases: a block of a pool is with a caller or in that
      pool's free list, not both and in no other pool; the counters are the two lengths. */
  lemma BlocksStayInTheirPool(steps: seq<Step>, a: Heap, h: MemoryHeader, i: nat)
    requires (EmptyHeapIsValid(); IsRun(EMPTY_HEAP, steps, a)) && h in a.sizes && i < POOLS
    ensures |a.pools| == POOLS
    ensures h in a.pools[i].out || h in a.pools[i].free <==> h.home == i
    ensures !(h in a.pools[i].out && h in a.pools[i].free)
    ensures a.pools[i].useCount == |a.pools[i].out| && a.pools[i].reserveCount + |a.pools[i].free| == 0
  {
    EmptyHeapIsValid();
    RunKeepsInv(EMPTY_HEAP, steps, a);
    assert PoolInv(i, a.pools[i], a.sizes);
  }

  // ----- the pool and the memory as objects -----

  class MemoryPool {
    const allocSize: nat
    const index: nat                 // its place in Memory's table of pools
    var free: seq<MemoryHeader>      // the interlocked list, the last one pushed first
    var useCount: int
    var reserveCount: int

    constructor (allocSize: nat, index: nat)
      ensures this.allocSize == allocSize && this.index == index
      ensures free == [] && useCount == 0 && reserveCount == 0
    {
      this.allocSize, this.index := allocSize, index;
      free, useCount, reserveCount := [], 0, 0;
    }

    method Push(h: MemoryHeader)
      modifies this, h
      ensures h.allocSize == 0 && free == [h] + old(free)
      ensures useCount == old(useCount) - 1 && reserveCount == old(reserveCount) - 1
    {
      h.allocSize := 0;
      free := [h] + free;
      useCount := useCount - 1;
      reserveCount := reserveCount - 1;
    }

    /** Crashes if the free list holds a block that is in use. */
    method Pop() returns (crashed: bool, h: MemoryHeader)
      modifies this
      ensures crashed <==> old(free) != [] && old(free)[0].allocSize != 0
      ensures if old(free) == [] then fresh(h) && h.capacity == allocSize && h.home == index && free == []
              else h == old(free)[0] && free == old(free)[1..]
      ensures !crashed ==> useCount == old(useCount) + 1
                           && reserveCount == old(reserveCount) + (if old(free) == [] then 0 else 1)
    {
      crashed := false;
      if free == [] {
        h := new MemoryHeader(allocSize, index);
      } else {
        h := free[0];
        free := free[1..];
        if h.allocSize != 0 {
          crashed := true;
          return;
        }
        reserveCount := reserveCount + 1;
      }
      useCount := useCount + 1;
    }
  }

  ghost predicate MirrorsPool(p: Pool, pool: MemoryPool)
    reads pool
  {
    p.free == pool.free && p.useCount == pool.useCount && p.reserveCount == pool.reserveCount
  }

  class Memory {
    var pools: seq<MemoryPool>
    var poolTable: array<nat>
    ghost var heap: Heap

    ghost predicate Tied()
      reads this, pools, poolTable, heap.sizes.Keys
    {
      && |pools| == |heap.pools| == POOLS
      && (forall i :: 0 <= i < POOLS ==> pools[i].index == i && pools[i].allocSize == PoolSize(i))
      && (forall i :: 0 <= i < POOLS ==> MirrorsPool(heap.pools[i], pools[i]))
      && (forall h :: h in heap.sizes ==> h.allocSize == heap.sizes[h])
      && poolTable.Length == MAX_ALLOC_SIZE + 1
      && (forall s :: 0 <= s <= MAX_ALLOC_SIZE ==> poolTable[s] == PoolOf(s))
    }

    ghost predicate Valid()
      reads this, pools, poolTable, heap.sizes.Keys
    {
      Tied() && HeapInv(heap)
    }

    constructor ()
      ensures Valid() && heap == EMPTY_HEAP
    {
      var sizes, table := BuildTable();
      var made: seq<MemoryPool> := [];
      while |made| < |sizes|
        invariant |made| <= |sizes| && (forall i :: 0 <= i < |made| ==> fresh(made[i]))
        invariant forall i :: 0 <= i < |made| ==> made[i].index == i && made[i].allocSize == sizes[i]
        invariant forall i :: 0 <= i < |made| ==> MirrorsPool(Pool([], {}, 0, 0), made[i])
        invariant forall s :: 0 <= s <= MAX_ALLOC_SIZE ==> table[s] == PoolOf(s)
      {
        var pool := new MemoryPool(sizes[|made|], |made|);
        made := made + [pool];
      }
      pools, poolTable := made, table;
      heap := EMPTY_HEAP;
      new;
      forall i | 0 <= i < POOLS
        ensures MirrorsPool(heap.pools[i], pools[i]) && PoolInv(i, heap.pools[i], heap.sizes)
      {
        assert heap.pools[i] == Pool([], {}, 0, 0);
      }
      assert Tied() && HeapInv(heap);
    }

    method Take(allocSize: int) returns (ghost crashed: bool, h: MemoryHeader)
      requires Tied() && 0 <= allocSize <= MAX_ALLOC_SIZE
      requires var free := pools[PoolOf(allocSize)].free;
               forall g :: g in free ==> g in heap.sizes
      modifies pools, this`heap, heap.sizes.Keys
      ensures crashed <==>
                var free := old(heap).pools[PoolOf(allocSize)].free;
                free != [] && old(heap).sizes[free[0]] != 0
      ensures Handed(old(heap), h, allocSize)
      ensures !crashed ==> Tied() && heap == Allocated(old(heap), h, allocSize)
    {
      PoolOfIsSmallestFit(allocSize, 0);
      var pool := pools[poolTable[allocSize]];
      var failed;
      failed, h := pool.Pop();
      crashed := failed;
      if failed {
        return;
      }
      h.allocSize := allocSize;
      heap := Allocated(heap, h, allocSize);
    }

    /** The header of a block with room for `size` bytes after it, that nobody else has; Pop's assertion
        never fails. `None` is a table index below zero: the header does not fit the 32 bits, or `size`
        is negative. From -1 down to -31 the header still fits; at -32 exactly, a block is handed out
        whose header says 0, which Release refuses. */
    method Allocate(size: int) returns (r: Option<MemoryHeader>)
      requires Valid() && -INT32_MAX - 1 <= size <= INT32_MAX
      modifies pools, this`heap, heap.sizes.Keys
      ensures r.None? <==> size < -HEADER_SIZE || size > INT32_MAX - HEADER_SIZE
      ensures r.None? ==> Valid() && heap == old(heap)
      ensures r.Some? ==>
                && Handed(old(heap), r.value, size + HEADER_SIZE)
                && heap == Allocated(old(heap), r.value, size + HEADER_SIZE)
      ensures r.Some? ==> Tied() && r.value.allocSize == size + HEADER_SIZE
      ensures r.Some? && size > -HEADER_SIZE ==>
                Valid() && !Live(old(heap), r.value) && Live(heap, r.value) && size + HEADER_SIZE <= r.value.capacity
    {
      var allocSize := Int32(size + HEADER_SIZE);
      if allocSize > MAX_ALLOC_SIZE {
        var h := new MemoryHeader(allocSize, POOLS);
        AllocateKeepsInv(heap, h, allocSize);
        h.allocSize := allocSize;
        heap := Allocated(heap, h, allocSize);
        return Some(h);
      }
      if allocSize < 0 {
        return None;
      }
      var h := FromPool(allocSize);
      return Some(h);
    }

    method FromPool(allocSize: int) returns (h: MemoryHeader)
      requires Valid() && 0 <= allocSize <= MAX_ALLOC_SIZE
      modifies pools, this`heap, heap.sizes.Keys
      ensures Tied() && Handed(old(heap), h, allocSize) && heap == Allocated(old(heap), h, allocSize)
      ensures allocSize > 0 ==> Valid() && !Live(old(heap), h) && Live(heap, h) && allocSize <= h.capacity
    {
      PoolOfIsSmallestFit(allocSize, 0);
      assert PoolInv(PoolOf(allocSize), heap.pools[PoolOf(allocSize)], heap.sizes);
      ghost var crashed, a := false, heap;
      crashed, h := Take(allocSize);
      if allocSize > 0 {
        AllocateKeepsInv(a, h, allocSize);
      }
    }

    /** Crashes exactly when the header says 0 or less, which of the blocks that exist are those that are
        not live. About a header outside the heap, such as that of a block from malloc freed before,
        nothing else is promised. */
    method Release(h: MemoryHeader) returns (crashed: bool)
      requires Tied()
      modifies pools, this`heap, h
      ensures crashed <==> old(h.allocSize) <= 0
      ensures crashed ==> Tied() && heap == old(heap)
      ensures !crashed && h in old(heap).sizes ==> Tied() && heap == Released(old(heap), h)
      ensures old(Valid()) && h in old(heap).sizes ==> (crashed <==> !Live(old(heap), h)) && Valid()
    {
      ghost var known := h in heap.sizes && HeapInv(heap);
      if known {
        ReleasedBlocksHaveNoSize(heap, h);
      }
      if h.allocSize <= 0 {
        return true;
      }
      crashed := false;
      if known {
        ReleaseKeepsInv(heap, h);
      }
      GiveBack(h);
    }

    method GiveBack(h: MemoryHeader)
      requires Tied() && h.allocSize > 0
      modifies pools, this`heap, h
      ensures h in old(heap).sizes ==> old(heap).sizes[h] > 0 && Tied() && heap == Released(old(heap), h)
    {
      var allocSize := h.allocSize;
      if allocSize <= MAX_ALLOC_SIZE {
        PoolOfIsSmallestFit(allocSize, 0);
        pools[poolTable[allocSize]].Push(h);
      }
      if h in heap.sizes {
        heap := Released(heap, h);
      }
    }
  }
}
