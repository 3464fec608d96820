/** The array memory SerialArena recycles (google/protobuf/arena_impl.h): free lists by power of two,
    whose table of list heads is itself stored in a returned block.

    Addresses are flat numbers. A bump allocation brings in memory no earlier one covers; everything
    else moves memory between its callers, the free lists and the table, in pieces that never leave
    what was once bump-allocated. `ArrayArenas` runs this on top of a `SerialArena`. */
module CachedBlocks {
  import opened Bits
  import opened Wire

  datatype Region = Region(from: nat, size: nat)

  const LINK_SIZE := 8
  const MAX_LISTS := 64
  const SIZE_LIMIT := UINT64   // of a size_t

  // ----- the two roundings -----

  /** The list a block of this size goes to: rounded down. */
  function ReturnIndex(size: nat): (i: nat)
    requires size >= 16
    ensures Pow2(i + 4) <= size < Pow2(i + 5)
  {
    Log2Bounds(size);
    LogOf16(size);
    Log2(size) - 4
  }

  /** The list a request of this size looks into: rounded up. */
  function RequestIndex(size: nat): (i: nat)
    requires size >= 16
    ensures size <= Pow2(i + 4) && (i > 0 ==> Pow2(i + 3) < size)
  {
    Log2Bounds(size - 1);
    LogOf8(size - 1);
    Log2(size - 1) - 3
  }

  lemma LogOf8(n: nat)
    requires n >= 8
    ensures Log2(n) >= 3
  {
    assert Log2(n) == 1 + Log2(n / 2) == 2 + Log2(n / 2 / 2) == 3 + Log2(n / 2 / 2 / 2);
  }

  lemma LogOf16(n: nat)
    requires n >= 16
    ensures Log2(n) >= 4
  {
    LogOf8(n / 2);
  }

  lemma ReturnIndexIs(size: nat, k: nat)
    requires 16 <= size && Pow2(k) <= size < Pow2(k + 1) && k >= 4
    ensures ReturnIndex(size) == k - 4
  {
    Log2IsUnique(size, k);
  }

  lemma RequestIndexIs(size: nat, k: nat)
    requires 16 <= size && k >= 4 && Pow2(k - 1) < size <= Pow2(k)
    ensures RequestIndex(size) == k - 4
  {
    Log2IsUnique(size - 1, k - 1);
  }

  /** A block of a power of two is found again by a request of the same size. */
  lemma PowersComeBack(k: nat)
    requires k >= 4
    ensures Pow2(k) >= 16 && ReturnIndex(Pow2(k)) == RequestIndex(Pow2(k)) == k - 4
  {
    SmallPowers();
    Pow2Grows(4, k);
    ReturnIndexIs(Pow2(k), k);
    RequestIndexIs(Pow2(k), k);
  }

  /** A block that becomes the table has room for strictly more lists than the old one, and for the
      list its own size belongs to. */
  lemma TableGrows(size: nat, length: nat)
    requires 16 <= size < SIZE_LIMIT && length <= ReturnIndex(size)
    ensures length < size / LINK_SIZE && length < Min(MAX_LISTS, size / LINK_SIZE)
    ensures ReturnIndex(size) < Min(MAX_LISTS, size / LINK_SIZE)
  {
    var i := ReturnIndex(size);
    assert Pow2(i + 4) == 2 * Pow2(i + 3) == 4 * Pow2(i + 2) == 8 * Pow2(i + 1);
    Pow2Grows(i + 1, i + 1);
    if i >= 60 {
      Pow2Grows(64, i + 4);
      Pow2Of64();
    }
  }

  // ----- the memory and who has it -----

  /** `lists[i]` is the free list cached_blocks_[i], head first; `table` is the block the list heads are
      stored in; `live` is what callers have; `bumps` is all memory ever bump-allocated. */
  datatype Cache = Cache(lists: seq<seq<Region>>, table: Option<Region>, live: multiset<Region>, bumps: set<Region>)

  const NO_MEMORY := Cache([], None, multiset{}, {})

  function Bag(lists: seq<seq<Region>>): multiset<Region> {
    if lists == [] then multiset{} else Bag(lists[..|lists| - 1]) + multiset(lists[|lists| - 1])
  }

  function TableBag(table: Option<Region>): multiset<Region> {
    match table
    case None => multiset{}
    case Some(r) => multiset{r}
  }

  function All(c: Cache): multiset<Region> {
    c.live + Bag(c.lists) + TableBag(c.table)
  }

  predicate Apart(r: Region, q: Region) {
    r.from + r.size <= q.from || q.from + q.size <= r.from
  }

  ghost predicate Disjoint(all: multiset<Region>) {
    && (forall r :: r in all ==> all[r] == 1 && r.size > 0)
    && (forall r, q :: r in all && q in all && r != q ==> Apart(r, q))
  }

  predicate Inside(r: Region, b: Region) {
    b.from <= r.from && r.from + r.size <= b.from + b.size
  }

  /** Every piece lies in something that was bump-allocated. */
  ghost predicate Covered(all: multiset<Region>, bumps: set<Region>) {
    forall r :: r in all ==> exists b :: b in bumps && Inside(r, b)
  }

  predicate Cached(c: Cache, n: nat) {
    n >= 16 && RequestIndex(n) < |c.lists| && c.lists[RequestIndex(n)] != []
  }

  /** The block TryAllocateFromCachedBlock hands out, as long as the caller asked for. */
  function Handed(c: Cache, n: nat): Region
    requires Cached(c, n)
  {
    Region(c.lists[RequestIndex(n)][0].from, n)
  }

  function AfterServe(c: Cache, n: nat): Cache
    requires Cached(c, n)
  {
    var i := RequestIndex(n);
    c.(lists := c.lists[i := c.lists[i][1..]], live := c.live + multiset{Handed(c, n)})
  }

  function AfterReturn(c: Cache, p: Region): Cache
    requires 16 <= p.size < SIZE_LIMIT
  {
    var i := ReturnIndex(p.size);
    var live := c.live - multiset{p};
    if i >= |c.lists| then
      TableGrows(p.size, |c.lists|);
      Cache(c.lists + seq(Min(MAX_LISTS, p.size / LINK_SIZE) - |c.lists|, _ => []), Some(p), live, c.bumps)
    else c.(lists := c.lists[i := [p] + c.lists[i]], live := live)
  }

  function AfterBump(c: Cache, p: Region): Cache {
    c.(live := c.live + multiset{p}, bumps := c.bumps + {p})
  }

  // ----- bags -----

  lemma {:induction false} BagPush(lists: seq<seq<Region>>, i: nat, r: Region)
    requires i < |lists|
    ensures Bag(lists[i := [r] + lists[i]]) == Bag(lists) + multiset{r}
    decreases |lists|
  {
    var n := |lists| - 1;
    if i < n {
      BagPush(lists[..n], i, r);
      assert lists[i := [r] + lists[i]][..n] == lists[..n][i := [r] + lists[..n][i]];
    } else {
      assert lists[i := [r] + lists[i]][..n] == lists[..n];
      assert multiset([r] + lists[i]) == multiset{r} + multiset(lists[i]);
    }
  }

  lemma {:induction false} BagPad(lists: seq<seq<Region>>, pad: seq<seq<Region>>)
    requires forall i :: 0 <= i < |pad| ==> pad[i] == []
    ensures Bag(lists + pad) == Bag(lists)
    decreases |pad|
  {
    if pad == [] {
      assert lists + pad == lists;
    } else {
      assert (lists + pad)[..|lists + pad| - 1] == lists + pad[..|pad| - 1];
      BagPad(lists, pad[..|pad| - 1]);
    }
  }

  // ----- every operation keeps all memory apart -----

  lemma Fewer(a: multiset<Region>, b: multiset<Region>)
    requires Disjoint(a) && b <= a
    ensures Disjoint(b)
  {
    forall r | r in b
      ensures b[r] == 1 && r in a
    {
      assert b[r] <= a[r];
    }
  }

  lemma Shrunk(rest: multiset<Region>, r: Region, q: Region)
    requires Disjoint(rest + multiset{r}) && q.from == r.from && 0 < q.size <= r.size
    ensures Disjoint(rest + multiset{q})
  {
    var a := rest + multiset{r};
    assert a[r] == 1 && rest[r] == 0;
    forall x | x in rest
      ensures x in a && rest[x] == 1 && x != r && Apart(x, q) && Apart(q, x)
    {
      assert x in a && a[x] == 1;
      assert Apart(x, r);
    }
    assert q !in rest;
  }

  /** What stays put while a block is handed out. */
  function Rest(c: Cache, n: nat): multiset<Region>
    requires Cached(c, n)
  {
    c.live + Bag(AfterServe(c, n).lists) + TableBag(c.table)
  }

  lemma ServeMoves(c: Cache, n: nat)
    requires Cached(c, n)
    ensures All(c) == Rest(c, n) + multiset{c.lists[RequestIndex(n)][0]}
    ensures All(AfterServe(c, n)) == Rest(c, n) + multiset{Handed(c, n)}
  {
    var i, lists := RequestIndex(n), AfterServe(c, n).lists;
    assert c.lists[i] == [c.lists[i][0]] + lists[i];
    assert c.lists == lists[i := [c.lists[i][0]] + lists[i]];
    BagPush(lists, i, c.lists[i][0]);
  }

  /** A returned block goes to a free list or becomes the table, whose old block is given up. */
  lemma ReturnMoves(c: Cache, p: Region)
    requires p in c.live && 16 <= p.size < SIZE_LIMIT
    ensures ReturnIndex(p.size) < |c.lists| ==> All(AfterReturn(c, p)) == All(c)
    ensures ReturnIndex(p.size) >= |c.lists| ==> All(AfterReturn(c, p)) + TableBag(c.table) == All(c)
  {
    var i, c' := ReturnIndex(p.size), AfterReturn(c, p);
    assert c.live == c'.live + multiset{p};
    if i >= |c.lists| {
      PadMoves(c, p);
    } else {
      BagPush(c.lists, i, p);
    }
  }

  lemma PadMoves(c: Cache, p: Region)
    requires 16 <= p.size < SIZE_LIMIT && ReturnIndex(p.size) >= |c.lists|
    ensures Bag(AfterReturn(c, p).lists) == Bag(c.lists) && AfterReturn(c, p).table == Some(p)
  {
    TableGrows(p.size, |c.lists|);
    BagPad(c.lists, seq(Min(MAX_LISTS, p.size / LINK_SIZE) - |c.lists|, _ => []));
  }

  ghost predicate Shaped(c: Cache) {
    && |c.lists| <= MAX_LISTS
    && (match c.table case None => c.lists == [] case Some(r) => LINK_SIZE * |c.lists| <= r.size)
    && (forall i, j :: 0 <= i < |c.lists| && 0 <= j < |c.lists[i]| ==> Pow2(i + 4) <= c.lists[i][j].size)
  }

  ghost predicate Inv(c: Cache) {
    Shaped(c) && Disjoint(All(c)) && Covered(All(c), c.bumps)
  }

  lemma ServeKeepsShape(c: Cache, n: nat)
    requires Shaped(c) && Cached(c, n)
    ensures Shaped(AfterServe(c, n)) && n <= c.lists[RequestIndex(n)][0].size
    ensures Inside(Handed(c, n), c.lists[RequestIndex(n)][0]) && Handed(c, n).size > 0
  {
  }

  lemma ServeKeepsInv(c: Cache, n: nat)
    requires Inv(c) && Cached(c, n)
    ensures Inv(AfterServe(c, n)) && n <= c.lists[RequestIndex(n)][0].size
  {
    var served := c.lists[RequestIndex(n)][0];
    ServeKeepsShape(c, n);
    ServeMoves(c, n);
    Shrunk(Rest(c, n), served, Handed(c, n));
    ServeStaysCovered(Rest(c, n), served, Handed(c, n), c.bumps);
  }

  lemma ServeStaysCovered(rest: multiset<Region>, r: Region, q: Region, bumps: set<Region>)
    requires Covered(rest + multiset{r}, bumps) && Inside(q, r)
    ensures Covered(rest + multiset{q}, bumps)
  {
    assert r in rest + multiset{r};
    forall x | x in rest + multiset{q}
      ensures exists b :: b in bumps && Inside(x, b)
    {
      if x in rest {
        assert x in rest + multiset{r};
      } else {
        var b :| b in bumps && Inside(r, b);
        assert Inside(x, b);
      }
    }
  }

  lemma FewerStayCovered(a: multiset<Region>, b: multiset<Region>, bumps: set<Region>)
    requires Covered(a, bumps) && b <= a
    ensures Covered(b, bumps)
  {
  }

  lemma ReturnKeepsShape(c: Cache, p: Region)
    requires Shaped(c) && 16 <= p.size < SIZE_LIMIT
    ensures Shaped(AfterReturn(c, p))
  {
    if ReturnIndex(p.size) >= |c.lists| {
      TableGrows(p.size, |c.lists|);
    }
  }

  lemma ReturnKeepsInv(c: Cache, p: Region)
    requires Inv(c) && p in c.live && 16 <= p.size < SIZE_LIMIT
    ensures Inv(AfterReturn(c, p))
  {
    ReturnKeepsShape(c, p);
    ReturnMoves(c, p);
    Fewer(All(c), All(AfterReturn(c, p)));
    FewerStayCovered(All(c), All(AfterReturn(c, p)), c.bumps);
  }

  /** Memory apart from all that was bump-allocated is apart from every piece of it. */
  lemma ApartFromPieces(all: multiset<Region>, bumps: set<Region>, p: Region)
    requires Covered(all, bumps) && forall b :: b in bumps ==> Apart(b, p)
    ensures forall r :: r in all ==> Apart(r, p)
  {
    forall r | r in all
      ensures Apart(r, p)
    {
      var b :| b in bumps && Inside(r, b);
      assert Apart(b, p);
    }
  }

  lemma JoinedStayDisjoint(all: multiset<Region>, p: Region)
    requires Disjoint(all) && p.size > 0 && forall r :: r in all ==> Apart(r, p)
    ensures Disjoint(all + multiset{p})
  {
    assert p in all ==> Apart(p, p);
    forall r | r in all + multiset{p}
      ensures (all + multiset{p})[r] == 1 && r.size > 0
    {
      assert r != p ==> r in all && all[r] == 1;
    }
  }

  lemma JoinedStayCovered(all: multiset<Region>, bumps: set<Region>, p: Region)
    requires Covered(all, bumps)
    ensures Covered(all + multiset{p}, bumps + {p})
  {
    forall r | r in all + multiset{p}
      ensures exists b :: b in bumps + {p} && Inside(r, b)
    {
      if r in all {
        var b :| b in bumps && Inside(r, b);
        assert b in bumps + {p};
      } else {
        assert p in bumps + {p} && Inside(r, p);
      }
    }
  }

  lemma BumpKeepsInv(c: Cache, p: Region)
    requires Inv(c) && Legal(c, Bump(p))
    ensures Inv(AfterBump(c, p))
  {
    assert All(AfterBump(c, p)) == All(c) + multiset{p};
    ApartFromPieces(All(c), c.bumps, p);
    JoinedStayDisjoint(All(c), p);
    JoinedStayCovered(All(c), c.bumps, p);
  }

  // ----- every run -----

  datatype Step =
    | Bump(p: Region)       // new memory from the head block, apart from all earlier such memory
    | Serve(size: nat)      // an array allocation that finds a cached block
    | Return(p: Region)     // an array grew and gives its old memory back

  ghost predicate Legal(c: Cache, step: Step) {
    match step
    case Bump(p) => p.size > 0 && forall b :: b in c.bumps ==> Apart(b, p)
    case Serve(n) => Cached(c, n)
    case Return(p) => p in c.live && 16 <= p.size < SIZE_LIMIT
  }

  ghost function Apply(c: Cache, step: Step): Cache
    requires Legal(c, step)
  {
    match step
    case Bump(p) => AfterBump(c, p)
    case Serve(n) => AfterServe(c, n)
    case Return(p) => AfterReturn(c, p)
  }

  ghost predicate IsRun(c: Cache, steps: seq<Step>, c': Cache)
    decreases |steps|
  {
    if steps == [] then c' == c else Legal(c, steps[0]) && IsRun(Apply(c, steps[0]), steps[1..], c')
  }

  lemma {:induction false} RunKeepsInv(c: Cache, steps: seq<Step>, c': Cache)
    requires Inv(c) && IsRun(c, steps, c')
    ensures Inv(c')
    decreases |steps|
  {
    if steps == [] {
    } else {
      match steps[0] {
        case Bump(p) => BumpKeepsInv(c, p);
        case Serve(n) => ServeKeepsInv(c, n);
        case Return(p) => ReturnKeepsInv(c, p);
      }
      RunKeepsInv(Apply(c, steps[0]), steps[1..], c');
    }
  }

  /** One piece in two places would be counted twice. */
  lemma OtherPlaceIsApart(a: multiset<Region>, b: multiset<Region>, p: Region, q: Region)
    requires Disjoint(a + b) && p in a && q in b
    ensures Apart(p, q)
  {
    assert (a + b)[p] == 1 && p in a + b && q in a + b;
  }

  lemma LiveIsApart(c: Cache, p: Region, i: nat, j: nat)
    requires Inv(c) && p in c.live && i < |c.lists| && j < |c.lists[i]|
    ensures Apart(p, c.lists[i][j])
  {
    BagHolds(c.lists, i);
    assert c.lists[i][j] in multiset(c.lists[i]);
    assert All(c) == c.live + (Bag(c.lists) + TableBag(c.table));
    OtherPlaceIsApart(c.live, Bag(c.lists) + TableBag(c.table), p, c.lists[i][j]);
  }

  lemma TableIsApart(c: Cache, p: Region)
    requires Inv(c) && p in c.live && c.table.Some?
    ensures Apart(p, c.table.value)
  {
    OtherPlaceIsApart(c.live + Bag(c.lists), TableBag(c.table), p, c.table.value);
  }

  /** What one caller has overlaps neither what another has, nor a cached block, nor the table. */
  lemma LiveMemoryIsExclusive(c: Cache, p: Region)
    requires Inv(c) && p in c.live
    ensures c.live[p] == 1
    ensures forall q :: q in c.live && q != p ==> Apart(p, q)
    ensures forall i, j :: 0 <= i < |c.lists| && 0 <= j < |c.lists[i]| ==> Apart(p, c.lists[i][j])
    ensures c.table.Some? ==> Apart(p, c.table.value)
  {
    assert All(c)[p] == 1;
    forall i, j | 0 <= i < |c.lists| && 0 <= j < |c.lists[i]|
      ensures Apart(p, c.lists[i][j])
    {
      LiveIsApart(c, p, i, j);
    }
    if c.table.Some? {
      TableIsApart(c, p);
    }
  }

  /** However arrays grow and shrink, no byte a caller has is in another caller's block, in a free list
      or in the table. */
  lemma MemoryIsNeverShared(steps: seq<Step>, c: Cache, p: Region)
    requires IsRun(NO_MEMORY, steps, c) && p in c.live
    ensures c.live[p] == 1
    ensures forall q :: q in c.live && q != p ==> Apart(p, q)
    ensures forall i, j :: 0 <= i < |c.lists| && 0 <= j < |c.lists[i]| ==> Apart(p, c.lists[i][j])
    ensures c.table.Some? ==> Apart(p, c.table.value)
  {
    RunKeepsInv(NO_MEMORY, steps, c);
    LiveMemoryIsExclusive(c, p);
  }

  lemma {:induction false} BagHolds(lists: seq<seq<Region>>, i: nat)
    requires i < |lists|
    ensures multiset(lists[i]) <= Bag(lists)
    decreases |lists|
  {
    if i < |lists| - 1 {
      BagHolds(lists[..|lists| - 1], i);
    }
  }

  // ----- what is given back is found again -----

  predicate Adopted(c: Cache, p: Region)
    requires p.size >= 16
  {
    ReturnIndex(p.size) >= |c.lists|
  }

  /** A block that is not adopted as the table goes in front of the list for its size: the next request that
      looks there gets its address, and all other requests find what they found before. */
  lemma ReturnedIsFound(c: Cache, p: Region, n: nat)
    requires 16 <= p.size < SIZE_LIMIT && n >= 16 && !Adopted(c, p)
    ensures var c' := AfterReturn(c, p);
            if RequestIndex(n) == ReturnIndex(p.size) then
              n <= p.size && Cached(c', n) && Handed(c', n) == Region(p.from, n)
            else
              Cached(c', n) == Cached(c, n) && (Cached(c, n) ==> Handed(c', n) == Handed(c, n))
  {
  }

  /** Serving undoes returning: the lists are what they were, in number and in order. */
  lemma ServeUndoesReturn(c: Cache, p: Region, n: nat)
    requires 16 <= p.size < SIZE_LIMIT && n >= 16 && !Adopted(c, p) && RequestIndex(n) == ReturnIndex(p.size)
    ensures Cached(AfterReturn(c, p), n)
    ensures var c' := AfterServe(AfterReturn(c, p), n); c'.lists == c.lists && c'.table == c.table
  {
    ReturnedIsFound(c, p, n);
    var i := ReturnIndex(p.size);
    assert ([p] + c.lists[i])[1..] == c.lists[i];
    assert c.lists[i := [p] + c.lists[i]][i := c.lists[i]] == c.lists;
  }

  /** Serving takes one block from one list, so the requests that look elsewhere find what they found. */
  lemma OthersAreServedAlike(c: Cache, n: nat, m: nat)
    requires Cached(c, n) && m >= 16 && RequestIndex(m) != RequestIndex(n)
    ensures var c' := AfterServe(c, n);
            Cached(c', m) == Cached(c, m) && (Cached(c, m) ==> Handed(c', m) == Handed(c, m))
  {
  }

  /** A block adopted as the table makes no request find anything else than before, and leaves room for as
      many lists as it can hold pointers to, up to 64; the old table's block is given up. */
  lemma AdoptedIsTable(c: Cache, p: Region, n: nat)
    requires 16 <= p.size < SIZE_LIMIT && n >= 16 && Adopted(c, p)
    ensures var c' := AfterReturn(c, p);
            && c'.table == Some(p) && Cached(c', n) == Cached(c, n)
            && (Cached(c, n) ==> Handed(c', n) == Handed(c, n))
            && LINK_SIZE * |c'.lists| <= p.size && (|c'.lists| == MAX_LISTS || p.size < LINK_SIZE * (|c'.lists| + 1))
  {
    TableGrows(p.size, |c.lists|);
  }

  // ----- the two operations -----

  /** Copies the list heads and fills the rest with empty lists. */
  method NewTable(lists: seq<seq<Region>>, length: nat) returns (newList: seq<seq<Region>>)
    requires |lists| <= length
    ensures newList == lists + seq(length - |lists|, _ => [])
  {
    newList := lists;
    while |newList| < length
      invariant |lists| <= |newList| <= length
      invariant newList == lists + seq(|newList| - |lists|, _ => [])
    {
      newList := newList + [[]];
    }
  }

  class ArrayMemory {
    var cachedBlocks: seq<seq<Region>>   // cached_blocks_, of cached_block_length_ entries
    var table: Option<Region>            // where they are stored
    ghost var live: multiset<Region>
    ghost var bumps: set<Region>

    ghost function Abs(): Cache
      reads this
    {
      Cache(cachedBlocks, table, live, bumps)
    }

    constructor ()
      ensures Inv(Abs()) && Abs() == NO_MEMORY
    {
      cachedBlocks, table, live, bumps := [], None, multiset{}, {};
    }

    method TryAllocateFromCachedBlock(size: nat) returns (p: Option<Region>)
      requires Inv(Abs())
      modifies this
      ensures Inv(Abs()) && (p.Some? <==> Cached(old(Abs()), size))
      ensures p.Some? ==> p.value == Handed(old(Abs()), size) && Abs() == AfterServe(old(Abs()), size)
      ensures p.None? ==> Abs() == old(Abs())
    {
      if size < 16 {
        return None;
      }
      var index := RequestIndex(size);
      if index >= |cachedBlocks| {
        return None;
      }
      if cachedBlocks[index] == [] {
        return None;
      }
      ServeKeepsInv(Abs(), size);
      var ret := cachedBlocks[index][0];
      cachedBlocks := cachedBlocks[index := cachedBlocks[index][1..]];
      live := live + multiset{Region(ret.from, size)};
      return Some(Region(ret.from, size));
    }

    method Keep(p: Region)
      requires 16 <= p.size < SIZE_LIMIT
      modifies this
      ensures Abs() == AfterReturn(old(Abs()), p)
    {
      live := live - multiset{p};
      var index := ReturnIndex(p.size);
      if index >= |cachedBlocks| {
        TableGrows(p.size, |cachedBlocks|);
        cachedBlocks := NewTable(cachedBlocks, Min(MAX_LISTS, p.size / LINK_SIZE));
        table := Some(p);
        return;
      }
      cachedBlocks := cachedBlocks[index := [p] + cachedBlocks[index]];
    }

    method ReturnArrayMemory(p: Region)
      requires Inv(Abs()) && p in live && 16 <= p.size < SIZE_LIMIT
      modifies this
      ensures Inv(Abs()) && Abs() == AfterReturn(old(Abs()), p)
    {
      ReturnKeepsInv(Abs(), p);
      Keep(p);
    }

    /** `p` was just bump-allocated for a caller. */
    ghost method Enter(p: Region)
      requires Inv(Abs()) && Legal(Abs(), Bump(p))
      modifies this`live, this`bumps
      ensures Inv(Abs()) && Abs() == AfterBump(old(Abs()), p)
    {
      BumpKeepsInv(Abs(), p);
      live, bumps := live + multiset{p}, bumps + {p};
    }
  }

  /** An array of a power of two that is given back is what the next request of its size gets. */
  method GiveAndTake(memory: ArrayMemory, p: Region, k: nat) returns (again: Region)
    requires Inv(memory.Abs()) && p in memory.live && k >= 4 && 16 <= p.size == Pow2(k) < SIZE_LIMIT
    requires !Adopted(memory.Abs(), p)
    modifies memory
    ensures again == p && Inv(memory.Abs())
    ensures memory.cachedBlocks == old(memory.cachedBlocks) && memory.live == old(memory.live)
  {
    ghost var before := memory.Abs();
    PowersComeBack(k);
    ReturnedIsFound(before, p, p.size);
    ServeUndoesReturn(before, p, p.size);
    memory.ReturnArrayMemory(p);
    var r := memory.TryAllocateFromCachedBlock(p.size);
    again := r.value;
    assert before.live - multiset{p} + multiset{p} == before.live;
  }
}
