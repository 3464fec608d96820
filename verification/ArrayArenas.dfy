/** A `SerialArena` together with its recycled array memory (arena_impl.h): array requests first look
    for a cached block and bump-allocate only if there is none.

    Blocks have the addresses `operator new` gave them, apart from each other; a region is an address
    and a size. That every bump is apart from all earlier ones is proved from the arena's own
    invariant, so nothing about memory in circulation is assumed. */
module ArrayArenas {
  import opened Wire
  import opened CachedBlocks
  import SA = SerialArenas

  /** Blocks of these sizes, at these addresses, do not overlap. */
  ghost predicate BlocksApart(sizes: seq<nat>, bases: seq<nat>) {
    && |bases| == |sizes|
    && forall i, j :: 0 <= i < |sizes| && 0 <= j < |sizes| && i != j ==>
         Apart(Region(bases[i], sizes[i]), Region(bases[j], sizes[j]))
  }

  function Flat(base: nat, r: SA.Range): Region {
    Region(base + r.from, r.size)
  }

  /** Whatever an arena has bump-allocated, in one block or in several, is pairwise apart. */
  lemma BumpsAreApart(blocks: seq<SA.Block>, logs: seq<SA.Log>, bases: seq<nat>, i: nat, k: nat, j: nat, l: nat)
    requires SA.BlocksInv(blocks, logs) && BlocksApart(SA.SizeList(blocks), bases)
    requires i < |blocks| && k < |logs[i].ranges| && j < |blocks| && l < |logs[j].ranges| && (i != j || k != l)
    ensures Apart(Flat(bases[i], logs[i].ranges[k]), Flat(bases[j], logs[j].ranges[l]))
  {
    SA.AllocationsAreApart(blocks, logs, i, k, j, l);
    SA.AllocationsAreApart(blocks, logs, j, l, i, k);
    if i != j {
      var sizes := SA.SizeList(blocks);
      assert Apart(Region(bases[i], sizes[i]), Region(bases[j], sizes[j]));
    }
  }

  predicate IsRange(b: Region, logs: seq<SA.Log>, bases: seq<nat>, i: int, k: int) {
    0 <= i < |logs| && i < |bases| && 0 <= k < |logs[i].ranges| && b == Flat(bases[i], logs[i].ranges[k])
  }

  /** A block and a position among its ranges. */
  datatype Place = Place(block: nat, index: nat)

  /** All bumps are ranges of the arena, where `places` says. */
  ghost predicate Located(places: map<Region, Place>, logs: seq<SA.Log>, bases: seq<nat>) {
    forall b :: b in places ==> IsRange(b, logs, bases, places[b].block, places[b].index)
  }

  function BasesAfter(bases: seq<nat>, room: bool, newBase: nat): seq<nat> {
    if room then bases else bases + [newBase]
  }

  /** The logs after an allocation, with a cleanup node or without. */
  function LogsAfter(logs: seq<SA.Log>, room: bool, n: nat, node: Option<SA.CleanupNode>): seq<SA.Log>
    requires logs != []
  {
    match node
    case None => SA.WithAllocation(logs, room, n)
    case Some(x) => SA.WithNode(SA.WithAllocation(logs, room, n), x)
  }

  /** The space the head block must have for it. */
  function Need(n: nat, node: Option<SA.CleanupNode>): nat {
    if node.Some? then n + SA.CLEANUP_SIZE else n
  }

  /** The range an allocation has just added, and its place. */
  function Newest(logs: seq<SA.Log>, bases: seq<nat>, room: bool, n: nat, newBase: nat): Region
    requires logs != [] && |bases| == |logs|
  {
    Flat(SA.Last(BasesAfter(bases, room, newBase)), SA.Range(SA.AllocationAt(logs, room), n))
  }

  function NewestPlace(logs: seq<SA.Log>, room: bool): Place
    requires logs != []
  {
    if room then Place(|logs| - 1, |SA.Last(logs).ranges|) else Place(|logs|, 0)
  }

  lemma NewestIsPlaced(logs: seq<SA.Log>, bases: seq<nat>, room: bool, n: nat,
                       node: Option<SA.CleanupNode>, newBase: nat)
    requires logs != [] && |bases| == |logs|
    ensures IsRange(Newest(logs, bases, room, n, newBase), LogsAfter(logs, room, n, node),
                    BasesAfter(bases, room, newBase), NewestPlace(logs, room).block, NewestPlace(logs, room).index)
  {
  }

  /** Earlier ranges keep their places, and the newest place is not theirs. */
  lemma RangesKeepPlaces(logs: seq<SA.Log>, bases: seq<nat>, room: bool, n: nat,
                         node: Option<SA.CleanupNode>, newBase: nat, b: Region, i: nat, k: nat)
    requires logs != [] && |bases| == |logs| && IsRange(b, logs, bases, i, k)
    ensures IsRange(b, LogsAfter(logs, room, n, node), BasesAfter(bases, room, newBase), i, k)
    ensures Place(i, k) != NewestPlace(logs, room)
  {
  }

  /** Two ranges at different places are apart. */
  lemma PlacesAreApart(blocks: seq<SA.Block>, logs: seq<SA.Log>, bases: seq<nat>, b: Region, i: nat, k: nat,
                       c: Region, j: nat, l: nat)
    requires SA.BlocksInv(blocks, logs) && BlocksApart(SA.SizeList(blocks), bases)
    requires IsRange(b, logs, bases, i, k) && IsRange(c, logs, bases, j, l) && (i != j || k != l)
    ensures Apart(b, c)
  {
    BumpsAreApart(blocks, logs, bases, i, k, j, l);
  }

  /** A bump is apart from all earlier ones. */
  lemma NewestIsApart(blocks: seq<SA.Block>, logs: seq<SA.Log>, bases: seq<nat>, room: bool, n: nat,
                      node: Option<SA.CleanupNode>, newBase: nat,
                      b: Region, place: Place)
    requires logs != [] && |bases| == |logs| && IsRange(b, logs, bases, place.block, place.index)
    requires SA.BlocksInv(blocks, LogsAfter(logs, room, n, node))
    requires BlocksApart(SA.SizeList(blocks), BasesAfter(bases, room, newBase))
    ensures Apart(b, Newest(logs, bases, room, n, newBase))
  {
    var newest := NewestPlace(logs, room);
    RangesKeepPlaces(logs, bases, room, n, node, newBase, b, place.block, place.index);
    NewestIsPlaced(logs, bases, room, n, node, newBase);
    PlacesAreApart(blocks, LogsAfter(logs, room, n, node), BasesAfter(bases, room, newBase),
                   b, place.block, place.index, Newest(logs, bases, room, n, newBase), newest.block, newest.index);
  }

  lemma NewestIsApartFromAll(blocks: seq<SA.Block>, logs: seq<SA.Log>, bases: seq<nat>, room: bool, n: nat,
                             node: Option<SA.CleanupNode>, newBase: nat,
                             places: map<Region, Place>)
    requires logs != [] && |bases| == |logs| && Located(places, logs, bases)
    requires SA.BlocksInv(blocks, LogsAfter(logs, room, n, node))
    requires BlocksApart(SA.SizeList(blocks), BasesAfter(bases, room, newBase))
    ensures forall b :: b in places ==> Apart(b, Newest(logs, bases, room, n, newBase))
  {
    forall b | b in places
      ensures Apart(b, Newest(logs, bases, room, n, newBase))
    {
      NewestIsApart(blocks, logs, bases, room, n, node, newBase, b, places[b]);
    }
  }

  lemma StayLocated(logs: seq<SA.Log>, bases: seq<nat>, room: bool, n: nat,
                    node: Option<SA.CleanupNode>, newBase: nat, places: map<Region, Place>)
    requires logs != [] && |bases| == |logs| && Located(places, logs, bases)
    ensures Located(places[Newest(logs, bases, room, n, newBase) := NewestPlace(logs, room)],
                    LogsAfter(logs, room, n, node), BasesAfter(bases, room, newBase))
  {
    NewestIsPlaced(logs, bases, room, n, node, newBase);
    forall b | b in places
      ensures IsRange(b, LogsAfter(logs, room, n, node), BasesAfter(bases, room, newBase),
                      places[b].block, places[b].index)
    {
      RangesKeepPlaces(logs, bases, room, n, node, newBase, b, places[b].block, places[b].index);
    }
  }

  /** Where `operator new` may put the next block. */
  ghost predicate FreeAddress(policy: SA.AllocationPolicy, sizes: seq<nat>, bases: seq<nat>, n: nat, newBase: nat)
    requires sizes != [] && |bases| == |sizes|
  {
    forall i :: 0 <= i < |sizes| ==>
      Apart(Region(bases[i], sizes[i]), Region(newBase, SA.BlockSize(policy, SA.Last(sizes), n)))
  }

  lemma GrownStayApart(policy: SA.AllocationPolicy, sizes: seq<nat>, bases: seq<nat>, n: nat, newBase: nat)
    requires sizes != [] && BlocksApart(sizes, bases) && FreeAddress(policy, sizes, bases, n, newBase)
    ensures BlocksApart(SA.Grown(policy, sizes, n), bases + [newBase])
  {
  }

  method Allocate(arena: SA.SerialArena, n: nat, node: Option<SA.CleanupNode>, policy: SA.AllocationPolicy)
    returns (at: nat)
    requires arena.Valid() && n % 8 == 0
    modifies arena
    ensures arena.Valid() && SA.Requested(arena.logs) == old(SA.Requested(arena.logs)) + n
    ensures var room := old(arena.HasSpace(Need(n, node)));
            && arena.logs == LogsAfter(old(arena.logs), room, n, node) && at == SA.AllocationAt(old(arena.logs), room)
            && SA.SizeList(arena.blocks) == if room then SA.SizeList(old(arena.blocks))
                                            else SA.Grown(policy, SA.SizeList(old(arena.blocks)), Need(n, node))
  {
    match node {
      case None => at := arena.AllocateAligned(n, policy);
      case Some(x) => at := arena.AllocateAlignedWithCleanup(n, x, policy);
    }
  }

  class ArrayArena {
    const arena: SA.SerialArena
    const memory: ArrayMemory
    var bases: seq<nat>                  // the addresses of the arena's blocks
    ghost var places: map<Region, Place> // where each bump lies

    ghost predicate Laid()
      reads this, arena
    {
      && arena.Valid() && BlocksApart(SA.SizeList(arena.blocks), bases) && Located(places, arena.logs, bases)
    }

    ghost predicate Valid()
      reads this, arena, memory
    {
      Laid() && Inv(memory.Abs()) && memory.bumps <= places.Keys
    }

    constructor (size: nat, base: nat)
      requires SA.BLOCK_HEADER_SIZE + SA.SERIAL_ARENA_SIZE <= size
      ensures Valid() && fresh(arena) && fresh(memory) && memory.Abs() == NO_MEMORY && SA.Requested(arena.logs) == 0
    {
      arena := new SA.SerialArena.New(size);
      memory := new ArrayMemory();
      bases := [base];
      places := map[];
    }

    /** The arena's part of a bump allocation. */
    method Extend(n: nat, node: Option<SA.CleanupNode>, policy: SA.AllocationPolicy, newBase: nat)
      returns (p: Region, ghost room: bool)
      requires arena.Valid() && n % 8 == 0 && BlocksApart(SA.SizeList(arena.blocks), bases)
      requires FreeAddress(policy, SA.SizeList(arena.blocks), bases, Need(n, node), newBase)
      modifies this`bases, arena
      ensures arena.Valid() && BlocksApart(SA.SizeList(arena.blocks), bases)
      ensures arena.logs == LogsAfter(old(arena.logs), room, n, node)
      ensures bases == BasesAfter(old(bases), room, newBase)
      ensures p == Newest(old(arena.logs), old(bases), room, n, newBase)
      ensures SA.Requested(arena.logs) == old(SA.Requested(arena.logs)) + n
    {
      GrownStayApart(policy, SA.SizeList(arena.blocks), bases, Need(n, node), newBase);
      var had := arena.HasSpace(Need(n, node));
      room := had;
      bases := BasesAfter(bases, had, newBase);
      var at := Allocate(arena, n, node, policy);
      p := Region(SA.Last(bases) + at, n);
    }

    /** A new range is apart from all earlier ones. */
    method ExtendApart(n: nat, node: Option<SA.CleanupNode>, policy: SA.AllocationPolicy, newBase: nat)
      returns (p: Region, ghost place: Place)
      requires Laid() && n % 8 == 0
      requires FreeAddress(policy, SA.SizeList(arena.blocks), bases, Need(n, node), newBase)
      modifies this`bases, arena
      ensures arena.Valid() && BlocksApart(SA.SizeList(arena.blocks), bases)
      ensures Located(places[p := place], arena.logs, bases)
      ensures p.size == n && SA.Requested(arena.logs) == old(SA.Requested(arena.logs)) + n
      ensures forall b :: b in places ==> Apart(b, p)
    {
      ghost var logs, bases0, room := arena.logs, bases, true;
      p, room := Extend(n, node, policy, newBase);
      StayLocated(logs, bases0, room, n, node, newBase, places);
      place := NewestPlace(logs, room);
      arena.SyncedSizes();
      NewestIsApartFromAll(arena.Synced(), logs, bases0, room, n, node, newBase, places);
    }

    method Bump(n: nat, node: Option<SA.CleanupNode>, policy: SA.AllocationPolicy, newBase: nat)
      returns (p: Region)
      requires Laid() && n % 8 == 0
      requires FreeAddress(policy, SA.SizeList(arena.blocks), bases, Need(n, node), newBase)
      modifies this`bases, this`places, arena
      ensures Laid() && p.size == n && places.Keys == old(places.Keys) + {p}
      ensures forall b :: b in old(places) ==> Apart(b, p)
      ensures SA.Requested(arena.logs) == old(SA.Requested(arena.logs)) + n
    {
      ghost var place;
      p, place := ExtendApart(n, node, policy, newBase);
      places := places[p := place];
    }

    /** New memory for a caller; a request for no bytes gives none. */
    method BumpAllocate(n: nat, node: Option<SA.CleanupNode>, policy: SA.AllocationPolicy, newBase: nat)
      returns (p: Region)
      requires Valid() && n % 8 == 0
      requires FreeAddress(policy, SA.SizeList(arena.blocks), bases, Need(n, node), newBase)
      modifies this`bases, this`places, arena, memory
      ensures Valid() && p.size == n
      ensures memory.Abs() == if n > 0 then AfterBump(old(memory.Abs()), p) else old(memory.Abs())
      ensures SA.Requested(arena.logs) == old(SA.Requested(arena.logs)) + n
    {
      p := Bump(n, node, policy, newBase);
      if n > 0 {
        memory.Enter(p);
      }
    }

    /** An array request takes a cached block if there is one; everything else is bump-allocated. */
    method AllocateAligned(n: nat, policy: SA.AllocationPolicy, isArray: bool, newBase: nat) returns (p: Region)
      requires Valid() && n % 8 == 0 && FreeAddress(policy, SA.SizeList(arena.blocks), bases, n, newBase)
      modifies this`bases, this`places, arena, memory
      ensures Valid() && p.size == n
      ensures isArray && Cached(old(memory.Abs()), n) ==>
                && p == Handed(old(memory.Abs()), n) && memory.Abs() == AfterServe(old(memory.Abs()), n)
                && arena.logs == old(arena.logs)
      ensures !(isArray && Cached(old(memory.Abs()), n)) ==>
                && memory.Abs() == (if n > 0 then AfterBump(old(memory.Abs()), p) else old(memory.Abs()))
                && SA.Requested(arena.logs) == old(SA.Requested(arena.logs)) + n
    {
      if isArray {
        var res := memory.TryAllocateFromCachedBlock(n);
        if res.Some? {
          return res.value;
        }
      }
      p := BumpAllocate(n, None, policy, newBase);
    }

    method AllocateAlignedWithCleanup(n: nat, node: SA.CleanupNode, policy: SA.AllocationPolicy, newBase: nat)
      returns (p: Region)
      requires Valid() && n % 8 == 0
      requires FreeAddress(policy, SA.SizeList(arena.blocks), bases, n + SA.CLEANUP_SIZE, newBase)
      modifies this`bases, this`places, arena, memory
      ensures Valid() && p.size == n
      ensures memory.Abs() == if n > 0 then AfterBump(old(memory.Abs()), p) else old(memory.Abs())
      ensures SA.Requested(arena.logs) == old(SA.Requested(arena.logs)) + n
    {
      p := BumpAllocate(n, Some(node), policy, newBase);
    }

    /** An array that grew gives its old memory back. */
    method ReturnArrayMemory(p: Region)
      requires Valid() && p in memory.live && 16 <= p.size < SIZE_LIMIT
      modifies memory
      ensures Valid() && memory.Abs() == AfterReturn(old(memory.Abs()), p)
    {
      memory.ReturnArrayMemory(p);
    }
  }
}
