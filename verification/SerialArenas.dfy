/** The bump allocator of google/protobuf/arena.cc and arena_impl.h: in each block the data grows up
    from the header while cleanup nodes grow down from the end.

    An address is a block and an offset into it. `cells` is the memory of the cleanup nodes, keyed by
    offset. What every allocation asked for is kept in ghost logs, one per block. */
module SerialArenas {
  import opened Bits
  import Wire

  const BLOCK_HEADER_SIZE := 24    // kBlockHeaderSize
  const SERIAL_ARENA_SIZE := 80    // kSerialArenaSize: the arena itself sits in its first block
  const CLEANUP_SIZE := 16         // kCleanupSize

  datatype CleanupNode = CleanupNode(elem: int, cleanup: int)

  datatype Block = Block(size: nat, start: nat, cells: map<nat, CleanupNode>)

  datatype AllocationPolicy = AllocationPolicy(startBlockSize: nat, maxBlockSize: nat)

  datatype Range = Range(from: nat, size: nat)

  /** What was allocated in one block: data in [base, end), in the order of the requests, and the
      cleanup nodes in the order of their registration. */
  datatype Log = Log(base: nat, end: nat, ranges: seq<Range>, nodes: seq<CleanupNode>)

  function Floor8(n: nat): (r: nat)
    ensures r % 8 == 0 && r <= n < r + 8
  {
    n - n % 8
  }

  /** The size AllocateMemory gives a block that must hold `minBytes` after its header. */
  function BlockSize(policy: AllocationPolicy, lastSize: nat, minBytes: nat): (r: nat)
    ensures r >= BLOCK_HEADER_SIZE + minBytes
  {
    var size := if lastSize != 0 then Min(2 * lastSize, policy.maxBlockSize) else policy.startBlockSize;
    Max(size, BLOCK_HEADER_SIZE + minBytes)
  }

  /** Blocks grow: a new block is at least twice the last one until the maximum is reached, and larger than
      the maximum, or than twice the last one, only if the request needs it, and then just large enough. */
  lemma BlocksDouble(policy: AllocationPolicy, lastSize: nat, minBytes: nat)
    requires lastSize > 0
    ensures var size := BlockSize(policy, lastSize, minBytes);
            && (size >= 2 * lastSize || size >= policy.maxBlockSize)
            && (size > policy.maxBlockSize || size > 2 * lastSize ==> size == BLOCK_HEADER_SIZE + minBytes)
  {
  }

  ghost predicate Grows(policy: AllocationPolicy, last: nat, next: nat) {
    exists n: nat :: next == BlockSize(policy, last, n)
  }

  lemma TwiceThePower(x: nat, k: nat)
    requires k > 0
    ensures x * Pow2(k) == 2 * (x * Pow2(k - 1))
  {
    assert Pow2(k) == 2 * Pow2(k - 1);
  }

  /** Few blocks suffice: the k-th block after one is 2^k times as large, or has reached the maximum. */
  lemma {:induction false} BlocksGrowGeometrically(policy: AllocationPolicy, sizes: seq<nat>, k: nat)
    requires k < |sizes| && sizes[0] > 0
    requires forall i, j :: 0 <= i && j == i + 1 && j < |sizes| ==> Grows(policy, sizes[i], sizes[j])
    ensures sizes[k] > 0 && (sizes[k] >= sizes[0] * Pow2(k) || sizes[k] >= policy.maxBlockSize)
    decreases k
  {
    if k == 0 {
      assert Pow2(0) == 1;
    } else {
      var i := k - 1;
      BlocksGrowGeometrically(policy, sizes, i);
      assert Grows(policy, sizes[i], sizes[k]);
      var n: nat :| sizes[k] == BlockSize(policy, sizes[i], n);
      BlocksDouble(policy, sizes[i], n);
      TwiceThePower(sizes[0], k);
    }
  }

  predicate Aligned(n: nat) { n % 8 == 0 }

  predicate AlignedPolicy(policy: AllocationPolicy) {
    Aligned(policy.startBlockSize) && Aligned(policy.maxBlockSize)
  }

  lemma AlignedSums(a: nat, b: nat)
    requires Aligned(a) && Aligned(b)
    ensures Aligned(a + b)
  {
    var x, y := a / 8, b / 8;
    assert a + b == 8 * (x + y);
    Times8(x + y);
  }

  lemma Times8(k: nat)
    ensures Aligned(8 * k)
  {
  }

  /** Multiples of 8 make multiples of 8. */
  lemma BlockSizeStaysAligned(policy: AllocationPolicy, lastSize: nat, minBytes: nat)
    requires AlignedPolicy(policy) && Aligned(lastSize) && Aligned(minBytes)
    ensures Aligned(BlockSize(policy, lastSize, minBytes))
  {
    AlignedSums(lastSize, lastSize);
    AlignedSums(BLOCK_HEADER_SIZE, minBytes);
  }

  // ----- what a block holds -----

  function Last<T>(s: seq<T>): T
    requires s != []
  {
    s[|s| - 1]
  }

  function Total(ranges: seq<Range>): nat {
    if ranges == [] then 0 else Total(ranges[..|ranges| - 1]) + ranges[|ranges| - 1].size
  }

  function Requested(logs: seq<Log>): nat {
    if logs == [] then 0 else Requested(logs[..|logs| - 1]) + Total(logs[|logs| - 1].ranges)
  }

  function Registered(logs: seq<Log>): seq<CleanupNode> {
    if logs == [] then [] else Registered(logs[..|logs| - 1]) + logs[|logs| - 1].nodes
  }

  function Sizes(blocks: seq<Block>): nat {
    if blocks == [] then 0 else Sizes(blocks[..|blocks| - 1]) + blocks[|blocks| - 1].size
  }

  /** Where the nodes of a block begin to grow down from. Only the first block rounds it. */
  function Top(size: nat, first: bool): nat { if first then Floor8(size) else size }

  function Base(first: bool): nat { if first then BLOCK_HEADER_SIZE + SERIAL_ARENA_SIZE else BLOCK_HEADER_SIZE }

  /** The offset of node `k` of `n` that grow down to `start`, CLEANUP_SIZE bytes each. */
  function NodeAt(start: nat, n: nat, k: nat): nat
    requires k < n
  {
    start + 16 * (n - 1 - k)
  }

  ghost predicate Stacked(cells: map<nat, CleanupNode>, start: nat, nodes: seq<CleanupNode>) {
    forall k :: 0 <= k < |nodes| ==>
      NodeAt(start, |nodes|, k) in cells && cells[NodeAt(start, |nodes|, k)] == nodes[k]
  }

  ghost predicate BlockInv(b: Block, log: Log, first: bool) {
    && log.base == Base(first) && log.base <= log.end <= b.start
    && b.start + CLEANUP_SIZE * |log.nodes| == Top(b.size, first)
    && (forall k :: 0 <= k < |log.ranges| ==>
          log.base <= log.ranges[k].from && log.ranges[k].from + log.ranges[k].size <= log.end)
    && (forall j, k :: 0 <= j < k < |log.ranges| ==>
          log.ranges[j].from + log.ranges[j].size <= log.ranges[k].from)
    && Total(log.ranges) == log.end - log.base
    && Stacked(b.cells, b.start, log.nodes)
  }

  lemma Bump(b: Block, log: Log, first: bool, n: nat)
    requires BlockInv(b, log, first) && log.end + n <= b.start
    ensures BlockInv(b, log.(end := log.end + n, ranges := log.ranges + [Range(log.end, n)]), first)
  {
    assert (log.ranges + [Range(log.end, n)])[..|log.ranges|] == log.ranges;
  }

  lemma Push(b: Block, log: Log, first: bool, node: CleanupNode)
    requires BlockInv(b, log, first) && log.end + CLEANUP_SIZE <= b.start
    ensures var at := b.start - CLEANUP_SIZE;
            BlockInv(b.(start := at, cells := b.cells[at := node]), log.(nodes := log.nodes + [node]), first)
  {
    var n, b' := |log.nodes|, b.(start := b.start - CLEANUP_SIZE, cells := b.cells[b.start - CLEANUP_SIZE := node]);
    var log' := log.(nodes := log.nodes + [node]);
    forall k | 0 <= k < |log'.nodes|
      ensures NodeAt(b'.start, |log'.nodes|, k) in b'.cells
      ensures b'.cells[NodeAt(b'.start, |log'.nodes|, k)] == log'.nodes[k]
    {
      if k < n {
        assert NodeAt(b'.start, |log'.nodes|, k) == NodeAt(b.start, n, k);
        assert b.cells[NodeAt(b.start, n, k)] == log.nodes[k];
      }
    }
    assert Stacked(b'.cells, b'.start, log'.nodes);
  }

  // ----- running the cleanups -----

  /** The nodes from `it` up to `limit`. */
  function Walk(cells: map<nat, CleanupNode>, it: nat, limit: nat): seq<CleanupNode>
    decreases limit - it
  {
    if it < limit && it in cells then [cells[it]] + Walk(cells, it + CLEANUP_SIZE, limit) else []
  }

  /** The cleanups CleanupList runs in one block; `num` counts whole nodes. */
  function BlockCleanups(b: Block): seq<CleanupNode> {
    var num := (Floor8(b.size) - b.start) / CLEANUP_SIZE;
    if num > 0 then Walk(b.cells, b.start, Floor8(b.size)) else []
  }

  /** Newest block first. */
  function Cleanups(blocks: seq<Block>): seq<CleanupNode> {
    if blocks == [] then [] else BlockCleanups(blocks[|blocks| - 1]) + Cleanups(blocks[..|blocks| - 1])
  }

  lemma CleanupsSnoc(blocks: seq<Block>, i: nat)
    requires i < |blocks|
    ensures Cleanups(blocks[..i + 1]) == BlockCleanups(blocks[i]) + Cleanups(blocks[..i])
  {
    assert blocks[..i + 1][..i] == blocks[..i];
  }

  function Reverse(s: seq<CleanupNode>): seq<CleanupNode> {
    if s == [] then [] else [s[|s| - 1]] + Reverse(s[..|s| - 1])
  }

  lemma {:induction false} ReverseAppend(s: seq<CleanupNode>, t: seq<CleanupNode>)
    ensures Reverse(s + t) == Reverse(t) + Reverse(s) && |Reverse(s)| == |s|
    decreases |t|, |s|
  {
    if t == [] {
      assert s + t == s;
      if s != [] { ReverseAppend(s[..|s| - 1], []); }
    } else {
      assert (s + t)[..|s + t| - 1] == s + t[..|t| - 1];
      ReverseAppend(s, t[..|t| - 1]);
    }
  }

  /** A block's single node is missed when the block's size is no multiple of 8 and it is not the
      first block. */
  predicate Missed(b: Block, log: Log, first: bool) {
    !first && b.size % 8 != 0 && |log.nodes| == 1
  }

  /** Behind the newest node lie the others. */
  lemma OlderStayStacked(cells: map<nat, CleanupNode>, it: nat, start: nat, older: seq<CleanupNode>,
                         newest: CleanupNode)
    requires Stacked(cells, it, older + [newest]) && start == it + CLEANUP_SIZE
    ensures Stacked(cells, start, older)
  {
    var nodes := older + [newest];
    forall k | 0 <= k < |older|
      ensures NodeAt(start, |older|, k) in cells && cells[NodeAt(start, |older|, k)] == older[k]
    {
      SamePlace(it, |older|, k);
      assert nodes[k] == older[k] && cells[NodeAt(it, |nodes|, k)] == nodes[k];
    }
  }

  lemma SamePlace(it: nat, n: nat, k: nat)
    requires k < n
    ensures NodeAt(it + CLEANUP_SIZE, n, k) == NodeAt(it, n + 1, k)
  {
  }

  lemma {:induction false} WalkIsReverse(cells: map<nat, CleanupNode>, it: nat, limit: nat, nodes: seq<CleanupNode>)
    requires |nodes| > 0 ==> it + CLEANUP_SIZE * (|nodes| - 1) < limit
    requires limit <= it + CLEANUP_SIZE * |nodes| && Stacked(cells, it, nodes)
    ensures Walk(cells, it, limit) == Reverse(nodes)
    decreases |nodes|
  {
    if nodes == [] {
    } else {
      var n := |nodes| - 1;
      assert NodeAt(it, |nodes|, n) == it;
      assert nodes == nodes[..n] + [nodes[n]];
      OlderStayStacked(cells, it, it + CLEANUP_SIZE, nodes[..n], nodes[n]);
      WalkIsReverse(cells, it + CLEANUP_SIZE, limit, nodes[..n]);
    }
  }

  /** One block's cleanups run in exact reverse order of registration, or not at all. */
  lemma BlockCleanupsExact(b: Block, log: Log, first: bool)
    requires BlockInv(b, log, first)
    ensures BlockCleanups(b) == if Missed(b, log, first) then [] else Reverse(log.nodes)
  {
    var limit := Floor8(b.size);
    if log.nodes != [] && !Missed(b, log, first) {
      WalkIsReverse(b.cells, b.start, limit, log.nodes);
    }
  }

  ghost predicate BlocksInv(blocks: seq<Block>, logs: seq<Log>) {
    |blocks| == |logs| && forall i :: 0 <= i < |blocks| ==> BlockInv(blocks[i], logs[i], i == 0)
  }

  predicate NoneMissed(blocks: seq<Block>, logs: seq<Log>)
    requires |blocks| == |logs|
  {
    forall i :: 0 <= i < |blocks| ==> !Missed(blocks[i], logs[i], i == 0)
  }

  lemma {:induction false} NoneMissedRunsAll(blocks: seq<Block>, logs: seq<Log>)
    requires BlocksInv(blocks, logs) && NoneMissed(blocks, logs)
    ensures Cleanups(blocks) == Reverse(Registered(logs))
    decreases |blocks|
  {
    if blocks == [] {
    } else {
      var n := |blocks| - 1;
      NoneMissedSplits(blocks, logs);
      NoneMissedRunsAll(blocks[..n], logs[..n]);
      BlockCleanupsExact(blocks[n], logs[n], n == 0);
      ReverseAppend(Registered(logs[..n]), logs[n].nodes);
    }
  }

  lemma NoneMissedSplits(blocks: seq<Block>, logs: seq<Log>)
    requires |blocks| == |logs| > 0
    ensures var n := |blocks| - 1;
            NoneMissed(blocks, logs) <==> NoneMissed(blocks[..n], logs[..n]) && !Missed(blocks[n], logs[n], n == 0)
  {
    var n := |blocks| - 1;
    forall i | 0 <= i < n
      ensures Missed(blocks[..n][i], logs[..n][i], i == 0) == Missed(blocks[i], logs[i], i == 0)
    {
    }
  }

  lemma {:induction false} MissedRunsFewer(blocks: seq<Block>, logs: seq<Log>)
    requires BlocksInv(blocks, logs)
    ensures |Cleanups(blocks)| <= |Registered(logs)|
    ensures !NoneMissed(blocks, logs) ==> |Cleanups(blocks)| < |Registered(logs)|
    decreases |blocks|
  {
    if blocks == [] {
    } else {
      var n := |blocks| - 1;
      MissedRunsFewer(blocks[..n], logs[..n]);
      BlockCleanupsExact(blocks[n], logs[n], n == 0);
      ReverseAppend(logs[n].nodes, []);
      NoneMissedSplits(blocks, logs);
    }
  }

  /** CleanupList runs every registered cleanup once, in exact reverse order across all blocks, if and
      only if no later block of a size that is no multiple of 8 holds exactly one node. */
  lemma CleanupsRunInReverse(blocks: seq<Block>, logs: seq<Log>)
    requires BlocksInv(blocks, logs)
    ensures Cleanups(blocks) == Reverse(Registered(logs)) <==> NoneMissed(blocks, logs)
  {
    ReverseAppend(Registered(logs), []);
    MissedRunsFewer(blocks, logs);
    if NoneMissed(blocks, logs) {
      NoneMissedRunsAll(blocks, logs);
    }
  }

  function SizeList(blocks: seq<Block>): (sizes: seq<nat>)
    ensures |sizes| == |blocks| && forall i :: 0 <= i < |blocks| ==> sizes[i] == blocks[i].size
  {
    if blocks == [] then [] else SizeList(blocks[..|blocks| - 1]) + [blocks[|blocks| - 1].size]
  }

  lemma SizeListUpdate(blocks: seq<Block>, b: Block)
    requires blocks != [] && b.size == Last(blocks).size
    ensures SizeList(blocks[|blocks| - 1 := b]) == SizeList(blocks)
  {
    assert blocks[|blocks| - 1 := b][..|blocks| - 1] == blocks[..|blocks| - 1];
  }

  /** The sizes once a block for `n` more bytes has been added. */
  function Grown(policy: AllocationPolicy, sizes: seq<nat>, n: nat): seq<nat>
    requires sizes != []
  {
    sizes + [BlockSize(policy, Last(sizes), n)]
  }

  predicate AlignedSizes(sizes: seq<nat>) {
    forall i :: 0 <= i < |sizes| ==> Aligned(sizes[i])
  }

  /** Block sizes in multiples of 8 stay so as long as the policy and the requests are. */
  lemma GrownStayAligned(policy: AllocationPolicy, sizes: seq<nat>, n: nat)
    requires sizes != [] && AlignedSizes(sizes) && AlignedPolicy(policy) && Aligned(n)
    ensures AlignedSizes(Grown(policy, sizes, n))
  {
    BlockSizeStaysAligned(policy, Last(sizes), n);
  }

  /** Where all block sizes are multiples of 8, no cleanup is missed. */
  lemma AlignedBlocksMissNothing(blocks: seq<Block>, logs: seq<Log>)
    requires BlocksInv(blocks, logs) && AlignedSizes(SizeList(blocks))
    ensures Cleanups(blocks) == Reverse(Registered(logs))
  {
    CleanupsRunInReverse(blocks, logs);
  }

  // ----- allocation, as seen by the logs -----

  function WithBlock(logs: seq<Log>): seq<Log> {
    logs + [Log(BLOCK_HEADER_SIZE, BLOCK_HEADER_SIZE, [], [])]
  }

  function WithRange(logs: seq<Log>, n: nat): seq<Log>
    requires logs != []
  {
    var log := Last(logs);
    logs[|logs| - 1 := log.(end := log.end + n, ranges := log.ranges + [Range(log.end, n)])]
  }

  function WithNode(logs: seq<Log>, node: CleanupNode): seq<Log>
    requires logs != []
  {
    logs[|logs| - 1 := Last(logs).(nodes := Last(logs).nodes + [node])]
  }

  lemma WithBlockCounts(logs: seq<Log>)
    ensures Requested(WithBlock(logs)) == Requested(logs) && Registered(WithBlock(logs)) == Registered(logs)
  {
    assert WithBlock(logs)[..|logs|] == logs;
  }

  lemma WithRangeCounts(logs: seq<Log>, n: nat)
    requires logs != []
    ensures Requested(WithRange(logs, n)) == Requested(logs) + n && Registered(WithRange(logs, n)) == Registered(logs)
  {
    var k, ranges := |logs| - 1, Last(logs).ranges;
    assert WithRange(logs, n)[..k] == logs[..k];
    assert (ranges + [Range(Last(logs).end, n)])[..|ranges|] == ranges;
  }

  lemma WithNodeCounts(logs: seq<Log>, node: CleanupNode)
    requires logs != []
    ensures Requested(WithNode(logs, node)) == Requested(logs)
    ensures Registered(WithNode(logs, node)) == Registered(logs) + [node]
  {
    assert WithNode(logs, node)[..|logs| - 1] == logs[..|logs| - 1];
    assert Registered(logs[..|logs| - 1]) + (Last(logs).nodes + [node]) == Registered(logs) + [node];
  }

  lemma NewBlockKeepsInv(blocks: seq<Block>, logs: seq<Log>, size: nat)
    requires BlocksInv(blocks, logs) && blocks != [] && BLOCK_HEADER_SIZE <= size
    ensures BlocksInv(blocks + [Block(size, size, map[])], WithBlock(logs))
  {
  }

  /** An allocation: in the head block if it has room, else in a new one. */
  function WithAllocation(logs: seq<Log>, room: bool, n: nat): seq<Log>
    requires logs != []
  {
    WithRange(if room then logs else WithBlock(logs), n)
  }

  /** Where it begins. */
  function AllocationAt(logs: seq<Log>, room: bool): nat
    requires logs != []
  {
    if room then Last(logs).end else BLOCK_HEADER_SIZE
  }

  lemma WithAllocationCounts(logs: seq<Log>, room: bool, n: nat)
    requires logs != []
    ensures var logs' := WithAllocation(logs, room, n);
            Requested(logs') == Requested(logs) + n && Registered(logs') == Registered(logs)
  {
    WithBlockCounts(logs);
    WithRangeCounts(if room then logs else WithBlock(logs), n);
  }

  lemma WithCleanupCounts(logs: seq<Log>, room: bool, n: nat, node: CleanupNode)
    requires logs != []
    ensures var logs' := WithNode(WithAllocation(logs, room, n), node);
            Requested(logs') == Requested(logs) + n && Registered(logs') == Registered(logs) + [node]
  {
    WithAllocationCounts(logs, room, n);
    WithNodeCounts(WithAllocation(logs, room, n), node);
  }

  /** A bump in the head block keeps all blocks. */
  lemma BumpKeepsBlocks(blocks: seq<Block>, logs: seq<Log>, n: nat)
    requires BlocksInv(blocks, logs) && blocks != [] && Last(logs).end + n <= Last(blocks).start
    ensures BlocksInv(blocks, WithRange(logs, n))
  {
    Bump(Last(blocks), Last(logs), |blocks| == 1, n);
  }

  lemma PushKeepsBlocks(blocks: seq<Block>, logs: seq<Log>, node: CleanupNode)
    requires BlocksInv(blocks, logs) && blocks != [] && Last(logs).end + CLEANUP_SIZE <= Last(blocks).start
    ensures var b, at := Last(blocks), Last(blocks).start - CLEANUP_SIZE;
            BlocksInv(blocks[|blocks| - 1 := b.(start := at, cells := b.cells[at := node])], WithNode(logs, node))
  {
    Push(Last(blocks), Last(logs), |blocks| == 1, node);
  }

  /** Two allocations of one arena never overlap, nor does one reach into a cleanup node or out of its
      block. */
  lemma AllocationsAreApart(blocks: seq<Block>, logs: seq<Log>, i: nat, k: nat, j: nat, l: nat)
    requires BlocksInv(blocks, logs) && i < |blocks| && k < |logs[i].ranges| && j < |blocks| && l < |logs[j].ranges|
    ensures var r := logs[i].ranges[k];
            BLOCK_HEADER_SIZE <= r.from && r.from + r.size <= blocks[i].start
            && blocks[i].start + CLEANUP_SIZE * |logs[i].nodes| <= blocks[i].size
    ensures i == j && k != l ==>
              var r, q := logs[i].ranges[k], logs[j].ranges[l];
              r.from + r.size <= q.from || q.from + q.size <= r.from
  {
    assert BlockInv(blocks[i], logs[i], i == 0);
  }

  lemma SizesUpdate(blocks: seq<Block>, b: Block)
    requires blocks != [] && b.size == Last(blocks).size
    ensures Sizes(blocks[|blocks| - 1 := b]) == Sizes(blocks)
  {
    assert blocks[|blocks| - 1 := b][..|blocks| - 1] == blocks[..|blocks| - 1];
  }

  /** space_used_ counts the sealed blocks, and the arena itself once the first block is one of them. */
  predicate Accounted(blocks: seq<Block>, logs: seq<Log>, used: int, got: int)
    requires logs != []
  {
    && used == Requested(logs[..|logs| - 1]) + (if |blocks| > 1 then SERIAL_ARENA_SIZE else 0)
    && got == Sizes(blocks)
  }

  lemma NewBlockIsAccounted(blocks: seq<Block>, logs: seq<Log>, used: int, got: int, size: nat)
    requires BlocksInv(blocks, logs) && blocks != [] && Accounted(blocks, logs, used, got)
    ensures Accounted(blocks + [Block(size, 0, map[])], WithBlock(logs),
                      used + (Last(logs).end - BLOCK_HEADER_SIZE), got + size)
  {
    var added := blocks + [Block(size, 0, map[])];
    assert BlockInv(Last(blocks), Last(logs), |blocks| == 1);
    assert added[..|blocks|] == blocks;
    assert WithBlock(logs)[..|logs|] == logs;
  }

  // ----- the arena -----

  class SerialArena {
    var blocks: seq<Block>   // oldest first: the last one is head_
    var ptr: nat             // ptr_ and limit_, as offsets in the head block
    var limit: nat
    var spaceUsed: nat
    var spaceAllocated: nat
    ghost var logs: seq<Log>

    /** The blocks with head_->start brought up to date. */
    ghost function Synced(): seq<Block>
      requires blocks != []
      reads this
    {
      blocks[|blocks| - 1 := Last(blocks).(start := limit)]
    }

    ghost predicate Valid()
      reads this
    {
      && blocks != [] && BlocksInv(Synced(), logs) && Last(logs).end == ptr
      && Accounted(blocks, logs, spaceUsed, spaceAllocated)
    }

    lemma SyncedSizes()
      requires Valid()
      ensures SizeList(Synced()) == SizeList(blocks)
    {
      SizeListUpdate(blocks, Last(Synced()));
    }

    constructor New(size: nat)
      requires BLOCK_HEADER_SIZE + SERIAL_ARENA_SIZE <= size
      ensures Valid() && logs == [Log(Base(true), Base(true), [], [])] && SizeList(blocks) == [size]
      ensures limit == Floor8(size) && spaceAllocated == size
      ensures Requested(logs) == 0 && Registered(logs) == []
    {
      blocks := [Block(size, 0, map[])];
      ptr, limit := BLOCK_HEADER_SIZE + SERIAL_ARENA_SIZE, Floor8(size);
      spaceUsed, spaceAllocated := 0, size;
      logs := [Log(Base(true), Base(true), [], [])];
    }

    predicate HasSpace(n: nat)
      reads this
    {
      n <= limit - ptr
    }

    method Sync()
      requires Valid()
      modifies this`blocks
      ensures Valid() && blocks == old(Synced()) == Synced()
    {
      blocks := blocks[|blocks| - 1 := Last(blocks).(start := limit)];
      SizesUpdate(old(blocks), Last(blocks));
      assert blocks == Synced();
    }

    /** The synced head becomes an older block; `size` bytes follow it. */
    method StartBlock(size: nat)
      requires Valid() && blocks == Synced() && BLOCK_HEADER_SIZE <= size
      modifies this
      ensures Valid() && logs == WithBlock(old(logs)) && blocks == old(blocks) + [Block(size, 0, map[])]
      ensures ptr == BLOCK_HEADER_SIZE && limit == size
    {
      NewBlockKeepsInv(blocks, logs, size);
      NewBlockIsAccounted(blocks, logs, spaceUsed, spaceAllocated, size);
      spaceUsed := spaceUsed + (ptr - BLOCK_HEADER_SIZE);
      spaceAllocated := spaceAllocated + size;
      blocks := blocks + [Block(size, 0, map[])];
      ptr, limit := BLOCK_HEADER_SIZE, size;
      logs := WithBlock(logs);
      assert Synced() == old(blocks) + [Block(size, size, map[])];
    }

    method AllocateNewBlock(n: nat, policy: AllocationPolicy)
      requires Valid()
      modifies this
      ensures Valid() && logs == WithBlock(old(logs)) && HasSpace(n)
      ensures blocks == old(Synced()) + [Last(blocks)]
      ensures Last(blocks).size == BlockSize(policy, Last(old(blocks)).size, n)
    {
      var size := BlockSize(policy, Last(blocks).size, n);
      Sync();
      StartBlock(size);
    }

    method MakeSpace(n: nat, policy: AllocationPolicy)
      requires Valid() && n % 8 == 0
      modifies this
      ensures Valid() && HasSpace(n)
      ensures old(HasSpace(n)) ==> logs == old(logs) && blocks == old(blocks) && limit == old(limit)
      ensures !old(HasSpace(n)) ==>
                logs == WithBlock(old(logs)) && SizeList(blocks) == Grown(policy, SizeList(old(blocks)), n)
    {
      if !HasSpace(n) {
        AllocateNewBlock(n, policy);
      }
    }

    method AllocateFromExisting(n: nat) returns (at: nat)
      requires Valid() && HasSpace(n)
      modifies this`ptr, this`logs
      ensures Valid() && at == old(ptr) && logs == WithRange(old(logs), n) && ptr == at + n
    {
      BumpKeepsBlocks(Synced(), logs, n);
      at := ptr;
      ptr := ptr + n;
      logs := WithRange(logs, n);
      assert logs[..|logs| - 1] == old(logs)[..|logs| - 1];
    }

    /** A range in the head block, which is a new one if the old one lacked the room. */
    method AllocateAligned(n: nat, policy: AllocationPolicy) returns (at: nat)
      requires Valid() && n % 8 == 0
      modifies this
      ensures Valid()
      ensures logs == WithAllocation(old(logs), old(HasSpace(n)), n) && at == AllocationAt(old(logs), old(HasSpace(n)))
      ensures Requested(logs) == old(Requested(logs)) + n && Registered(logs) == old(Registered(logs))
      ensures if old(HasSpace(n)) then blocks == old(blocks) && limit == old(limit)
              else SizeList(blocks) == Grown(policy, SizeList(old(blocks)), n)
    {
      WithAllocationCounts(logs, HasSpace(n), n);
      MakeSpace(n, policy);
      at := AllocateFromExisting(n);
    }

    /** Takes the next node below the limit. */
    method TakeNode(node: CleanupNode)
      requires Valid() && HasSpace(CLEANUP_SIZE)
      modifies this`limit, this`blocks, this`logs
      ensures Valid() && logs == WithNode(old(logs), node) && SizeList(blocks) == old(SizeList(blocks))
    {
      ghost var synced := Synced();
      var last := |blocks| - 1;
      PushKeepsBlocks(synced, logs, node);
      limit := limit - CLEANUP_SIZE;
      var head := Last(blocks).(cells := Last(blocks).cells[limit := node]);
      SizesUpdate(blocks, head);
      blocks := blocks[last := head];
      logs := WithNode(logs, node);
      assert Synced() == synced[last := head.(start := limit)];
      assert logs[..last] == old(logs)[..last];
    }

    method AllocateFromExistingWithCleanup(n: nat, node: CleanupNode) returns (at: nat)
      requires Valid() && HasSpace(n + CLEANUP_SIZE)
      modifies this
      ensures Valid() && at == old(ptr) && logs == WithNode(WithRange(old(logs), n), node)
      ensures SizeList(blocks) == old(SizeList(blocks))
    {
      at := AllocateFromExisting(n);
      TakeNode(node);
    }

    method TakeWithCleanup(n: nat, node: CleanupNode, policy: AllocationPolicy) returns (at: nat)
      requires Valid() && n % 8 == 0
      modifies this
      ensures Valid()
      ensures var room := old(HasSpace(n + CLEANUP_SIZE));
              logs == WithNode(WithAllocation(old(logs), room, n), node) && at == AllocationAt(old(logs), room)
      ensures SizeList(blocks) == if old(HasSpace(n + CLEANUP_SIZE)) then SizeList(old(blocks))
                                  else Grown(policy, SizeList(old(blocks)), n + CLEANUP_SIZE)
    {
      MakeSpace(n + CLEANUP_SIZE, policy);
      at := AllocateFromExistingWithCleanup(n, node);
    }

    /** A range together with a cleanup node, which the caller fills in at once. */
    method AllocateAlignedWithCleanup(n: nat, node: CleanupNode, policy: AllocationPolicy) returns (at: nat)
      requires Valid() && n % 8 == 0
      modifies this
      ensures Valid()
      ensures var room := old(HasSpace(n + CLEANUP_SIZE));
              logs == WithNode(WithAllocation(old(logs), room, n), node) && at == AllocationAt(old(logs), room)
      ensures Requested(logs) == old(Requested(logs)) + n && Registered(logs) == old(Registered(logs)) + [node]
      ensures SizeList(blocks) == if old(HasSpace(n + CLEANUP_SIZE)) then SizeList(old(blocks))
                                  else Grown(policy, SizeList(old(blocks)), n + CLEANUP_SIZE)
    {
      WithCleanupCounts(logs, HasSpace(n + CLEANUP_SIZE), n, node);
      at := TakeWithCleanup(n, node, policy);
    }

    method AddCleanup(node: CleanupNode, policy: AllocationPolicy)
      requires Valid()
      modifies this
      ensures Valid() && Requested(logs) == old(Requested(logs)) && Registered(logs) == old(Registered(logs)) + [node]
      ensures logs == WithNode(WithAllocation(old(logs), old(HasSpace(CLEANUP_SIZE)), 0), node)
      ensures SizeList(blocks) == if old(HasSpace(CLEANUP_SIZE)) then SizeList(old(blocks))
                                  else Grown(policy, SizeList(old(blocks)), CLEANUP_SIZE)
    {
      var _ := AllocateAlignedWithCleanup(0, node, policy);
    }

    /** Exactly the sum of the requests served from blocks; neither headers nor cleanup nodes nor waste count. */
    method SpaceUsed() returns (r: int)
      requires Valid()
      ensures r == Requested(logs)
    {
      r := ptr - BLOCK_HEADER_SIZE;
      r := r + spaceUsed;
      r := r - SERIAL_ARENA_SIZE;
    }

    /** Runs the cleanups block by block, the newest block first. */
    method CleanupList() returns (run: seq<CleanupNode>)
      requires Valid()
      modifies this`blocks
      ensures Valid() && blocks == old(Synced()) && run == Cleanups(blocks)
      ensures run == Reverse(Registered(logs)) <==> NoneMissed(blocks, logs)
    {
      CleanupsRunInReverse(Synced(), logs);
      Sync();
      run := RunBlocks(blocks, logs);
    }
  }

  method RunBlocks(blocks: seq<Block>, ghost logs: seq<Log>) returns (run: seq<CleanupNode>)
    requires BlocksInv(blocks, logs)
    ensures run == Cleanups(blocks)
  {
    run := [];
    var i := |blocks|;
    assert blocks[..i] == blocks;
    while i > 0
      invariant 0 <= i <= |blocks|
      invariant run + Cleanups(blocks[..i]) == Cleanups(blocks)
    {
      i := i - 1;
      CleanupsSnoc(blocks, i);
      var ran := RunBlock(blocks[i], logs[i], i == 0);
      Wire.Associative(run, ran, Cleanups(blocks[..i]));
      run := run + ran;
    }
  }

  /** `it` steps through the memory of one block's nodes. */
  method RunBlock(b: Block, ghost log: Log, ghost first: bool) returns (run: seq<CleanupNode>)
    requires BlockInv(b, log, first)
    ensures run == BlockCleanups(b)
  {
    var limit, it := Floor8(b.size), b.start;
    run := [];
    if (limit - it) / CLEANUP_SIZE > 0 {
      ghost var j := 0;
      while it < limit
        invariant it == b.start + CLEANUP_SIZE * j
        invariant run + Walk(b.cells, it, limit) == Walk(b.cells, b.start, limit)
      {
        assert it == NodeAt(b.start, |log.nodes|, |log.nodes| - 1 - j);
        j := j + 1;
        run := run + [b.cells[it]];
        it := it + CLEANUP_SIZE;
      }
    }
  }

  // ----- whole lives of aligned arenas -----

  /** What is asked of an arena: bytes, an object with its cleanup, or a cleanup alone. */
  datatype Request = Bytes(n: nat) | Object(n: nat, node: CleanupNode) | Cleanup(node: CleanupNode)

  predicate AlignedRequest(r: Request) { r.Cleanup? || Aligned(r.n) }

  function BytesAsked(r: Request): nat { if r.Cleanup? then 0 else r.n }

  function NodesAsked(r: Request): seq<CleanupNode> { if r.Bytes? then [] else [r.node] }

  /** All bytes asked for, and all cleanups handed over, by the first `i` requests. */
  function BytesOf(requests: seq<Request>, i: nat): nat
    requires i <= |requests|
  {
    if i == 0 then 0 else BytesOf(requests, i - 1) + BytesAsked(requests[i - 1])
  }

  function NodesOf(requests: seq<Request>, i: nat): seq<CleanupNode>
    requires i <= |requests|
  {
    if i == 0 then [] else NodesOf(requests, i - 1) + NodesAsked(requests[i - 1])
  }

  /** What a request makes of the logs, depending on whether the head block had room for it. */
  function LogsFor(logs: seq<Log>, r: Request, room: bool): (logs': seq<Log>)
    requires logs != []
    ensures logs' != []
  {
    match r
    case Bytes(n) => WithAllocation(logs, room, n)
    case Object(n, node) => WithNode(WithAllocation(logs, room, n), node)
    case Cleanup(node) => WithNode(WithAllocation(logs, room, 0), node)
  }

  lemma LogsForCounts(logs: seq<Log>, r: Request, room: bool)
    requires logs != []
    ensures Requested(LogsFor(logs, r, room)) == Requested(logs) + BytesAsked(r)
    ensures Registered(LogsFor(logs, r, room)) == Registered(logs) + NodesAsked(r)
  {
    match r
    case Bytes(n) => WithAllocationCounts(logs, room, n);
    case Object(n, node) => WithCleanupCounts(logs, room, n, node);
    case Cleanup(node) => WithCleanupCounts(logs, room, 0, node);
  }

  /** The logs after the first `|rooms|` requests. */
  function LogsOf(start: seq<Log>, requests: seq<Request>, rooms: seq<bool>): (logs: seq<Log>)
    requires start != [] && |rooms| <= |requests|
    ensures logs != []
  {
    if rooms == [] then start
    else
      var n := |rooms| - 1;
      LogsFor(LogsOf(start, requests, rooms[..n]), requests[n], rooms[n])
  }

  lemma {:induction false} LogsOfCount(start: seq<Log>, requests: seq<Request>, rooms: seq<bool>)
    requires start != [] && Requested(start) == 0 && Registered(start) == [] && |rooms| <= |requests|
    ensures Requested(LogsOf(start, requests, rooms)) == BytesOf(requests, |rooms|)
    ensures Registered(LogsOf(start, requests, rooms)) == NodesOf(requests, |rooms|)
    decreases |rooms|
  {
    if rooms != [] {
      var n := |rooms| - 1;
      LogsOfCount(start, requests, rooms[..n]);
      LogsForCounts(LogsOf(start, requests, rooms[..n]), requests[n], rooms[n]);
    }
  }

  lemma OneMoreRequest(start: seq<Log>, requests: seq<Request>, rooms: seq<bool>, room: bool)
    requires start != [] && |rooms| < |requests|
    ensures LogsOf(start, requests, rooms + [room])
         == LogsFor(LogsOf(start, requests, rooms), requests[|rooms|], room)
  {
    assert (rooms + [room])[..|rooms|] == rooms;
  }

  method Serve(arena: SerialArena, r: Request, policy: AllocationPolicy) returns (ghost room: bool)
    requires arena.Valid() && AlignedSizes(SizeList(arena.blocks)) && AlignedPolicy(policy) && AlignedRequest(r)
    modifies arena
    ensures arena.Valid() && AlignedSizes(SizeList(arena.blocks))
    ensures arena.logs == LogsFor(old(arena.logs), r, room)
  {
    ghost var sizes := SizeList(arena.blocks);
    match r {
      case Bytes(n) =>
        GrownStayAligned(policy, sizes, n);
        room := arena.HasSpace(n);
        var _ := arena.AllocateAligned(n, policy);
      case Object(n, node) =>
        AlignedSums(n, CLEANUP_SIZE);
        GrownStayAligned(policy, sizes, n + CLEANUP_SIZE);
        room := arena.HasSpace(n + CLEANUP_SIZE);
        var _ := arena.AllocateAlignedWithCleanup(n, node, policy);
      case Cleanup(node) =>
        GrownStayAligned(policy, sizes, CLEANUP_SIZE);
        room := arena.HasSpace(CLEANUP_SIZE);
        arena.AddCleanup(node, policy);
    }
  }

  method ServeAll(arena: SerialArena, requests: seq<Request>, policy: AllocationPolicy) returns (ghost rooms: seq<bool>)
    requires arena.Valid() && AlignedSizes(SizeList(arena.blocks)) && AlignedPolicy(policy)
    requires forall i :: 0 <= i < |requests| ==> AlignedRequest(requests[i])
    modifies arena
    ensures arena.Valid() && AlignedSizes(SizeList(arena.blocks))
    ensures |rooms| == |requests| && arena.logs == LogsOf(old(arena.logs), requests, rooms)
  {
    rooms := [];
    for i := 0 to |requests|
      invariant arena.Valid() && AlignedSizes(SizeList(arena.blocks))
      invariant |rooms| == i && arena.logs == LogsOf(old(arena.logs), requests, rooms)
    {
      ghost var room := Serve(arena, requests[i], policy);
      OneMoreRequest(old(arena.logs), requests, rooms, room);
      rooms := rooms + [room];
    }
  }

  /** From its first block to its end: with a policy and a first block in multiples of 8, an arena counts
      every byte asked for and runs every cleanup it was given, newest first, whatever is asked of it. */
  method LiveAndDie(size: nat, requests: seq<Request>, policy: AllocationPolicy)
    returns (used: int, run: seq<CleanupNode>)
    requires BLOCK_HEADER_SIZE + SERIAL_ARENA_SIZE <= size && Aligned(size) && AlignedPolicy(policy)
    requires forall i :: 0 <= i < |requests| ==> AlignedRequest(requests[i])
    ensures used == BytesOf(requests, |requests|) && run == Reverse(NodesOf(requests, |requests|))
  {
    var arena := new SerialArena.New(size);
    ghost var start := arena.logs;
    ghost var rooms := ServeAll(arena, requests, policy);
    LogsOfCount(start, requests, rooms);
    used := arena.SpaceUsed();
    run := RunAll(arena);
  }

  method RunAll(arena: SerialArena) returns (run: seq<CleanupNode>)
    requires arena.Valid() && AlignedSizes(SizeList(arena.blocks))
    modifies arena
    ensures run == Reverse(old(Registered(arena.logs)))
  {
    arena.SyncedSizes();
    ghost var logs := arena.logs;
    run := arena.CleanupList();
    AlignedBlocksMissNothing(arena.Synced(), logs);
  }

  // ----- a cleanup that never runs -----

  const DEFAULT_POLICY := AllocationPolicy(256, 8192)

  /** An arena whose first block is used up. */
  method FullArena(size: nat, policy: AllocationPolicy) returns (arena: SerialArena)
    requires BLOCK_HEADER_SIZE + SERIAL_ARENA_SIZE <= size
    ensures fresh(arena) && arena.Valid() && !arena.HasSpace(CLEANUP_SIZE)
    ensures SizeList(arena.blocks) == [size] && Registered(arena.logs) == []
  {
    arena := new SerialArena.New(size);
    var at := arena.AllocateAligned(Floor8(size) - (BLOCK_HEADER_SIZE + SERIAL_ARENA_SIZE), policy);
    assert arena.ptr == arena.limit;
  }

  /** Such arenas can be reached: whenever the first block grows into one whose size is no multiple of 8,
      a single cleanup registered there never runs. */
  method MissedCleanup(size: nat, policy: AllocationPolicy, node: CleanupNode)
    returns (run: seq<CleanupNode>, ghost registered: seq<CleanupNode>)
    requires BLOCK_HEADER_SIZE + SERIAL_ARENA_SIZE <= size && !Aligned(BlockSize(policy, size, CLEANUP_SIZE))
    ensures registered == [node] && run == []
  {
    var arena := FullArena(size, policy);
    NodeAfterNewBlock(arena.logs, node);
    arena.AddCleanup(node, policy);
    registered := Registered(arena.logs);
    run := arena.CleanupList();
    OneNodeIsMissed(arena.blocks, arena.logs);
  }

  /** Under the default policy a first block of 1001 bytes does. */
  lemma UnalignedGrowth()
    ensures !Aligned(BlockSize(DEFAULT_POLICY, 1001, CLEANUP_SIZE))
  {
  }

  lemma NodeAfterNewBlock(logs: seq<Log>, node: CleanupNode)
    requires logs != []
    ensures Last(WithNode(WithAllocation(logs, false, 0), node)).nodes == [node]
  {
  }

  /** Where a later block of an unaligned size holds the only node of the whole arena, nothing runs. */
  lemma OneNodeIsMissed(blocks: seq<Block>, logs: seq<Log>)
    requires BlocksInv(blocks, logs) && |blocks| > 1 && Last(SizeList(blocks)) % 8 != 0
    requires |Last(logs).nodes| == 1 && |Registered(logs)| == 1
    ensures Cleanups(blocks) == []
  {
    assert Missed(Last(blocks), Last(logs), false);
    MissedRunsFewer(blocks, logs);
  }
}
