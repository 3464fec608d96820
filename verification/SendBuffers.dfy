/** ServerCore/SendBuffer.cpp: send buffers are cut from 6000-byte chunks. Each thread fills one chunk
    of its own; a chunk nobody refers to any more goes to a global pool and is reset when it is taken
    out again.

    A chunk is referred to by the thread that fills it and by every live SendBuffer cut from it;
    `Referenced` is the reference count being positive. One method call is one atomic step. */
module SendBuffers {
  import opened Wire

  const SEND_BUFFER_CHUNK_SIZE := 6000

  /** What Open can end in: a buffer, the null pointer, or an ASSERT_CRASH. */
  datatype Opened = Opened(buffer: SendBuffer) | Null | Crash

  /** A new chunk. */
  function Blank(): seq<byte> { seq(SEND_BUFFER_CHUNK_SIZE, _ => 0) }

  class SendBuffer {
    const owner: SendBufferChunk
    const offset: nat
    const allocSize: nat
    var writeSize: nat

    constructor (owner: SendBufferChunk, offset: nat, allocSize: nat)
      ensures this.owner == owner && this.offset == offset && this.allocSize == allocSize && writeSize == 0
    {
      this.owner, this.offset, this.allocSize := owner, offset, allocSize;
      writeSize := 0;
    }

    method Close(size: nat) returns (ok: bool)
      modifies this, owner
      ensures ok <==> size <= allocSize && old(owner.open)
      ensures ok ==> writeSize == size && !owner.open && owner.usedSize == old(owner.usedSize) + size
    {
      if size > allocSize {
        return false;
      }
      writeSize := size;
      ok := owner.Close(size);
    }
  }

  class SendBufferChunk {
    const data: array<byte>
    var open: bool
    var usedSize: nat

    constructor ()
      ensures fresh(data) && data[..] == Blank() && !open && usedSize == 0
    {
      data := new byte[SEND_BUFFER_CHUNK_SIZE](_ => 0);
      open, usedSize := false, 0;
    }

    predicate Valid()
      reads this
    {
      data.Length == SEND_BUFFER_CHUNK_SIZE && usedSize <= SEND_BUFFER_CHUNK_SIZE
    }

    function FreeSize(): (r: nat)
      requires Valid()
      reads this
      ensures usedSize + r == SEND_BUFFER_CHUNK_SIZE
    {
      data.Length - usedSize
    }

    method Reset()
      modifies this
      ensures !open && usedSize == 0
    {
      open, usedSize := false, 0;
    }

    method Open(allocSize: nat) returns (r: Opened)
      requires Valid()
      modifies this
      ensures Valid() && usedSize == old(usedSize)
      ensures r.Crash? <==> allocSize > SEND_BUFFER_CHUNK_SIZE || old(open)
      ensures r.Opened? <==> allocSize <= old(FreeSize()) && !old(open)
      ensures open == (r.Opened? || old(open))
      ensures r.Opened? ==> fresh(r.buffer) && r.buffer.owner == this && r.buffer.offset == usedSize
                            && r.buffer.allocSize == allocSize && r.buffer.writeSize == 0
    {
      if allocSize > SEND_BUFFER_CHUNK_SIZE || open {
        return Crash;
      }
      if allocSize > FreeSize() {
        return Null;
      }
      open := true;
      var buffer := new SendBuffer(this, usedSize, allocSize);
      return Opened(buffer);
    }

    method Close(writeSize: nat) returns (ok: bool)
      modifies this
      ensures ok == old(open)
      ensures ok ==> !open && usedSize == old(usedSize) + writeSize
      ensures !ok ==> !open && usedSize == old(usedSize)
    {
      if !open {
        return false;
      }
      open := false;
      usedSize := usedSize + writeSize;
      return true;
    }
  }

  // ----- who refers to a chunk -----

  predicate Refers(current: map<int, SendBufferChunk>, live: set<SendBuffer>, c: SendBufferChunk) {
    (exists t :: t in current && current[t] == c) || exists b :: b in live && b.owner == c
  }

  /** A chunk belongs to at most one thread or to the pool, is in the pool exactly when nothing
      refers to it, and is never lost. */
  ghost predicate Ownership(pool: seq<SendBufferChunk>, current: map<int, SendBufferChunk>,
                            live: set<SendBuffer>, chunks: set<SendBufferChunk>) {
    && (forall t :: t in current ==> current[t] in chunks)
    && (forall t, u :: t in current && u in current && current[t] == current[u] ==> t == u)
    && (forall i, j :: 0 <= i < j < |pool| ==> pool[i] != pool[j])
    && (forall c :: c in pool ==> c in chunks)
    && (forall b :: b in live ==> b.owner in chunks)
    && (forall c :: c in chunks ==> (c in pool <==> !Refers(current, live, c)))
  }

  /** The pool once a reference to `c` was given up. */
  function PoolAfterDrop(pool: seq<SendBufferChunk>, current: map<int, SendBufferChunk>,
                         live: set<SendBuffer>, c: SendBufferChunk): seq<SendBufferChunk> {
    if Refers(current, live, c) then pool else pool + [c]
  }

  /** The pool without its last chunk, the one Pop takes. */
  function PoolLeft(pool: seq<SendBufferChunk>): seq<SendBufferChunk> {
    if pool == [] then [] else pool[..|pool| - 1]
  }

  function PoolAfterRenew(pool: seq<SendBufferChunk>, current: map<int, SendBufferChunk>,
                          live: set<SendBuffer>, t: int, c: SendBufferChunk): seq<SendBufferChunk> {
    if t in current then PoolAfterDrop(PoolLeft(pool), current[t := c], live, current[t]) else PoolLeft(pool)
  }

  lemma TakenChunkIsUnreferenced(pool: seq<SendBufferChunk>, current: map<int, SendBufferChunk>,
                                 live: set<SendBuffer>, chunks: set<SendBufferChunk>, c: SendBufferChunk)
    requires Ownership(pool, current, live, chunks)
    requires if pool == [] then c !in chunks else c == pool[|pool| - 1]
    ensures !Refers(current, live, c) && c !in PoolLeft(pool)
  {
    if pool != [] {
      assert c in pool;
    }
  }

  lemma RenewKeepsOwnership(pool: seq<SendBufferChunk>, current: map<int, SendBufferChunk>,
                            live: set<SendBuffer>, chunks: set<SendBufferChunk>, t: int, c: SendBufferChunk)
    requires Ownership(pool, current, live, chunks)
    requires if pool == [] then c !in chunks else c == pool[|pool| - 1]
    ensures Ownership(PoolAfterRenew(pool, current, live, t, c), current[t := c], live, chunks + {c})
  {
    TakenChunkIsUnreferenced(pool, current, live, chunks, c);
    var current', pool' := current[t := c], PoolAfterRenew(pool, current, live, t, c);
    forall d | d in chunks + {c}
      ensures d in pool' <==> !Refers(current', live, d)
    {
      if d == c {
        assert current'[t] == c;
      } else if t in current && d == current[t] {
        assert d !in pool;
        assert d !in PoolLeft(pool);
      } else {
        assert d in pool <==> d in PoolLeft(pool);
        RefersElsewhere(current, live, t, c, d);
      }
    }
  }

  lemma RefersElsewhere(current: map<int, SendBufferChunk>, live: set<SendBuffer>, t: int,
                        c: SendBufferChunk, d: SendBufferChunk)
    requires d != c && (t in current ==> d != current[t])
    ensures Refers(current[t := c], live, d) <==> Refers(current, live, d)
  {
    var current' := current[t := c];
    forall u | u in current && current[u] == d
      ensures current'[u] == d
    {
    }
    forall u | u in current' && current'[u] == d
      ensures current[u] == d
    {
    }
  }

  // ----- the arena as a value -----

  datatype Fill = Fill(open: bool, usedSize: nat)

  /** `fills` and `bytes` range over every chunk ever made, `sizes` over the live buffers, `contents`
      over the live buffers that were closed, with what they held at that moment. */
  datatype Arena = Arena(
    pool: seq<SendBufferChunk>, current: map<int, SendBufferChunk>,
    fills: map<SendBufferChunk, Fill>, bytes: map<SendBufferChunk, seq<byte>>,
    sizes: map<SendBuffer, nat>, contents: map<SendBuffer, seq<byte>>)

  /** Open buffers start where their chunk is filled up to; closed ones end below it. */
  ghost predicate Placed(a: Arena)
    requires forall b :: b in a.sizes ==> b.owner in a.fills
  {
    && (forall b :: b in a.sizes ==> b.offset + b.allocSize <= SEND_BUFFER_CHUNK_SIZE && a.sizes[b] <= b.allocSize)
    && (forall b :: b in a.sizes && b !in a.contents ==> a.fills[b.owner] == Fill(true, b.offset))
    && (forall b, c :: b in a.sizes && c in a.sizes && b !in a.contents && c !in a.contents && b.owner == c.owner
                       ==> b == c)
    && (forall b :: b in a.sizes && b in a.contents ==> b.offset + a.sizes[b] <= a.fills[b.owner].usedSize)
  }

  /** The bytes a closed buffer stands for. */
  predicate Holds(a: Arena, b: SendBuffer, bytes: seq<byte>)
    requires b in a.sizes && b.owner in a.bytes
  {
    b.offset + a.sizes[b] <= |a.bytes[b.owner]| && a.bytes[b.owner][b.offset..b.offset + a.sizes[b]] == bytes
  }

  predicate Disjoint(a: Arena, b: SendBuffer, c: SendBuffer)
    requires b in a.sizes && c in a.sizes
  {
    b.owner != c.owner || b.offset + a.sizes[b] <= c.offset || c.offset + a.sizes[c] <= b.offset
  }

  /** No two closed buffers share a byte, and each still holds what it held when it was closed. */
  ghost predicate Intact(a: Arena)
    requires a.contents.Keys <= a.sizes.Keys && forall b :: b in a.contents ==> b.owner in a.bytes
  {
    && (forall b, c :: b in a.contents && c in a.contents && b != c ==> Disjoint(a, b, c))
    && (forall b :: b in a.contents ==> Holds(a, b, a.contents[b]))
  }

  ghost predicate BuffersInv(a: Arena) {
    && a.contents.Keys <= a.sizes.Keys && a.bytes.Keys == a.fills.Keys
    && (forall c :: c in a.bytes ==> |a.bytes[c]| == SEND_BUFFER_CHUNK_SIZE)
    && (forall c :: c in a.fills ==> a.fills[c].usedSize <= SEND_BUFFER_CHUNK_SIZE)
    && (forall b :: b in a.sizes ==> b.owner in a.fills)
    && Placed(a) && Intact(a)
  }

  ghost predicate Inv(a: Arena) {
    Ownership(a.pool, a.current, a.sizes.Keys, a.fills.Keys) && BuffersInv(a)
  }

  // ----- what the operations do to it -----

  /** Chunk `c`, the last of the pool or a new one, is taken. */
  function Taken(a: Arena, c: SendBufferChunk, blank: seq<byte>): Arena {
    if c in a.fills then a.(pool := PoolLeft(a.pool))
    else a.(pool := PoolLeft(a.pool), fills := a.fills[c := Fill(false, 0)], bytes := a.bytes[c := blank])
  }

  function Emptied(a: Arena, c: SendBufferChunk, blank: seq<byte>): Arena {
    var taken := Taken(a, c, blank);
    taken.(fills := taken.fills[c := Fill(false, 0)])
  }

  /** Thread `t` goes over to chunk `c`. */
  function Renewed(a: Arena, t: int, c: SendBufferChunk, blank: seq<byte>): Arena {
    Emptied(a, c, blank).(pool := PoolAfterRenew(a.pool, a.current, a.sizes.Keys, t, c), current := a.current[t := c])
  }

  function OpenedArena(a: Arena, b: SendBuffer): Arena {
    a.(fills := a.fills[b.owner := Fill(true, b.offset)], sizes := a.sizes[b := 0])
  }

  function WrittenArena(a: Arena, b: SendBuffer, at: nat, src: seq<byte>): Arena
    requires b.owner in a.bytes && b.offset + at + |src| <= |a.bytes[b.owner]|
  {
    var old', k := a.bytes[b.owner], b.offset + at;
    a.(bytes := a.bytes[b.owner := old'[..k] + src + old'[k + |src|..]])
  }

  function ClosedArena(a: Arena, b: SendBuffer, writeSize: nat): Arena
    requires b.owner in a.bytes && b.offset + writeSize <= |a.bytes[b.owner]|
  {
    a.(fills := a.fills[b.owner := Fill(false, b.offset + writeSize)], sizes := a.sizes[b := writeSize],
       contents := a.contents[b := a.bytes[b.owner][b.offset..b.offset + writeSize]])
  }

  function ReleasedArena(a: Arena, b: SendBuffer): Arena {
    var sizes := a.sizes - {b};
    a.(sizes := sizes, contents := a.contents - {b}, pool := PoolAfterDrop(a.pool, a.current, sizes.Keys, b.owner))
  }

  /** The end of a thread gives up the chunk it was filling. */
  function ExitedArena(a: Arena, t: int): Arena
    requires t in a.current
  {
    var current := a.current - {t};
    a.(current := current, pool := PoolAfterDrop(a.pool, current, a.sizes.Keys, a.current[t]))
  }

  // ----- every operation keeps the invariant -----

  lemma RenewKeepsInv(a: Arena, t: int, c: SendBufferChunk, blank: seq<byte>)
    requires Inv(a) && |blank| == SEND_BUFFER_CHUNK_SIZE
    requires if a.pool == [] then c !in a.fills else c == a.pool[|a.pool| - 1]
    ensures Inv(Renewed(a, t, c, blank))
    ensures forall b :: b in a.sizes ==> b.owner != c
  {
    TakenChunkIsUnreferenced(a.pool, a.current, a.sizes.Keys, a.fills.Keys, c);
    RenewKeepsOwnership(a.pool, a.current, a.sizes.Keys, a.fills.Keys, t, c);
    assert Renewed(a, t, c, blank).fills.Keys == a.fills.Keys + {c};
    RenewKeepsBuffers(a, t, c, blank);
  }

  /** Only chunk `c` is touched. */
  lemma RenewedChunks(a: Arena, t: int, c: SendBufferChunk, blank: seq<byte>)
    requires a.bytes.Keys == a.fills.Keys
    ensures var a' := Renewed(a, t, c, blank);
            && a'.fills.Keys == a.fills.Keys + {c} && a'.bytes.Keys == a'.fills.Keys && a'.fills[c] == Fill(false, 0)
            && a'.bytes[c] == (if c in a.bytes then a.bytes[c] else blank)
            && forall d :: d in a.fills && d != c ==> a'.fills[d] == a.fills[d] && a'.bytes[d] == a.bytes[d]
  {
  }

  lemma RenewKeepsBuffers(a: Arena, t: int, c: SendBufferChunk, blank: seq<byte>)
    requires BuffersInv(a) && |blank| == SEND_BUFFER_CHUNK_SIZE
    requires forall b :: b in a.sizes ==> b.owner != c
    ensures BuffersInv(Renewed(a, t, c, blank))
  {
    var a' := Renewed(a, t, c, blank);
    RenewedChunks(a, t, c, blank);
    SameBuffersStayIntact(a, a');
    SameBuffersStayPlaced(a, a');
  }

  lemma SameBuffersStayPlaced(a: Arena, a': Arena)
    requires forall b :: b in a.sizes ==> b.owner in a.fills && b.owner in a'.fills
    requires Placed(a) && a'.contents == a.contents && a'.sizes == a.sizes
    requires forall b :: b in a.sizes ==> a'.fills[b.owner] == a.fills[b.owner]
    ensures Placed(a')
  {
  }

  /** Nothing about the buffers changes, and their chunks keep their bytes. */
  lemma SameBuffersStayIntact(a: Arena, a': Arena)
    requires a.contents.Keys <= a.sizes.Keys && forall b :: b in a.contents ==> b.owner in a.bytes
    requires Intact(a) && a'.contents == a.contents
    requires forall b :: b in a.contents ==> b in a'.sizes && a'.sizes[b] == a.sizes[b]
    requires forall b :: b in a.contents ==> b.owner in a'.bytes && a'.bytes[b.owner] == a.bytes[b.owner]
    ensures Intact(a')
  {
    forall b | b in a.contents
      ensures Holds(a', b, a.contents[b])
    {
      assert Holds(a, b, a.contents[b]);
    }
    forall b, c | b in a.contents && c in a.contents && b != c
      ensures Disjoint(a', b, c)
    {
      assert Disjoint(a, b, c);
    }
  }

  lemma OpenKeepsInv(a: Arena, b: SendBuffer)
    requires Inv(a) && b !in a.sizes && b.owner in a.fills && Refers(a.current, {}, b.owner)
    requires a.fills[b.owner] == Fill(false, b.offset) && b.offset + b.allocSize <= SEND_BUFFER_CHUNK_SIZE
    ensures Inv(OpenedArena(a, b))
  {
    var a' := OpenedArena(a, b);
    OpenKeepsBuffers(a, b);
    assert a'.fills.Keys == a.fills.Keys && a'.sizes.Keys == a.sizes.Keys + {b};
    assert Refers(a.current, a.sizes.Keys, b.owner);
  }

  lemma OpenKeepsBuffers(a: Arena, b: SendBuffer)
    requires BuffersInv(a) && b !in a.sizes && b.owner in a.fills
    requires a.fills[b.owner] == Fill(false, b.offset) && b.offset + b.allocSize <= SEND_BUFFER_CHUNK_SIZE
    ensures BuffersInv(OpenedArena(a, b))
  {
    SameBuffersStayIntact(a, OpenedArena(a, b));
  }

  lemma WriteKeepsInv(a: Arena, b: SendBuffer, at: nat, src: seq<byte>)
    requires Inv(a) && b in a.sizes && b !in a.contents && at + |src| <= b.allocSize
    ensures Inv(WrittenArena(a, b, at, src))
  {
    WriteKeepsBuffers(a, b, at, src);
  }

  lemma WriteKeepsBuffers(a: Arena, b: SendBuffer, at: nat, src: seq<byte>)
    requires BuffersInv(a) && b in a.sizes && b !in a.contents && at + |src| <= b.allocSize
    ensures BuffersInv(WrittenArena(a, b, at, src))
  {
    var a' := WrittenArena(a, b, at, src);
    assert a'.bytes.Keys == a.bytes.Keys;
    forall c | c in a.contents
      ensures Holds(a', c, a.contents[c])
    {
      assert Holds(a, c, a.contents[c]);
      assert c.owner == b.owner ==> c.offset + a.sizes[c] <= b.offset;
    }
    forall c, d | c in a.contents && d in a.contents && c != d
      ensures Disjoint(a', c, d)
    {
      assert Disjoint(a, c, d);
    }
  }

  lemma CloseKeepsInv(a: Arena, b: SendBuffer, writeSize: nat)
    requires Inv(a) && b in a.sizes && b !in a.contents && writeSize <= b.allocSize
    ensures Inv(ClosedArena(a, b, writeSize))
  {
    var a' := ClosedArena(a, b, writeSize);
    CloseKeepsBuffers(a, b, writeSize);
    assert a'.fills.Keys == a.fills.Keys && a'.sizes.Keys == a.sizes.Keys;
  }

  lemma CloseKeepsBuffers(a: Arena, b: SendBuffer, writeSize: nat)
    requires BuffersInv(a) && b in a.sizes && b !in a.contents && writeSize <= b.allocSize
    ensures BuffersInv(ClosedArena(a, b, writeSize))
  {
    assert Placed(ClosedArena(a, b, writeSize));
    CloseKeepsIntact(a, b, writeSize);
  }

  lemma CloseKeepsIntact(a: Arena, b: SendBuffer, writeSize: nat)
    requires BuffersInv(a) && b in a.sizes && b !in a.contents && writeSize <= b.allocSize
    ensures Intact(ClosedArena(a, b, writeSize))
  {
    var a' := ClosedArena(a, b, writeSize);
    forall c | c in a'.contents
      ensures Holds(a', c, a'.contents[c])
    {
      assert c != b ==> Holds(a, c, a.contents[c]);
    }
    forall c, d | c in a'.contents && d in a'.contents && c != d
      ensures Disjoint(a', c, d)
    {
      assert c != b && d != b ==> Disjoint(a, c, d);
    }
  }

  lemma DropKeepsOwnership(pool: seq<SendBufferChunk>, current: map<int, SendBufferChunk>, live: set<SendBuffer>,
                           chunks: set<SendBufferChunk>, b: SendBuffer)
    requires Ownership(pool, current, live, chunks) && b in live
    ensures Ownership(PoolAfterDrop(pool, current, live - {b}, b.owner), current, live - {b}, chunks)
  {
    var live' := live - {b};
    assert Refers(current, live, b.owner);
    forall c | c in chunks
      ensures c in PoolAfterDrop(pool, current, live', b.owner) <==> !Refers(current, live', c)
    {
      if c != b.owner {
        assert Refers(current, live', c) <==> Refers(current, live, c);
      }
    }
  }

  lemma ExitKeepsOwnership(pool: seq<SendBufferChunk>, current: map<int, SendBufferChunk>, live: set<SendBuffer>,
                           chunks: set<SendBufferChunk>, t: int)
    requires Ownership(pool, current, live, chunks) && t in current
    ensures Ownership(PoolAfterDrop(pool, current - {t}, live, current[t]), current - {t}, live, chunks)
  {
    var current' := current - {t};
    assert Refers(current, live, current[t]);
    forall c | c in chunks
      ensures c in PoolAfterDrop(pool, current', live, current[t]) <==> !Refers(current', live, c)
    {
      if c != current[t] {
        assert forall u :: u in current && current[u] == c ==> u in current' && current'[u] == c;
        assert Refers(current', live, c) <==> Refers(current, live, c);
      }
    }
  }

  lemma ExitKeepsInv(a: Arena, t: int)
    requires Inv(a) && t in a.current
    ensures Inv(ExitedArena(a, t))
  {
    ExitKeepsOwnership(a.pool, a.current, a.sizes.Keys, a.fills.Keys, t);
    SameBuffersStayIntact(a, ExitedArena(a, t));
    SameBuffersStayPlaced(a, ExitedArena(a, t));
  }

  lemma ReleaseKeepsInv(a: Arena, b: SendBuffer)
    requires Inv(a) && b in a.sizes
    ensures Inv(ReleasedArena(a, b))
  {
    DropKeepsOwnership(a.pool, a.current, a.sizes.Keys, a.fills.Keys, b);
    assert ReleasedArena(a, b).sizes.Keys == a.sizes.Keys - {b};
    ReleaseKeepsBuffers(a, b);
  }

  lemma ReleaseKeepsBuffers(a: Arena, b: SendBuffer)
    requires BuffersInv(a) && b in a.sizes
    ensures BuffersInv(ReleasedArena(a, b))
  {
    var a' := ReleasedArena(a, b);
    assert a'.sizes.Keys == a.sizes.Keys - {b};
    forall c | c in a'.contents
      ensures Holds(a', c, a'.contents[c])
    {
      assert Holds(a, c, a.contents[c]);
    }
    forall c, d | c in a'.contents && d in a'.contents && c != d
      ensures Disjoint(a', c, d)
    {
      assert Disjoint(a, c, d);
    }
  }

  // ----- runs -----

  datatype Step =
    | Renew(thread: int, chunk: SendBufferChunk, blank: seq<byte>)
    | Open(thread: int, buffer: SendBuffer)
    | Write(buffer: SendBuffer, at: nat, src: seq<byte>)
    | Close(buffer: SendBuffer, writeSize: nat)
    | Release(buffer: SendBuffer)
    | Exit(thread: int)

  predicate HasRoom(a: Arena, t: int, size: nat) {
    && t in a.current && a.current[t] in a.fills
    && a.fills[a.current[t]].usedSize + size <= SEND_BUFFER_CHUNK_SIZE
  }

  /** What the methods below guarantee or demand about each step. */
  predicate Legal(a: Arena, step: Step) {
    match step
    case Renew(t, c, blank) =>
      |blank| == SEND_BUFFER_CHUNK_SIZE && if a.pool == [] then c !in a.fills else c == a.pool[|a.pool| - 1]
    case Open(t, b) =>
      && b !in a.sizes && t in a.current && a.current[t] == b.owner && b.owner in a.fills
      && a.fills[b.owner] == Fill(false, b.offset) && b.offset + b.allocSize <= SEND_BUFFER_CHUNK_SIZE
    case Write(b, at, src) => b in a.sizes && b !in a.contents && at + |src| <= b.allocSize
    case Close(b, n) => b in a.sizes && b !in a.contents && n <= b.allocSize
    case Release(b) => b in a.sizes
    case Exit(t) => t in a.current
  }

  ghost function Apply(a: Arena, step: Step): Arena
    requires Inv(a) && Legal(a, step)
  {
    match step
    case Renew(t, c, blank) => Renewed(a, t, c, blank)
    case Open(t, b) => OpenedArena(a, b)
    case Write(b, at, src) => WrittenArena(a, b, at, src)
    case Close(b, n) => ClosedArena(a, b, n)
    case Release(b) => ReleasedArena(a, b)
    case Exit(t) => ExitedArena(a, t)
  }

  lemma StepKeepsInv(a: Arena, step: Step)
    requires Inv(a) && Legal(a, step)
    ensures Inv(Apply(a, step))
  {
    match step
    case Renew(t, c, blank) => RenewKeepsInv(a, t, c, blank);
    case Open(t, b) => OpenKeepsInv(a, b);
    case Write(b, at, src) => WriteKeepsInv(a, b, at, src);
    case Close(b, n) => CloseKeepsInv(a, b, n);
    case Release(b) => ReleaseKeepsInv(a, b);
    case Exit(t) => ExitKeepsInv(a, t);
  }

  /** Opening `b` in the thread's chunk, or in the next one when it is full or missing. */
  ghost predicate IsOpening(a: Arena, t: int, size: nat, b: SendBuffer, a': Arena) {
    var turned := Renewed(a, t, b.owner, Blank());
    if HasRoom(a, t, size) then Legal(a, Open(t, b)) && a' == OpenedArena(a, b)
    else Legal(a, Renew(t, b.owner, Blank())) && Legal(turned, Open(t, b)) && a' == OpenedArena(turned, b)
  }

  /** Opening, in its two parts: the chunk with enough room, then the buffer in it. */
  lemma OpeningInTwo(a: Arena, t: int, size: nat, roomy: Arena, b: SendBuffer)
    requires roomy == if HasRoom(a, t, size) then a else Renewed(a, t, b.owner, Blank())
    requires !HasRoom(a, t, size) ==> Legal(a, Renew(t, b.owner, Blank()))
    requires Legal(roomy, Open(t, b))
    ensures IsOpening(a, t, size, b, OpenedArena(roomy, b))
  {
  }

  lemma OpeningKeepsInv(a: Arena, t: int, size: nat, b: SendBuffer, a': Arena)
    requires Inv(a) && IsOpening(a, t, size, b, a')
    ensures Inv(a') && b in a'.sizes && b !in a'.contents
  {
    if HasRoom(a, t, size) {
      OpenKeepsInv(a, b);
    } else {
      RenewKeepsInv(a, t, b.owner, Blank());
      OpenKeepsInv(Renewed(a, t, b.owner, Blank()), b);
    }
  }

  lemma OpeningKeepsContents(a: Arena, t: int, size: nat, b: SendBuffer, a': Arena)
    requires Inv(a) && IsOpening(a, t, size, b, a')
    ensures a'.contents == a.contents && b in a'.sizes && b !in a.contents
  {
  }

  ghost predicate IsRun(a: Arena, steps: seq<Step>, a': Arena)
    requires Inv(a)
    decreases |steps|
  {
    if steps == [] then a' == a
    else
      Legal(a, steps[0]) && (StepKeepsInv(a, steps[0]); IsRun(Apply(a, steps[0]), steps[1..], a'))
  }

  lemma StepKeepsContents(a: Arena, step: Step, b: SendBuffer)
    requires Inv(a) && Legal(a, step) && b in a.contents && step != Release(b)
    ensures b in Apply(a, step).contents && Apply(a, step).contents[b] == a.contents[b]
  {
  }

  lemma {:induction false} RunKeepsContents(a: Arena, steps: seq<Step>, a': Arena, b: SendBuffer)
    requires Inv(a) && IsRun(a, steps, a') && b in a.contents && Release(b) !in steps
    ensures Inv(a') && b in a'.contents && a'.contents[b] == a.contents[b]
    decreases |steps|
  {
    if steps == [] {
    } else {
      StepKeepsInv(a, steps[0]);
      StepKeepsContents(a, steps[0], b);
      assert forall step :: step in steps[1..] ==> step in steps;
      RunKeepsContents(Apply(a, steps[0]), steps[1..], a', b);
    }
  }

  /** A closed buffer holds the same bytes for as long as somebody refers to it, whatever all threads
      open, write, close, release and recycle meanwhile, and whichever of them end. */
  lemma ClosedBuffersNeverChange(a: Arena, steps: seq<Step>, a': Arena, b: SendBuffer)
    requires Inv(a) && IsRun(a, steps, a') && b in a.contents && Release(b) !in steps
    ensures b in a'.sizes && b.owner in a'.bytes && Holds(a', b, a.contents[b])
  {
    RunKeepsContents(a, steps, a', b);
    assert Intact(a');
  }

  // ----- the manager -----

  method StoreAt(data: array<byte>, k: nat, src: seq<byte>)
    requires k + |src| <= data.Length
    modifies data
    ensures data[..] == old(data[..])[..k] + src + old(data[..])[k + |src|..]
  {
    var i := 0;
    while i < |src|
      invariant 0 <= i <= |src|
      invariant data[..k + i] == old(data[..])[..k] + src[..i]
      invariant data[k + i..] == old(data[..])[k + i..]
    {
      data[k + i] := src[i];
      i := i + 1;
    }
    assert data[..] == data[..k + i] + data[k + i..];
  }

  /** The values are those of the objects, and no two chunks share their bytes. */
  ghost predicate Mirrors(fills: map<SendBufferChunk, Fill>, bytes: map<SendBufferChunk, seq<byte>>,
                          sizes: map<SendBuffer, nat>)
    reads fills.Keys, sizes.Keys, set c | c in fills :: c.data
  {
    && bytes.Keys == fills.Keys
    && (forall c :: c in fills ==> fills[c] == Fill(c.open, c.usedSize) && bytes[c] == c.data[..])
    && (forall c, d :: c in fills && d in fills && c != d ==> c.data != d.data)
    && (forall b :: b in sizes ==> sizes[b] == b.writeSize)
  }

  /** `current` is LSendBufferChunk, one per thread, and `live` the buffers somebody still refers to.
      `arena` is the same state as a value. */
  class SendBufferManager {
    var pool: seq<SendBufferChunk>
    var current: map<int, SendBufferChunk>
    var live: set<SendBuffer>
    ghost var arena: Arena

    ghost predicate Tied()
      reads this, arena.fills.Keys, arena.sizes.Keys, set c | c in arena.fills :: c.data
    {
      && arena.pool == pool && arena.current == current && arena.sizes.Keys == live
      && Mirrors(arena.fills, arena.bytes, arena.sizes)
    }

    ghost predicate Valid()
      reads this, arena.fills.Keys, arena.sizes.Keys, set c | c in arena.fills :: c.data
    {
      Tied() && Inv(arena)
    }

    constructor ()
      ensures Valid() && arena == Arena([], map[], map[], map[], map[], map[])
    {
      pool, current, live := [], map[], {};
      arena := Arena([], map[], map[], map[], map[], map[]);
    }

    /** The last chunk of the pool, or a new one. */
    method Pop() returns (c: SendBufferChunk)
      requires Tied() && forall c :: c in pool ==> c in arena.fills
      modifies this`pool, this`arena
      ensures Tied() && arena == Taken(old(arena), c, Blank()) && c in arena.fills
      ensures if old(pool) == [] then fresh(c) && fresh(c.data) else c == old(pool)[|old(pool)| - 1]
    {
      if pool != [] {
        c := pool[|pool| - 1];
        assert c in pool;
        pool := pool[..|pool| - 1];
      } else {
        c := new SendBufferChunk();
      }
      arena := Taken(arena, c, Blank());
    }

    method Reset(c: SendBufferChunk)
      requires Tied() && c in arena.fills
      modifies this`arena, c
      ensures Tied() && arena == old(arena).(fills := old(arena).fills[c := Fill(false, 0)])
    {
      c.Reset();
      arena := arena.(fills := arena.fills[c := Fill(false, 0)]);
    }

    /** Pop, then Reset. */
    method PopEmpty() returns (c: SendBufferChunk)
      requires Tied() && forall c :: c in pool ==> c in arena.fills
      modifies this`pool, this`arena, arena.fills.Keys
      ensures Tied() && arena == Emptied(old(arena), c, Blank())
      ensures if old(pool) == [] then fresh(c) && fresh(c.data) else c == old(pool)[|old(pool)| - 1]
    {
      c := Pop();
      Reset(c);
    }

    /** Assigns the thread-local reference, and gives up the one it held. */
    method Hold(t: int, c: SendBufferChunk)
      modifies this`pool, this`current, this`arena
      ensures current == old(current)[t := c]
      ensures pool == if t in old(current) then PoolAfterDrop(old(pool), current, live, old(current)[t]) else old(pool)
      ensures arena == old(arena).(pool := pool, current := current)
    {
      if t in current {
        var before := current[t];
        current := current[t := c];
        if !Refers(current, live, before) {
          pool := pool + [before];
        }
      } else {
        current := current[t := c];
      }
      arena := arena.(pool := pool, current := current);
    }

    /** The thread turns to an empty chunk; the one it filled so far stays with its live buffers. */
    method TakeChunk(t: int)
      requires Tied() && forall c :: c in pool ==> c in arena.fills
      modifies this`pool, this`current, this`arena, arena.fills.Keys
      ensures Tied() && t in current && arena == Renewed(old(arena), t, current[t], Blank())
      ensures if old(pool) == [] then fresh(current[t]) && fresh(current[t].data)
              else current[t] == old(pool)[|old(pool)| - 1]
    {
      var c := PopEmpty();
      ghost var emptied := arena;
      Hold(t, c);
      assert Mirrors(emptied.fills, emptied.bytes, emptied.sizes);
    }

    /** A chunk of the thread's own with enough room, whatever that leaves of the old one. */
    method MakeRoom(t: int, size: nat)
      requires Tied() && (forall c :: c in pool ==> c in arena.fills)
      requires t in current && current[t] in arena.fills && current[t].Valid()
      modifies this`pool, this`current, this`arena, arena.fills.Keys
      ensures Tied() && t in current
      ensures if HasRoom(old(arena), t, size) then arena == old(arena) && current == old(current)
              else arena == Renewed(old(arena), t, current[t], Blank())
                   && if old(pool) == [] then fresh(current[t]) && fresh(current[t].data)
                      else current[t] == old(pool)[|old(pool)| - 1]
    {
      assert arena.fills[current[t]] == Fill(current[t].open, current[t].usedSize);
      if current[t].FreeSize() < size {
        TakeChunk(t);
      }
    }

    /** Opens a buffer in chunk `c`. */
    method Cut(c: SendBufferChunk, size: nat) returns (r: Opened)
      requires Tied() && c in arena.fills && c.Valid() && !c.open
      requires c.usedSize + size <= SEND_BUFFER_CHUNK_SIZE || size > SEND_BUFFER_CHUNK_SIZE
      modifies this`live, this`arena, c
      ensures r.Crash? <==> size > SEND_BUFFER_CHUNK_SIZE
      ensures !r.Crash? ==>
                && r.Opened? && fresh(r.buffer) && Tied() && arena == OpenedArena(old(arena), r.buffer)
                && r.buffer.owner == c && r.buffer.offset == old(c.usedSize) && r.buffer.allocSize == size
    {
      r := c.Open(size);
      if r.Opened? {
        live := live + {r.buffer};
        arena := OpenedArena(arena, r.buffer);
      }
    }

    /** Opens a buffer for a thread that has a chunk. */
    method OpenOwn(t: int, size: nat) returns (r: Opened)
      requires Valid() && t in current
      modifies this`pool, this`current, this`live, this`arena, arena.fills.Keys
      ensures r.Crash? <==> size > SEND_BUFFER_CHUNK_SIZE || old(current[t].open)
      ensures !r.Crash? ==>
                && r.Opened? && fresh(r.buffer) && r.buffer.allocSize == size
                && Tied() && IsOpening(old(arena), t, size, r.buffer, arena)
                && (r.buffer.owner in old(arena).fills || (fresh(r.buffer.owner) && fresh(r.buffer.owner.data)))
    {
      assert arena.fills[current[t]] == Fill(current[t].open, current[t].usedSize);
      if current[t].open {
        return Crash;
      }
      ghost var a := arena;
      MakeRoom(t, size);
      ghost var roomy := arena;
      assert arena.fills[current[t]] == Fill(current[t].open, current[t].usedSize);
      assert |arena.bytes[current[t]]| == current[t].data.Length;
      r := Cut(current[t], size);
      if r.Opened? {
        OpeningInTwo(a, t, size, roomy, r.buffer);
      }
    }

    /** Fails only by the two assertions: the thread left its last buffer open, or no chunk is that
        large. It never returns the null pointer. */
    method Open(t: int, size: nat) returns (r: Opened)
      requires Valid()
      modifies this`pool, this`current, this`live, this`arena, arena.fills.Keys
      ensures !r.Crash? && t in old(current) && old(current[t].usedSize) + size <= SEND_BUFFER_CHUNK_SIZE ==>
                r.Opened? && r.buffer.owner == old(current[t]) && r.buffer.offset == old(current[t].usedSize)
      ensures r.Crash? <==> size > SEND_BUFFER_CHUNK_SIZE || (t in old(current) && old(current[t].open))
      ensures !r.Crash? ==>
                && r.Opened? && fresh(r.buffer) && r.buffer.allocSize == size
                && Valid() && IsOpening(old(arena), t, size, r.buffer, arena)
                && (r.buffer.owner in old(arena).fills || (fresh(r.buffer.owner) && fresh(r.buffer.owner.data)))
    {
      ghost var a := arena;
      if t !in current {
        TakeChunk(t);
        RenewKeepsInv(a, t, current[t], Blank());
        assert arena.fills[current[t]] == Fill(false, 0);
      }
      r := OpenOwn(t, size);
      if r.Opened? {
        OpeningKeepsInv(a, t, size, r.buffer, arena);
      }
    }

    method Put(b: SendBuffer, at: nat, src: seq<byte>)
      requires Tied() && b.owner in arena.fills && b.offset + at + |src| <= b.owner.data.Length
      modifies this`arena, b.owner.data
      ensures |old(arena).bytes[b.owner]| == b.owner.data.Length
      ensures Tied() && arena == WrittenArena(old(arena), b, at, src)
    {
      ghost var written := WrittenArena(arena, b, at, src);
      StoreAt(b.owner.data, b.offset + at, src);
      assert b.owner.data[..] == written.bytes[b.owner];
      arena := written;
    }

    /** MakeSendBuffer fills the open buffer in place. */
    method Write(b: SendBuffer, at: nat, src: seq<byte>)
      requires Valid() && b in live && b !in arena.contents && at + |src| <= b.allocSize
      modifies this`arena, b.owner.data
      ensures Valid() && arena == WrittenArena(old(arena), b, at, src)
    {
      WriteKeepsInv(arena, b, at, src);
      assert |arena.bytes[b.owner]| == b.owner.data.Length;
      Put(b, at, src);
    }

    method Seal(b: SendBuffer, writeSize: nat, ghost first: bool) returns (ok: bool)
      requires Tied() && b in live && b.owner in arena.fills
      requires first ==> b.owner.usedSize == b.offset && b.offset + b.allocSize <= b.owner.data.Length
      modifies this`arena, b, b.owner
      ensures ok <==> writeSize <= b.allocSize && old(b.owner.open)
      ensures ok && first ==> |old(arena).bytes[b.owner]| == b.owner.data.Length
                              && Tied() && arena == ClosedArena(old(arena), b, writeSize)
      ensures ok && !first ==> !b.owner.open && b.owner.usedSize == old(b.owner.usedSize) + writeSize
    {
      ok := b.Close(writeSize);
      if ok && first {
        arena := ClosedArena(arena, b, writeSize);
      }
    }

    /** A first close fails only when more is reported than was asked for. A second one is accepted
        exactly when the chunk has been opened again since: it then closes the chunk under the buffer
        that is being filled, and the chunk is filled up by `writeSize` more. */
    method Close(b: SendBuffer, writeSize: nat) returns (ok: bool)
      requires Valid() && b in live
      modifies this`arena, b, b.owner
      ensures ok <==> writeSize <= b.allocSize && old(b.owner.open)
      ensures b !in old(arena).contents ==> old(b.owner.open)
      ensures ok && b !in old(arena).contents ==> Valid() && arena == ClosedArena(old(arena), b, writeSize)
      ensures ok && b in old(arena).contents ==>
                !b.owner.open && b.owner.usedSize == old(b.owner.usedSize) + writeSize
    {
      ghost var first := b !in arena.contents;
      if first && writeSize <= b.allocSize {
        CloseKeepsInv(arena, b, writeSize);
      }
      assert first ==> arena.fills[b.owner] == Fill(true, b.offset) && |arena.bytes[b.owner]| == b.owner.data.Length;
      ok := Seal(b, writeSize, first);
    }

    method Forget(b: SendBuffer)
      requires Tied()
      modifies this`live, this`pool, this`arena
      ensures Tied() && arena == ReleasedArena(old(arena), b)
    {
      live := live - {b};
      arena := ReleasedArena(arena, b);
      if !Refers(current, live, b.owner) {
        pool := pool + [b.owner];
      }
    }

    /** The end of thread `t`: its thread-local reference goes. */
    method ThreadExit(t: int)
      requires Valid() && t in current
      modifies this`current, this`pool, this`arena
      ensures Valid() && arena == ExitedArena(old(arena), t)
    {
      ExitKeepsInv(arena, t);
      LetGo(t);
    }

    method LetGo(t: int)
      requires Tied() && t in current
      modifies this`current, this`pool, this`arena
      ensures Tied() && arena == ExitedArena(old(arena), t)
    {
      arena := ExitedArena(arena, t);
      var before := current[t];
      current := current - {t};
      if !Refers(current, live, before) {
        pool := pool + [before];
      }
    }

    /** The last reference to `b` goes, and its reference to its chunk with it. */
    method Release(b: SendBuffer)
      requires Valid() && b in live
      modifies this`live, this`pool, this`arena
      ensures Valid() && arena == ReleasedArena(old(arena), b)
    {
      ReleaseKeepsInv(arena, b);
      Forget(b);
    }
  }
}
