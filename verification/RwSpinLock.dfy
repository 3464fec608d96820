/** The recursive reader/writer spin lock of ServerCore/Lock.cpp, one atomic access at a time.

    The lock packs the writer's thread id (high 16 bits) and the number of read holds (low 16 bits)
    into one atomic word, next to a plain recursion counter. Any number of threads take steps in any
    order; every load, CAS, increment and store is a step of its own.

    `rw` is a history variable that no guard of the lock reads, the abstract lock. The callers are
    modelled beside it: a `Client` counts the calls that returned to its thread and may unlock only
    what those counts say it holds. The theorems say that each call takes exactly one step of the
    abstract lock, the one it is called for, before it returns, so that the counts are what the
    abstract lock grants. */
module RwSpinLock {

  /** Thread ids are 1..0xFFFF, so that no id looks like the empty flag. */
  type Thread = t: int | 1 <= t <= 0xFFFF witness 1

  const READ_COUNT_MASK := 0xFFFF
  const WORD := 0x1_0000_0000
  const HALF := 0x1_0000
  const EMPTY_FLAG := 0

  function ReadCount(flag: int): int { flag % HALF }
  function WriterId(flag: int): int { flag / HALF }

  // ----- the abstract lock -----

  /** Owner 0 is nobody. */
  datatype Rw = Rw(owner: int, depth: nat, readers: multiset<Thread>)

  const FREE := Rw(0, 0, multiset{})

  ghost predicate RwInv(a: Rw) {
    && 0 <= a.owner <= 0xFFFF
    && (a.owner != 0 <==> a.depth > 0)
    && (a.owner != 0 ==> forall t :: t in a.readers ==> t == a.owner)
  }

  predicate AcquireWrite(a: Rw, t: Thread, b: Rw) {
    || (a == FREE && b == Rw(t, 1, multiset{}))
    || (a.owner == t && b == a.(depth := a.depth + 1))
  }

  predicate ReleaseWrite(a: Rw, t: Thread, b: Rw) {
    && a.owner == t && a.readers == multiset{}
    && ((a.depth > 1 && b == a.(depth := a.depth - 1)) || (a.depth == 1 && b == FREE))
  }

  predicate AcquireRead(a: Rw, t: Thread, b: Rw) {
    (a.owner == 0 || a.owner == t) && b == a.(readers := a.readers + multiset{t})
  }

  predicate ReleaseRead(a: Rw, t: Thread, b: Rw) {
    t in a.readers && b == a.(readers := a.readers - multiset{t})
  }

  predicate RwStep(a: Rw, t: Thread, b: Rw) {
    AcquireWrite(a, t, b) || ReleaseWrite(a, t, b) || AcquireRead(a, t, b) || ReleaseRead(a, t, b)
  }

  // ----- the implementation -----

  /** Where a thread stands in the four operations. */
  datatype PC =
    | Idle
    | WriteLoad                     // load the flag, compare the writer id
    | NestedLoad | NestedStore(tmp: int)    // _writeCount++ of a thread that already owns
    | WriteSpin                     // CAS from the empty flag
    | OuterLoad | OuterStore(tmp: int)      // _writeCount++ after the CAS
    | UnlockCheck                   // load the flag, check the read count
    | UncountLoad | UncountStore(tmp: int)  // --_writeCount
    | Clear                         // store the empty flag
    | ReadLoad                      // load the flag, compare the writer id
    | ReadAdd                       // _lockFlag++ of the owner
    | ReadSpinLoad | ReadSpinCas(expected: int)
    | ReadSub                       // fetch_sub

  datatype Cause = InvalidUnlockOrder | MultipleUnlock | LockTimeout

  datatype Crash = None | Crashed(cause: Cause, thread: Thread)

  datatype Sys = Sys(flag: int, writeCount: int, pc: map<Thread, PC>, rw: Rw, crash: Crash)

  datatype Op = WriteLock | WriteUnlock | ReadLock | ReadUnlock

  function Goto(s: Sys, t: Thread, pc: PC): Sys {
    s.(pc := s.pc[t := pc])
  }

  function Move(s: Sys, t: Thread): Sys
    requires t in s.pc
  {
    match s.pc[t]
    case Idle => s
    case WriteLoad => Goto(s, t, if WriterId(s.flag) == t then NestedLoad else WriteSpin)
    case NestedLoad => Goto(s, t, NestedStore(s.writeCount))
    case NestedStore(tmp) =>
      Goto(s, t, Idle).(writeCount := (tmp + 1) % HALF, rw := s.rw.(depth := s.rw.depth + 1))
    case WriteSpin =>
      if s.flag == EMPTY_FLAG then Goto(s, t, OuterLoad).(flag := t * HALF % WORD, rw := Rw(t, 1, s.rw.readers))
      else s
    case OuterLoad => Goto(s, t, OuterStore(s.writeCount))
    case OuterStore(tmp) => Goto(s, t, Idle).(writeCount := (tmp + 1) % HALF)
    case UnlockCheck =>
      if ReadCount(s.flag) != 0 then s.(crash := Crashed(InvalidUnlockOrder, t)) else Goto(s, t, UncountLoad)
    case UncountLoad => Goto(s, t, UncountStore(s.writeCount))
    case UncountStore(tmp) =>
      var count := (tmp - 1) % HALF;
      if count == 0 then Goto(s, t, Clear).(writeCount := count)
      else Goto(s, t, Idle).(writeCount := count, rw := if s.rw.depth > 0 then s.rw.(depth := s.rw.depth - 1) else s.rw)
    case Clear => Goto(s, t, Idle).(flag := EMPTY_FLAG, rw := Rw(0, 0, s.rw.readers))
    case ReadLoad => Goto(s, t, if WriterId(s.flag) == t then ReadAdd else ReadSpinLoad)
    case ReadAdd =>
      Goto(s, t, Idle).(flag := (s.flag + 1) % WORD, rw := s.rw.(readers := s.rw.readers + multiset{t}))
    case ReadSpinLoad => Goto(s, t, ReadSpinCas(ReadCount(s.flag)))
    case ReadSpinCas(expected) =>
      if s.flag == expected
      then Goto(s, t, Idle).(flag := (expected + 1) % WORD, rw := s.rw.(readers := s.rw.readers + multiset{t}))
      else Goto(s, t, ReadSpinLoad)
    case ReadSub =>
      if ReadCount(s.flag) == 0
      then s.(flag := (s.flag - 1) % WORD, crash := Crashed(MultipleUnlock, t))
      else Goto(s, t, Idle).(flag := (s.flag - 1) % WORD, rw := s.rw.(readers := s.rw.readers - multiset{t}))
  }

  function Enter(s: Sys, t: Thread, op: Op): Sys {
    match op
    case WriteLock => Goto(s, t, WriteLoad)
    case WriteUnlock => Goto(s, t, UnlockCheck)
    case ReadLock => Goto(s, t, ReadLoad)
    case ReadUnlock => Goto(s, t, ReadSub)
  }

  /** Both 16-bit counters still tell the truth; 65536 nested write holds are the most that do. */
  predicate Fits(a: Rw) {
    |a.readers| <= 0xFFFF && a.depth <= HALF
  }

  // ----- the callers -----

  /** The call a thread is in, and how many steps of the abstract lock it has taken so far. */
  datatype Running = Outside | Doing(op: Op, effects: nat)

  /** Lock calls that returned minus unlock calls that began. */
  datatype Client = Client(writeHolds: nat, readHolds: nat, running: Running)

  datatype World = World(sys: Sys, clients: map<Thread, Client>)

  datatype Action = Call(thread: Thread, op: Op) | Advance(thread: Thread) | Timeout(thread: Thread)

  /** Callers release only what their own calls acquired, as the two guard classes of Lock.h do. */
  predicate Enabled(w: World, a: Action) {
    && w.sys.crash == None && a.thread in w.sys.pc && a.thread in w.clients
    && var c := w.clients[a.thread];
       match a
       case Call(_, op) =>
         && c.running == Outside && (op == WriteUnlock ==> c.writeHolds > 0) && (op == ReadUnlock ==> c.readHolds > 0)
       case Advance(_) => c.running != Outside
       case Timeout(t) => w.sys.pc[t].WriteSpin? || w.sys.pc[t].ReadSpinLoad?
  }

  function Begun(c: Client, op: Op): Client {
    match op
    case WriteLock => c.(running := Doing(op, 0))
    case WriteUnlock => Client(if c.writeHolds > 0 then c.writeHolds - 1 else 0, c.readHolds, Doing(op, 0))
    case ReadLock => c.(running := Doing(op, 0))
    case ReadUnlock => Client(c.writeHolds, if c.readHolds > 0 then c.readHolds - 1 else 0, Doing(op, 0))
  }

  function Returned(c: Client, op: Op): Client {
    match op
    case WriteLock => Client(c.writeHolds + 1, c.readHolds, Outside)
    case ReadLock => Client(c.writeHolds, c.readHolds + 1, Outside)
    case _ => c.(running := Outside)
  }

  /** A client sees only whether its call has returned. */
  function Observed(c: Client, before: Rw, after: Rw, returned: bool): Client
    requires c.running.Doing?
  {
    if returned then Returned(c, c.running.op)
    else if after != before then c.(running := Doing(c.running.op, c.running.effects + 1))
    else c
  }

  function Next(w: World, a: Action): World
    requires Enabled(w, a)
  {
    match a
    case Call(t, op) => World(Enter(w.sys, t, op), w.clients[t := Begun(w.clients[t], op)])
    case Advance(t) =>
      var sys' := Move(w.sys, t);
      World(sys', w.clients[t := Observed(w.clients[t], w.sys.rw, sys'.rw, sys'.pc[t] == Idle)])
    case Timeout(t) => w.(sys := w.sys.(crash := Crashed(LockTimeout, t)))
  }

  predicate Initial(w: World) {
    && w.sys.flag == EMPTY_FLAG && w.sys.writeCount == 0 && w.sys.rw == FREE && w.sys.crash == None
    && w.clients.Keys == w.sys.pc.Keys
    && forall t :: t in w.sys.pc ==> w.sys.pc[t] == Idle && w.clients[t] == Client(0, 0, Outside)
  }

  // ----- the invariant -----

  /** What a thread's position says about the abstract lock. */
  ghost predicate Positioned(s: Sys, t: Thread, pc: PC) {
    match pc
    case Idle | WriteLoad | ReadLoad => true
    case NestedLoad => s.rw.owner == t
    case NestedStore(tmp) => s.rw.owner == t && tmp == s.writeCount
    case WriteSpin | ReadSpinLoad => s.rw.owner != t
    case OuterLoad => s.rw.owner == t && s.rw.readers == multiset{}
    case OuterStore(tmp) => s.rw.owner == t && tmp == 0 && s.rw.readers == multiset{}
    case UnlockCheck => s.rw.owner == t
    case UncountLoad => s.rw.owner == t && s.rw.readers == multiset{}
    case UncountStore(tmp) => s.rw.owner == t && s.rw.readers == multiset{} && tmp == s.writeCount
    case Clear => s.rw.owner == t && s.rw.readers == multiset{}
    case ReadAdd => s.rw.owner == t
    case ReadSpinCas(expected) => s.rw.owner != t && 0 <= expected <= READ_COUNT_MASK
    case ReadSub => t in s.rw.readers
  }

  /** The owner has entered the lock but not yet counted itself, or has already uncounted itself. */
  predicate InFlight(pc: PC) {
    pc.OuterLoad? || pc.OuterStore? || pc.Clear?
  }

  ghost predicate Inv(s: Sys) {
    && RwInv(s.rw)
    && (s.crash == None || s.crash.cause != MultipleUnlock)
    && s.flag == s.rw.owner * HALF + |s.rw.readers|
    && (s.rw.owner == 0 ==> s.writeCount == 0)
    && (s.rw.owner != 0 ==>
          && s.rw.owner in s.pc
          && if InFlight(s.pc[s.rw.owner]) then s.rw.depth == 1 && s.writeCount == 0
             else s.writeCount == s.rw.depth % HALF)
    && (forall t :: t in s.pc ==> Positioned(s, t, s.pc[t]))
  }

  lemma FlagParts(owner: int, count: int)
    requires 0 <= owner <= 0xFFFF && 0 <= count <= 0xFFFF
    ensures WriterId(owner * HALF + count) == owner
    ensures ReadCount(owner * HALF + count) == count
    ensures owner * HALF + count < WORD
  {
  }

  lemma OnlyOwnersReads(a: Rw, t: Thread)
    requires RwInv(a) && a.owner == t
    ensures |a.readers| == a.readers[t]
    ensures t !in a.readers ==> a.readers == multiset{}
  {
    assert a.readers == multiset{}[t := a.readers[t]];
  }

  /** What a step of thread `t` has to get right for itself. */
  ghost predicate Sound(s: Sys, t: Thread, s': Sys) {
    && t in s.pc && s'.pc.Keys == s.pc.Keys
    && (forall u :: u in s.pc && u != t ==> s'.pc[u] == s.pc[u])
    && Positioned(s', t, s'.pc[t])
    && (s'.rw == s.rw || RwStep(s.rw, t, s'.rw))
    && (s'.writeCount == s.writeCount || s.rw.owner == t)
    && (s'.rw.owner == t ==>
          if InFlight(s'.pc[t]) then s'.rw.depth == 1 && s'.writeCount == 0
          else s'.writeCount == s'.rw.depth % HALF)
    && (s'.rw.owner == 0 && s.rw.owner == t ==> s'.writeCount == 0)
    && s'.flag == s'.rw.owner * HALF + |s'.rw.readers|
    && (s'.crash == None || s'.crash.cause != MultipleUnlock)
  }

  lemma RwStepKeepsInv(a: Rw, t: Thread, b: Rw)
    requires RwInv(a) && RwStep(a, t, b)
    ensures RwInv(b) && (b.owner == a.owner || b.owner == t || (b.owner == 0 && a.owner == t))
  {
  }

  /** Nobody else's position is disturbed. */
  lemma OthersStay(s: Sys, t: Thread, s': Sys, u: Thread)
    requires Inv(s) && Sound(s, t, s') && u in s.pc && u != t
    ensures Positioned(s', u, s'.pc[u])
  {
    assert Positioned(s, u, s.pc[u]);
    if s'.rw != s.rw {
      RwStepKeepsInv(s.rw, t, s'.rw);
    }
  }

  lemma SoundKeepsInv(s: Sys, t: Thread, s': Sys)
    requires Inv(s) && Sound(s, t, s')
    ensures Inv(s')
  {
    if s'.rw != s.rw {
      RwStepKeepsInv(s.rw, t, s'.rw);
    }
    forall u | u in s'.pc ensures Positioned(s', u, s'.pc[u]) {
      if u != t {
        OthersStay(s, t, s', u);
      }
    }
  }

  ghost predicate Ready(s: Sys, t: Thread) {
    Inv(s) && s.crash == None && t in s.pc && Fits(s.rw) && Fits(Move(s, t).rw)
  }

  lemma WriteMoves(s: Sys, t: Thread)
    requires Ready(s, t) && (s.pc[t].WriteLoad? || s.pc[t].WriteSpin?)
    ensures Sound(s, t, Move(s, t))
  {
    FlagParts(s.rw.owner, |s.rw.readers|);
    assert Positioned(s, t, s.pc[t]);
  }

  lemma CountMoves(s: Sys, t: Thread)
    requires Ready(s, t)
    requires s.pc[t].NestedLoad? || s.pc[t].NestedStore? || s.pc[t].OuterLoad? || s.pc[t].OuterStore?
    ensures Sound(s, t, Move(s, t))
  {
    assert Positioned(s, t, s.pc[t]);
  }

  lemma UnlockMoves(s: Sys, t: Thread)
    requires Ready(s, t)
    requires s.pc[t].UnlockCheck? || s.pc[t].UncountLoad? || s.pc[t].UncountStore? || s.pc[t].Clear?
    ensures Sound(s, t, Move(s, t))
  {
    FlagParts(s.rw.owner, |s.rw.readers|);
    assert Positioned(s, t, s.pc[t]);
  }

  lemma ReadLoadMoves(s: Sys, t: Thread)
    requires Ready(s, t) && (s.pc[t].ReadLoad? || s.pc[t].ReadSpinLoad?)
    ensures Sound(s, t, Move(s, t))
  {
    FlagParts(s.rw.owner, |s.rw.readers|);
    assert Positioned(s, t, s.pc[t]);
  }

  lemma ReadAddMoves(s: Sys, t: Thread)
    requires Ready(s, t) && s.pc[t].ReadAdd?
    ensures Sound(s, t, Move(s, t))
  {
    FlagParts(s.rw.owner, |s.rw.readers| + 1);
    assert Positioned(s, t, s.pc[t]);
    assert AcquireRead(s.rw, t, Move(s, t).rw);
  }

  lemma ReadCasMoves(s: Sys, t: Thread)
    requires Ready(s, t) && s.pc[t].ReadSpinCas?
    ensures Sound(s, t, Move(s, t))
  {
    FlagParts(s.rw.owner, |s.rw.readers|);
    assert Positioned(s, t, s.pc[t]);
    if s.flag == s.pc[t].expected {
      assert AcquireRead(s.rw, t, Move(s, t).rw);
    }
  }

  lemma ReadUnlockMoves(s: Sys, t: Thread)
    requires Ready(s, t) && s.pc[t].ReadSub?
    ensures Sound(s, t, Move(s, t)) && Move(s, t).crash == None
  {
    FlagParts(s.rw.owner, |s.rw.readers|);
    assert Positioned(s, t, s.pc[t]);
    assert |s.rw.readers - multiset{t}| == |s.rw.readers| - 1;
    assert ReadCount(s.flag) == |s.rw.readers| != 0;
    assert ReleaseRead(s.rw, t, Move(s, t).rw);
  }

  /** One access of one thread keeps the invariant of the word and the counter. */
  lemma MoveKeepsInv(s: Sys, t: Thread)
    requires Ready(s, t)
    ensures Inv(Move(s, t))
  {
    match s.pc[t]
    case Idle =>
    case WriteLoad | WriteSpin =>
      WriteMoves(s, t);
      SoundKeepsInv(s, t, Move(s, t));
    case NestedLoad | NestedStore(_) | OuterLoad | OuterStore(_) =>
      CountMoves(s, t);
      SoundKeepsInv(s, t, Move(s, t));
    case UnlockCheck | UncountLoad | UncountStore(_) | Clear =>
      UnlockMoves(s, t);
      SoundKeepsInv(s, t, Move(s, t));
    case ReadLoad | ReadSpinLoad =>
      ReadLoadMoves(s, t);
      SoundKeepsInv(s, t, Move(s, t));
    case ReadAdd =>
      ReadAddMoves(s, t);
      SoundKeepsInv(s, t, Move(s, t));
    case ReadSpinCas(_) =>
      ReadCasMoves(s, t);
      SoundKeepsInv(s, t, Move(s, t));
    case ReadSub =>
      ReadUnlockMoves(s, t);
      SoundKeepsInv(s, t, Move(s, t));
  }

  // ----- each call does what it is called for -----

  /** The step of the abstract lock a call is for. */
  predicate OwnStep(op: Op, a: Rw, t: Thread, b: Rw) {
    match op
    case WriteLock => AcquireWrite(a, t, b)
    case WriteUnlock => ReleaseWrite(a, t, b)
    case ReadLock => AcquireRead(a, t, b)
    case ReadUnlock => ReleaseRead(a, t, b)
  }

  /** The operation a position belongs to. */
  function OpAt(pc: PC): Op
    requires pc != Idle
  {
    match pc
    case UnlockCheck => WriteUnlock
    case UncountLoad => WriteUnlock
    case UncountStore(_) => WriteUnlock
    case Clear => WriteUnlock
    case ReadLoad => ReadLock
    case ReadAdd => ReadLock
    case ReadSpinLoad => ReadLock
    case ReadSpinCas(_) => ReadLock
    case ReadSub => ReadUnlock
    case _ => WriteLock
  }

  /** Whether the call has taken its step of the abstract lock already: only the first write hold is
      counted after it. */
  function EffectsAt(pc: PC): nat {
    if pc.OuterLoad? || pc.OuterStore? then 1 else 0
  }

  function WritesOf(a: Rw, t: Thread): nat { if a.owner == t then a.depth else 0 }

  /** The client's counts are what the abstract lock grants the thread, up to the call under way. */
  predicate ClientInv(a: Rw, t: Thread, pc: PC, c: Client) {
    match c.running
    case Outside => pc == Idle && WritesOf(a, t) == c.writeHolds && a.readers[t] == c.readHolds
    case Doing(op, n) =>
      && pc != Idle && OpAt(pc) == op && n == EffectsAt(pc)
      && WritesOf(a, t) == c.writeHolds + (if op == WriteLock then n else if op == WriteUnlock then 1 - n else 0)
      && a.readers[t] == c.readHolds + (if op == ReadLock then n else if op == ReadUnlock then 1 - n else 0)
  }

  ghost predicate ClientsInv(s: Sys, clients: map<Thread, Client>) {
    clients.Keys == s.pc.Keys && forall t :: t in clients ==> ClientInv(s.rw, t, s.pc[t], clients[t])
  }

  ghost predicate WorldInv(w: World) {
    Inv(w.sys) && ClientsInv(w.sys, w.clients)
  }

  /** A step of one thread grants nothing to another and takes nothing from it. */
  lemma StepSparesOthers(a: Rw, t: Thread, b: Rw, u: Thread)
    requires RwInv(a) && RwStep(a, t, b) && u != t
    ensures WritesOf(b, u) == WritesOf(a, u) && b.readers[u] == a.readers[u]
  {
  }

  /** What one access does, by the call it belongs to: nothing, or that call's own step if it has not
      been taken yet; and the call does not return without it. */
  predicate Effective(s: Sys, t: Thread, s': Sys)
    requires t in s.pc && s.pc[t] != Idle && t in s'.pc
  {
    var op, n := OpAt(s.pc[t]), EffectsAt(s.pc[t]);
    var n' := if s'.rw == s.rw then n else n + 1;
    && (s'.rw == s.rw || (n == 0 && OwnStep(op, s.rw, t, s'.rw)))
    && if s'.pc[t] == Idle then n' == 1 else OpAt(s'.pc[t]) == op && n' == EffectsAt(s'.pc[t])
  }

  lemma WriteIsEffective(s: Sys, t: Thread)
    requires Ready(s, t) && s.pc[t] != Idle && OpAt(s.pc[t]) == WriteLock
    ensures Effective(s, t, Move(s, t))
  {
    FlagParts(s.rw.owner, |s.rw.readers|);
    assert Positioned(s, t, s.pc[t]);
    if |s.rw.readers| == 0 {
      assert s.rw.readers == multiset{};
    }
  }

  lemma WriteUnlockIsEffective(s: Sys, t: Thread)
    requires Ready(s, t) && s.pc[t] != Idle && OpAt(s.pc[t]) == WriteUnlock
    ensures Effective(s, t, Move(s, t))
  {
    FlagParts(s.rw.owner, |s.rw.readers|);
    assert Positioned(s, t, s.pc[t]);
  }

  lemma ReadIsEffective(s: Sys, t: Thread)
    requires Ready(s, t) && s.pc[t] != Idle && OpAt(s.pc[t]) == ReadLock
    ensures Effective(s, t, Move(s, t))
  {
    FlagParts(s.rw.owner, |s.rw.readers|);
    assert Positioned(s, t, s.pc[t]);
    assert s.rw.readers + multiset{t} != s.rw.readers by {
      assert (s.rw.readers + multiset{t})[t] == s.rw.readers[t] + 1;
    }
  }

  lemma ReadUnlockIsEffective(s: Sys, t: Thread)
    requires Ready(s, t) && s.pc[t] != Idle && OpAt(s.pc[t]) == ReadUnlock
    ensures Effective(s, t, Move(s, t))
  {
    ReadUnlockMoves(s, t);
    assert Positioned(s, t, s.pc[t]);
    assert (s.rw.readers - multiset{t})[t] == s.rw.readers[t] - 1;
  }

  lemma MoveIsEffective(s: Sys, t: Thread)
    requires Ready(s, t) && s.pc[t] != Idle
    ensures Effective(s, t, Move(s, t))
  {
    match OpAt(s.pc[t])
    case WriteLock => WriteIsEffective(s, t);
    case WriteUnlock => WriteUnlockIsEffective(s, t);
    case ReadLock => ReadIsEffective(s, t);
    case ReadUnlock => ReadUnlockIsEffective(s, t);
  }

  /** The own step of a call moves exactly the count the call is about. */
  lemma OwnStepCounts(op: Op, a: Rw, t: Thread, b: Rw)
    requires RwInv(a) && OwnStep(op, a, t, b)
    ensures WritesOf(b, t) == WritesOf(a, t) + (if op == WriteLock then 1 else if op == WriteUnlock then -1 else 0)
    ensures b.readers[t] == a.readers[t] + (if op == ReadLock then 1 else if op == ReadUnlock then -1 else 0)
  {
  }

  lemma AdvanceKeepsClient(s: Sys, t: Thread, c: Client)
    requires Ready(s, t) && c.running != Outside && ClientInv(s.rw, t, s.pc[t], c)
    ensures var s' := Move(s, t);
            ClientInv(s'.rw, t, s'.pc[t], Observed(c, s.rw, s'.rw, s'.pc[t] == Idle))
  {
    var s' := Move(s, t);
    MoveIsEffective(s, t);
    if s'.rw != s.rw {
      OwnStepCounts(OpAt(s.pc[t]), s.rw, t, s'.rw);
    }
  }

  /** Nobody else's counts are disturbed. */
  lemma OtherKeepsClient(s: Sys, t: Thread, s': Sys, u: Thread, pc: PC, c: Client)
    requires RwInv(s.rw) && u != t && (s'.rw == s.rw || RwStep(s.rw, t, s'.rw)) && ClientInv(s.rw, u, pc, c)
    ensures ClientInv(s'.rw, u, pc, c)
  {
    if s'.rw != s.rw {
      StepSparesOthers(s.rw, t, s'.rw, u);
    }
  }

  lemma MoveIsLocal(s: Sys, t: Thread)
    requires t in s.pc
    ensures var pc' := Move(s, t).pc; pc'.Keys == s.pc.Keys && forall u :: u in s.pc && u != t ==> pc'[u] == s.pc[u]
  {
  }

  lemma ClientsStay(s: Sys, t: Thread, s': Sys, clients: map<Thread, Client>, c: Client)
    requires RwInv(s.rw) && ClientsInv(s, clients) && t in s.pc && s'.pc.Keys == s.pc.Keys
    requires forall u :: u in s.pc && u != t ==> s'.pc[u] == s.pc[u]
    requires (s'.rw == s.rw || RwStep(s.rw, t, s'.rw)) && ClientInv(s'.rw, t, s'.pc[t], c)
    ensures ClientsInv(s', clients[t := c])
  {
    forall u | u in s'.pc
      ensures ClientInv(s'.rw, u, s'.pc[u], clients[t := c][u])
    {
      if u != t {
        assert ClientInv(s.rw, u, s.pc[u], clients[u]);
        OtherKeepsClient(s, t, s', u, s.pc[u], clients[u]);
      }
    }
  }

  lemma AdvanceKeepsInv(w: World, t: Thread)
    requires WorldInv(w) && Ready(w.sys, t) && Enabled(w, Advance(t))
    ensures WorldInv(Next(w, Advance(t))) && Effective(w.sys, t, Move(w.sys, t))
  {
    assert ClientInv(w.sys.rw, t, w.sys.pc[t], w.clients[t]);
    MoveIsLocal(w.sys, t);
    MoveKeepsInv(w.sys, t);
    MoveIsEffective(w.sys, t);
    AdvanceKeepsClient(w.sys, t, w.clients[t]);
    ClientsStay(w.sys, t, Move(w.sys, t), w.clients, Next(w, Advance(t)).clients[t]);
  }

  /** Entering a lock asks for nothing; entering an unlock needs the hold the client's count proves. */
  lemma EnterIsPositioned(s: Sys, t: Thread, op: Op, c: Client)
    requires t in s.pc && ClientInv(s.rw, t, s.pc[t], c) && c.running == Outside
    requires (op == WriteUnlock ==> c.writeHolds > 0) && (op == ReadUnlock ==> c.readHolds > 0)
    ensures Positioned(Enter(s, t, op), t, Enter(s, t, op).pc[t])
    ensures ClientInv(s.rw, t, Enter(s, t, op).pc[t], Begun(c, op))
  {
  }

  lemma CallKeepsInv(w: World, t: Thread, op: Op)
    requires WorldInv(w) && Enabled(w, Call(t, op))
    ensures WorldInv(Next(w, Call(t, op)))
  {
    var s, s', w' := w.sys, Enter(w.sys, t, op), Next(w, Call(t, op));
    EnterIsPositioned(s, t, op, w.clients[t]);
    assert s' == s.(pc := s.pc[t := s'.pc[t]]) && !InFlight(s'.pc[t]) && !InFlight(s.pc[t]);
    forall u | u in s'.pc
      ensures Positioned(s', u, s'.pc[u]) && ClientInv(s'.rw, u, s'.pc[u], w'.clients[u])
    {
      if u != t {
        assert Positioned(s, u, s.pc[u]) && ClientInv(s.rw, u, s.pc[u], w.clients[u]);
      }
    }
  }

  lemma TimeoutKeepsInv(w: World, t: Thread)
    requires WorldInv(w) && Enabled(w, Timeout(t))
    ensures WorldInv(Next(w, Timeout(t)))
  {
    var s' := Next(w, Timeout(t)).sys;
    forall u | u in s'.pc ensures Positioned(s', u, s'.pc[u]) {
      assert Positioned(w.sys, u, w.sys.pc[u]);
    }
  }

  /** Refinement, one step: the invariant survives; the abstract lock does not move, or takes the step
      that the call of the moving thread is for, and that call had not taken it before. */
  lemma StepRefines(w: World, a: Action)
    requires WorldInv(w) && Enabled(w, a) && Fits(w.sys.rw) && Fits(Next(w, a).sys.rw)
    ensures WorldInv(Next(w, a))
    ensures var rw, rw' := w.sys.rw, Next(w, a).sys.rw;
            rw' == rw || (a.Advance? && w.clients[a.thread].running.Doing?
                          && w.clients[a.thread].running.effects == 0
                          && OwnStep(w.clients[a.thread].running.op, rw, a.thread, rw'))
  {
    match a
    case Call(t, op) => CallKeepsInv(w, t, op);
    case Timeout(t) => TimeoutKeepsInv(w, t);
    case Advance(t) =>
      AdvanceKeepsInv(w, t);
      assert ClientInv(w.sys.rw, t, w.sys.pc[t], w.clients[t]);
  }

  // ----- whole runs -----

  /** `states` is what the actions make of the first state, in whatever order the threads act. */
  ghost predicate IsRun(states: seq<World>, actions: seq<Action>) {
    && |states| == |actions| + 1
    && Initial(states[0])
    && (forall i :: 0 <= i < |states| ==> Fits(states[i].sys.rw))
    && (forall i :: 0 <= i < |actions| ==> StepAt(states, actions, i))
  }

  ghost predicate StepAt(states: seq<World>, actions: seq<Action>, i: nat)
    requires |states| == |actions| + 1 && i < |actions|
  {
    Enabled(states[i], actions[i]) && states[i + 1] == Next(states[i], actions[i])
  }

  lemma {:induction false} RunKeepsInv(states: seq<World>, actions: seq<Action>, k: nat)
    requires IsRun(states, actions) && k < |states|
    ensures WorldInv(states[k])
  {
    if k == 0 {
    } else {
      RunKeepsInv(states, actions, k - 1);
      assert StepAt(states, actions, k - 1) && Fits(states[k].sys.rw);
      StepRefines(states[k - 1], actions[k - 1]);
    }
  }

  /** Refinement: along every run the abstract lock starts free, and each change of it is the step that
      some thread's current call is for. */
  lemma RunRefinesAbstractLock(states: seq<World>, actions: seq<Action>, i: nat)
    requires IsRun(states, actions) && i < |actions|
    ensures states[0].sys.rw == FREE
    ensures var a, rw, rw' := actions[i], states[i].sys.rw, states[i + 1].sys.rw;
            rw' == rw || (a.Advance? && a.thread in states[i].clients && states[i].clients[a.thread].running.Doing?
                          && OwnStep(states[i].clients[a.thread].running.op, rw, a.thread, rw'))
  {
    RunKeepsInv(states, actions, i);
    assert StepAt(states, actions, i) && Fits(states[i].sys.rw) && Fits(states[i + 1].sys.rw);
    StepRefines(states[i], actions[i]);
  }

  /** A thread between calls holds what its calls say: lock calls that returned minus unlock calls. */
  lemma HoldsAreExact(states: seq<World>, actions: seq<Action>, k: nat, t: Thread)
    requires IsRun(states, actions) && k < |states| && t in states[k].clients
    requires states[k].clients[t].running == Outside
    ensures WritesOf(states[k].sys.rw, t) == states[k].clients[t].writeHolds
    ensures states[k].sys.rw.readers[t] == states[k].clients[t].readHolds
  {
    RunKeepsInv(states, actions, k);
  }

  /** Mutual exclusion, as the callers see it: while one thread is inside a write lock that returned to
      it, no other thread is inside any lock that returned to it. */
  lemma WritersExclude(states: seq<World>, actions: seq<Action>, k: nat, t: Thread, u: Thread)
    requires IsRun(states, actions) && k < |states| && t in states[k].clients && u in states[k].clients && t != u
    requires states[k].clients[t].writeHolds > 0
    ensures states[k].clients[u].writeHolds == 0 && states[k].clients[u].readHolds == 0
  {
    RunKeepsInv(states, actions, k);
    assert ClientInv(states[k].sys.rw, t, states[k].sys.pc[t], states[k].clients[t]);
    assert ClientInv(states[k].sys.rw, u, states[k].sys.pc[u], states[k].clients[u]);
  }

  /** How often the abstract lock moved at steps of `t` from `from` up to `to`. */
  ghost function Effects(states: seq<World>, actions: seq<Action>, t: Thread, from: nat, to: nat): nat
    requires |states| == |actions| + 1 && from <= to <= |actions|
  {
    if from == to then 0
    else
      var k := to - 1;
      Effects(states, actions, t, from, k)
      + if actions[k] == Advance(t) && states[k + 1].sys.rw != states[k].sys.rw then 1 else 0
  }

  /** The call that began at step `i` is still running in every state up to `j`. */
  ghost predicate RunningFrom(states: seq<World>, t: Thread, i: nat, j: nat) {
    j < |states| && forall k :: i < k <= j ==> t in states[k].clients && states[k].clients[t].running != Outside
  }

  lemma RunningCallGoesOn(w: World, a: Action, t: Thread, op: Op, n: nat)
    requires Enabled(w, a) && t in w.clients && w.clients[t].running == Doing(op, n)
    requires Next(w, a).clients[t].running != Outside
    ensures Next(w, a).clients[t].running
         == Doing(op, if a == Advance(t) && Next(w, a).sys.rw != w.sys.rw then n + 1 else n)
  {
  }

  lemma {:induction false} EffectsSoFar(states: seq<World>, actions: seq<Action>, t: Thread, op: Op, i: nat, j: nat)
    requires IsRun(states, actions) && i < j <= |actions| && actions[i] == Call(t, op)
    requires RunningFrom(states, t, i, j)
    ensures states[j].clients[t].running == Doing(op, Effects(states, actions, t, i + 1, j))
  {
    assert StepAt(states, actions, j - 1);
    if j == i + 1 {
    } else {
      assert RunningFrom(states, t, i, j - 1);
      EffectsSoFar(states, actions, t, op, i, j - 1);
      RunningCallGoesOn(states[j - 1], actions[j - 1], t, op, Effects(states, actions, t, i + 1, j - 1));
    }
  }

  /** Between its call and its return, every operation takes exactly one step of the abstract lock. */
  lemma CallTakesEffectOnce(states: seq<World>, actions: seq<Action>, t: Thread, op: Op, i: nat, j: nat)
    requires IsRun(states, actions) && i < j < |actions| && actions[i] == Call(t, op)
    requires RunningFrom(states, t, i, j)
    requires t in states[j + 1].clients && states[j + 1].clients[t].running == Outside
    ensures Effects(states, actions, t, i + 1, j + 1) == 1
  {
    EffectsSoFar(states, actions, t, op, i, j);
    RunKeepsInv(states, actions, j);
    assert StepAt(states, actions, j) && Fits(states[j].sys.rw) && Fits(states[j + 1].sys.rw);
    assert ClientInv(states[j].sys.rw, t, states[j].sys.pc[t], states[j].clients[t]);
    MoveIsEffective(states[j].sys, t);
  }

  /** The word decodes to the owner and the number of read holds; an owner's read holds are all its
      own; the recursion counter is the owner's depth up to one update in flight. */
  lemma OwnerExcludesOthers(s: Sys, t: Thread)
    requires Inv(s) && Fits(s.rw)
    ensures FlagTellsTruth(s)
    ensures s.rw.owner != 0 && t != s.rw.owner ==> t !in s.rw.readers
    ensures s.rw.owner == 0 || s.writeCount == s.rw.depth % HALF
         || (s.writeCount == 0 && s.rw.depth == 1 && InFlight(s.pc[s.rw.owner]))
  {
    FlagParts(s.rw.owner, |s.rw.readers|);
  }

  ghost predicate FlagTellsTruth(s: Sys) {
    WriterId(s.flag) == s.rw.owner && ReadCount(s.flag) == |s.rw.readers|
  }

  /** The write CAS succeeds exactly when nobody holds anything, the caller's own reads included;
      the read CAS exactly when nobody owns and the read count has not moved. */
  lemma CasIsExact(s: Sys, t: Thread)
    requires Inv(s) && Fits(s.rw) && t in s.pc
    ensures s.pc[t].WriteSpin? ==> (Move(s, t).pc[t].OuterLoad? <==> s.rw == FREE)
    ensures s.pc[t].ReadSpinCas? ==>
              (Move(s, t).pc[t].Idle? <==> s.rw.owner == 0 && |s.rw.readers| == s.pc[t].expected)
  {
    FlagParts(s.rw.owner, |s.rw.readers|);
    assert Positioned(s, t, s.pc[t]);
    if |s.rw.readers| == 0 {
      assert s.rw.readers == multiset{};
    }
  }

  /** Of all accesses only the check of a write release can crash, and it does exactly when its own thread
      still holds a read. */
  lemma UnlockCrashesExactly(s: Sys, t: Thread)
    requires Inv(s) && Fits(s.rw) && s.crash == None && t in s.pc
    ensures Move(s, t).crash != None <==> s.pc[t].UnlockCheck? && t in s.rw.readers
    ensures Move(s, t).crash != None ==> Move(s, t).crash == Crashed(InvalidUnlockOrder, t)
  {
    FlagParts(s.rw.owner, |s.rw.readers|);
    assert Positioned(s, t, s.pc[t]);
    if s.rw.owner == t {
      OnlyOwnersReads(s.rw, t);
    }
    if t in s.rw.readers {
      assert |s.rw.readers| >= s.rw.readers[t];
    }
  }

  // ----- how soon calls return -----

  /** The most accesses a call still makes from here, as long as no CAS fails. */
  function Remaining(pc: PC): nat {
    match pc
    case Idle => 0
    case NestedStore(_) | OuterStore(_) | Clear | ReadAdd | ReadSpinCas(_) | ReadSub => 1
    case NestedLoad | OuterLoad | UncountStore(_) | ReadSpinLoad => 2
    case WriteSpin | UncountLoad | ReadLoad => 3
    case WriteLoad | UnlockCheck => 4
  }

  /** Every access that does not crash brings its call closer to its return, except a CAS that fails
      because of what others hold. */
  lemma EveryAccessAdvances(s: Sys, t: Thread)
    requires Inv(s) && Fits(s.rw) && s.crash == None && t in s.pc && s.pc[t] != Idle
    requires s.pc[t].WriteSpin? ==> s.rw == FREE
    requires s.pc[t].ReadSpinCas? ==> s.rw.owner == 0 && |s.rw.readers| == s.pc[t].expected
    requires !(s.pc[t].UnlockCheck? && t in s.rw.readers)
    ensures Remaining(Move(s, t).pc[t]) < Remaining(s.pc[t])
  {
    FlagParts(s.rw.owner, |s.rw.readers|);
    assert Positioned(s, t, s.pc[t]);
    UnlockCrashesExactly(s, t);
  }

  /** A read that loads the count and is not disturbed before its CAS gets the lock, unless it is owned. */
  lemma UndisturbedReadEnters(s: Sys, t: Thread)
    requires Inv(s) && Fits(s.rw) && t in s.pc && s.pc[t].ReadSpinLoad? && s.rw.owner == 0
    ensures var s' := Move(Move(s, t), t);
            s'.pc[t] == Idle && s'.rw == Rw(0, 0, s.rw.readers + multiset{t})
  {
    FlagParts(s.rw.owner, |s.rw.readers|);
  }

  /** A read release returns after one access, with one read hold less. */
  lemma ReadUnlockReturns(s: Sys, t: Thread)
    requires Inv(s) && Fits(s.rw) && s.crash == None && t in s.pc && s.pc[t].ReadSub?
    ensures Move(s, t).pc[t] == Idle && Move(s, t).crash == None
    ensures Move(s, t).rw == s.rw.(readers := s.rw.readers - multiset{t})
  {
    FlagParts(s.rw.owner, |s.rw.readers|);
    assert Positioned(s, t, s.pc[t]);
    assert |s.rw.readers| >= s.rw.readers[t];
  }

  /** The accesses of a write release. */
  predicate Unlocking(pc: PC) { pc.UnlockCheck? || pc.UncountLoad? || pc.UncountStore? || pc.Clear? }

  /** Unlocking never waits: with no read held, each access of a write release brings it closer to its
      return, whatever others do in between, and the one that returns has given back one hold. */
  lemma WriteUnlockNeverWaits(s: Sys, t: Thread)
    requires Inv(s) && Fits(s.rw) && s.crash == None && t in s.pc && Unlocking(s.pc[t]) && t !in s.rw.readers
    ensures var s' := Move(s, t);
            && s'.crash == None && Remaining(s'.pc[t]) < Remaining(s.pc[t])
            && (s'.pc[t] == Idle
                <==> s'.rw == if s.rw.depth > 1 then s.rw.(depth := s.rw.depth - 1) else FREE)
            && (s'.pc[t] != Idle ==> Unlocking(s'.pc[t]) && s'.rw == s.rw)
  {
    FlagParts(s.rw.owner, |s.rw.readers|);
    assert Positioned(s, t, s.pc[t]);
    OnlyOwnersReads(s.rw, t);
    UnlockCrashesExactly(s, t);
    EveryAccessAdvances(s, t);
  }

  /** The read count is sound exactly as long as it fits 16 bits: one more hold carries into the
      writer id. */
  lemma ReadOverflowIsExact(s: Sys, t: Thread)
    requires Inv(s) && Fits(s.rw) && t in s.pc
    requires s.pc[t].ReadAdd? || (s.pc[t].ReadSpinCas? && s.flag == s.pc[t].expected)
    ensures FlagTellsTruth(Move(s, t)) <==> |s.rw.readers| < 0xFFFF
  {
    FlagParts(s.rw.owner, |s.rw.readers|);
    assert Positioned(s, t, s.pc[t]);
  }

  // ----- states that runs reach -----

  ghost predicate Reachable(w: World) {
    exists states, actions :: IsRun(states, actions) && states[|states| - 1] == w
  }

  lemma StartIsReachable(w: World)
    requires Initial(w)
    ensures Reachable(w)
  {
    var states, actions: seq<Action> := [w], [];
    assert IsRun(states, actions) && states[|states| - 1] == w;
  }

  lemma StepIsReachable(w: World, a: Action)
    requires Reachable(w) && Enabled(w, a) && Fits(Next(w, a).sys.rw)
    ensures Reachable(Next(w, a))
  {
    var states, actions :| IsRun(states, actions) && states[|states| - 1] == w;
    var longer, more := states + [Next(w, a)], actions + [a];
    forall i | 0 <= i < |more| ensures StepAt(longer, more, i) {
      assert i < |actions| ==> StepAt(states, actions, i);
    }
    assert IsRun(longer, more) && longer[|longer| - 1] == Next(w, a);
  }

  /** One call of `t` and the accesses it makes, undisturbed. */
  ghost predicate Steps(w: World, t: Thread, n: nat, w': World)
    decreases n
  {
    if n == 0 then w' == w
    else Enabled(w, Advance(t)) && Fits(Next(w, Advance(t)).sys.rw) && Steps(Next(w, Advance(t)), t, n - 1, w')
  }

  lemma {:induction false} StepsAreReachable(w: World, t: Thread, n: nat, w': World)
    requires Reachable(w) && Steps(w, t, n, w')
    ensures Reachable(w')
    decreases n
  {
    if n == 0 {
    } else {
      var next := Next(w, Advance(t));
      assert Fits(next.sys.rw) && Steps(next, t, n - 1, w');
      StepIsReachable(w, Advance(t));
      StepsAreReachable(next, t, n - 1, w');
    }
  }

  lemma CallIsReachable(w: World, t: Thread, op: Op, n: nat, w': World)
    requires Reachable(w) && Enabled(w, Call(t, op)) && Fits(w.sys.rw) && Steps(Next(w, Call(t, op)), t, n, w')
    ensures Reachable(w')
  {
    StepIsReachable(w, Call(t, op));
    StepsAreReachable(Next(w, Call(t, op)), t, n, w');
  }

  // ----- write, read, write -----

  /** One thread between calls, with `n` write holds and `k` read holds. */
  function Alone(t: Thread, n: nat, k: nat): World {
    World(Sys((if n == 0 then 0 else t * HALF) + k, n % HALF, map[t := Idle],
              Rw(if n == 0 then 0 else t, n, multiset{}[t := k]), None),
          map[t := Client(n, k, Outside)])
  }

  lemma FirstWrite(t: Thread)
    ensures Steps(Next(Alone(t, 0, 0), Call(t, WriteLock)), t, 4, Alone(t, 1, 0))
  {
    var a := Next(Alone(t, 0, 0), Call(t, WriteLock));
    var b := Next(a, Advance(t));
    var c := Next(b, Advance(t));
    var d := Next(c, Advance(t));
    var e := Next(d, Advance(t));
    assert a.sys.rw == FREE && c.sys.rw == Rw(t, 1, multiset{}) && d.sys.rw == e.sys.rw == c.sys.rw;
    assert e.sys.pc == map[t := Idle] && e.clients == map[t := Client(1, 0, Outside)];
    assert e == Alone(t, 1, 0);
    assert Steps(e, t, 0, e) && Steps(d, t, 1, e) && Steps(c, t, 2, e) && Steps(b, t, 3, e);
  }

  /** The owner of a lock reads it. */
  lemma ReadInside(t: Thread)
    ensures Steps(Next(Alone(t, 1, 0), Call(t, ReadLock)), t, 2, Alone(t, 1, 1))
  {
    var a := Next(Alone(t, 1, 0), Call(t, ReadLock));
    var b := Next(a, Advance(t));
    var c := Next(b, Advance(t));
    assert a.sys.rw.readers == multiset{} && c.sys.rw.readers == multiset{t};
    assert c.sys.pc == map[t := Idle] && c.clients == map[t := Client(1, 1, Outside)];
    assert c == Alone(t, 1, 1);
    assert Steps(c, t, 0, c) && Steps(b, t, 1, c);
  }

  /** And writes it again. */
  lemma WriteInside(t: Thread)
    ensures Steps(Next(Alone(t, 1, 1), Call(t, WriteLock)), t, 3, Alone(t, 2, 1))
  {
    var a := Next(Alone(t, 1, 1), Call(t, WriteLock));
    var b := Next(a, Advance(t));
    var c := Next(b, Advance(t));
    var d := Next(c, Advance(t));
    assert d.sys.pc == map[t := Idle] && d.clients == map[t := Client(2, 1, Outside)];
    assert d == Alone(t, 2, 1);
    assert Steps(d, t, 0, d) && Steps(c, t, 1, d) && Steps(b, t, 2, d);
  }

  lemma WriteIsReachable(t: Thread)
    ensures Reachable(Alone(t, 1, 0))
  {
    assert Initial(Alone(t, 0, 0)) by {
      assert Alone(t, 0, 0).sys.rw == FREE;
    }
    StartIsReachable(Alone(t, 0, 0));
    FirstWrite(t);
    CallIsReachable(Alone(t, 0, 0), t, WriteLock, 4, Alone(t, 1, 0));
  }

  lemma ReadInWriteIsReachable(t: Thread)
    ensures Reachable(Alone(t, 1, 1))
  {
    WriteIsReachable(t);
    ReadInside(t);
    CallIsReachable(Alone(t, 1, 0), t, ReadLock, 2, Alone(t, 1, 1));
  }

  lemma NestIsReachable(t: Thread)
    ensures Reachable(Alone(t, 2, 1))
  {
    ReadInWriteIsReachable(t);
    WriteInside(t);
    CallIsReachable(Alone(t, 1, 1), t, WriteLock, 3, Alone(t, 2, 1));
  }

  /** A write release by itself: three accesses, or four for the last hold. */
  lemma WriteRelease(t: Thread, n: nat)
    requires 1 <= n <= HALF
    ensures Steps(Next(Alone(t, n, 0), Call(t, WriteUnlock)), t, if n == 1 then 4 else 3, Alone(t, n - 1, 0))
  {
    var a := Next(Alone(t, n, 0), Call(t, WriteUnlock));
    var b := Next(a, Advance(t));
    var c := Next(b, Advance(t));
    var d := Next(c, Advance(t));
    assert a.sys.rw == Rw(t, n, multiset{}) && a.sys.flag == t * HALF;
    if n == 1 {
      var e := Next(d, Advance(t));
      assert e.sys.rw == FREE && Alone(t, 0, 0).sys.rw == FREE;
      assert e.sys.pc == map[t := Idle] && e.clients == map[t := Client(0, 0, Outside)];
      assert e == Alone(t, 0, 0);
      assert Steps(e, t, 0, e) && Steps(d, t, 1, e) && Steps(c, t, 2, e) && Steps(b, t, 3, e);
    } else {
      assert d.sys.pc == map[t := Idle] && d.clients == map[t := Client(n - 1, 0, Outside)];
      assert d.sys.rw == Rw(t, n - 1, multiset{}) == Alone(t, n - 1, 0).sys.rw;
      assert d == Alone(t, n - 1, 0);
      assert Steps(d, t, 0, d) && Steps(c, t, 1, d) && Steps(b, t, 2, d);
    }
  }

  /** A read release by itself: one access. */
  lemma ReadRelease(t: Thread, u: Thread, k: nat)
    requires t != u && 1 <= k <= 0xFFFF
    ensures Steps(Next(Reading(t, u, k), Call(u, ReadUnlock)), u, 1, Reading(t, u, k - 1))
  {
    var a := Next(Reading(t, u, k), Call(u, ReadUnlock));
    var b := Next(a, Advance(u));
    var none: multiset<Thread> := multiset{};
    assert none[u := k] - multiset{u} == none[u := k - 1] && |none[u := k - 1]| == k - 1;
    assert b.sys.pc == map[t := Idle, u := Idle];
    assert b.clients == map[t := Client(0, 0, Outside), u := Client(0, k - 1, Outside)];
    assert b == Reading(t, u, k - 1);
    assert Steps(b, u, 0, b);
  }

  /** A write, a read and a write guard of one thread, nested in this order: a run reaches the inner
      release, and there it crashes. */
  lemma NestedGuardsCrash(t: Thread) returns (w: World)
    ensures Reachable(w) && Enabled(w, Advance(t)) && w.clients[t] == Client(1, 1, Doing(WriteUnlock, 0))
    ensures Next(w, Advance(t)).sys.crash == Crashed(InvalidUnlockOrder, t)
  {
    NestIsReachable(t);
    StepIsReachable(Alone(t, 2, 1), Call(t, WriteUnlock));
    w := Next(Alone(t, 2, 1), Call(t, WriteUnlock));
  }

  // ----- 65535 readers and one more -----

  /** Two threads between calls, `u` with `k` read holds. */
  function Reading(t: Thread, u: Thread, k: nat): World {
    World(Sys(k, 0, map[t := Idle, u := Idle], Rw(0, 0, multiset{}[u := k]), None),
          map[t := Client(0, 0, Outside), u := Client(0, k, Outside)])
  }

  lemma OneMoreReader(t: Thread, u: Thread, k: nat)
    requires t != u && k < 0xFFFF
    ensures Steps(Next(Reading(t, u, k), Call(u, ReadLock)), u, 3, Reading(t, u, k + 1))
  {
    var a := Next(Reading(t, u, k), Call(u, ReadLock));
    var b := Next(a, Advance(u));
    var c := Next(b, Advance(u));
    var d := Next(c, Advance(u));
    var none: multiset<Thread> := multiset{};
    assert |none[u := k]| == k && none[u := k] + multiset{u} == none[u := k + 1] && |none[u := k + 1]| == k + 1;
    assert d.sys.pc == map[t := Idle, u := Idle];
    assert d.clients == map[t := Client(0, 0, Outside), u := Client(0, k + 1, Outside)];
    assert d == Reading(t, u, k + 1);
    assert Steps(d, u, 0, d) && Steps(c, u, 1, d) && Steps(b, u, 2, d);
  }

  lemma {:induction false} ReadersAreReachable(t: Thread, u: Thread, k: nat)
    requires t != u && k <= 0xFFFF
    ensures Reachable(Reading(t, u, k))
  {
    var none: multiset<Thread> := multiset{};
    if k == 0 {
      assert none[u := 0] == multiset{};
      StartIsReachable(Reading(t, u, 0));
    } else {
      ReadersAreReachable(t, u, k - 1);
      OneMoreReader(t, u, k - 1);
      assert |none[u := k - 1]| == k - 1;
      CallIsReachable(Reading(t, u, k - 1), u, ReadLock, 3, Reading(t, u, k));
    }
  }

  lemma ReaderBeforeCas(t: Thread, u: Thread) returns (w: World)
    requires t != u
    ensures Steps(Next(Reading(t, u, 0xFFFF), Call(t, ReadLock)), t, 2, w)
    ensures w.sys.flag == 0xFFFF && w.sys.rw == Reading(t, u, 0xFFFF).sys.rw && w.sys.crash == None
    ensures w.sys.pc == map[t := ReadSpinCas(0xFFFF), u := Idle]
    ensures w.clients == map[t := Client(0, 0, Doing(ReadLock, 0)), u := Client(0, 0xFFFF, Outside)]
  {
    var none: multiset<Thread> := multiset{};
    assert |none[u := 0xFFFF]| == 0xFFFF;
    var a := Next(Reading(t, u, 0xFFFF), Call(t, ReadLock));
    var b := Next(a, Advance(t));
    w := Next(b, Advance(t));
    assert Steps(w, t, 0, w) && Steps(b, t, 1, w);
  }

  /** A run reaches 65535 read holds and a reader before its CAS; that leaves a word which names thread 1
      as the writer. */
  lemma ReadOverflowForgesWriter(t: Thread, u: Thread) returns (w: World)
    requires t != u
    ensures Reachable(w) && Enabled(w, Advance(t)) && w.sys.rw == Rw(0, 0, multiset{}[u := 0xFFFF])
    ensures var s := Next(w, Advance(t)).sys; s.rw.owner == 0 && WriterId(s.flag) == 1 && s.pc[t] == Idle
  {
    ReadersAreReachable(t, u, 0xFFFF);
    w := ReaderBeforeCas(t, u);
    CallIsReachable(Reading(t, u, 0xFFFF), t, ReadLock, 2, w);
  }

  /** The recursion counter is sound up to 65536 nested write holds and beyond whenever it does not
      read 1: a release gives the lock up, rightly, exactly when this was the last hold, unless the
      depth is 1 modulo 65536 and more than 1. */
  lemma WriteOverflowIsExact(s: Sys, t: Thread)
    requires Inv(s) && t in s.pc && s.pc[t].UncountStore?
    ensures (Move(s, t).pc[t] == Clear <==> s.rw.depth == 1) <==> !(s.rw.depth > 1 && s.rw.depth % HALF == 1)
  {
    assert Positioned(s, t, s.pc[t]);
  }

  /** With 65537 nested write holds the first release already empties the word. */
  lemma WriteOverflowReleasesEarly(s: Sys)
    requires s == Sys(5 * HALF, 1, map[5 := UncountStore(1)], Rw(5, 65537, multiset{}), None)
    ensures Inv(s) && Move(s, 5).pc[5] == Clear && Move(Move(s, 5), 5).flag == EMPTY_FLAG
  {
    assert Positioned(s, 5, s.pc[5]);
  }
}
