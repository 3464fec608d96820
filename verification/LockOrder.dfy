/** The lock-order graph of ServerCore/DeadLockProfiler.cpp, on values.

    PushLock and PopLock run under the profiler's own mutex, so a call is one atomic step whatever the
    threads do. `Push` and `Pop` say what a step does to the profile.

    The profiler knows locks by name, and all locks of one class share theirs (typeid(this).name() in
    CoreMacro.h). So the runs below are over lock instances with a name each. In a run that has not
    crashed, the locks of a circular wait all have one name; and a circular wait over several locks
    of one name is not noticed. Both together say exactly what the profiler excludes. */
module LockOrder {

  /** The lock table is keyed by `const char*`, so a name is an address, not its text. */
  type Name = nat
  type Thread = nat

  /** Lock id to the ids requested while it was the newest lock on some stack. */
  type Graph = map<int, set<int>>

  predicate Edge(g: Graph, u: int, v: int) {
    u in g && v in g[u]
  }

  function AddEdge(g: Graph, u: int, v: int): Graph {
    g[u := (if u in g then g[u] else {}) + {v}]
  }

  /** Ids are dense and no lock precedes itself. */
  ghost predicate WithinBounds(g: Graph, n: int) {
    forall u, v :: Edge(g, u, v) ==> 0 <= u < n && 0 <= v < n && u != v
  }

  ghost predicate IsPath(g: Graph, p: seq<int>) {
    forall i, j :: 0 <= i && j == i + 1 && j < |p| ==> Edge(g, p[i], p[j])
  }

  ghost predicate IsCycle(g: Graph, p: seq<int>) {
    |p| >= 2 && p[0] == p[|p| - 1] && IsPath(g, p)
  }

  ghost predicate HasCycle(g: Graph) {
    exists p :: IsCycle(g, p)
  }

  /** A ranking that falls along every edge: the certificate that there is no cycle. */
  ghost predicate Ranks(g: Graph, rank: map<int, nat>) {
    forall u, v :: Edge(g, u, v) ==> u in rank && v in rank && rank[v] < rank[u]
  }

  lemma {:induction false} RankFallsAlongPath(g: Graph, rank: map<int, nat>, p: seq<int>)
    requires Ranks(g, rank) && IsPath(g, p) && |p| >= 2
    ensures p[0] in rank && p[|p| - 1] in rank && rank[p[|p| - 1]] < rank[p[0]]
  {
    assert Edge(g, p[0], p[1]);
    if |p| > 2 {
      RankFallsAlongPath(g, rank, p[1..]);
    }
  }

  lemma RankedMeansAcyclic(g: Graph, rank: map<int, nat>)
    requires Ranks(g, rank)
    ensures !HasCycle(g)
  {
    if HasCycle(g) {
      var p :| IsCycle(g, p);
      RankFallsAlongPath(g, rank, p);
    }
  }

  // ----- reachability -----

  ghost predicate Walk(g: Graph, u: int, v: int, p: seq<int>) {
    |p| >= 2 && p[0] == u && p[|p| - 1] == v && IsPath(g, p)
  }

  ghost predicate Reaches(g: Graph, u: int, v: int) {
    exists p :: Walk(g, u, v, p)
  }

  lemma EdgeReaches(g: Graph, u: int, v: int)
    requires Edge(g, u, v)
    ensures Reaches(g, u, v)
  {
    assert Walk(g, u, v, [u, v]);
  }

  lemma ReachesTransitive(g: Graph, u: int, v: int, w: int)
    requires Reaches(g, u, v) && Reaches(g, v, w)
    ensures Reaches(g, u, w)
  {
    var p :| Walk(g, u, v, p);
    var q :| Walk(g, v, w, q);
    var r := p + q[1..];
    assert Walk(g, u, w, r);
  }

  // ----- the profile and its steps -----

  datatype Profile = Profile(ids: map<Name, int>, history: Graph, stacks: map<Thread, seq<int>>)

  datatype CrashCause = DeadlockDetected | MultipleUnlock | InvalidUnlock

  datatype Outcome = Running(profile: Profile) | Crashed(cause: CrashCause)

  datatype Call = PushLock(thread: Thread, name: Name) | PopLock(thread: Thread, name: Name)

  function StackOf(s: Profile, t: Thread): seq<int> {
    if t in s.stacks then s.stacks[t] else []
  }

  /** An unknown name gets the size of the table as its id. */
  function IdFor(s: Profile, name: Name): int {
    if name in s.ids then s.ids[name] else |s.ids|
  }

  /** What the history is once `id` has been requested on top of `stack`. */
  function HistoryAfter(g: Graph, stack: seq<int>, id: int): Graph {
    if stack != [] && stack[|stack| - 1] != id then AddEdge(g, stack[|stack| - 1], id) else g
  }

  ghost function Push(s: Profile, t: Thread, name: Name): Outcome {
    var id := IdFor(s, name);
    var stack := StackOf(s, t);
    var history := HistoryAfter(s.history, stack, id);
    if HasCycle(history) then Crashed(DeadlockDetected)
    else Running(Profile(s.ids[name := id], history, s.stacks[t := stack + [id]]))
  }

  /** The name is looked up with `operator[]`, so an unknown name is entered with id 0. */
  function Pop(s: Profile, t: Thread, name: Name): Outcome {
    var stack := StackOf(s, t);
    if stack == [] then Crashed(MultipleUnlock)
    else
      var id := if name in s.ids then s.ids[name] else 0;
      if stack[|stack| - 1] != id then Crashed(InvalidUnlock)
      else Running(Profile(s.ids[name := id], s.history, s.stacks[t := stack[..|stack| - 1]]))
  }

  ghost function Step(s: Profile, c: Call): Outcome {
    match c
    case PushLock(t, name) => Push(s, t, name)
    case PopLock(t, name) => Pop(s, t, name)
  }

  ghost function Run(s: Profile, calls: seq<Call>): Outcome
    decreases |calls|
  {
    if calls == [] then Running(s)
    else match Step(s, calls[0])
      case Running(s') => Run(s', calls[1..])
      case Crashed(cause) => Crashed(cause)
  }

  const EMPTY := Profile(map[], map[], map[])

  // ----- what every step keeps -----

  /** Neighbours on a stack are the same lock or an edge of the history. */
  ghost predicate Chained(g: Graph, stack: seq<int>) {
    forall i, j :: 0 <= i && j == i + 1 && j < |stack| ==> stack[i] == stack[j] || Edge(g, stack[i], stack[j])
  }

  ghost predicate ProfileInv(s: Profile) {
    && (forall name :: name in s.ids ==> 0 <= s.ids[name] < |s.ids|)
    && WithinBounds(s.history, |s.ids|)
    && !HasCycle(s.history)
    && (forall t :: t in s.stacks ==> Chained(s.history, s.stacks[t]))
    && (forall t, i :: t in s.stacks && 0 <= i < |s.stacks[t]| ==> 0 <= s.stacks[t][i] < |s.ids|)
  }

  lemma GrowTable(ids: map<Name, int>, name: Name, id: int)
    ensures |ids[name := id]| == if name in ids then |ids| else |ids| + 1
  {
    assert ids[name := id].Keys == ids.Keys + {name};
    assert |ids[name := id].Keys| == |ids[name := id]| && |ids.Keys| == |ids|;
  }

  lemma EdgesAfterAdd(g: Graph, u: int, v: int)
    ensures forall a, b :: Edge(AddEdge(g, u, v), a, b) <==> Edge(g, a, b) || (a == u && b == v)
  {
  }

  lemma PushKeepsInv(s: Profile, t: Thread, name: Name)
    requires ProfileInv(s) && Push(s, t, name).Running?
    ensures ProfileInv(Push(s, t, name).profile)
  {
    var id, stack, s' := IdFor(s, name), StackOf(s, t), Push(s, t, name).profile;
    GrowTable(s.ids, name, id);
    assert name in s.ids ==> s'.ids == s.ids;
    if stack != [] {
      EdgesAfterAdd(s.history, stack[|stack| - 1], id);
    }
    assert WithinBounds(s'.history, |s'.ids|);
    assert Chained(s'.history, stack + [id]);
  }

  lemma PopKeepsInv(s: Profile, t: Thread, name: Name)
    requires ProfileInv(s) && Pop(s, t, name).Running?
    ensures ProfileInv(Pop(s, t, name).profile)
  {
    var s' := Pop(s, t, name).profile;
    GrowTable(s.ids, name, if name in s.ids then s.ids[name] else 0);
    assert name in s.ids ==> s'.ids == s.ids;
  }

  /** Popping a name that was never pushed passes exactly when the first name ever pushed is on top, and then
      both names share its id. */
  lemma UnknownNameIsTheFirst(s: Profile, t: Thread, name: Name)
    requires name !in s.ids
    ensures Pop(s, t, name).Running? <==> StackOf(s, t) != [] && StackOf(s, t)[|StackOf(s, t)| - 1] == 0
    ensures Pop(s, t, name).Running? ==> IdFor(Pop(s, t, name).profile, name) == 0
  {
  }

  lemma StepKeepsInv(s: Profile, c: Call)
    requires ProfileInv(s) && Step(s, c).Running?
    ensures ProfileInv(Step(s, c).profile)
  {
    match c
    case PushLock(t, name) => PushKeepsInv(s, t, name);
    case PopLock(t, name) => PopKeepsInv(s, t, name);
  }

  /** An older lock on a stack is the newest one, or the history leads from it to the newest. */
  lemma {:induction false} OlderReachesNewest(g: Graph, stack: seq<int>, i: int)
    requires Chained(g, stack) && 0 <= i < |stack|
    ensures stack[i] == stack[|stack| - 1] || Reaches(g, stack[i], stack[|stack| - 1])
    decreases |stack| - i
  {
    if i < |stack| - 1 {
      OlderReachesNewest(g, stack, i + 1);
      if stack[i] != stack[i + 1] {
        EdgeReaches(g, stack[i], stack[i + 1]);
        if stack[i + 1] != stack[|stack| - 1] {
          ReachesTransitive(g, stack[i], stack[i + 1], stack[|stack| - 1]);
        }
      }
    }
  }

  // ----- rings of ids -----

  /** A lock is pushed before the thread blocks on it: the newest entry of a waiting thread is the
      name it asks for, the older entries are the names it holds. */
  function Requested(s: Profile, t: Thread): int
    requires StackOf(s, t) != []
  {
    StackOf(s, t)[|StackOf(s, t)| - 1]
  }

  ghost predicate WaitsFor(s: Profile, a: Thread, b: Thread) {
    && StackOf(s, a) != []
    && StackOf(s, b) != []
    && Requested(s, a) in StackOf(s, b)[..|StackOf(s, b)| - 1]
  }

  ghost predicate NameRing(s: Profile, ring: seq<Thread>) {
    && |ring| >= 1
    && (forall i :: 0 <= i < |ring| ==> StackOf(s, ring[i]) != [])
    && (forall i, j :: 0 <= i < |ring| && 0 <= j < |ring| && Follows(i, j, |ring|) ==> WaitsFor(s, ring[i], ring[j]))
  }

  /** `j` comes after `i` in a ring of `n`. */
  predicate Follows(i: int, j: int, n: int) { j == i + 1 || (i == n - 1 && j == 0) }

  lemma WaitingReaches(s: Profile, a: Thread, b: Thread)
    requires ProfileInv(s) && WaitsFor(s, a, b)
    ensures Requested(s, a) == Requested(s, b) || Reaches(s.history, Requested(s, a), Requested(s, b))
  {
    var held := StackOf(s, b)[..|StackOf(s, b)| - 1];
    var i :| 0 <= i < |held| && held[i] == Requested(s, a);
    OlderReachesNewest(s.history, StackOf(s, b), i);
  }

  lemma {:induction false} RingReaches(s: Profile, ring: seq<Thread>, i: int, j: int)
    requires ProfileInv(s) && NameRing(s, ring) && 0 <= i <= j < |ring|
    ensures Requested(s, ring[i]) == Requested(s, ring[j])
         || Reaches(s.history, Requested(s, ring[i]), Requested(s, ring[j]))
    decreases j - i
  {
    if i < j {
      RingReaches(s, ring, i, j - 1);
      assert Follows(j - 1, j, |ring|);
      WaitingReaches(s, ring[j - 1], ring[j]);
      var u, v, w := Requested(s, ring[i]), Requested(s, ring[j - 1]), Requested(s, ring[j]);
      if u != v && v != w {
        ReachesTransitive(s.history, u, v, w);
      }
    }
  }

  lemma RingWaitsForOneName(s: Profile, ring: seq<Thread>, i: int)
    requires ProfileInv(s) && NameRing(s, ring) && 0 <= i < |ring|
    ensures Requested(s, ring[i]) == Requested(s, ring[0])
  {
    var first, here, last := Requested(s, ring[0]), Requested(s, ring[i]), Requested(s, ring[|ring| - 1]);
    if here != first {
      RingReaches(s, ring, 0, i);
      RingReaches(s, ring, i, |ring| - 1);
      assert Follows(|ring| - 1, 0, |ring|);
      WaitingReaches(s, ring[|ring| - 1], ring[0]);
      if here != last && last != first {
        ReachesTransitive(s.history, here, last, first);
      }
      ReachesTransitive(s.history, first, here, first);
      var p :| Walk(s.history, first, first, p);
      assert IsCycle(s.history, p);
    }
  }

  lemma {:induction false} RunKeepsInv(s: Profile, calls: seq<Call>)
    requires ProfileInv(s) && Run(s, calls).Running?
    ensures ProfileInv(Run(s, calls).profile)
    decreases |calls|
  {
    if calls == [] {
    } else {
      StepKeepsInv(s, calls[0]);
      RunKeepsInv(Step(s, calls[0]).profile, calls[1..]);
    }
  }

  // ----- lock instances -----

  /** A lock object. Its name is the type name of the object it belongs to. */
  type Instance = nat

  /** `held` is what each thread has acquired and not released, `wanted` the lock a thread waits for. */
  datatype Locks = Locks(profile: Profile, held: map<Thread, seq<Instance>>, wanted: map<Thread, Instance>)

  /** A thread asks for a lock, gets the lock it asked for, or releases one it holds, in any order. */
  datatype Event =
    | Request(thread: Thread, lock: Instance)
    | Acquire(thread: Thread)
    | Release(thread: Thread, index: nat)

  function HeldBy(s: Locks, t: Thread): seq<Instance> {
    if t in s.held then s.held[t] else []
  }

  function Without(held: seq<Instance>, k: nat): seq<Instance>
    requires k < |held|
  {
    held[..k] + held[k + 1..]
  }

  /** Threads get locks whenever they like: nothing here depends on which lock excludes whom. */
  ghost predicate Next(nameOf: Instance -> Name, s: Locks, e: Event, s': Locks) {
    match e
    case Request(t, lock) =>
      && t !in s.wanted && Push(s.profile, t, nameOf(lock)) == Running(s'.profile)
      && s'.held == s.held && s'.wanted == s.wanted[t := lock]
    case Acquire(t) =>
      && t in s.wanted && s'.profile == s.profile
      && s'.held == s.held[t := HeldBy(s, t) + [s.wanted[t]]] && s'.wanted == s.wanted - {t}
    case Release(t, k) =>
      && t !in s.wanted && k < |HeldBy(s, t)|
      && Pop(s.profile, t, nameOf(HeldBy(s, t)[k])) == Running(s'.profile)
      && s'.held == s.held[t := Without(HeldBy(s, t), k)] && s'.wanted == s.wanted
  }

  /** A run that has not crashed. */
  ghost predicate IsRun(nameOf: Instance -> Name, states: seq<Locks>, events: seq<Event>) {
    && |states| == |events| + 1 && states[0] == Locks(EMPTY, map[], map[])
    && forall i, j :: 0 <= i < |events| && j == i + 1 ==> Next(nameOf, states[i], events[i], states[j])
  }

  /** Every thread of the ring waits for a lock that the next one holds. */
  ghost predicate CircularWait(s: Locks, ring: seq<Thread>) {
    && |ring| >= 1
    && (forall i :: 0 <= i < |ring| ==> ring[i] in s.wanted)
    && (forall i, j :: 0 <= i < |ring| && 0 <= j < |ring| && Follows(i, j, |ring|) ==>
          s.wanted[ring[i]] in HeldBy(s, ring[j]))
  }

  // ----- names and instances agree -----

  /** The ids of the names of `locks`, in that order. */
  function IdList(nameOf: Instance -> Name, ids: map<Name, int>, locks: seq<Instance>): seq<int>
    requires forall i :: i in locks ==> nameOf(i) in ids
  {
    if locks == [] then []
    else IdList(nameOf, ids, locks[..|locks| - 1]) + [ids[nameOf(locks[|locks| - 1])]]
  }

  lemma {:induction false} IdListAt(nameOf: Instance -> Name, ids: map<Name, int>, locks: seq<Instance>)
    requires forall i :: i in locks ==> nameOf(i) in ids
    ensures var list := IdList(nameOf, ids, locks);
            |list| == |locks| && forall k :: 0 <= k < |locks| ==> list[k] == ids[nameOf(locks[k])]
    decreases |locks|
  {
    if locks != [] {
      IdListAt(nameOf, ids, locks[..|locks| - 1]);
    }
  }

  function Ids(nameOf: Instance -> Name, ids: map<Name, int>, locks: seq<Instance>): multiset<int>
    requires forall i :: i in locks ==> nameOf(i) in ids
  {
    multiset(IdList(nameOf, ids, locks))
  }

  lemma IdsHold(nameOf: Instance -> Name, ids: map<Name, int>, locks: seq<Instance>, i: Instance)
    requires i in locks && forall i :: i in locks ==> nameOf(i) in ids
    ensures ids[nameOf(i)] in Ids(nameOf, ids, locks)
  {
    var k :| 0 <= k < |locks| && locks[k] == i;
    IdListAt(nameOf, ids, locks);
    assert IdList(nameOf, ids, locks)[k] == ids[nameOf(i)];
  }

  lemma IdsGrow(nameOf: Instance -> Name, ids: map<Name, int>, ids': map<Name, int>, locks: seq<Instance>)
    requires forall i :: i in locks ==> nameOf(i) in ids && nameOf(i) in ids' && ids'[nameOf(i)] == ids[nameOf(i)]
    ensures Ids(nameOf, ids', locks) == Ids(nameOf, ids, locks)
  {
    IdListAt(nameOf, ids, locks);
    IdListAt(nameOf, ids', locks);
    assert IdList(nameOf, ids', locks) == IdList(nameOf, ids, locks);
  }

  lemma MultisetWithout(list: seq<int>, k: nat)
    requires k < |list|
    ensures multiset(list[..k] + list[k + 1..]) + multiset{list[k]} == multiset(list)
  {
    assert list == list[..k] + [list[k]] + list[k + 1..];
  }

  lemma IdsWithout(nameOf: Instance -> Name, ids: map<Name, int>, locks: seq<Instance>, k: nat)
    requires k < |locks| && forall i :: i in locks ==> nameOf(i) in ids
    ensures Ids(nameOf, ids, Without(locks, k)) + multiset{ids[nameOf(locks[k])]} == Ids(nameOf, ids, locks)
  {
    var list := IdList(nameOf, ids, locks);
    IdListAt(nameOf, ids, locks);
    IdListAt(nameOf, ids, Without(locks, k));
    assert IdList(nameOf, ids, Without(locks, k)) == list[..k] + list[k + 1..];
    MultisetWithout(list, k);
  }

  /** Different names have different ids: no name is entered by PopLock, whose lookup would give it 0. */
  ghost predicate Distinct(ids: map<Name, int>) {
    forall a, b :: a in ids && b in ids && ids[a] == ids[b] ==> a == b
  }

  /** A thread's stack holds the ids of what it holds and of what it waits for, that one on top. */
  ghost predicate ThreadInv(nameOf: Instance -> Name, ids: map<Name, int>, stack: seq<int>, held: seq<Instance>,
                            wanted: seq<Instance>) {
    && (forall i :: i in held + wanted ==> nameOf(i) in ids)
    && multiset(stack) == Ids(nameOf, ids, held) + Ids(nameOf, ids, wanted)
    && (wanted != [] ==> stack != [] && stack[|stack| - 1] == ids[nameOf(wanted[0])])
  }

  function WantedBy(s: Locks, t: Thread): seq<Instance> {
    if t in s.wanted then [s.wanted[t]] else []
  }

  ghost predicate LocksInv(nameOf: Instance -> Name, s: Locks) {
    && ProfileInv(s.profile) && Distinct(s.profile.ids)
    && forall t: Thread :: ThreadInv(nameOf, s.profile.ids, StackOf(s.profile, t), HeldBy(s, t), WantedBy(s, t))
  }

  lemma IdsOfOne(nameOf: Instance -> Name, ids: map<Name, int>, lock: Instance)
    requires nameOf(lock) in ids
    ensures Ids(nameOf, ids, [lock]) == multiset{ids[nameOf(lock)]}
  {
    IdListAt(nameOf, ids, [lock]);
    assert IdList(nameOf, ids, [lock]) == [ids[nameOf(lock)]];
  }

  lemma Cancel(a: multiset<int>, b: multiset<int>, x: int)
    requires a + multiset{x} == b + multiset{x}
    ensures a == b
  {
    assert a == a + multiset{x} - multiset{x} && b == b + multiset{x} - multiset{x};
  }

  lemma BelowTop(stack: seq<int>)
    requires stack != []
    ensures multiset(stack) == multiset(stack[..|stack| - 1]) + multiset{stack[|stack| - 1]}
  {
    assert stack == stack[..|stack| - 1] + [stack[|stack| - 1]];
  }

  lemma RequestKeepsThread(nameOf: Instance -> Name, ids: map<Name, int>, ids': map<Name, int>, stack: seq<int>,
                           held: seq<Instance>, lock: Instance)
    requires ThreadInv(nameOf, ids, stack, held, [])
    requires nameOf(lock) in ids' && forall n :: n in ids ==> n in ids' && ids'[n] == ids[n]
    ensures ThreadInv(nameOf, ids', stack + [ids'[nameOf(lock)]], held, [lock])
  {
    assert forall i :: i in held ==> i in held + [];
    IdsGrow(nameOf, ids, ids', held);
    IdsOfOne(nameOf, ids', lock);
    assert multiset(stack) == Ids(nameOf, ids, held);
  }

  lemma GrowKeepsThread(nameOf: Instance -> Name, ids: map<Name, int>, ids': map<Name, int>, stack: seq<int>,
                        held: seq<Instance>, wanted: seq<Instance>)
    requires ThreadInv(nameOf, ids, stack, held, wanted)
    requires forall n :: n in ids ==> n in ids' && ids'[n] == ids[n]
    ensures ThreadInv(nameOf, ids', stack, held, wanted)
  {
    assert forall i :: i in held || i in wanted ==> i in held + wanted;
    IdsGrow(nameOf, ids, ids', held);
    IdsGrow(nameOf, ids, ids', wanted);
    assert wanted != [] ==> wanted[0] in wanted;
  }

  lemma AcquireKeepsThread(nameOf: Instance -> Name, ids: map<Name, int>, stack: seq<int>, held: seq<Instance>,
                           lock: Instance)
    requires ThreadInv(nameOf, ids, stack, held, [lock])
    ensures ThreadInv(nameOf, ids, stack, held + [lock], [])
  {
    assert (held + [lock])[..|held|] == held;
    IdsOfOne(nameOf, ids, lock);
    assert held + [lock] + [] == held + [lock];
  }

  lemma ReleaseKeepsThread(nameOf: Instance -> Name, ids: map<Name, int>, stack: seq<int>, held: seq<Instance>, k: nat)
    requires ThreadInv(nameOf, ids, stack, held, []) && k < |held|
    requires stack != [] && held[k] in held + [] && stack[|stack| - 1] == ids[nameOf(held[k])]
    ensures ThreadInv(nameOf, ids, stack[..|stack| - 1], Without(held, k), [])
  {
    assert forall i :: i in held ==> i in held + [];
    IdsWithout(nameOf, ids, held, k);
    BelowTop(stack);
    Cancel(multiset(stack[..|stack| - 1]), Ids(nameOf, ids, Without(held, k)), ids[nameOf(held[k])]);
    assert forall i :: i in Without(held, k) + [] ==> i in held;
  }

  /** A new name gets an id no other name has. */
  lemma IdsStayDistinct(s: Profile, t: Thread, name: Name)
    requires ProfileInv(s) && Distinct(s.ids) && Push(s, t, name).Running?
    ensures var ids' := Push(s, t, name).profile.ids;
            Distinct(ids') && name in ids' && forall n :: n in s.ids ==> n in ids' && ids'[n] == s.ids[n]
  {
  }

  lemma PushedStacks(p: Profile, t: Thread, name: Name, u: Thread)
    requires Push(p, t, name).Running?
    ensures var p' := Push(p, t, name).profile;
            name in p'.ids && StackOf(p', u) == if u == t then StackOf(p, t) + [p'.ids[name]] else StackOf(p, u)
  {
  }

  lemma RequestKeepsInv(nameOf: Instance -> Name, s: Locks, t: Thread, lock: Instance, s': Locks)
    requires LocksInv(nameOf, s) && Next(nameOf, s, Request(t, lock), s')
    ensures LocksInv(nameOf, s')
  {
    var name, p := nameOf(lock), s.profile;
    PushKeepsInv(p, t, name);
    IdsStayDistinct(p, t, name);
    forall u: Thread
      ensures ThreadInv(nameOf, s'.profile.ids, StackOf(s'.profile, u), HeldBy(s', u), WantedBy(s', u))
    {
      RequestKeepsThreads(nameOf, s, t, lock, s', u);
    }
  }

  lemma RequestKeepsThreads(nameOf: Instance -> Name, s: Locks, t: Thread, lock: Instance, s': Locks, u: Thread)
    requires Next(nameOf, s, Request(t, lock), s')
    requires ThreadInv(nameOf, s.profile.ids, StackOf(s.profile, u), HeldBy(s, u), WantedBy(s, u))
    requires forall n :: n in s.profile.ids ==> n in s'.profile.ids && s'.profile.ids[n] == s.profile.ids[n]
    ensures ThreadInv(nameOf, s'.profile.ids, StackOf(s'.profile, u), HeldBy(s', u), WantedBy(s', u))
  {
    var p, p' := s.profile, s'.profile;
    PushedStacks(p, t, nameOf(lock), u);
    if u == t {
      RequestKeepsThread(nameOf, p.ids, p'.ids, StackOf(p, t), HeldBy(s, t), lock);
    } else {
      GrowKeepsThread(nameOf, p.ids, p'.ids, StackOf(p, u), HeldBy(s, u), WantedBy(s, u));
    }
  }

  lemma AcquireKeepsInv(nameOf: Instance -> Name, s: Locks, t: Thread, s': Locks)
    requires LocksInv(nameOf, s) && Next(nameOf, s, Acquire(t), s')
    ensures LocksInv(nameOf, s')
  {
    forall u: Thread
      ensures ThreadInv(nameOf, s'.profile.ids, StackOf(s'.profile, u), HeldBy(s', u), WantedBy(s', u))
    {
      AcquireKeepsThreads(nameOf, s, t, s', u);
    }
  }

  lemma AcquireKeepsThreads(nameOf: Instance -> Name, s: Locks, t: Thread, s': Locks, u: Thread)
    requires Next(nameOf, s, Acquire(t), s')
    requires ThreadInv(nameOf, s.profile.ids, StackOf(s.profile, u), HeldBy(s, u), WantedBy(s, u))
    ensures ThreadInv(nameOf, s'.profile.ids, StackOf(s'.profile, u), HeldBy(s', u), WantedBy(s', u))
  {
    if u == t {
      AcquireKeepsThread(nameOf, s.profile.ids, StackOf(s.profile, t), HeldBy(s, t), s.wanted[t]);
    }
  }

  lemma PoppedStacks(p: Profile, t: Thread, name: Name, u: Thread)
    requires Pop(p, t, name).Running? && name in p.ids
    ensures var p', stack := Pop(p, t, name).profile, StackOf(p, t);
            && p'.ids == p.ids && stack != [] && stack[|stack| - 1] == p.ids[name]
            && StackOf(p', u) == if u == t then stack[..|stack| - 1] else StackOf(p, u)
  {
  }

  lemma ReleaseKeepsInv(nameOf: Instance -> Name, s: Locks, t: Thread, k: nat, s': Locks)
    requires LocksInv(nameOf, s) && Next(nameOf, s, Release(t, k), s')
    ensures LocksInv(nameOf, s')
  {
    var p, name := s.profile, nameOf(HeldBy(s, t)[k]);
    PopKeepsInv(p, t, name);
    assert ThreadInv(nameOf, p.ids, StackOf(p, t), HeldBy(s, t), WantedBy(s, t));
    assert HeldBy(s, t)[k] in HeldBy(s, t) + WantedBy(s, t);
    PoppedStacks(p, t, name, t);
    forall u: Thread
      ensures ThreadInv(nameOf, s'.profile.ids, StackOf(s'.profile, u), HeldBy(s', u), WantedBy(s', u))
    {
      ReleaseKeepsThreads(nameOf, s, t, k, s', u);
    }
  }

  lemma ReleaseKeepsThreads(nameOf: Instance -> Name, s: Locks, t: Thread, k: nat, s': Locks, u: Thread)
    requires Next(nameOf, s, Release(t, k), s') && nameOf(HeldBy(s, t)[k]) in s.profile.ids
    requires ThreadInv(nameOf, s.profile.ids, StackOf(s.profile, u), HeldBy(s, u), WantedBy(s, u))
    ensures ThreadInv(nameOf, s'.profile.ids, StackOf(s'.profile, u), HeldBy(s', u), WantedBy(s', u))
  {
    var p := s.profile;
    PoppedStacks(p, t, nameOf(HeldBy(s, t)[k]), u);
    if u == t {
      assert HeldBy(s, t)[k] in HeldBy(s, t) + [];
      ReleaseKeepsThread(nameOf, p.ids, StackOf(p, t), HeldBy(s, t), k);
    }
  }

  lemma {:induction false} LocksRunKeepsInv(nameOf: Instance -> Name, states: seq<Locks>, events: seq<Event>, k: nat)
    requires IsRun(nameOf, states, events) && k < |states|
    ensures LocksInv(nameOf, states[k])
  {
    if k == 0 {
      RankedMeansAcyclic(EMPTY.history, map[]);
    } else {
      LocksRunKeepsInv(nameOf, states, events, k - 1);
      assert Next(nameOf, states[k - 1], events[k - 1], states[k]);
      match events[k - 1]
      case Request(t, lock) => RequestKeepsInv(nameOf, states[k - 1], t, lock, states[k]);
      case Acquire(t) => AcquireKeepsInv(nameOf, states[k - 1], t, states[k]);
      case Release(t, i) => ReleaseKeepsInv(nameOf, states[k - 1], t, i, states[k]);
    }
  }

  // ----- the theorem -----

  lemma WaitingThreadTops(nameOf: Instance -> Name, s: Locks, t: Thread)
    requires LocksInv(nameOf, s) && t in s.wanted
    ensures nameOf(s.wanted[t]) in s.profile.ids && StackOf(s.profile, t) != []
    ensures Requested(s.profile, t) == s.profile.ids[nameOf(s.wanted[t])]
  {
    assert ThreadInv(nameOf, s.profile.ids, StackOf(s.profile, t), HeldBy(s, t), WantedBy(s, t));
    assert WantedBy(s, t)[0] in HeldBy(s, t) + WantedBy(s, t);
  }

  /** What a waiting thread holds lies below the top of its stack. */
  lemma HeldLocksLieBelow(nameOf: Instance -> Name, s: Locks, t: Thread, lock: Instance)
    requires LocksInv(nameOf, s) && t in s.wanted && lock in HeldBy(s, t)
    ensures nameOf(lock) in s.profile.ids && StackOf(s.profile, t) != []
    ensures s.profile.ids[nameOf(lock)] in StackOf(s.profile, t)[..|StackOf(s.profile, t)| - 1]
  {
    var ids, stack, held, wanted := s.profile.ids, StackOf(s.profile, t), HeldBy(s, t), WantedBy(s, t);
    assert ThreadInv(nameOf, ids, stack, held, wanted);
    assert lock in held + wanted && forall i :: i in held ==> i in held + wanted;
    IdsHold(nameOf, ids, held, lock);
    assert wanted[0] in held + wanted;
    IdsOfOne(nameOf, ids, wanted[0]);
    BelowTop(stack);
    Cancel(multiset(stack[..|stack| - 1]), Ids(nameOf, ids, held), ids[nameOf(wanted[0])]);
    assert ids[nameOf(lock)] in multiset(stack[..|stack| - 1]);
  }

  lemma CircularWaitIsNameRing(nameOf: Instance -> Name, s: Locks, ring: seq<Thread>)
    requires LocksInv(nameOf, s) && CircularWait(s, ring)
    ensures NameRing(s.profile, ring)
  {
    forall i | 0 <= i < |ring| ensures StackOf(s.profile, ring[i]) != [] {
      WaitingThreadTops(nameOf, s, ring[i]);
    }
    forall i, j | 0 <= i < |ring| && 0 <= j < |ring| && Follows(i, j, |ring|)
      ensures WaitsFor(s.profile, ring[i], ring[j])
    {
      WaitingThreadTops(nameOf, s, ring[i]);
      HeldLocksLieBelow(nameOf, s, ring[j], s.wanted[ring[i]]);
    }
  }

  /** Safety over whole runs: in any interleaving of requests, acquisitions and releases by any threads
      that has not crashed, the locks of every circular wait have one and the same name. */
  lemma NoCircularWaitAcrossNames(nameOf: Instance -> Name, states: seq<Locks>, events: seq<Event>, k: nat,
                                  ring: seq<Thread>)
    requires IsRun(nameOf, states, events) && k < |states| && CircularWait(states[k], ring)
    ensures forall i :: 0 <= i < |ring| ==>
              nameOf(states[k].wanted[ring[i]]) == nameOf(states[k].wanted[ring[0]])
  {
    var s := states[k];
    LocksRunKeepsInv(nameOf, states, events, k);
    CircularWaitIsNameRing(nameOf, s, ring);
    forall i | 0 <= i < |ring|
      ensures nameOf(s.wanted[ring[i]]) == nameOf(s.wanted[ring[0]])
    {
      RingWaitsForOneName(s.profile, ring, i);
      WaitingThreadTops(nameOf, s, ring[i]);
      WaitingThreadTops(nameOf, s, ring[0]);
    }
  }

  // ----- what is not noticed -----

  /** Two threads, each holding one of two locks of one name and asking for the other. */
  function CrossedEvents(a: Instance, b: Instance, t: Thread, u: Thread): seq<Event> {
    [Request(t, a), Acquire(t), Request(u, b), Acquire(u), Request(t, b), Request(u, a)]
  }

  /** A profile in which no lock was ever requested under another name. */
  function Flat(n: Name, stacks: map<Thread, seq<int>>): Profile {
    Profile(map[n := 0], map[], stacks)
  }

  function CrossedStates(n: Name, a: Instance, b: Instance, t: Thread, u: Thread): seq<Locks> {
    [Locks(EMPTY, map[], map[]),
     Locks(Flat(n, map[t := [0]]), map[], map[t := a]),
     Locks(Flat(n, map[t := [0]]), map[t := [a]], map[]),
     Locks(Flat(n, map[t := [0], u := [0]]), map[t := [a]], map[u := b]),
     Locks(Flat(n, map[t := [0], u := [0]]), map[t := [a], u := [b]], map[]),
     Locks(Flat(n, map[t := [0, 0], u := [0]]), map[t := [a], u := [b]], map[t := b]),
     Locks(Flat(n, map[t := [0, 0], u := [0, 0]]), map[t := [a], u := [b]], map[t := b, u := a])]
  }

  lemma FirstPush(t: Thread, n: Name)
    ensures Push(EMPTY, t, n) == Running(Flat(n, map[t := [0]]))
  {
    RankedMeansAcyclic(map[], map[]);
    var none: seq<int> := [];
    assert none + [0] == [0];
    assert EMPTY.ids[n := 0] == map[n := 0];
    assert EMPTY.stacks[t := [0]] == map[t := [0]];
  }

  lemma FlatPush(n: Name, stacks: map<Thread, seq<int>>, t: Thread)
    requires t in stacks ==> stacks[t] == [0]
    ensures Push(Flat(n, stacks), t, n)
         == Running(Flat(n, stacks[t := if t in stacks then [0, 0] else [0]]))
  {
    RankedMeansAcyclic(map[], map[]);
    assert map[n := 0][n := 0] == map[n := 0];
    assert StackOf(Flat(n, stacks), t) + [0] == if t in stacks then [0, 0] else [0];
  }

  lemma CrossedStart(nameOf: Instance -> Name, a: Instance, b: Instance, t: Thread, u: Thread)
    requires nameOf(a) == nameOf(b) && t != u
    ensures var states, events := CrossedStates(nameOf(a), a, b, t, u), CrossedEvents(a, b, t, u);
            && Next(nameOf, states[0], events[0], states[1]) && Next(nameOf, states[1], events[1], states[2])
            && Next(nameOf, states[2], events[2], states[3]) && Next(nameOf, states[3], events[3], states[4])
  {
    var n := nameOf(a);
    FirstPush(t, n);
    FlatPush(n, map[t := [0]], u);
    CrossedAcquires(n, a, b, t, u);
    CrossedRequests(n, a, b, t, u);
  }

  lemma CrossedEnd(nameOf: Instance -> Name, a: Instance, b: Instance, t: Thread, u: Thread)
    requires nameOf(a) == nameOf(b) && t != u
    ensures var states, events := CrossedStates(nameOf(a), a, b, t, u), CrossedEvents(a, b, t, u);
            && Next(nameOf, states[4], events[4], states[5]) && Next(nameOf, states[5], events[5], states[6])
            && CircularWait(states[6], [t, u])
  {
    var n := nameOf(a);
    FlatPush(n, map[t := [0], u := [0]], t);
    FlatPush(n, map[t := [0, 0], u := [0]], u);
    CrossedRequests(n, a, b, t, u);
  }

  /** Any two locks of one name can deadlock without the profiler crashing. */
  lemma SharedNamesDeadlockQuietly(nameOf: Instance -> Name, a: Instance, b: Instance, t: Thread, u: Thread)
    requires a != b && nameOf(a) == nameOf(b) && t != u
    ensures var states := CrossedStates(nameOf(a), a, b, t, u);
            IsRun(nameOf, states, CrossedEvents(a, b, t, u)) && CircularWait(states[6], [t, u])
            && states[6].wanted[t] == b && states[6].wanted[u] == a
  {
    CrossedStart(nameOf, a, b, t, u);
    CrossedEnd(nameOf, a, b, t, u);
  }

  lemma CrossedAcquires(n: Name, a: Instance, b: Instance, t: Thread, u: Thread)
    requires t != u
    ensures map[t := a] - {t} == map[] && map[u := b] - {u} == map[]
    ensures [] + [a] == [a] && [] + [b] == [b]
    ensures map[t := [a]][u := [b]] == map[t := [a], u := [b]]
  {
  }

  lemma CrossedRequests(n: Name, a: Instance, b: Instance, t: Thread, u: Thread)
    requires t != u
    ensures map[t := [0]][u := [0]] == map[t := [0], u := [0]]
    ensures map[t := [0], u := [0]][t := [0, 0]] == map[t := [0, 0], u := [0]]
    ensures map[t := [0, 0], u := [0]][u := [0, 0]] == map[t := [0, 0], u := [0, 0]]
    ensures map[t := b][u := a] == map[t := b, u := a]
  {
  }

  /** A run that has not crashed and whose last state has a circular wait over at least two locks. */
  ghost predicate QuietDeadlock(nameOf: Instance -> Name, states: seq<Locks>, events: seq<Event>, ring: seq<Thread>) {
    && IsRun(nameOf, states, events) && CircularWait(states[|states| - 1], ring)
    && exists i :: 0 <= i < |ring| && states[|states| - 1].wanted[ring[i]] != states[|states| - 1].wanted[ring[0]]
  }

  /** Exactly what the profiler excludes: a circular wait over several locks can go unnoticed if and only
      if two different locks have one name. */
  lemma QuietDeadlockNeedsSharedName(nameOf: Instance -> Name)
    ensures (exists states, events, ring :: QuietDeadlock(nameOf, states, events, ring))
       <==> (exists a, b :: a != b && nameOf(a) == nameOf(b))
  {
    if states, events, ring :| QuietDeadlock(nameOf, states, events, ring) {
      NoCircularWaitAcrossNames(nameOf, states, events, |states| - 1, ring);
    }
    if a, b :| a != b && nameOf(a) == nameOf(b) {
      SharedNamesDeadlockQuietly(nameOf, a, b, 1, 2);
      var states, ring := CrossedStates(nameOf(a), a, b, 1, 2), [1, 2];
      assert states[6].wanted[ring[1]] != states[6].wanted[ring[0]];
      assert QuietDeadlock(nameOf, states, CrossedEvents(a, b, 1, 2), ring);
    }
  }
}
