/** What the lock-order profiler remembers, told by the events of a run alone: by the names each thread
    has asked for and not released, and by the pairs (newest name of the asking thread, name it asked
    for) of all requests ever made. A request crashes if and only if these pairs have a cycle: however
    long ago the locks were released, and never without one. */
module LockHistory {
  import opened LockOrder

  // ----- the events of a run -----

  /** The names thread `t` has asked for and not released, oldest first. */
  function NamesOf(nameOf: Instance -> Name, events: seq<Event>, t: Thread): seq<Name> {
    if events == [] then []
    else
      var n := |events| - 1;
      NamesAfter(nameOf, NamesOf(nameOf, events[..n], t), events[n], t)
  }

  function NamesAfter(nameOf: Instance -> Name, names: seq<Name>, e: Event, t: Thread): seq<Name> {
    match e
    case Request(u, lock) => if u == t then names + [nameOf(lock)] else names
    case Acquire(_) => names
    case Release(u, _) => if u == t && names != [] then names[..|names| - 1] else names
  }

  /** A request under another name than the newest one orders the two. */
  function PairOf(names: seq<Name>, name: Name): set<(Name, Name)> {
    if names != [] && names[|names| - 1] != name then {(names[|names| - 1], name)} else {}
  }

  /** The pairs of all requests. Releases take nothing away. */
  function Pairs(nameOf: Instance -> Name, events: seq<Event>): set<(Name, Name)> {
    if events == [] then {}
    else
      var n := |events| - 1;
      Pairs(nameOf, events[..n])
      + match events[n]
        case Request(t, lock) => PairOf(NamesOf(nameOf, events[..n], t), nameOf(lock))
        case _ => {}
  }

  ghost predicate NamePath(pairs: set<(Name, Name)>, p: seq<Name>) {
    forall i, j :: 0 <= i && j == i + 1 && j < |p| ==> (p[i], p[j]) in pairs
  }

  ghost predicate NameCycle(pairs: set<(Name, Name)>) {
    exists p :: |p| >= 2 && p[0] == p[|p| - 1] && NamePath(pairs, p)
  }

  lemma OneMoreEvent(nameOf: Instance -> Name, events: seq<Event>, e: Event, t: Thread)
    ensures NamesOf(nameOf, events + [e], t) == NamesAfter(nameOf, NamesOf(nameOf, events, t), e, t)
    ensures Pairs(nameOf, events + [e])
         == Pairs(nameOf, events)
            + match e
              case Request(u, lock) => PairOf(NamesOf(nameOf, events, u), nameOf(lock))
              case _ => {}
  {
    assert (events + [e])[..|events|] == events;
  }

  // ----- names and ids -----

  ghost predicate Known(ids: map<Name, int>, u: int) {
    exists a :: a in ids && ids[a] == u
  }

  /** The graph over ids is the pairs over names. */
  ghost predicate Agree(ids: map<Name, int>, g: Graph, pairs: set<(Name, Name)>) {
    && (forall a, b :: (a, b) in pairs ==> a in ids && b in ids)
    && (forall a, b :: a in ids && b in ids ==> (Edge(g, ids[a], ids[b]) <==> (a, b) in pairs))
    && (forall u, v :: Edge(g, u, v) ==> Known(ids, u) && Known(ids, v))
  }

  ghost function NameFor(ids: map<Name, int>, u: int): (a: Name)
    requires Known(ids, u)
    ensures a in ids && ids[a] == u
  {
    var a :| a in ids && ids[a] == u;
    a
  }

  lemma NameCycleIsCycle(ids: map<Name, int>, g: Graph, pairs: set<(Name, Name)>)
    requires Agree(ids, g, pairs) && NameCycle(pairs)
    ensures HasCycle(g)
  {
    var p :| |p| >= 2 && p[0] == p[|p| - 1] && NamePath(pairs, p);
    forall i | 0 <= i < |p| ensures p[i] in ids {
      if i == 0 {
        assert (p[0], p[1]) in pairs;
      } else {
        assert (p[i - 1], p[i]) in pairs;
      }
    }
    var q := seq(|p|, i requires 0 <= i < |p| => ids[p[i]]);
    forall i, j | 0 <= i && j == i + 1 && j < |q| ensures Edge(g, q[i], q[j]) {
      assert (p[i], p[j]) in pairs;
    }
    assert IsCycle(g, q);
  }

  lemma CycleIsNameCycle(ids: map<Name, int>, g: Graph, pairs: set<(Name, Name)>)
    requires Agree(ids, g, pairs) && HasCycle(g)
    ensures NameCycle(pairs)
  {
    var q :| IsCycle(g, q);
    forall i | 0 <= i < |q| ensures Known(ids, q[i]) {
      if i == 0 {
        assert Edge(g, q[0], q[1]);
      } else {
        assert Edge(g, q[i - 1], q[i]);
      }
    }
    var p := seq(|q|, i requires 0 <= i < |q| => NameFor(ids, q[i]));
    forall i, j | 0 <= i && j == i + 1 && j < |p| ensures (p[i], p[j]) in pairs {
      assert Edge(g, q[i], q[j]);
    }
    assert NamePath(pairs, p);
  }

  // ----- the invariant -----

  /** The stack is the ids of the names. */
  ghost predicate StackIs(ids: map<Name, int>, names: seq<Name>, stack: seq<int>) {
    |names| == |stack| && forall i :: 0 <= i < |names| ==> names[i] in ids && stack[i] == ids[names[i]]
  }

  ghost predicate Remembers(nameOf: Instance -> Name, events: seq<Event>, p: Profile) {
    && Distinct(p.ids) && Agree(p.ids, p.history, Pairs(nameOf, events))
    && forall t: Thread :: StackIs(p.ids, NamesOf(nameOf, events, t), StackOf(p, t))
  }

  function IdsAfter(p: Profile, name: Name): map<Name, int> { p.ids[name := IdFor(p, name)] }

  lemma IdsAfterDistinct(p: Profile, name: Name)
    requires ProfileInv(p) && Distinct(p.ids)
    ensures Distinct(IdsAfter(p, name))
    ensures forall n :: n in p.ids ==> n in IdsAfter(p, name) && IdsAfter(p, name)[n] == p.ids[n]
  {
  }

  /** A new id has no edges. */
  lemma AgreeWithNewName(p: Profile, pairs: set<(Name, Name)>, name: Name)
    requires ProfileInv(p) && Distinct(p.ids) && Agree(p.ids, p.history, pairs)
    ensures Agree(IdsAfter(p, name), p.history, pairs)
  {
    var ids := IdsAfter(p, name);
    IdsAfterDistinct(p, name);
    forall u, v | Edge(p.history, u, v) ensures Known(ids, u) && Known(ids, v) {
      var a, b := NameFor(p.ids, u), NameFor(p.ids, v);
      assert ids[a] == u && ids[b] == v;
    }
    forall a, b | a in ids && b in ids
      ensures Edge(p.history, ids[a], ids[b]) <==> (a, b) in pairs
    {
      if name !in p.ids && (a == name || b == name) {
        assert !Edge(p.history, ids[a], ids[b]);
      }
    }
  }

  /** Entering the pair enters the edge. */
  lemma AgreeWithNewPair(ids: map<Name, int>, g: Graph, pairs: set<(Name, Name)>, from: Name, to: Name)
    requires Distinct(ids) && Agree(ids, g, pairs) && from in ids && to in ids
    ensures Agree(ids, AddEdge(g, ids[from], ids[to]), pairs + {(from, to)})
  {
    var g' := AddEdge(g, ids[from], ids[to]);
    EdgesAfterAdd(g, ids[from], ids[to]);
    forall a, b | a in ids && b in ids
      ensures Edge(g', ids[a], ids[b]) <==> (a, b) in pairs + {(from, to)}
    {
      assert ids[a] == ids[from] && ids[b] == ids[to] <==> a == from && b == to;
    }
    assert Known(ids, ids[from]) && Known(ids, ids[to]);
  }

  lemma AgreeWithRequest(p: Profile, pairs: set<(Name, Name)>, names: seq<Name>, stack: seq<int>, name: Name)
    requires ProfileInv(p) && Distinct(p.ids) && Agree(p.ids, p.history, pairs) && StackIs(p.ids, names, stack)
    ensures Agree(IdsAfter(p, name), HistoryAfter(p.history, stack, IdFor(p, name)), pairs + PairOf(names, name))
  {
    var ids := IdsAfter(p, name);
    IdsAfterDistinct(p, name);
    AgreeWithNewName(p, pairs, name);
    if names == [] || names[|names| - 1] == name {
      assert pairs + PairOf(names, name) == pairs;
    } else {
      var top := names[|names| - 1];
      assert ids[top] == stack[|stack| - 1] && ids[top] != ids[name];
      AgreeWithNewPair(ids, p.history, pairs, top, name);
    }
  }

  /** What a request would make of the history, whether it crashes or not. */
  lemma AgreeAfterRequest(nameOf: Instance -> Name, events: seq<Event>, p: Profile, t: Thread, lock: Instance)
    requires ProfileInv(p) && Remembers(nameOf, events, p)
    ensures Agree(IdsAfter(p, nameOf(lock)), HistoryAfter(p.history, StackOf(p, t), IdFor(p, nameOf(lock))),
                  Pairs(nameOf, events + [Request(t, lock)]))
  {
    OneMoreEvent(nameOf, events, Request(t, lock), t);
    AgreeWithRequest(p, Pairs(nameOf, events), NamesOf(nameOf, events, t), StackOf(p, t), nameOf(lock));
  }

  lemma StackGrows(ids: map<Name, int>, ids': map<Name, int>, names: seq<Name>, stack: seq<int>, name: Name)
    requires StackIs(ids, names, stack) && name in ids' && forall n :: n in ids ==> n in ids' && ids'[n] == ids[n]
    ensures StackIs(ids', names, stack) && StackIs(ids', names + [name], stack + [ids'[name]])
  {
  }

  lemma RequestIsRemembered(nameOf: Instance -> Name, events: seq<Event>, p: Profile, t: Thread, lock: Instance)
    requires ProfileInv(p) && Remembers(nameOf, events, p) && Push(p, t, nameOf(lock)).Running?
    ensures Remembers(nameOf, events + [Request(t, lock)], Push(p, t, nameOf(lock)).profile)
  {
    var p', e, name := Push(p, t, nameOf(lock)).profile, Request(t, lock), nameOf(lock);
    AgreeAfterRequest(nameOf, events, p, t, lock);
    IdsAfterDistinct(p, name);
    forall u: Thread ensures StackIs(p'.ids, NamesOf(nameOf, events + [e], u), StackOf(p', u)) {
      OneMoreEvent(nameOf, events, e, u);
      PushedStacks(p, t, name, u);
      StackGrows(p.ids, p'.ids, NamesOf(nameOf, events, u), StackOf(p, u), name);
    }
  }

  lemma ReleaseIsRemembered(nameOf: Instance -> Name, events: seq<Event>, p: Profile, t: Thread, k: nat, name: Name)
    requires Remembers(nameOf, events, p) && name in p.ids && Pop(p, t, name).Running?
    ensures Remembers(nameOf, events + [Release(t, k)], Pop(p, t, name).profile)
  {
    var p', e := Pop(p, t, name).profile, Release(t, k);
    PoppedStacks(p, t, name, t);
    OneMoreEvent(nameOf, events, e, t);
    assert Pairs(nameOf, events + [e]) == Pairs(nameOf, events);
    forall u: Thread ensures StackIs(p'.ids, NamesOf(nameOf, events + [e], u), StackOf(p', u)) {
      OneMoreEvent(nameOf, events, e, u);
      PoppedStacks(p, t, name, u);
      assert StackIs(p.ids, NamesOf(nameOf, events, u), StackOf(p, u));
    }
  }

  lemma AcquireIsRemembered(nameOf: Instance -> Name, events: seq<Event>, p: Profile, t: Thread)
    requires Remembers(nameOf, events, p)
    ensures Remembers(nameOf, events + [Acquire(t)], p)
  {
    OneMoreEvent(nameOf, events, Acquire(t), t);
    assert Pairs(nameOf, events + [Acquire(t)]) == Pairs(nameOf, events);
    forall u: Thread ensures StackIs(p.ids, NamesOf(nameOf, events + [Acquire(t)], u), StackOf(p, u)) {
      OneMoreEvent(nameOf, events, Acquire(t), u);
      assert StackIs(p.ids, NamesOf(nameOf, events, u), StackOf(p, u));
    }
  }

  lemma EventIsRemembered(nameOf: Instance -> Name, events: seq<Event>, s: Locks, e: Event, s': Locks)
    requires LocksInv(nameOf, s) && Remembers(nameOf, events, s.profile) && Next(nameOf, s, e, s')
    ensures Remembers(nameOf, events + [e], s'.profile)
  {
    match e
    case Request(t, lock) => RequestIsRemembered(nameOf, events, s.profile, t, lock);
    case Acquire(t) => AcquireIsRemembered(nameOf, events, s.profile, t);
    case Release(t, k) =>
      HeldNamesAreKnown(nameOf, s, t, k);
      ReleaseIsRemembered(nameOf, events, s.profile, t, k, nameOf(HeldBy(s, t)[k]));
  }

  lemma HeldNamesAreKnown(nameOf: Instance -> Name, s: Locks, t: Thread, k: nat)
    requires LocksInv(nameOf, s) && k < |HeldBy(s, t)|
    ensures nameOf(HeldBy(s, t)[k]) in s.profile.ids
  {
    assert ThreadInv(nameOf, s.profile.ids, StackOf(s.profile, t), HeldBy(s, t), WantedBy(s, t));
    assert HeldBy(s, t)[k] in HeldBy(s, t) + WantedBy(s, t);
  }

  lemma RunStep(nameOf: Instance -> Name, states: seq<Locks>, events: seq<Event>, k: nat)
    requires IsRun(nameOf, states, events) && 0 < k < |states|
    ensures Next(nameOf, states[k - 1], events[k - 1], states[k])
    ensures events[..k] == events[..k - 1] + [events[k - 1]]
  {
  }

  lemma {:induction false} RunRemembers(nameOf: Instance -> Name, states: seq<Locks>, events: seq<Event>, k: nat)
    requires IsRun(nameOf, states, events) && k < |states|
    ensures Remembers(nameOf, events[..k], states[k].profile)
  {
    if k == 0 {
      assert events[..0] == [];
    } else {
      RunRemembers(nameOf, states, events, k - 1);
      LocksRunKeepsInv(nameOf, states, events, k - 1);
      RunStep(nameOf, states, events, k);
      EventIsRemembered(nameOf, events[..k - 1], states[k - 1], events[k - 1], states[k]);
    }
  }

  // ----- when a call crashes -----

  /** No miss and no false alarm, over every run: the next request crashes if and only if the pairs of all
      requests so far and of this one have a cycle. */
  lemma RequestCrashesExactly(nameOf: Instance -> Name, states: seq<Locks>, events: seq<Event>, t: Thread,
                              lock: Instance)
    requires IsRun(nameOf, states, events)
    ensures Push(states[|events|].profile, t, nameOf(lock)).Crashed?
       <==> NameCycle(Pairs(nameOf, events + [Request(t, lock)]))
  {
    var p := states[|events|].profile;
    RunRemembers(nameOf, states, events, |events|);
    LocksRunKeepsInv(nameOf, states, events, |events|);
    assert events[..|events|] == events;
    AgreeAfterRequest(nameOf, events, p, t, lock);
    var ids, g := IdsAfter(p, nameOf(lock)), HistoryAfter(p.history, StackOf(p, t), IdFor(p, nameOf(lock)));
    var pairs := Pairs(nameOf, events + [Request(t, lock)]);
    if HasCycle(g) {
      CycleIsNameCycle(ids, g, pairs);
    }
    if NameCycle(pairs) {
      NameCycleIsCycle(ids, g, pairs);
    }
  }

  /** The release of a held lock crashes if and only if another name is the thread's newest. */
  lemma ReleaseCrashesExactly(nameOf: Instance -> Name, states: seq<Locks>, events: seq<Event>, t: Thread, k: nat)
    requires IsRun(nameOf, states, events) && k < |HeldBy(states[|events|], t)|
    ensures var s, names := states[|events|], NamesOf(nameOf, events, t);
            && names != []
            && (Pop(s.profile, t, nameOf(HeldBy(s, t)[k])) == Crashed(InvalidUnlock)
                <==> names[|names| - 1] != nameOf(HeldBy(s, t)[k]))
            && (Pop(s.profile, t, nameOf(HeldBy(s, t)[k])).Running?
                <==> names[|names| - 1] == nameOf(HeldBy(s, t)[k]))
  {
    var s, names := states[|events|], NamesOf(nameOf, events, t);
    RunRemembers(nameOf, states, events, |events|);
    LocksRunKeepsInv(nameOf, states, events, |events|);
    assert events[..|events|] == events;
    HeldNamesAreKnown(nameOf, s, t, k);
    assert StackIs(s.profile.ids, names, StackOf(s.profile, t));
    HeldMeansStacked(nameOf, s, t, k);
  }

  lemma HeldMeansStacked(nameOf: Instance -> Name, s: Locks, t: Thread, k: nat)
    requires LocksInv(nameOf, s) && k < |HeldBy(s, t)|
    ensures StackOf(s.profile, t) != []
  {
    var ids, stack, held, wanted := s.profile.ids, StackOf(s.profile, t), HeldBy(s, t), WantedBy(s, t);
    assert ThreadInv(nameOf, ids, stack, held, wanted);
    HeldNamesAreKnown(nameOf, s, t, k);
    assert held[k] in held && forall i :: i in held ==> i in held + wanted;
    IdsHold(nameOf, ids, held, held[k]);
    assert ids[nameOf(held[k])] in multiset(stack);
  }

  /** A run that has not crashed has asked for no two names in opposite orders, however indirectly. */
  lemma NoCycleSoFar(nameOf: Instance -> Name, states: seq<Locks>, events: seq<Event>)
    requires IsRun(nameOf, states, events)
    ensures !NameCycle(Pairs(nameOf, events))
  {
    var p := states[|events|].profile;
    RunRemembers(nameOf, states, events, |events|);
    LocksRunKeepsInv(nameOf, states, events, |events|);
    assert events[..|events|] == events;
    if NameCycle(Pairs(nameOf, events)) {
      NameCycleIsCycle(p.ids, p.history, Pairs(nameOf, events));
    }
  }

  /** Once one thread has asked for `b` with `a` newest, any thread that asks for `a` with `b` newest
      crashes, whatever has been released in between. */
  lemma OppositeOrderCrashes(nameOf: Instance -> Name, states: seq<Locks>, events: seq<Event>, t: Thread,
                             lock: Instance, b: Name)
    requires IsRun(nameOf, states, events) && (nameOf(lock), b) in Pairs(nameOf, events) && nameOf(lock) != b
    requires var names := NamesOf(nameOf, events, t); names != [] && names[|names| - 1] == b
    ensures Push(states[|events|].profile, t, nameOf(lock)) == Crashed(DeadlockDetected)
  {
    var a, pairs := nameOf(lock), Pairs(nameOf, events + [Request(t, lock)]);
    OneMoreEvent(nameOf, events, Request(t, lock), t);
    assert (a, b) in pairs && (b, a) in pairs;
    var p := [a, b, a];
    assert NamePath(pairs, p);
    RequestCrashesExactly(nameOf, states, events, t, lock);
  }

  // ----- the order of locks that are long released -----

  /** The events are a run, and it ends in `s`. */
  ghost predicate Reached(nameOf: Instance -> Name, events: seq<Event>, s: Locks) {
    exists states :: IsRun(nameOf, states, events) && states[|events|] == s
  }

  lemma EmptyRun(nameOf: Instance -> Name)
    ensures Reached(nameOf, [], Locks(EMPTY, map[], map[]))
  {
    assert IsRun(nameOf, [Locks(EMPTY, map[], map[])], []);
  }

  lemma EventReaches(nameOf: Instance -> Name, events: seq<Event>, s: Locks, e: Event, s': Locks)
    requires Reached(nameOf, events, s) && Next(nameOf, s, e, s')
    ensures Reached(nameOf, events + [e], s')
  {
    var states :| IsRun(nameOf, states, events) && states[|events|] == s;
    var longer, more := states + [s'], events + [e];
    forall i, j | 0 <= i < |more| && j == i + 1 ensures Next(nameOf, longer[i], more[i], longer[j]) {
      if i < |events| {
        assert Next(nameOf, states[i], events[i], states[j]);
      }
    }
    assert IsRun(nameOf, longer, more) && longer[|more|] == s';
  }

  /** A run goes on with any request that closes no cycle. */
  lemma RequestReaches(nameOf: Instance -> Name, events: seq<Event>, s: Locks, t: Thread, lock: Instance)
    returns (s': Locks)
    requires Reached(nameOf, events, s) && t !in s.wanted
    requires !NameCycle(Pairs(nameOf, events + [Request(t, lock)]))
    ensures Reached(nameOf, events + [Request(t, lock)], s')
    ensures s'.held == s.held && s'.wanted == s.wanted[t := lock]
  {
    var states :| IsRun(nameOf, states, events) && states[|events|] == s;
    RequestCrashesExactly(nameOf, states, events, t, lock);
    s' := Locks(Push(s.profile, t, nameOf(lock)).profile, s.held, s.wanted[t := lock]);
    EventReaches(nameOf, events, s, Request(t, lock), s');
  }

  /** A thread that wants a lock gets it. */
  lemma AcquireReaches(nameOf: Instance -> Name, events: seq<Event>, s: Locks, t: Thread) returns (s': Locks)
    requires Reached(nameOf, events, s) && t in s.wanted
    ensures Reached(nameOf, events + [Acquire(t)], s')
    ensures s'.held == s.held[t := HeldBy(s, t) + [s.wanted[t]]] && s'.wanted == s.wanted - {t}
  {
    s' := Locks(s.profile, s.held[t := HeldBy(s, t) + [s.wanted[t]]], s.wanted - {t});
    EventReaches(nameOf, events, s, Acquire(t), s');
  }

  /** A thread gives back a lock of its newest name. */
  lemma UnlockReaches(nameOf: Instance -> Name, events: seq<Event>, s: Locks, t: Thread, k: nat) returns (s': Locks)
    requires Reached(nameOf, events, s) && t !in s.wanted && k < |HeldBy(s, t)|
    requires var names := NamesOf(nameOf, events, t);
             names != [] && names[|names| - 1] == nameOf(HeldBy(s, t)[k])
    ensures Reached(nameOf, events + [Release(t, k)], s')
    ensures s'.held == s.held[t := Without(HeldBy(s, t), k)] && s'.wanted == s.wanted
  {
    var states :| IsRun(nameOf, states, events) && states[|events|] == s;
    ReleaseCrashesExactly(nameOf, states, events, t, k);
    s' := Locks(Pop(s.profile, t, nameOf(HeldBy(s, t)[k])).profile, s.held[t := Without(HeldBy(s, t), k)], s.wanted);
    EventReaches(nameOf, events, s, Release(t, k), s');
  }

  lemma OnePairIsNoCycle(a: Name, b: Name)
    requires a != b
    ensures !NameCycle({(a, b)}) && !NameCycle({})
  {
    forall p: seq<Name> | |p| >= 2 && p[0] == p[|p| - 1]
      ensures !NamePath({(a, b)}, p) && !NamePath({}, p)
    {
      assert (p[0], p[1]) !in {};
      if |p| == 2 {
        assert (p[0], p[1]) !in {(a, b)};
      } else {
        assert (p[0], p[1]) !in {(a, b)} || (p[1], p[2]) !in {(a, b)};
      }
    }
  }

  /** A point of a run at which nobody waits: the names of two threads, and all pairs so far. */
  datatype Point = Point(events: seq<Event>, s: Locks, names: map<Thread, seq<Name>>, pairs: set<(Name, Name)>)

  ghost predicate IsPoint(nameOf: Instance -> Name, at: Point) {
    && Reached(nameOf, at.events, at.s) && at.s.wanted == map[] && Pairs(nameOf, at.events) == at.pairs
    && forall t :: t in at.names ==> NamesOf(nameOf, at.events, t) == at.names[t]
  }

  function Asked(nameOf: Instance -> Name, at: Point, t: Thread, lock: Instance): set<(Name, Name)>
    requires t in at.names
  {
    at.pairs + PairOf(at.names[t], nameOf(lock))
  }

  /** Asking for a lock and getting it. */
  lemma LockPoint(nameOf: Instance -> Name, at: Point, t: Thread, lock: Instance) returns (next: Point)
    requires IsPoint(nameOf, at) && t in at.names && !NameCycle(Asked(nameOf, at, t, lock))
    ensures IsPoint(nameOf, next) && next.events == at.events + [Request(t, lock)] + [Acquire(t)]
    ensures next.names == at.names[t := at.names[t] + [nameOf(lock)]] && next.pairs == Asked(nameOf, at, t, lock)
    ensures next.s.held == at.s.held[t := HeldBy(at.s, t) + [lock]]
  {
    var asking := at.events + [Request(t, lock)];
    OneMoreEvent(nameOf, at.events, Request(t, lock), t);
    var s := RequestReaches(nameOf, at.events, at.s, t, lock);
    var s' := AcquireReaches(nameOf, asking, s, t);
    OneMoreEvent(nameOf, asking, Acquire(t), t);
    assert s'.wanted == map[];
    next := Point(asking + [Acquire(t)], s', at.names[t := at.names[t] + [nameOf(lock)]], Asked(nameOf, at, t, lock));
    forall u | u in next.names ensures NamesOf(nameOf, next.events, u) == next.names[u] {
      OneMoreEvent(nameOf, at.events, Request(t, lock), u);
      OneMoreEvent(nameOf, asking, Acquire(t), u);
    }
  }

  /** Giving back a lock of the newest name. */
  lemma UnlockPoint(nameOf: Instance -> Name, at: Point, t: Thread, k: nat) returns (next: Point)
    requires IsPoint(nameOf, at) && t in at.names && k < |HeldBy(at.s, t)| && at.names[t] != []
    requires at.names[t][|at.names[t]| - 1] == nameOf(HeldBy(at.s, t)[k])
    ensures IsPoint(nameOf, next) && next.events == at.events + [Release(t, k)] && next.pairs == at.pairs
    ensures next.names == at.names[t := at.names[t][..|at.names[t]| - 1]]
    ensures next.s.held == at.s.held[t := Without(HeldBy(at.s, t), k)]
  {
    var s := UnlockReaches(nameOf, at.events, at.s, t, k);
    next := Point(at.events + [Release(t, k)], s, at.names[t := at.names[t][..|at.names[t]| - 1]], at.pairs);
    OneMoreEvent(nameOf, at.events, Release(t, k), t);
    assert Pairs(nameOf, next.events) == at.pairs;
    forall u | u in next.names ensures NamesOf(nameOf, next.events, u) == next.names[u] {
      OneMoreEvent(nameOf, at.events, Release(t, k), u);
    }
  }

  /** Threads `t` and `u` hold `mine` and `yours`, and nobody else holds anything. */
  ghost predicate Stands(nameOf: Instance -> Name, at: Point, t: Thread, mine: seq<Instance>,
                         u: Thread, yours: seq<Instance>) {
    && IsPoint(nameOf, at) && t in at.names && u in at.names
    && at.names[t] == Names(nameOf, mine) && at.names[u] == Names(nameOf, yours)
    && HeldBy(at.s, t) == mine && HeldBy(at.s, u) == yours
    && forall v :: v != t && v != u ==> HeldBy(at.s, v) == []
  }

  function Names(nameOf: Instance -> Name, locks: seq<Instance>): (names: seq<Name>)
    ensures |names| == |locks| && forall i :: 0 <= i < |locks| ==> names[i] == nameOf(locks[i])
  {
    if locks == [] then [] else Names(nameOf, locks[..|locks| - 1]) + [nameOf(locks[|locks| - 1])]
  }

  lemma StartPoint(nameOf: Instance -> Name, t: Thread, u: Thread) returns (at: Point)
    requires t != u
    ensures Stands(nameOf, at, t, [], u, []) && at.pairs == {}
  {
    EmptyRun(nameOf);
    at := Point([], Locks(EMPTY, map[], map[]), map[t := [], u := []], {});
  }

  lemma LockStands(nameOf: Instance -> Name, at: Point, t: Thread, mine: seq<Instance>, u: Thread,
                   yours: seq<Instance>, lock: Instance) returns (next: Point)
    requires t != u && Stands(nameOf, at, t, mine, u, yours) && !NameCycle(Asked(nameOf, at, t, lock))
    ensures Stands(nameOf, next, t, mine + [lock], u, yours) && next.pairs == Asked(nameOf, at, t, lock)
  {
    next := LockPoint(nameOf, at, t, lock);
    assert Names(nameOf, mine + [lock]) == Names(nameOf, mine) + [nameOf(lock)];
    forall v | v != t && v != u ensures HeldBy(next.s, v) == [] {
      assert HeldBy(next.s, v) == HeldBy(at.s, v);
    }
  }

  lemma UnlockStands(nameOf: Instance -> Name, at: Point, t: Thread, mine: seq<Instance>, u: Thread,
                     yours: seq<Instance>, lock: Instance) returns (next: Point)
    requires t != u && Stands(nameOf, at, t, mine + [lock], u, yours)
    ensures Stands(nameOf, next, t, mine, u, yours) && next.pairs == at.pairs
  {
    var n := |mine|;
    assert Without(mine + [lock], n) == mine;
    assert Names(nameOf, mine + [lock])[..n] == Names(nameOf, mine);
    next := UnlockPoint(nameOf, at, t, n);
    forall v | v != t && v != u ensures HeldBy(next.s, v) == [] {
      assert HeldBy(next.s, v) == HeldBy(at.s, v);
    }
  }

  /** Thread `t` locks `a`, and then `b`. */
  lemma Nested(nameOf: Instance -> Name, a: Instance, b: Instance, t: Thread, u: Thread) returns (at: Point)
    requires nameOf(a) != nameOf(b) && t != u
    ensures Stands(nameOf, at, t, [] + [a] + [b], u, []) && at.pairs == {(nameOf(a), nameOf(b))}
  {
    var start := StartPoint(nameOf, t, u);
    OnePairIsNoCycle(nameOf(a), nameOf(b));
    assert Asked(nameOf, start, t, a) == {};
    var outer := LockStands(nameOf, start, t, [], u, [], a);
    assert Asked(nameOf, outer, t, b) == {(nameOf(a), nameOf(b))};
    at := LockStands(nameOf, outer, t, [] + [a], u, [], b);
  }

  /** It unlocks both, and `u` locks `b`. */
  lemma OneAfterTheOther(nameOf: Instance -> Name, a: Instance, b: Instance, t: Thread, u: Thread) returns (at: Point)
    requires nameOf(a) != nameOf(b) && t != u
    ensures Stands(nameOf, at, u, [b], t, []) && at.pairs == {(nameOf(a), nameOf(b))}
  {
    var inner := Nested(nameOf, a, b, t, u);
    var outer := UnlockStands(nameOf, inner, t, [] + [a], u, [], b);
    var free := UnlockStands(nameOf, outer, t, [], u, [], a);
    OnePairIsNoCycle(nameOf(a), nameOf(b));
    assert Asked(nameOf, free, u, b) == free.pairs;
    at := LockStands(nameOf, free, u, [], t, [], b);
    assert [] + [b] == [b];
  }

  /** Orders used at different times: `u`, holding `b` while no other thread holds or wants anything, asks
      for `a` and crashes, because `t` once asked for `b` with `a` newest. */
  lemma ReleasedLocksAreRemembered(nameOf: Instance -> Name, a: Instance, b: Instance, t: Thread, u: Thread)
    returns (events: seq<Event>, s: Locks)
    requires nameOf(a) != nameOf(b) && t != u
    ensures Reached(nameOf, events, s) && s.wanted == map[]
    ensures HeldBy(s, u) == [b] && forall v :: v != u ==> HeldBy(s, v) == []
    ensures Push(s.profile, u, nameOf(a)) == Crashed(DeadlockDetected)
  {
    var at := OneAfterTheOther(nameOf, a, b, t, u);
    events, s := at.events, at.s;
    var states :| IsRun(nameOf, states, events) && states[|events|] == s;
    assert at.names[u] == [nameOf(b)];
    OppositeOrderCrashes(nameOf, states, events, u, a, nameOf(b));
  }
}
