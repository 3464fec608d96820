/** The imperative profiler of ServerCore/DeadLockProfiler.cpp: the tables, the thread-local stacks
    and the depth-first search with its three work vectors.

    The search is exact: it reports a deadlock if and only if the lock-order graph has a cycle, the
    nodes it prints are that cycle, and both the search and the parent walk terminate. */
module DeadLockProfiling {
  import opened LockOrder

  datatype Verdict = Quiet | Crash(cause: CrashCause)

  // ----- one moment of the search -----

  datatype Search = Search(order: seq<int>, count: int, finished: seq<bool>, parent: seq<int>,
                           rank: map<int, nat>)
  {
    predicate Gray(i: int) {
      0 <= i < |order| && i < |finished| && order[i] != -1 && !finished[i]
    }

    predicate White(i: int) {
      0 <= i < |order| && order[i] == -1
    }
  }

  /** White nodes are undiscovered, finished nodes are exactly the ranked ones, and a finished node
      is ranked above everything it points to. */
  ghost predicate Coloured(g: Graph, n: nat, s: Search) {
    && |s.order| == |s.finished| == |s.parent| == n
    && (forall i :: 0 <= i < n ==> -1 <= s.order[i] < s.count)
    && (forall i :: 0 <= i < n ==> (s.finished[i] <==> i in s.rank))
    && (forall i :: i in s.rank ==> 0 <= i < n && s.order[i] != -1 && s.rank[i] < |s.rank|)
    && (forall u, v :: u in s.rank && Edge(g, u, v) ==> v in s.rank && s.rank[v] < s.rank[u])
  }

  /** The gray nodes are the recursion stack, in order of discovery, linked by `parent` and edges. */
  ghost predicate Stacked(g: Graph, s: Search, stack: seq<int>) {
    && (forall k :: 0 <= k < |stack| ==> s.Gray(stack[k]))
    && (forall i :: s.Gray(i) ==> i in stack)
    && (forall j, k :: 0 <= j < k < |stack| ==> s.order[stack[j]] < s.order[stack[k]])
    && (forall j, k :: 0 <= j && k == j + 1 && k < |stack| && stack[k] < |s.parent| ==>
          s.parent[stack[k]] == stack[j] && Edge(g, stack[j], stack[k]))
  }

  ghost predicate Searching(g: Graph, n: nat, s: Search, stack: seq<int>) {
    Coloured(g, n, s) && Stacked(g, s, stack) && 0 <= s.count
  }

  function Discovered(s: Search, here: int): Search
    requires 0 <= here < |s.order|
  {
    s.(order := s.order[here := s.count], count := s.count + 1)
  }

  lemma Discover(g: Graph, n: nat, s: Search, stack: seq<int>, here: int)
    requires Searching(g, n, s, stack) && s.White(here)
    requires stack != [] ==>
               s.parent[here] == stack[|stack| - 1] && Edge(g, stack[|stack| - 1], here)
    ensures Searching(g, n, Discovered(s, here), stack + [here])
  {
    assert Coloured(g, n, Discovered(s, here));
    DiscoverStacks(g, n, s, stack, here);
  }

  lemma DiscoverStacks(g: Graph, n: nat, s: Search, stack: seq<int>, here: int)
    requires Stacked(g, s, stack) && s.White(here) && |s.order| == |s.finished| == |s.parent| == n
    requires !s.finished[here] && 0 <= s.count && forall i :: 0 <= i < n ==> s.order[i] < s.count
    requires stack != [] ==>
               s.parent[here] == stack[|stack| - 1] && Edge(g, stack[|stack| - 1], here)
    ensures Stacked(g, Discovered(s, here), stack + [here])
  {
    var s', path := Discovered(s, here), stack + [here];
    forall i | s'.Gray(i) ensures i in path {
      if i != here {
        assert s.Gray(i);
      } else {
        assert path[|stack|] == here;
      }
    }
    forall k | 0 <= k < |stack|
      ensures s'.Gray(stack[k]) && stack[k] != here && s'.order[stack[k]] == s.order[stack[k]]
    {
      assert s.Gray(stack[k]);
    }
    forall j, k | 0 <= j < k < |path| ensures s'.order[path[j]] < s'.order[path[k]] {
      assert path[j] == stack[j];
    }
  }

  lemma SetParent(g: Graph, n: nat, s: Search, stack: seq<int>, there: int, here: int)
    requires Searching(g, n, s, stack) && s.White(there)
    ensures Searching(g, n, s.(parent := s.parent[there := here]), stack)
  {
    var s' := s.(parent := s.parent[there := here]);
    assert forall i :: s'.Gray(i) <==> s.Gray(i);
    forall k | 0 <= k < |stack| ensures stack[k] != there {
      assert s.Gray(stack[k]);
    }
  }

  lemma Finish(g: Graph, n: nat, s: Search, stack: seq<int>, here: int)
    requires Searching(g, n, s, stack + [here]) && 0 <= here < n
    requires forall there :: Edge(g, here, there) ==> there in s.rank
    ensures Searching(g, n, s.(finished := s.finished[here := true], rank := s.rank[here := |s.rank|]), stack)
  {
    var path := stack + [here];
    assert path[|stack|] == here && s.Gray(here);
    var s' := s.(finished := s.finished[here := true], rank := s.rank[here := |s.rank|]);
    assert s'.rank.Keys == s.rank.Keys + {here};
    assert |s'.rank| == |s'.rank.Keys| && |s.rank| == |s.rank.Keys|;
    forall k | 0 <= k < |stack| ensures s'.Gray(stack[k]) {
      assert path[k] == stack[k] && s.Gray(path[k]) && s.order[path[k]] < s.order[path[|stack|]];
    }
    forall i | s'.Gray(i) ensures i in stack {
      assert s.Gray(i) && i in path;
    }
    forall j, k | 0 <= j < k < |stack| ensures s'.order[stack[j]] < s'.order[stack[k]] {
      assert path[j] == stack[j] && path[k] == stack[k];
    }
    forall j, k | 0 <= j && k == j + 1 && k < |stack| && stack[k] < |s'.parent|
      ensures s'.parent[stack[k]] == stack[j] && Edge(g, stack[j], stack[k])
    {
      assert path[k] == stack[k] && path[j] == stack[j];
    }
  }

  /** A node discovered before the newest one, other than it, is gray exactly when it is an older
      entry of the stack; one discovered later is finished. */
  lemma LaterIsFinished(g: Graph, n: nat, s: Search, stack: seq<int>, here: int, there: int)
    requires Searching(g, n, s, stack + [here]) && 0 <= here < n && 0 <= there < n
    requires s.order[here] < s.order[there]
    ensures s.finished[there]
  {
    var path := stack + [here];
    assert path[|stack|] == here;
    assert forall m :: 0 <= m < |path| ==> s.order[path[m]] <= s.order[here];
    assert s.Gray(there) ==> there in path;
  }

  lemma WhiteIsNotStacked(g: Graph, s: Search, stack: seq<int>, i: int)
    requires Stacked(g, s, stack) && s.White(i)
    ensures i !in stack
  {
    forall k | 0 <= k < |stack| ensures stack[k] != i {
      assert s.Gray(stack[k]);
    }
  }

  predicate AllBelow(n: nat, keys: set<int>) {
    forall i :: 0 <= i < n ==> i in keys
  }

  lemma OneMoreBelow(n: nat, before: set<int>, after: set<int>)
    requires AllBelow(n, before) && before + {n} <= after
    ensures AllBelow(n + 1, after)
  {
    assert n in before + {n};
    assert forall i :: i in before ==> i in before + {n};
  }

  lemma AllRanked(g: Graph, n: nat, s: Search)
    requires WithinBounds(g, n) && Coloured(g, n, s) && AllBelow(n, s.rank.Keys)
    ensures Ranks(g, s.rank)
  {
  }

  lemma Inhabited(todo: set<int>)
    ensures todo == {} || exists there :: there in todo
  {
    if forall there :: there !in todo {
      assert todo == {};
    }
  }

  lemma RequestStaysWithinBounds(s: Profile, t: Thread, name: Name)
    requires ProfileInv(s)
    ensures WithinBounds(HistoryAfter(s.history, StackOf(s, t), IdFor(s, name)), |s.ids[name := IdFor(s, name)]|)
  {
    var id, stack := IdFor(s, name), StackOf(s, t);
    GrowTable(s.ids, name, id);
    assert name in s.ids ==> s.ids[name := id] == s.ids;
    if stack != [] {
      EdgesAfterAdd(s.history, stack[|stack| - 1], id);
    }
  }

  // ----- the printable names -----

  /** Every id in use has a name, and that name still maps to the id. */
  ghost predicate NamesKnown(p: Profile, names: map<int, Name>) {
    && (forall id :: id in names ==> names[id] in p.ids && p.ids[names[id]] == id)
    && (forall name :: name in p.ids ==> p.ids[name] in names)
    && (forall t, i :: t in p.stacks && 0 <= i < |p.stacks[t]| ==> p.stacks[t][i] in names)
  }

  lemma PushKeepsNames(p: Profile, names: map<int, Name>, t: Thread, name: Name)
    requires ProfileInv(p) && NamesKnown(p, names) && Push(p, t, name).Running?
    ensures NamesKnown(Push(p, t, name).profile,
                       if name in p.ids then names else names[|p.ids| := name])
  {
  }

  lemma PopKeepsNames(p: Profile, names: map<int, Name>, t: Thread, name: Name)
    requires ProfileInv(p) && NamesKnown(p, names) && Pop(p, t, name).Running?
    ensures NamesKnown(Pop(p, t, name).profile, names)
  {
    var p' := Pop(p, t, name).profile;
    assert name in p.ids ==> p'.ids == p.ids;
    if name !in p.ids {
      var stack := StackOf(p, t);
      assert t in p.stacks && p.stacks[t][|stack| - 1] == 0;
    }
  }

  lemma KnownEdge(g: Graph, u: int, v: int)
    requires Edge(g, u, v)
    ensures AddEdge(g, u, v) == g
  {
    assert g[u] + {v} == g[u];
  }

  class DeadLockProfiler {
    var nameToId: map<Name, int>
    var idToName: map<int, Name>
    var lockHistory: Graph
    var lockStacks: map<Thread, seq<int>>

    var discoveredOrder: seq<int>
    var discoveredCount: int
    var finished: seq<bool>
    var parent: seq<int>

    // Finish position of every finished node of the current search.
    ghost var rank: map<int, nat>

    ghost function View(): Profile
      reads this
    {
      Profile(nameToId, lockHistory, lockStacks)
    }

    ghost predicate Valid()
      reads this
    {
      ProfileInv(View()) && NamesKnown(View(), idToName)
    }

    constructor ()
      ensures Valid() && View() == EMPTY
    {
      nameToId, idToName, lockHistory, lockStacks := map[], map[], map[], map[];
      discoveredOrder, discoveredCount, finished, parent, rank := [], 0, [], [], map[];
      new;
      RankedMeansAcyclic(lockHistory, map[]);
    }

    // ----- the search -----

    ghost function Now(): Search
      reads this
    {
      Search(discoveredOrder, discoveredCount, finished, parent, rank)
    }

    ghost predicate InSearch(stack: seq<int>)
      reads this
    {
      WithinBounds(lockHistory, |nameToId|) && Searching(lockHistory, |nameToId|, Now(), stack)
    }

    ghost function Undiscovered(): set<int>
      reads this
    {
      set i | 0 <= i < |discoveredOrder| && discoveredOrder[i] == -1
    }

    method Dfs(here: int, ghost stack: seq<int>) returns (deadlock: bool, cycle: seq<int>)
      requires InSearch(stack) && 0 <= here < |nameToId|
      requires discoveredOrder[here] == -1 && stack != [] ==>
                 parent[here] == stack[|stack| - 1] && Edge(lockHistory, stack[|stack| - 1], here)
      modifies `discoveredOrder, `discoveredCount, `finished, `parent, `rank
      ensures deadlock ==> IsCycle(lockHistory, cycle)
      ensures !deadlock ==> InSearch(stack)
      ensures !deadlock ==> here in rank || here in stack
      ensures !deadlock ==> old(rank.Keys) <= rank.Keys
      ensures !deadlock ==> Undiscovered() <= old(Undiscovered())
      decreases Undiscovered(), 0, 0
    {
      deadlock, cycle := false, [];
      if discoveredOrder[here] != -1 {
        assert Now().Gray(here) || finished[here];
        return;
      }
      Enter(here, stack);
      if here in lockHistory {
        deadlock, cycle := VisitNext(here, lockHistory[here], stack);
      }
      if !deadlock {
        Leave(here, stack);
      }
    }

    /** Marks `here` discovered. */
    method Enter(here: int, ghost stack: seq<int>)
      requires InSearch(stack) && 0 <= here < |nameToId| && discoveredOrder[here] == -1
      requires stack != [] ==> parent[here] == stack[|stack| - 1] && Edge(lockHistory, stack[|stack| - 1], here)
      modifies `discoveredOrder, `discoveredCount
      ensures InSearch(stack + [here]) && Undiscovered() < old(Undiscovered())
      ensures discoveredOrder == old(discoveredOrder)[here := old(discoveredCount)]
      ensures discoveredCount == old(discoveredCount) + 1
    {
      Discover(lockHistory, |nameToId|, Now(), stack, here);
      discoveredOrder := discoveredOrder[here := discoveredCount];
      discoveredCount := discoveredCount + 1;
      assert here in old(Undiscovered()) && here !in Undiscovered();
    }

    /** Marks `here` finished once all its neighbours are. */
    method Leave(here: int, ghost stack: seq<int>)
      requires InSearch(stack + [here]) && 0 <= here < |nameToId|
      requires here in lockHistory ==> lockHistory[here] <= rank.Keys
      modifies `finished, `rank
      ensures InSearch(stack) && rank.Keys == old(rank.Keys) + {here}
      ensures finished == old(finished)[here := true]
    {
      ghost var s := Now();
      Finish(lockHistory, |nameToId|, s, stack, here);
      finished := finished[here := true];
      rank := rank[here := |rank|];
      assert Now() == s.(finished := s.finished[here := true], rank := s.rank[here := |s.rank|]);
    }

    /** The neighbour loop of Dfs. */
    method VisitNext(here: int, nextSet: set<int>, ghost stack: seq<int>)
      returns (deadlock: bool, cycle: seq<int>)
      requires InSearch(stack + [here]) && 0 <= here < |nameToId|
      requires here in lockHistory && nextSet == lockHistory[here]
      modifies `discoveredOrder, `discoveredCount, `finished, `parent, `rank
      ensures deadlock ==> IsCycle(lockHistory, cycle)
      ensures !deadlock ==> InSearch(stack + [here])
      ensures !deadlock ==> nextSet <= rank.Keys
      ensures !deadlock ==> old(rank.Keys) <= rank.Keys
      ensures !deadlock ==> Undiscovered() <= old(Undiscovered())
      decreases Undiscovered(), 1
    {
      deadlock, cycle := false, [];
      ghost var path := stack + [here];
      var todo := nextSet;
      while todo != {}
        invariant todo <= nextSet && path == stack + [here]
        invariant InSearch(path) && Undiscovered() <= old(Undiscovered())
        invariant nextSet - todo <= rank.Keys
        invariant old(rank.Keys) <= rank.Keys
        decreases todo
      {
        Inhabited(todo);
        var there :| there in todo;
        todo := todo - {there};
        deadlock, cycle := Visit(here, there, stack);
        if deadlock {
          return;
        }
      }
    }

    /** One round of the neighbour loop. */
    method Visit(here: int, there: int, ghost stack: seq<int>) returns (deadlock: bool, cycle: seq<int>)
      requires InSearch(stack + [here]) && Edge(lockHistory, here, there)
      modifies `discoveredOrder, `discoveredCount, `finished, `parent, `rank
      ensures deadlock ==> IsCycle(lockHistory, cycle)
      ensures !deadlock ==> InSearch(stack + [here]) && there in rank
      ensures !deadlock ==> old(rank.Keys) <= rank.Keys
      ensures !deadlock ==> Undiscovered() <= old(Undiscovered())
      decreases Undiscovered(), 0, 1
    {
      deadlock, cycle := false, [];
      ghost var path := stack + [here];
      assert path[|path| - 1] == here && Now().Gray(here);
      if discoveredOrder[there] == -1 {
        SetParent(lockHistory, |nameToId|, Now(), path, there, here);
        parent := parent[there := here];
        WhiteIsNotStacked(lockHistory, Now(), path, there);
        deadlock, cycle := Dfs(there, path);
        return;
      }
      if discoveredOrder[here] < discoveredOrder[there] {
        LaterIsFinished(lockHistory, |nameToId|, Now(), stack, here, there);
        return;
      }
      if !finished[there] {
        assert Now().Gray(there);
        cycle := WalkParents(here, there, path);
        deadlock := true;
      }
    }

    /** The loop that prints the cycle, from the newest node back to `there`. */
    method WalkParents(here: int, there: int, ghost path: seq<int>) returns (cycle: seq<int>)
      requires InSearch(path) && path != [] && path[|path| - 1] == here
      requires there in path && Edge(lockHistory, here, there)
      ensures IsCycle(lockHistory, cycle)
      ensures |cycle| >= 3 && cycle[|cycle| - 2] == here
    {
      var now := here;
      ghost var m :| 0 <= m < |path| && path[m] == there;
      ghost var k := |path| - 1;
      cycle := [here, there];
      while true
        invariant m < k < |path| && now == path[k]
        invariant cycle == path[k..] + [there]
        invariant IsPath(lockHistory, cycle)
        decreases k
      {
        assert Now().Gray(path[k]);
        assert path[k - 1] == parent[now];
        now := parent[now];
        k := k - 1;
        cycle := [now] + cycle;
        if now == there {
          break;
        }
        assert k != m;
      }
    }

    /** Exactness: a crash if and only if there is a cycle, with the cycle in hand. */
    method CheckCycle() returns (deadlock: bool, cycle: seq<int>)
      requires WithinBounds(lockHistory, |nameToId|)
      modifies `discoveredOrder, `discoveredCount, `finished, `parent, `rank
      ensures deadlock <==> HasCycle(lockHistory)
      ensures deadlock ==> IsCycle(lockHistory, cycle)
      ensures !deadlock ==> Ranks(lockHistory, rank)
    {
      StartSearch();
      deadlock, cycle := SearchAll();
      if !deadlock {
        AllRanked(lockHistory, |nameToId|, Now());
        RankedMeansAcyclic(lockHistory, rank);
        discoveredOrder, finished, parent := [], [], [];
      }
    }

    method SearchFrom(lockId: int) returns (deadlock: bool, cycle: seq<int>)
      requires InSearch([]) && 0 <= lockId < |nameToId|
      modifies `discoveredOrder, `discoveredCount, `finished, `parent, `rank
      ensures deadlock ==> IsCycle(lockHistory, cycle)
      ensures !deadlock ==> InSearch([]) && old(rank.Keys) + {lockId} <= rank.Keys
    {
      deadlock, cycle := Dfs(lockId, []);
    }

    /** Starts a search from every lock. */
    method SearchAll() returns (deadlock: bool, cycle: seq<int>)
      requires InSearch([])
      modifies `discoveredOrder, `discoveredCount, `finished, `parent, `rank
      ensures deadlock ==> IsCycle(lockHistory, cycle)
      ensures !deadlock ==> InSearch([]) && AllBelow(|nameToId|, rank.Keys)
    {
      for lockId := 0 to |nameToId|
        invariant InSearch([]) && AllBelow(lockId, rank.Keys)
      {
        ghost var before := rank.Keys;
        deadlock, cycle := SearchFrom(lockId);
        if deadlock {
          return;
        }
        OneMoreBelow(lockId, before, rank.Keys);
      }
      deadlock, cycle := false, [];
    }

    /** Clears the marks of the last search. */
    method StartSearch()
      requires WithinBounds(lockHistory, |nameToId|)
      modifies `discoveredOrder, `discoveredCount, `finished, `parent, `rank
      ensures InSearch([])
    {
      var lockCount := |nameToId|;
      discoveredOrder := seq(lockCount, _ => -1);
      discoveredCount := 0;
      finished := seq(lockCount, _ => false);
      parent := seq(lockCount, _ => -1);
      rank := map[];
    }

    // ----- the two calls -----

    method PushLock(t: Thread, name: Name) returns (verdict: Verdict, cycle: seq<int>)
      requires Valid()
      modifies this
      ensures match Push(old(View()), t, name)
              case Running(s) => verdict == Quiet && View() == s && Valid()
              case Crashed(cause) =>
                && verdict == Crash(cause) && IsCycle(lockHistory, cycle)
                && lockHistory == HistoryAfter(old(lockHistory), StackOf(old(View()), t), IdFor(old(View()), name))
    {
      ghost var s := View();
      var lockId := 0;
      verdict, cycle := Quiet, [];
      if name !in nameToId {
        lockId := |nameToId|;
        nameToId := nameToId[name := lockId];
        idToName := idToName[lockId := name];
      } else {
        lockId := nameToId[name];
      }

      var stack := if t in lockStacks then lockStacks[t] else [];
      if stack != [] {
        verdict, cycle := Request(stack[|stack| - 1], lockId, s, t, name);
      }
      if verdict == Quiet {
        lockStacks := lockStacks[t := stack + [lockId]];
        assert nameToId == s.ids[name := lockId];
        PushKeepsInv(s, t, name);
        PushKeepsNames(s, old(idToName), t, name);
      }
    }

    /** The middle of PushLock: enter the edge and re-check when it is new. */
    method Request(prevId: int, lockId: int, ghost s: Profile, ghost t: Thread, ghost name: Name)
      returns (verdict: Verdict, cycle: seq<int>)
      requires ProfileInv(s) && StackOf(s, t) != [] && prevId == StackOf(s, t)[|StackOf(s, t)| - 1]
      requires lockId == IdFor(s, name) && nameToId == s.ids[name := lockId] && lockHistory == s.history
      modifies `lockHistory, `discoveredOrder, `discoveredCount, `finished, `parent, `rank
      ensures lockHistory == HistoryAfter(s.history, StackOf(s, t), lockId)
      ensures verdict == if HasCycle(lockHistory) then Crash(DeadlockDetected) else Quiet
      ensures verdict != Quiet ==> IsCycle(lockHistory, cycle)
    {
      verdict, cycle := Quiet, [];
      if lockId != prevId {
        var history := if prevId in lockHistory then lockHistory[prevId] else {};
        if lockId !in history {
          lockHistory := lockHistory[prevId := history + {lockId}];
          RequestStaysWithinBounds(s, t, name);
          var deadlock;
          deadlock, cycle := CheckCycle();
          if deadlock {
            verdict := Crash(DeadlockDetected);
          }
        } else {
          KnownEdge(lockHistory, prevId, lockId);
        }
      }
    }

    method PopLock(t: Thread, name: Name) returns (verdict: Verdict)
      requires Valid()
      modifies this
      ensures match Pop(old(View()), t, name)
              case Running(s) => verdict == Quiet && View() == s && Valid()
              case Crashed(cause) => verdict == Crash(cause) && View() == old(View())
    {
      ghost var s := View();
      var stack := if t in lockStacks then lockStacks[t] else [];
      if stack == [] {
        return Crash(MultipleUnlock);
      }
      var lockId := if name in nameToId then nameToId[name] else 0;
      if stack[|stack| - 1] != lockId {
        return Crash(InvalidUnlock);
      }
      nameToId := nameToId[name := lockId];
      lockStacks := lockStacks[t := stack[..|stack| - 1]];
      PopKeepsInv(s, t, name);
      PopKeepsNames(s, idToName, t, name);
      verdict := Quiet;
    }
  }
}
