/** The send side of ServerCore/Session.cpp: any number of threads in Send, and worker threads that
    run ProcessSend for completions, one access at a time. The session lock is the abstract lock
    that `RwSpinLock` is proved to implement.

    The session is connected throughout and WSASend never fails outright; a completion reports all
    the buffers of its WSASend. `handed`, `accepted`, `senders`, `completed` and `token` are history
    variables no guard reads. */
module SendQueue {
  import opened RwSpinLock

  /** A reference to a closed send buffer. */
  type Buffer = nat

  /** `inner` is RegisterSend called from ProcessSend, which already holds the lock. */
  datatype Stage =
    | Resting
    | SendLock(buffer: Buffer) | SendPush(buffer: Buffer) | SendExchange | SendUnlock(register: bool)
    | RegLock(inner: bool) | RegDrain(inner: bool) | RegUnlock(inner: bool) | RegPost(inner: bool)
    | ProcClear | ProcLock | ProcCheck | ProcUnlock

  /** Who answers for `_sendRegistered`. */
  datatype Token = Nobody | HeldBy(thread: Thread) | OnWire

  datatype Net = Net(
    queue: seq<Buffer>, registered: bool, lock: Rw,
    sendBuffers: seq<Buffer>,          // _sendEvent.sendBuffers
    wire: seq<seq<Buffer>>,            // WSASends not yet completed
    stage: map<Thread, Stage>,
    handed: map<Thread, seq<Buffer>>,  // what each thread has called Send with
    accepted: seq<Buffer>, senders: seq<Thread>,   // what entered the queue, and who pushed it
    completed: seq<Buffer>, token: Token)

  datatype Event =
    | StartSend(thread: Thread, buffer: Buffer)
    | Go(thread: Thread)
    | Completion(thread: Thread, index: nat)   // a worker picks up the completion of wire[index]

  /** The next step is to take the lock. */
  predicate Waits(stage: Stage) { stage.SendLock? || stage.RegLock? || stage.ProcLock? }

  predicate Possible(s: Net, e: Event) {
    && e.thread in s.stage
    && match e
       case StartSend(t, _) => s.stage[t] == Resting
       case Completion(t, i) => s.stage[t] == Resting && i < |s.wire|
       case Go(t) =>
         && s.stage[t] != Resting
         && (Waits(s.stage[t]) ==> s.lock == FREE || s.lock.owner == t)
  }

  function Locked(a: Rw, t: Thread): Rw { Rw(t, a.depth + 1, a.readers) }

  function Unlocked(a: Rw): Rw {
    if a.depth > 1 then a.(depth := a.depth - 1) else FREE
  }

  function At(s: Net, t: Thread, stage: Stage): Net { s.(stage := s.stage[t := stage]) }

  function HandedBy(s: Net, t: Thread): seq<Buffer> {
    if t in s.handed then s.handed[t] else []
  }

  function Advance(s: Net, t: Thread): (s': Net)
    requires t in s.stage
    ensures t in s'.stage
  {
    match s.stage[t]
    case Resting => s
    case SendLock(b) => At(s, t, SendPush(b)).(lock := Locked(s.lock, t))
    case SendPush(b) =>
      At(s, t, SendExchange).(queue := s.queue + [b], accepted := s.accepted + [b], senders := s.senders + [t])
    case SendExchange =>
      At(s, t, SendUnlock(!s.registered)).(registered := true, token := if s.registered then s.token else HeldBy(t))
    case SendUnlock(register) =>
      At(s, t, if register then RegLock(false) else Resting).(lock := Unlocked(s.lock))
    case RegLock(inner) => At(s, t, RegDrain(inner)).(lock := Locked(s.lock, t))
    case RegDrain(inner) =>
      if s.queue == [] then At(s, t, RegUnlock(inner))
      else s.(queue := s.queue[1..], sendBuffers := s.sendBuffers + [s.queue[0]])
    case RegUnlock(inner) => At(s, t, RegPost(inner)).(lock := Unlocked(s.lock))
    case RegPost(inner) =>
      At(s, t, if inner then ProcUnlock else Resting).(wire := s.wire + [s.sendBuffers], token := OnWire)
    case ProcClear => At(s, t, ProcLock).(sendBuffers := [])
    case ProcLock => At(s, t, ProcCheck).(lock := Locked(s.lock, t))
    case ProcCheck =>
      if s.queue != [] then At(s, t, RegLock(true))
      else At(s, t, ProcUnlock).(registered := false, token := Nobody)
    case ProcUnlock => At(s, t, Resting).(lock := Unlocked(s.lock))
  }

  function After(s: Net, e: Event): (s': Net)
    requires Possible(s, e)
    ensures e.thread in s'.stage
  {
    match e
    case StartSend(t, b) => At(s, t, SendLock(b)).(handed := s.handed[t := HandedBy(s, t) + [b]])
    case Go(t) => Advance(s, t)
    case Completion(t, i) =>
      At(s, t, ProcClear).(wire := s.wire[..i] + s.wire[i + 1..], completed := s.completed + s.wire[i],
                           token := HeldBy(t))
  }

  predicate Fresh(s: Net) {
    && s.queue == [] && !s.registered && s.lock == FREE && s.sendBuffers == [] && s.wire == []
    && s.handed == map[] && s.accepted == [] && s.senders == [] && s.completed == [] && s.token == Nobody
    && forall t :: t in s.stage ==> s.stage[t] == Resting
  }

  // ----- the invariant -----

  /** How often a thread at this point has entered the lock. */
  function Depth(stage: Stage): nat {
    match stage
    case SendPush(_) | SendExchange | SendUnlock(_) | ProcCheck | ProcUnlock => 1
    case RegLock(inner) => if inner then 1 else 0
    case RegPost(inner) => if inner then 1 else 0
    case RegDrain(inner) => if inner then 2 else 1
    case RegUnlock(inner) => if inner then 2 else 1
    case _ => 0
  }

  /** Between winning the exchange and handing the buffers to WSASend, and from a completion until
      the flag is cleared or the next WSASend. */
  predicate HasToken(stage: Stage) {
    match stage
    case SendUnlock(register) => register
    case RegLock(_) | RegDrain(_) | RegUnlock(_) | RegPost(_) | ProcClear | ProcLock | ProcCheck => true
    case _ => false
  }

  ghost predicate LockInv(s: Net) {
    && s.lock.readers == multiset{} && (s.lock.owner == 0 ==> s.lock == FREE)
    && (s.lock.owner != 0 ==> s.lock.owner in s.stage && s.lock.depth > 0)
    && forall t :: t in s.stage ==> Depth(s.stage[t]) == if s.lock.owner == t then s.lock.depth else 0
  }

  ghost predicate TokenInv(s: Net) {
    && (forall t :: t in s.stage ==> (HasToken(s.stage[t]) <==> s.token == HeldBy(t)))
    && (s.token.HeldBy? ==> s.token.thread in s.stage)
    && (s.registered <==> s.token != Nobody)
    && |s.wire| == if s.token == OnWire then 1 else 0
  }

  /** The token holder has moved buffers into `_sendEvent` and not yet posted them. */
  predicate Loading(s: Net) {
    && s.token.HeldBy? && s.token.thread in s.stage
    && (var st := s.stage[s.token.thread]; st.RegDrain? || st.RegUnlock? || st.RegPost?)
  }

  /** Buffers taken from the queue and not yet reported complete. */
  function OnTheWay(s: Net): seq<Buffer> {
    if Loading(s) then s.sendBuffers else if s.wire != [] then s.wire[0] else []
  }

  /** What the queue and `_sendEvent` hold while the token holder is at `stage`. */
  predicate HolderInv(stage: Stage, queue: seq<Buffer>, sendBuffers: seq<Buffer>) {
    match stage
    case SendUnlock(_) => sendBuffers == [] && queue != []
    case RegLock(_) => sendBuffers == [] && queue != []
    case RegDrain(_) => sendBuffers != [] || queue != []
    case RegUnlock(_) => sendBuffers != [] && queue == []
    case RegPost(_) => sendBuffers != []
    case ProcLock => sendBuffers == []
    case ProcCheck => sendBuffers == []
    case _ => true
  }

  predicate OwnerAtExchange(s: Net) {
    s.lock.owner in s.stage && s.stage[s.lock.owner] == SendExchange
  }

  ghost predicate DataInv(s: Net) {
    && s.accepted == s.completed + OnTheWay(s) + s.queue
    && (s.token == Nobody ==> s.sendBuffers == [])
    && (s.token == OnWire ==> s.wire == [s.sendBuffers] && s.sendBuffers != [])
    && (s.token.HeldBy? && s.token.thread in s.stage ==> HolderInv(s.stage[s.token.thread], s.queue, s.sendBuffers))
    && (OwnerAtExchange(s) ==> s.queue != [])
    && (!s.registered && s.queue != [] ==> OwnerAtExchange(s))
  }

  ghost predicate NetInv(s: Net) {
    LockInv(s) && TokenInv(s) && DataInv(s) && HandedInv(s)
  }

  /** Those of the accepted buffers that thread `t` pushed, in order. */
  function PushedBy(accepted: seq<Buffer>, senders: seq<Thread>, t: Thread): seq<Buffer>
    requires |accepted| == |senders|
  {
    if accepted == [] then []
    else
      var n := |accepted| - 1;
      PushedBy(accepted[..n], senders[..n], t) + if senders[n] == t then [accepted[n]] else []
  }

  /** The buffer a call of Send has not pushed yet. */
  function Pending(stage: Stage): seq<Buffer> {
    match stage
    case SendLock(b) => [b]
    case SendPush(b) => [b]
    case _ => []
  }

  /** What a thread has handed over is what it pushed, in that order, and what its call still holds. */
  ghost predicate HandedInv(s: Net) {
    && |s.accepted| == |s.senders|
    && forall t :: t in s.stage ==> HandedBy(s, t) == PushedBy(s.accepted, s.senders, t) + Pending(s.stage[t])
  }

  // ----- every step keeps it -----

  predicate LegalLockMove(a: Rw, t: Thread, b: Rw) {
    b == a || AcquireWrite(a, t, b) || ReleaseWrite(a, t, b)
  }

  /** Only the thread's own stage changes, and it enters or leaves the lock with its depth. */
  predicate MovesLock(s: Net, t: Thread, s': Net)
    requires t in s.stage && t in s'.stage
  {
    var d, d' := Depth(s.stage[t]), Depth(s'.stage[t]);
    && s'.stage == s.stage[t := s'.stage[t]]
    && (|| (s'.lock == s.lock && d' == d)
        || (s'.lock == Locked(s.lock, t) && (s.lock == FREE || s.lock.owner == t) && d' == d + 1)
        || (s'.lock == Unlocked(s.lock) && d == d' + 1))
  }

  lemma LockMove(s: Net, t: Thread, s': Net)
    requires LockInv(s) && t in s.stage && t in s'.stage && MovesLock(s, t, s')
    ensures LockInv(s') && LegalLockMove(s.lock, t, s'.lock)
  {
    forall u | u in s'.stage
      ensures Depth(s'.stage[u]) == if s'.lock.owner == u then s'.lock.depth else 0
    {
      assert u != t ==> s'.stage[u] == s.stage[u];
    }
  }

  lemma SendMovesLock(s: Net, t: Thread)
    requires t in s.stage && (Waits(s.stage[t]) ==> s.lock == FREE || s.lock.owner == t)
    requires var st := s.stage[t]; st.SendLock? || st.SendPush? || st.SendExchange? || st.SendUnlock?
    ensures MovesLock(s, t, Advance(s, t))
  {
  }

  lemma RegMovesLock(s: Net, t: Thread)
    requires t in s.stage && (Waits(s.stage[t]) ==> s.lock == FREE || s.lock.owner == t)
    requires var st := s.stage[t]; st.RegLock? || st.RegDrain? || st.RegUnlock? || st.RegPost?
    ensures MovesLock(s, t, Advance(s, t))
  {
  }

  lemma ProcMovesLock(s: Net, t: Thread)
    requires t in s.stage && (Waits(s.stage[t]) ==> s.lock == FREE || s.lock.owner == t)
    requires var st := s.stage[t]; st.ProcClear? || st.ProcLock? || st.ProcCheck? || st.ProcUnlock?
    ensures MovesLock(s, t, Advance(s, t))
  {
  }

  lemma EventMovesLock(s: Net, e: Event)
    requires Possible(s, e)
    ensures MovesLock(s, e.thread, After(s, e))
  {
    match e {
      case StartSend(_, _) =>
      case Completion(_, _) =>
      case Go(t) =>
        var st := s.stage[t];
        if st.SendLock? || st.SendPush? || st.SendExchange? || st.SendUnlock? {
          SendMovesLock(s, t);
        } else if st.RegLock? || st.RegDrain? || st.RegUnlock? || st.RegPost? {
          RegMovesLock(s, t);
        } else {
          ProcMovesLock(s, t);
        }
    }
  }

  /** Every lock step the session takes is a step of the abstract lock. */
  lemma LockStepsAreLegal(s: Net, e: Event)
    requires LockInv(s) && Possible(s, e)
    ensures LockInv(After(s, e)) && LegalLockMove(s.lock, e.thread, After(s, e).lock)
  {
    EventMovesLock(s, e);
    LockMove(s, e.thread, After(s, e));
  }

  /** A step that hands the token on, or leaves it where it is. */
  predicate MovesToken(s: Net, t: Thread, s': Net)
    requires t in s.stage && t in s'.stage
  {
    var had, has := HasToken(s.stage[t]), HasToken(s'.stage[t]);
    && s'.stage == s.stage[t := s'.stage[t]]
    && (|| (s'.token == s.token && had == has)
        || (s'.token == HeldBy(t) && has && (s.token == Nobody || s.token == OnWire))
        || ((s'.token == Nobody || s'.token == OnWire) && had && !has))
    && (s'.registered <==> s'.token != Nobody)
    && |s'.wire| == if s'.token == OnWire then 1 else 0
  }

  lemma TokenMove(s: Net, t: Thread, s': Net)
    requires TokenInv(s) && t in s.stage && t in s'.stage && MovesToken(s, t, s')
    ensures TokenInv(s')
  {
    forall u | u in s'.stage
      ensures HasToken(s'.stage[u]) <==> s'.token == HeldBy(u)
    {
      assert u != t ==> s'.stage[u] == s.stage[u];
    }
  }

  lemma SendMovesToken(s: Net, t: Thread)
    requires t in s.stage && (HasToken(s.stage[t]) <==> s.token == HeldBy(t))
    requires var st := s.stage[t]; st.SendLock? || st.SendPush? || st.SendExchange? || st.SendUnlock?
    requires (s.registered <==> s.token != Nobody) && |s.wire| == if s.token == OnWire then 1 else 0
    ensures MovesToken(s, t, Advance(s, t))
  {
  }

  lemma RegMovesToken(s: Net, t: Thread)
    requires t in s.stage && (HasToken(s.stage[t]) <==> s.token == HeldBy(t))
    requires var st := s.stage[t]; st.RegLock? || st.RegDrain? || st.RegUnlock? || st.RegPost?
    requires (s.registered <==> s.token != Nobody) && |s.wire| == if s.token == OnWire then 1 else 0
    ensures MovesToken(s, t, Advance(s, t))
  {
  }

  lemma ProcMovesToken(s: Net, t: Thread)
    requires t in s.stage && (HasToken(s.stage[t]) <==> s.token == HeldBy(t))
    requires var st := s.stage[t]; st.ProcClear? || st.ProcLock? || st.ProcCheck? || st.ProcUnlock?
    requires (s.registered <==> s.token != Nobody) && |s.wire| == if s.token == OnWire then 1 else 0
    ensures MovesToken(s, t, Advance(s, t))
  {
  }

  lemma EventMovesToken(s: Net, e: Event)
    requires Possible(s, e) && (HasToken(s.stage[e.thread]) <==> s.token == HeldBy(e.thread))
    requires (s.registered <==> s.token != Nobody) && |s.wire| == if s.token == OnWire then 1 else 0
    ensures MovesToken(s, e.thread, After(s, e))
  {
    match e {
      case StartSend(_, _) =>
      case Completion(_, _) =>
      case Go(t) =>
        var st := s.stage[t];
        if st.SendLock? || st.SendPush? || st.SendExchange? || st.SendUnlock? {
          SendMovesToken(s, t);
        } else if st.RegLock? || st.RegDrain? || st.RegUnlock? || st.RegPost? {
          RegMovesToken(s, t);
        } else {
          ProcMovesToken(s, t);
        }
    }
  }

  lemma StepKeepsToken(s: Net, e: Event)
    requires TokenInv(s) && Possible(s, e)
    ensures TokenInv(After(s, e))
  {
    EventMovesToken(s, e);
    TokenMove(s, e.thread, After(s, e));
  }

  lemma PushKeepsData(s: Net, t: Thread)
    requires NetInv(s) && t in s.stage && s.stage[t].SendPush?
    ensures DataInv(Advance(s, t))
  {
    var s' := Advance(s, t);
    assert Depth(s.stage[t]) == 1;
    assert !HasToken(s.stage[t]);
    assert OnTheWay(s') == OnTheWay(s);
    assert s.completed + OnTheWay(s) + (s.queue + [s.stage[t].buffer])
        == s.completed + OnTheWay(s) + s.queue + [s.stage[t].buffer];
  }

  lemma ExchangeKeepsData(s: Net, t: Thread)
    requires NetInv(s) && t in s.stage && s.stage[t].SendExchange?
    ensures DataInv(Advance(s, t))
  {
    var s' := Advance(s, t);
    assert Depth(s.stage[t]) == 1;
    assert !HasToken(s.stage[t]);
    assert OnTheWay(s') == OnTheWay(s);
  }

  lemma OneMoreTaken(done: seq<Buffer>, taken: seq<Buffer>, queue: seq<Buffer>)
    requires queue != []
    ensures done + taken + queue == done + (taken + [queue[0]]) + queue[1..]
  {
    assert queue == [queue[0]] + queue[1..];
  }

  lemma TakeMovesOne(s: Net, t: Thread)
    requires TokenInv(s) && DataInv(s) && t in s.stage && s.stage[t].RegDrain? && s.queue != []
    ensures var s' := Advance(s, t);
            OnTheWay(s') == s'.sendBuffers != [] && s'.accepted == s'.completed + s'.sendBuffers + s'.queue
  {
    assert HasToken(s.stage[t]) && s.token == HeldBy(t);
    assert OnTheWay(s) == s.sendBuffers;
    OneMoreTaken(s.completed, s.sendBuffers, s.queue);
  }

  lemma TakeKeepsData(s: Net, t: Thread)
    requires NetInv(s) && t in s.stage && s.stage[t].RegDrain? && s.queue != []
    ensures DataInv(Advance(s, t))
  {
    assert Depth(s.stage[t]) > 0 && HasToken(s.stage[t]);
    assert s.token == HeldBy(t) && s.lock.owner == t;
    TakeMovesOne(s, t);
  }

  lemma DrainKeepsData(s: Net, t: Thread)
    requires NetInv(s) && t in s.stage && s.stage[t].RegDrain?
    ensures DataInv(Advance(s, t))
  {
    if s.queue != [] {
      TakeKeepsData(s, t);
    } else {
      assert Depth(s.stage[t]) > 0 && HasToken(s.stage[t]);
    }
  }

  lemma PostKeepsData(s: Net, t: Thread)
    requires NetInv(s) && t in s.stage && s.stage[t].RegPost?
    ensures DataInv(Advance(s, t))
  {
    assert HasToken(s.stage[t]);
  }

  lemma CheckKeepsData(s: Net, t: Thread)
    requires NetInv(s) && t in s.stage && s.stage[t].ProcCheck?
    ensures DataInv(Advance(s, t))
  {
    assert Depth(s.stage[t]) == 1;
    assert HasToken(s.stage[t]);
  }

  lemma OnlyOne(wire: seq<seq<Buffer>>, batch: seq<Buffer>)
    requires wire == [batch]
    ensures |wire| == 1 && wire[0] == batch && wire[..0] + wire[1..] == []
  {
  }

  lemma NoneOnTheWay(done: seq<Buffer>, batch: seq<Buffer>, queue: seq<Buffer>)
    ensures done + batch + queue == (done + batch) + [] + queue
  {
  }

  /** The batch on the wire is complete, and nothing is on its way. */
  lemma CompletionMovesBatch(s: Net, t: Thread, i: nat)
    requires TokenInv(s) && DataInv(s) && t in s.stage && s.stage[t] == Resting && i < |s.wire|
    ensures var s' := After(s, Completion(t, i));
            s'.wire == [] && OnTheWay(s') == [] && s'.accepted == s'.completed + [] + s'.queue
  {
    assert s.token == OnWire && i == 0;
    OnlyOne(s.wire, s.sendBuffers);
    NoneOnTheWay(s.completed, s.sendBuffers, s.queue);
  }

  lemma CompletionKeepsData(s: Net, t: Thread, i: nat)
    requires NetInv(s) && t in s.stage && s.stage[t] == Resting && i < |s.wire|
    ensures DataInv(After(s, Completion(t, i)))
  {
    CompletionMovesBatch(s, t, i);
    assert OwnerAtExchange(After(s, Completion(t, i))) ==> OwnerAtExchange(s);
  }

  /** The steps that touch neither the queue nor the buffers on their way. */
  predicate Quiet(s: Net, t: Thread, s': Net)
    requires t in s.stage && t in s'.stage
  {
    var st, st' := s.stage[t], s'.stage[t];
    && s'.stage == s.stage[t := st']
    && s'.queue == s.queue && s'.wire == s.wire && s'.accepted == s.accepted && s'.completed == s.completed
    && s'.token == s.token && s'.registered == s.registered
    && (s'.sendBuffers == s.sendBuffers || st.ProcClear?)
    && !st.SendExchange? && !st'.SendExchange?
    && (HasToken(st) ==> HolderInv(st', s.queue, s'.sendBuffers))
    && (st'.RegUnlock? <==> st.RegDrain?) && (st'.RegDrain? <==> st.RegLock?) && (st'.RegPost? <==> st.RegUnlock?)
    && !st.RegPost?
  }

  lemma QuietStepKeepsData(s: Net, t: Thread, s': Net)
    requires NetInv(s) && LockInv(s') && TokenInv(s') && t in s.stage && t in s'.stage && Quiet(s, t, s')
    ensures DataInv(s')
  {
    assert HasToken(s.stage[t]) <==> s.token == HeldBy(t);
    assert HasToken(s'.stage[t]) <==> s.token == HeldBy(t);
    assert OnTheWay(s') == OnTheWay(s);
    if OwnerAtExchange(s) {
      assert s.lock.owner != t && Depth(s.stage[s.lock.owner]) == 1;
      assert s'.stage[s.lock.owner] == SendExchange;
      assert Depth(s'.stage[s.lock.owner]) == 1;
    }
    if OwnerAtExchange(s') {
      assert s'.lock.owner != t && s.stage[s'.lock.owner] == SendExchange;
      assert Depth(s.stage[s'.lock.owner]) == 1;
    }
  }

  lemma QuietSteps(s: Net, t: Thread)
    requires t in s.stage && (HasToken(s.stage[t]) ==> HolderInv(s.stage[t], s.queue, s.sendBuffers))
    requires s.stage[t].SendLock? || s.stage[t].SendUnlock? || s.stage[t].RegLock? || s.stage[t].RegUnlock?
          || s.stage[t].ProcClear? || s.stage[t].ProcLock? || s.stage[t].ProcUnlock?
    ensures Quiet(s, t, Advance(s, t))
  {
  }

  lemma AdvanceKeepsData(s: Net, t: Thread)
    requires NetInv(s) && t in s.stage
    requires LockInv(Advance(s, t)) && TokenInv(Advance(s, t))
    ensures DataInv(Advance(s, t))
  {
    assert HasToken(s.stage[t]) <==> s.token == HeldBy(t);
    match s.stage[t] {
      case SendPush(_) => PushKeepsData(s, t);
      case SendExchange => ExchangeKeepsData(s, t);
      case RegDrain(_) => DrainKeepsData(s, t);
      case RegPost(_) => PostKeepsData(s, t);
      case ProcCheck => CheckKeepsData(s, t);
      case Resting => assert Advance(s, t) == s;
      case _ =>
        QuietSteps(s, t);
        QuietStepKeepsData(s, t, Advance(s, t));
    }
  }

  lemma StepKeepsData(s: Net, e: Event)
    requires NetInv(s) && Possible(s, e)
    ensures DataInv(After(s, e))
  {
    var t, s' := e.thread, After(s, e);
    LockStepsAreLegal(s, e);
    StepKeepsToken(s, e);
    assert HasToken(s.stage[t]) <==> s.token == HeldBy(t);
    match e {
      case StartSend(_, _) => QuietStepKeepsData(s, t, s');
      case Completion(_, i) => CompletionKeepsData(s, t, i);
      case Go(_) => AdvanceKeepsData(s, t);
    }
  }

  lemma PushedByAppend(accepted: seq<Buffer>, senders: seq<Thread>, b: Buffer, t: Thread, u: Thread)
    requires |accepted| == |senders|
    ensures PushedBy(accepted + [b], senders + [t], u)
         == PushedBy(accepted, senders, u) + if u == t then [b] else []
  {
    assert (accepted + [b])[..|accepted|] == accepted && (senders + [t])[..|senders|] == senders;
  }

  /** The steps that hand nothing over and push nothing. */
  predicate HandsNothing(s: Net, t: Thread, s': Net)
    requires t in s.stage && t in s'.stage
  {
    && s'.stage == s.stage[t := s'.stage[t]]
    && s'.handed == s.handed && s'.accepted == s.accepted && s'.senders == s.senders
    && Pending(s'.stage[t]) == Pending(s.stage[t])
  }

  lemma SendHandsNothing(s: Net, t: Thread)
    requires t in s.stage
    requires var st := s.stage[t]; st.SendLock? || st.SendExchange? || st.SendUnlock?
    ensures HandsNothing(s, t, Advance(s, t))
  {
  }

  lemma RegHandsNothing(s: Net, t: Thread)
    requires t in s.stage
    requires var st := s.stage[t]; st.RegLock? || st.RegDrain? || st.RegUnlock? || st.RegPost?
    ensures HandsNothing(s, t, Advance(s, t))
  {
  }

  lemma ProcHandsNothing(s: Net, t: Thread)
    requires t in s.stage
    requires var st := s.stage[t]; st.ProcClear? || st.ProcLock? || st.ProcCheck? || st.ProcUnlock?
    ensures HandsNothing(s, t, Advance(s, t))
  {
  }

  lemma AdvanceHandsNothing(s: Net, t: Thread)
    requires t in s.stage && s.stage[t] != Resting && !s.stage[t].SendPush?
    ensures HandsNothing(s, t, Advance(s, t))
  {
    var st := s.stage[t];
    if st.SendLock? || st.SendExchange? || st.SendUnlock? {
      SendHandsNothing(s, t);
    } else if st.RegLock? || st.RegDrain? || st.RegUnlock? || st.RegPost? {
      RegHandsNothing(s, t);
    } else {
      ProcHandsNothing(s, t);
    }
  }

  lemma QuietStepKeepsHanded(s: Net, t: Thread, s': Net)
    requires HandedInv(s) && t in s.stage && t in s'.stage && HandsNothing(s, t, s')
    ensures HandedInv(s')
  {
    forall u | u in s'.stage
      ensures HandedBy(s', u) == PushedBy(s'.accepted, s'.senders, u) + Pending(s'.stage[u])
    {
      assert HandedBy(s, u) == PushedBy(s.accepted, s.senders, u) + Pending(s.stage[u]);
    }
  }

  lemma PushKeepsHanded(s: Net, t: Thread)
    requires HandedInv(s) && t in s.stage && s.stage[t].SendPush?
    ensures HandedInv(Advance(s, t))
  {
    var s', b := Advance(s, t), s.stage[t].buffer;
    forall u | u in s'.stage
      ensures HandedBy(s', u) == PushedBy(s'.accepted, s'.senders, u) + Pending(s'.stage[u])
    {
      assert HandedBy(s, u) == PushedBy(s.accepted, s.senders, u) + Pending(s.stage[u]);
      PushedByAppend(s.accepted, s.senders, b, t, u);
    }
  }

  lemma StartKeepsHanded(s: Net, t: Thread, b: Buffer)
    requires HandedInv(s) && t in s.stage && s.stage[t] == Resting
    ensures HandedInv(After(s, StartSend(t, b)))
  {
    var s' := After(s, StartSend(t, b));
    forall u | u in s'.stage
      ensures HandedBy(s', u) == PushedBy(s'.accepted, s'.senders, u) + Pending(s'.stage[u])
    {
      assert HandedBy(s, u) == PushedBy(s.accepted, s.senders, u) + Pending(s.stage[u]);
    }
  }

  lemma StepKeepsHanded(s: Net, e: Event)
    requires HandedInv(s) && Possible(s, e)
    ensures HandedInv(After(s, e))
  {
    match e
    case StartSend(t, b) => StartKeepsHanded(s, t, b);
    case Completion(t, _) => QuietStepKeepsHanded(s, t, After(s, e));
    case Go(t) =>
      if s.stage[t].SendPush? {
        PushKeepsHanded(s, t);
      } else {
        AdvanceHandsNothing(s, t);
        QuietStepKeepsHanded(s, t, Advance(s, t));
      }
  }

  // ----- every run -----

  predicate IsRun(s: Net, events: seq<Event>, s': Net)
    decreases |events|
  {
    if events == [] then s' == s
    else Possible(s, events[0]) && IsRun(After(s, events[0]), events[1..], s')
  }

  lemma OneStepKeepsInv(s: Net, e: Event)
    requires NetInv(s) && Possible(s, e)
    ensures NetInv(After(s, e))
  {
    LockStepsAreLegal(s, e);
    StepKeepsToken(s, e);
    StepKeepsData(s, e);
    StepKeepsHanded(s, e);
  }

  lemma {:induction false} RunKeepsInv(s: Net, events: seq<Event>, s': Net)
    requires NetInv(s) && IsRun(s, events, s')
    ensures NetInv(s')
    decreases |events|
  {
    if events == [] {
    } else {
      OneStepKeepsInv(s, events[0]);
      RunKeepsInv(After(s, events[0]), events[1..], s');
    }
  }

  lemma Reachable(s: Net, events: seq<Event>, s': Net)
    requires Fresh(s) && IsRun(s, events, s')
    ensures NetInv(s')
  {
    RunKeepsInv(s, events, s');
  }

  /** At most one WSASend is outstanding, it is never empty, and the session holds on to exactly the
      buffers it was given until its completion is picked up. */
  lemma OneSendInFlight(s: Net, events: seq<Event>, s': Net)
    requires Fresh(s) && IsRun(s, events, s')
    ensures s'.wire == [] || (s'.wire == [s'.sendBuffers] && s'.sendBuffers != [])
    ensures s'.wire != [] ==> s'.registered && forall t :: t in s'.stage ==> !HasToken(s'.stage[t])
  {
    Reachable(s, events, s');
  }

  /** `_sendRegistered` is set exactly while one party answers for it, and never two threads at once. */
  lemma FlagHasOneHolder(s: Net, events: seq<Event>, s': Net, t: Thread, u: Thread)
    requires Fresh(s) && IsRun(s, events, s')
    requires t in s'.stage && u in s'.stage && HasToken(s'.stage[t]) && HasToken(s'.stage[u])
    ensures t == u && s'.registered && s'.wire == []
  {
    Reachable(s, events, s');
  }

  /** While nobody is inside the lock, a cleared flag means an empty queue. */
  lemma NoLostWakeup(s: Net, events: seq<Event>, s': Net)
    requires Fresh(s) && IsRun(s, events, s')
    requires s'.lock == FREE && !s'.registered
    ensures s'.queue == [] && s'.accepted == s'.completed
  {
    Reachable(s, events, s');
    assert OnTheWay(s') == [];
  }

  /** When no thread is in an operation and nothing is on the wire, everything accepted was sent. */
  lemma QuietMeansAllSent(s: Net, events: seq<Event>, s': Net)
    requires Fresh(s) && IsRun(s, events, s')
    requires s'.wire == [] && forall t :: t in s'.stage ==> s'.stage[t] == Resting
    ensures s'.queue == [] && s'.completed == s'.accepted && !s'.registered && s'.lock == FREE
  {
    Reachable(s, events, s');
    assert s'.token == Nobody;
    assert s'.lock.owner in s'.stage ==> Depth(s'.stage[s'.lock.owner]) == 0;
    NoLostWakeup(s, events, s');
  }

  lemma StartsWith(a: seq<Buffer>, b: seq<Buffer>, c: seq<Buffer>)
    ensures a <= a + b + c
  {
  }

  /** Buffers leave in the order in which they entered the queue, none lost and none twice. */
  lemma SendsInOrder(s: Net, events: seq<Event>, s': Net)
    requires Fresh(s) && IsRun(s, events, s')
    ensures s'.accepted == s'.completed + OnTheWay(s') + s'.queue
    ensures s'.completed <= s'.accepted
  {
    Reachable(s, events, s');
    StartsWith(s'.completed, OnTheWay(s'), s'.queue);
  }

  /** No buffer handed to Send is dropped or overtaken by a later one of its thread: a thread's buffers
      enter the queue in the order of its calls, up to the one its current call has not pushed yet. */
  lemma NothingHandedIsLost(s: Net, events: seq<Event>, s': Net, t: Thread)
    requires Fresh(s) && IsRun(s, events, s') && t in s'.stage
    ensures |s'.accepted| == |s'.senders|
    ensures HandedBy(s', t) == PushedBy(s'.accepted, s'.senders, t) + Pending(s'.stage[t])
  {
    Reachable(s, events, s');
  }

  // ----- what one send carries -----

  predicate NoEventOf(t: Thread, events: seq<Event>) {
    forall e :: e in events ==> e.thread != t
  }

  /** Nobody touches the batch of a thread that is about to post it. */
  lemma OthersKeepBatch(s: Net, e: Event, t: Thread)
    requires NetInv(s) && Possible(s, e) && t in s.stage && s.stage[t].RegPost? && e.thread != t
    ensures var s' := After(s, e);
            t in s'.stage && s'.stage[t] == s.stage[t] && s'.sendBuffers == s.sendBuffers
            && s'.completed == s.completed && s'.wire == []
  {
    assert HasToken(s.stage[t]) && s.token == HeldBy(t);
    assert HasToken(s.stage[e.thread]) <==> s.token == HeldBy(e.thread);
  }

  lemma {:induction false} BatchWaits(s: Net, events: seq<Event>, s': Net, t: Thread)
    requires NetInv(s) && IsRun(s, events, s') && NoEventOf(t, events)
    requires t in s.stage && s.stage[t].RegPost? && s.wire == []
    ensures t in s'.stage && s'.stage[t] == s.stage[t] && s'.sendBuffers == s.sendBuffers
    ensures s'.completed == s.completed && s'.wire == []
    decreases |events|
  {
    if events == [] {
    } else {
      var e, next := events[0], After(s, events[0]);
      assert e in events && forall x :: x in events[1..] ==> x in events;
      OthersKeepBatch(s, e, t);
      OneStepKeepsInv(s, e);
      BatchWaits(next, events[1..], s', t);
    }
  }

  /** RegisterSend takes the whole queue: when it leaves the lock, nothing is queued, and what its WSASend
      then carries, whatever others do meanwhile, is in order exactly what has been accepted and not yet
      sent at that moment. */
  lemma SendCarriesWholeQueue(start: Net, before: seq<Event>, s: Net, t: Thread, between: seq<Event>, s': Net)
    requires Fresh(start) && IsRun(start, before, s) && t in s.stage && s.stage[t].RegUnlock?
    requires IsRun(After(s, Go(t)), between, s') && NoEventOf(t, between)
    ensures s.queue == [] && s.accepted == s.completed + s.sendBuffers
    ensures t in s'.stage && s'.stage[t].RegPost? && s'.completed == s.completed
    ensures After(s', Go(t)).wire == [s.sendBuffers]
  {
    Reachable(start, before, s);
    QueueIsTaken(s, t);
    BatchIsPosted(s, t, between, s');
  }

  lemma QueueIsTaken(s: Net, t: Thread)
    requires TokenInv(s) && DataInv(s) && t in s.stage && s.stage[t].RegUnlock?
    ensures s.queue == [] && s.accepted == s.completed + s.sendBuffers && s.wire == []
  {
    assert HasToken(s.stage[t]) && s.token == HeldBy(t);
    assert OnTheWay(s) == s.sendBuffers;
    assert s.completed + s.sendBuffers + [] == s.completed + s.sendBuffers;
  }

  lemma BatchIsPosted(s: Net, t: Thread, between: seq<Event>, s': Net)
    requires NetInv(s) && t in s.stage && s.stage[t].RegUnlock? && s.wire == []
    requires IsRun(After(s, Go(t)), between, s') && NoEventOf(t, between)
    ensures t in s'.stage && s'.stage[t].RegPost? && s'.completed == s.completed
    ensures After(s', Go(t)).wire == [s.sendBuffers]
  {
    OneStepKeepsInv(s, Go(t));
    BatchWaits(After(s, Go(t)), between, s', t);
    assert [] + [s.sendBuffers] == [s.sendBuffers];
  }

  // ----- calls end, and everything can be sent -----

  /** How far an operation still is from its end. */
  function Left(stage: Stage): nat {
    match stage
    case Resting => 0
    case ProcUnlock => 1
    case SendUnlock(register) => if register then 6 else 1
    case RegPost(_) => 2
    case RegUnlock(_) => 3
    case RegDrain(_) => 4
    case RegLock(_) => 5
    case ProcCheck => 6
    case SendExchange => 7
    case ProcLock => 7
    case SendPush(_) => 8
    case ProcClear => 8
    case SendLock(_) => 9
  }

  /** Every step brings its operation closer to its end, or takes one buffer from the queue. */
  lemma EveryStepAdvances(s: Net, t: Thread)
    requires t in s.stage && s.stage[t] != Resting
    ensures var s' := Advance(s, t);
            || Left(s'.stage[t]) < Left(s.stage[t])
            || (s'.stage[t] == s.stage[t] && s.queue != [] && s'.queue == s.queue[1..])
  {
  }

  /** No deadlock: while some operation is under way, the thread inside the lock can go on, or, when
      nobody is inside, every thread can. */
  lemma SomebodyCanMove(start: Net, events: seq<Event>, s: Net, t: Thread) returns (u: Thread)
    requires Fresh(start) && IsRun(start, events, s) && t in s.stage && s.stage[t] != Resting
    ensures Possible(s, Go(u)) && (s.lock == FREE ==> u == t)
  {
    Reachable(start, events, s);
    u := t;
    if s.lock.owner != 0 {
      u := s.lock.owner;
      assert Depth(s.stage[u]) > 0;
    }
  }

  predicate OnlyGoes(events: seq<Event>) {
    forall e :: e in events ==> e.Go?
  }

  /** A thread that has the lock, or finds it free, can finish its operation by itself. */
  lemma {:induction false} RunsHome(s: Net, t: Thread) returns (events: seq<Event>, s': Net)
    requires NetInv(s) && t in s.stage && (s.lock == FREE || s.lock.owner == t)
    ensures IsRun(s, events, s') && OnlyGoes(events) && NetInv(s')
    ensures s'.stage == s.stage[t := Resting] && s'.completed == s.completed
    ensures !WillExchange(s.stage[t]) ==> s'.accepted == s.accepted
    decreases Left(s.stage[t]), |s.queue|
  {
    if s.stage[t] == Resting {
      events, s' := [], s;
      assert s.stage[t := Resting] == s.stage;
    } else {
      var next := After(s, Go(t));
      EveryStepAdvances(s, t);
      OneStepKeepsInv(s, Go(t));
      LockStaysMine(s, t);
      events, s' := RunsHome(next, t);
      OneStep(s, Go(t), events, s');
      events := [Go(t)] + events;
      GoKeeps(s, t);
    }
  }

  lemma LockStaysMine(s: Net, t: Thread)
    requires Possible(s, Go(t)) && (s.lock == FREE || s.lock.owner == t)
    ensures var s' := After(s, Go(t)); s'.lock == FREE || s'.lock.owner == t
  {
  }

  /** A step moves its own thread alone, and completes nothing. */
  predicate MovesOne(s: Net, t: Thread, s': Net)
    requires t in s.stage
  {
    s'.completed == s.completed && t in s'.stage && s'.stage == s.stage[t := s'.stage[t]]
  }

  lemma SendMovesOne(s: Net, t: Thread)
    requires t in s.stage && WillExchange(s.stage[t])
    ensures MovesOne(s, t, Advance(s, t))
  {
  }

  lemma RegMovesOne(s: Net, t: Thread)
    requires t in s.stage
    requires var st := s.stage[t]; st.SendUnlock? || st.RegLock? || st.RegDrain? || st.RegUnlock? || st.RegPost?
    ensures MovesOne(s, t, Advance(s, t))
    ensures Advance(s, t).accepted == s.accepted && !WillExchange(Advance(s, t).stage[t])
  {
  }

  lemma ProcMovesOne(s: Net, t: Thread)
    requires t in s.stage
    requires var st := s.stage[t]; st.ProcClear? || st.ProcLock? || st.ProcCheck? || st.ProcUnlock?
    ensures MovesOne(s, t, Advance(s, t))
    ensures Advance(s, t).accepted == s.accepted && !WillExchange(Advance(s, t).stage[t])
  {
  }

  lemma GoKeeps(s: Net, t: Thread)
    requires Possible(s, Go(t))
    ensures var s' := After(s, Go(t));
            && s'.completed == s.completed && s'.stage[t := Resting] == s.stage[t := Resting]
            && (!WillExchange(s.stage[t]) ==> s'.accepted == s.accepted && !WillExchange(s'.stage[t]))
  {
    var st := s.stage[t];
    if WillExchange(st) {
      SendMovesOne(s, t);
    } else if st.SendUnlock? || st.RegLock? || st.RegDrain? || st.RegUnlock? || st.RegPost? {
      RegMovesOne(s, t);
    } else {
      ProcMovesOne(s, t);
    }
  }

  function Busy(s: Net): set<Thread> {
    set t | t in s.stage && s.stage[t] != Resting
  }

  /** All operations under way can be finished, without new ones. */
  lemma {:induction false} AllRunHome(s: Net) returns (events: seq<Event>, s': Net)
    requires NetInv(s)
    ensures IsRun(s, events, s') && OnlyGoes(events) && NetInv(s') && Busy(s') == {}
    ensures s'.stage.Keys == s.stage.Keys && s'.completed == s.completed
    ensures NoSender(s) ==> s'.accepted == s.accepted
    decreases |Busy(s)|
  {
    if Busy(s) == {} {
      events, s' := [], s;
    } else {
      var t := NextHome(s);
      var first, next := RunsHome(s, t);
      LessBusy(s, t, next);
      var rest;
      rest, s' := AllRunHome(next);
      Concatenate(s, first, next, rest, s');
      events := first + rest;
    }
  }

  lemma LessBusy(s: Net, t: Thread, next: Net)
    requires t in Busy(s) && next.stage == s.stage[t := Resting]
    ensures Busy(next) == Busy(s) - {t} && |Busy(next)| < |Busy(s)| && next.stage.Keys == s.stage.Keys
    ensures NoSender(s) ==> NoSender(next) && !WillExchange(s.stage[t])
  {
    assert Busy(next) == Busy(s) - {t};
  }

  lemma NextHome(s: Net) returns (t: Thread)
    requires NetInv(s) && Busy(s) != {}
    ensures t in Busy(s) && (s.lock == FREE || s.lock.owner == t)
  {
    if s.lock.owner != 0 {
      t := s.lock.owner;
      assert Depth(s.stage[t]) > 0;
    } else {
      t :| t in Busy(s);
    }
  }

  /** At rest, the outstanding send is completed and what was queued meanwhile is sent, and so on. */
  lemma {:induction false} RestIsSent(s: Net, worker: Thread) returns (events: seq<Event>, s': Net)
    requires NetInv(s) && Busy(s) == {} && worker in s.stage
    ensures IsRun(s, events, s') && NoNewSend(events) && NetInv(s') && Busy(s') == {} && s'.wire == []
    decreases |s.accepted| - |s.completed|
  {
    RestingState(s, worker);
    if s.wire == [] {
      events, s' := [], s;
    } else {
      var e := Completion(worker, 0);
      var done := After(s, e);
      OneStepKeepsInv(s, e);
      CompletionShrinks(s, worker);
      var home, again := AllRunHome(done);
      var rest;
      rest, s' := RestIsSent(again, worker);
      Concatenate(done, home, again, rest, s');
      OneStep(s, e, home + rest, s');
      events := [e] + (home + rest);
    }
  }

  lemma RestingState(s: Net, worker: Thread)
    requires NetInv(s) && Busy(s) == {}
    ensures forall t :: t in s.stage ==> s.stage[t] == Resting
    ensures s.wire != [] ==> s.token == OnWire && |s.wire| == 1 && s.wire[0] != []
  {
    forall t | t in s.stage ensures s.stage[t] == Resting {
      assert t !in Busy(s);
    }
  }

  lemma CompletionShrinks(s: Net, worker: Thread)
    requires NetInv(s) && worker in s.stage && s.wire != [] && forall t :: t in s.stage ==> s.stage[t] == Resting
    requires s.token == OnWire && |s.wire| == 1 && s.wire[0] != []
    ensures var s' := After(s, Completion(worker, 0));
            && s'.accepted == s.accepted && |s.completed| < |s'.completed| <= |s'.accepted| && NoSender(s')
  {
    assert OnTheWay(s) == s.wire[0];
  }

  /** No livelock either: from every state of every run, and with one worker thread, the threads can go on,
      without a new call of Send, until all is at rest and everything accepted has been sent. */
  lemma EverythingCanBeSent(start: Net, before: seq<Event>, s: Net, worker: Thread)
    returns (events: seq<Event>, s': Net)
    requires Fresh(start) && IsRun(start, before, s) && worker in s.stage
    ensures IsRun(s, events, s') && NoNewSend(events)
    ensures (forall t :: t in s'.stage ==> s'.stage[t] == Resting) && s'.queue == [] && s'.completed == s'.accepted
  {
    Reachable(start, before, s);
    var home, quiet := AllRunHome(s);
    var rest;
    rest, s' := RestIsSent(quiet, worker);
    Concatenate(s, home, quiet, rest, s');
    events := home + rest;
    RestingState(s', worker);
    Concatenate(start, before, s, events, s');
    QuietMeansAllSent(start, before + events, s');
  }

  // ----- without the hypothesis -----

  /** WSASend fails outright: the buffers are dropped and the flag is cleared, outside the lock. */
  function FailedPost(s: Net, t: Thread): Net
    requires t in s.stage && s.stage[t].RegPost?
  {
    At(s, t, if s.stage[t].inner then ProcUnlock else Resting).(sendBuffers := [], registered := false, token := Nobody)
  }

  /** A call of Send that has not come to its exchange yet. */
  predicate WillExchange(stage: Stage) { stage.SendLock? || stage.SendPush? || stage.SendExchange? }

  predicate NoSender(s: Net) {
    forall u :: u in s.stage ==> !WillExchange(s.stage[u])
  }

  predicate NoNewSend(events: seq<Event>) {
    forall e :: e in events ==> !e.StartSend?
  }

  /** Buffers wait in the queue, and without a new call of Send the flag is never set again, whatever
      the threads do: nobody will ever drain them. */
  ghost predicate Stranded(s: Net) {
    s.queue != [] && forall events, s' :: IsRun(s, events, s') && NoNewSend(events) ==> !s'.registered
  }

  /** Between operations and posts: no token, nothing on the wire. */
  ghost predicate Idle(s: Net) {
    LockInv(s) && TokenInv(s) && s.token == Nobody
  }

  lemma {:induction false} NobodySetsTheFlag(s: Net, events: seq<Event>, s': Net)
    requires Idle(s) && NoSender(s) && IsRun(s, events, s') && NoNewSend(events)
    ensures !s'.registered
    decreases |events|
  {
    if events == [] {
    } else {
      var e, next := events[0], After(s, events[0]);
      LockStepsAreLegal(s, e);
      StepKeepsToken(s, e);
      assert e in events && !e.Completion?;
      assert !HasToken(s.stage[e.thread]);
      assert next.token == Nobody;
      assert forall x :: x in events[1..] ==> x in events;
      NobodySetsTheFlag(next, events[1..], s');
    }
  }

  lemma Prepend(s: Net, e: Event, events: seq<Event>, s': Net)
    requires Possible(s, e) && IsRun(After(s, e), events, s') && NoNewSend(events) && !e.StartSend?
    ensures IsRun(s, [e] + events, s') && NoNewSend([e] + events)
  {
    assert ([e] + events)[1..] == events;
  }

  /** A thread that has the lock, or gets it, on its way to the exchange sets the flag. */
  lemma ExchangeFollows(s: Net, u: Thread) returns (events: seq<Event>, s': Net)
    requires u in s.stage && WillExchange(s.stage[u])
    requires s.stage[u].SendLock? ==> s.lock == FREE || s.lock.owner == u
    ensures IsRun(s, events, s') && NoNewSend(events) && s'.registered
    decreases if s.stage[u].SendLock? then 2 else if s.stage[u].SendPush? then 1 else 0
  {
    var next := After(s, Go(u));
    if s.stage[u].SendExchange? {
      events, s' := [], next;
      assert IsRun(next, [], next);
    } else {
      events, s' := ExchangeFollows(next, u);
    }
    Prepend(s, Go(u), events, s');
    events := [Go(u)] + events;
  }

  /** While a call of Send is still before its exchange, some schedule sets the flag. */
  lemma SenderSetsTheFlag(s: Net, u: Thread) returns (events: seq<Event>, s': Net)
    requires Idle(s) && u in s.stage && WillExchange(s.stage[u])
    ensures IsRun(s, events, s') && NoNewSend(events) && s'.registered
  {
    var w := s.lock.owner;
    if w == 0 || w == u || !s.stage[u].SendLock? {
      events, s' := ExchangeFollows(s, u);
    } else {
      assert Depth(s.stage[w]) == s.lock.depth > 0 && !HasToken(s.stage[w]);
      if WillExchange(s.stage[w]) {
        events, s' := ExchangeFollows(s, w);
      } else {
        assert s.lock.depth == 1;
        var next := After(s, Go(w));
        assert next.lock == FREE && next.stage[u] == s.stage[u];
        events, s' := ExchangeFollows(next, u);
        Prepend(s, Go(w), events, s');
        events := [Go(w)] + events;
      }
    }
  }

  lemma FailureKeepsOrder(s: Net, t: Thread)
    requires NetInv(s) && t in s.stage && s.stage[t].RegPost?
    ensures Idle(FailedPost(s, t)) && (NoSender(FailedPost(s, t)) <==> NoSender(s))
  {
    var s' := FailedPost(s, t);
    assert HasToken(s.stage[t]);
    forall u | u in s'.stage
      ensures !HasToken(s'.stage[u]) && Depth(s'.stage[u]) == Depth(s.stage[u])
      ensures WillExchange(s'.stage[u]) == WillExchange(s.stage[u])
    {
      assert u != t ==> s'.stage[u] == s.stage[u];
    }
  }

  /** A hard error of WSASend always loses the buffers drained for it; and it strands those queued
      since, for good unless Send is called again, if and only if there are any and no call of Send is
      still on its way to the exchange. */
  lemma HardErrorLosesBatch(s: Net, t: Thread)
    requires NetInv(s) && t in s.stage && s.stage[t].RegPost?
    ensures var s' := FailedPost(s, t);
            && |s'.accepted| == |s'.completed| + |s'.queue| + |s.sendBuffers| && |s.sendBuffers| > 0
            && s'.wire == [] && !s'.registered
            && (Stranded(s') <==> s.queue != [] && NoSender(s))
  {
    assert HasToken(s.stage[t]);
    var s' := FailedPost(s, t);
    FailureKeepsOrder(s, t);
    if NoSender(s) {
      forall events, s'' | IsRun(s', events, s'') && NoNewSend(events)
        ensures !s''.registered
      {
        NobodySetsTheFlag(s', events, s'');
      }
    } else {
      var u :| u in s'.stage && WillExchange(s'.stage[u]);
      var events, s'' := SenderSetsTheFlag(s', u);
    }
  }

  // ----- a reachable stranded queue -----

  /** Two threads, at rest. */
  function Start(t: Thread, u: Thread): Net {
    Net([], false, FREE, [], [], map[t := Resting, u := Resting], map[], [], [], [], Nobody)
  }

  /** Thread `t` sends `b` and stands before WSASend. */
  function BeforePost(t: Thread, b: Buffer, u: Thread): Net {
    Net([], true, FREE, [b], [], map[t := RegPost(false), u := Resting], map[t := [b]], [b], [t], [], HeldBy(t))
  }

  /** The accesses of `t` by itself, one after the other. */
  predicate Steps(s: Net, t: Thread, n: nat, s': Net)
    decreases n
  {
    if n == 0 then s' == s else Possible(s, Go(t)) && Steps(After(s, Go(t)), t, n - 1, s')
  }

  lemma {:induction false} StepsAreARun(s: Net, t: Thread, n: nat, s': Net) returns (events: seq<Event>)
    requires Steps(s, t, n, s')
    ensures IsRun(s, events, s')
    decreases n
  {
    events := [];
    if n > 0 {
      events := StepsAreARun(After(s, Go(t)), t, n - 1, s');
      OneStep(s, Go(t), events, s');
      events := [Go(t)] + events;
    }
  }

  lemma OneStep(s: Net, e: Event, events: seq<Event>, s': Net)
    requires Possible(s, e) && IsRun(After(s, e), events, s')
    ensures IsRun(s, [e] + events, s')
  {
    assert ([e] + events)[1..] == events;
  }

  lemma {:induction false} Concatenate(s: Net, xs: seq<Event>, s1: Net, ys: seq<Event>, s2: Net)
    requires IsRun(s, xs, s1) && IsRun(s1, ys, s2)
    ensures IsRun(s, xs + ys, s2)
    decreases |xs|
  {
    if xs == [] {
      assert xs + ys == ys;
    } else {
      Concatenate(After(s, xs[0]), xs[1..], s1, ys, s2);
      assert (xs + ys)[1..] == xs[1..] + ys;
    }
  }

  /** From the call of Send to the exchange won and the lock left. */
  lemma SendWins(t: Thread, b: Buffer, u: Thread) returns (s: Net)
    requires t != u
    ensures s == Net([b], true, FREE, [], [], map[t := RegLock(false), u := Resting], map[t := [b]],
                     [b], [t], [], HeldBy(t))
    ensures Steps(After(Start(t, u), StartSend(t, b)), t, 4, s)
  {
    var a := After(Start(t, u), StartSend(t, b));
    assert a.handed[t] == [b];
    var p := Advance(a, t);
    var x := Advance(p, t);
    var l := Advance(x, t);
    s := Advance(l, t);
    assert Steps(s, t, 0, s) && Steps(l, t, 1, s) && Steps(x, t, 2, s) && Steps(p, t, 3, s);
    assert s.stage == map[t := RegLock(false), u := Resting] && s.handed == map[t := [b]];
    assert s.queue == [b] && s.accepted == [b] && s.senders == [t] && s.lock == FREE;
  }

  /** RegisterSend up to the post, with nothing else queued. */
  lemma RegisterDrains(t: Thread, b: Buffer, u: Thread, s: Net)
    requires t != u
    requires s == Net([b], true, FREE, [], [], map[t := RegLock(false), u := Resting], map[t := [b]],
                      [b], [t], [], HeldBy(t))
    ensures Steps(s, t, 4, BeforePost(t, b, u))
  {
    var d := Advance(s, t);
    var e := Advance(d, t);
    assert e.queue == [] && e.sendBuffers == [b];
    var f := Advance(e, t);
    var g := Advance(f, t);
    assert Steps(g, t, 0, g) && Steps(f, t, 1, g) && Steps(e, t, 2, g) && Steps(d, t, 3, g);
    assert g.stage == BeforePost(t, b, u).stage && g.queue == [] && g.sendBuffers == [b] && g.lock == FREE;
  }

  /** A second call of Send, while the flag is set. */
  lemma SendQueues(t: Thread, b: Buffer, u: Thread, c: Buffer) returns (s: Net)
    requires t != u
    ensures Steps(After(BeforePost(t, b, u), StartSend(u, c)), u, 4, s)
    ensures s.stage == map[t := RegPost(false), u := Resting] && s.queue == [c]
  {
    var a := After(BeforePost(t, b, u), StartSend(u, c));
    var p := Advance(a, u);
    var x := Advance(p, u);
    var l := Advance(x, u);
    s := Advance(l, u);
    assert Steps(s, u, 0, s) && Steps(l, u, 1, s) && Steps(x, u, 2, s) && Steps(p, u, 3, s);
    assert s.stage == map[t := RegPost(false), u := Resting];
  }

  /** `t` sends `b` and stands before WSASend. */
  lemma ReachesPost(t: Thread, b: Buffer, u: Thread) returns (events: seq<Event>)
    requires t != u
    ensures IsRun(Start(t, u), events, BeforePost(t, b, u))
  {
    var won := SendWins(t, b, u);
    events := StepsAreARun(After(Start(t, u), StartSend(t, b)), t, 4, won);
    OneStep(Start(t, u), StartSend(t, b), events, won);
    RegisterDrains(t, b, u, won);
    var drain := StepsAreARun(won, t, 4, BeforePost(t, b, u));
    Concatenate(Start(t, u), [StartSend(t, b)] + events, won, drain, BeforePost(t, b, u));
    events := [StartSend(t, b)] + events + drain;
  }

  /** Then `u` queues `c`, finds the flag set and returns. */
  lemma ReachesQueue(t: Thread, b: Buffer, u: Thread, c: Buffer) returns (events: seq<Event>, s: Net)
    requires t != u
    ensures IsRun(BeforePost(t, b, u), events, s)
    ensures s.stage == map[t := RegPost(false), u := Resting] && s.queue == [c] && NoSender(s)
  {
    s := SendQueues(t, b, u, c);
    events := StepsAreARun(After(BeforePost(t, b, u), StartSend(u, c)), u, 4, s);
    OneStep(BeforePost(t, b, u), StartSend(u, c), events, s);
    events := [StartSend(u, c)] + events;
  }

  lemma FailureStrands(s: Net, t: Thread)
    requires NetInv(s) && t in s.stage && s.stage[t].RegPost? && s.queue != [] && NoSender(s)
    ensures Stranded(FailedPost(s, t))
  {
    HardErrorLosesBatch(s, t);
  }

  /** A hard error can strand a buffer: after these two, the WSASend of `t` fails. */
  lemma StrandingIsReachable(t: Thread, b: Buffer, u: Thread, c: Buffer) returns (events: seq<Event>, s: Net)
    requires t != u
    ensures Fresh(Start(t, u)) && IsRun(Start(t, u), events, s)
    ensures t in s.stage && s.stage[t].RegPost? && s.queue == [c] && Stranded(FailedPost(s, t))
  {
    var first := ReachesPost(t, b, u);
    var second;
    second, s := ReachesQueue(t, b, u, c);
    events := first + second;
    Concatenate(Start(t, u), first, BeforePost(t, b, u), second, s);
    Reachable(Start(t, u), events, s);
    FailureStrands(s, t);
  }
}
