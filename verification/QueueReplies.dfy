/** What the receives of the queue return under threads: the messages that were received, in order, and when none. */
module QueueReplies {
  import opened MessageQueue
  import opened QueueThreads

  function Concat(parts: seq<seq<Message>>): seq<Message> {
    if parts == [] then [] else parts[0] + Concat(parts[1..])
  }

  lemma {:induction false} ConcatOne(parts: seq<seq<Message>>, t: nat)
    requires t < |parts| && forall u | 0 <= u < |parts| && u != t :: parts[u] == []
    ensures Concat(parts) == parts[t]
    decreases t
  {
    if t == 0 {
      ConcatNone(parts[1..]);
    } else {
      ConcatOne(parts[1..], t - 1);
    }
  }

  lemma {:induction false} ConcatNone(parts: seq<seq<Message>>)
    requires forall u | 0 <= u < |parts| :: parts[u] == []
    ensures Concat(parts) == []
  {
    if parts != [] {
      ConcatNone(parts[1..]);
    }
  }

  // ----- What has been returned -----

  /** The message a receive has taken and not yet returned. */
  function PendingIn(p: Pc): seq<Message> {
    match p
    case Receiver(_, RUnlock(Got(m))) => [m]
    case Receiver(_, RUnlockDestroy(Got(m))) => [m]
    case _ => []
  }

  function Pending(s: State): seq<Message> { Concat(seq(|s.pc|, u requires 0 <= u < |s.pc| => PendingIn(s.pc[u]))) }

  /** The message a thread returns by going from `p` to `p'`: its call ends with that reply. */
  function ReturnedIn(p: Pc, p': Pc): seq<Message> {
    match p
    case Receiver(_, RUnlockDestroy(Got(m))) => if p'.Idle? then [m] else []
    case _ => []
  }

  function ReturnedBy(s: State, s': State): seq<Message>
    requires |s.pc| == |s'.pc|
  {
    Concat(seq(|s.pc|, u requires 0 <= u < |s.pc| => ReturnedIn(s.pc[u], s'.pc[u])))
  }

  /** The messages that receives have returned up to state `i` of the run, in the order of returning. */
  function Returned(run: seq<State>, i: nat): seq<Message>
    requires i < |run| && forall k | 0 < k < |run| :: |run[k - 1].pc| == |run[k].pc|
    decreases i
  {
    if i == 0 then [] else Returned(run, i - 1) + ReturnedBy(run[i - 1], run[i])
  }

  /** The message taken from the queue by a step of a thread at `p`. */
  function TakenAt(s: State, p: Pc): seq<Message> {
    if p.Receiver? && p.r.RPop? && s.log.queue != [] then [s.log.queue[0]] else []
  }

  lemma {:induction false} SendReceives(l: Log<Message>, m: Message, capacity: nat)
    ensures ReceivedOf(Step(l, Send(m), capacity).gone) == ReceivedOf(l.gone)
  {
    StepHistories(l, Send(m), capacity);
  }

  lemma {:induction false} ReceiveReceives(l: Log<Message>, capacity: nat)
    ensures ReceivedOf(Step(l, Receive, capacity).gone) == ReceivedOf(l.gone) + if l.queue != [] then [l.queue[0]] else []
  {
    StepHistories(l, Receive, capacity);
  }

  /** What a step returns and what then is pending is what was pending and what it has taken, for the thread that moves. */
  lemma {:induction false} MoverAccounts(s: State, t: nat, c: Choice, capacity: nat, orderly: bool)
    requires Enabled(s, t, c, orderly)
    ensures var s' := Apply(s, t, c, capacity);
            && |s'.pc| == |s.pc|
            && ReturnedIn(s.pc[t], s'.pc[t]) + PendingIn(s'.pc[t]) == PendingIn(s.pc[t]) + TakenAt(s, s.pc[t])
  {
    if s.pc[t].Receiver? {
      RecvMoves(s, t, s.pc[t].timed, s.pc[t].r, c, capacity);
      hide *;
      ReceiverApplies(s, t, c, capacity);
      ReceiverAccounts(s, s.pc[t].timed, s.pc[t].r, Apply(s, t, c, capacity).pc[t], c);
    } else {
      hide *;
      OtherMoves(s, t, c, capacity, orderly);
      OtherAccounts(s, s.pc[t], Apply(s, t, c, capacity).pc[t]);
    }
  }

  lemma ReceiverApplies(s: State, t: nat, c: Choice, capacity: nat)
    requires t < |s.pc| && s.pc[t].Receiver?
    ensures Apply(s, t, c, capacity) == RecvStep(s, t, s.pc[t].timed, s.pc[t].r, c, capacity)
  {
    hide RecvStep;
  }

  lemma {:induction false} OtherMoves(s: State, t: nat, c: Choice, capacity: nat, orderly: bool)
    requires Enabled(s, t, c, orderly) && !s.pc[t].Receiver?
    ensures var s' := Apply(s, t, c, capacity);
            |s'.pc| == |s.pc| && (s'.pc[t].Receiver? ==> s'.pc[t].r.RLockDestroy?)
  {
    hide Apply, CanStep;
    StepOwn(s, t, c, capacity, orderly);
  }

  /** Where a statement of a receive leads. */
  predicate Leads(s: State, timed: bool, a: RecvPc, p': Pc, c: Choice) {
    match a
    case RLockDestroy => p' == Receiver(timed, RLock)
    case RLock => p' == Receiver(timed, RTest)
    case RTest => p' == Receiver(timed, AfterTest(s, timed))
    case RSleep => p' == Receiver(timed, RWake(c.expired))
    case RWake(e) => p' == Receiver(timed, if timed then RAfter(e) else RTest)
    case RAfter(e) => p' == Receiver(timed, if !s.valid || e || s.log.queue == [] then RUnlock(Nothing) else RPop)
    case RPop => p' == Receiver(timed, RUnlock(if s.log.queue == [] then Nothing else Got(s.log.queue[0])))
    case RUnlock(reply) => p' == Receiver(timed, RUnlockDestroy(reply))
    case RUnlockDestroy(_) => p' == Idle
  }

  lemma {:induction false} RecvMoves(s: State, t: nat, timed: bool, a: RecvPc, c: Choice, capacity: nat)
    requires t < |s.pc|
    ensures var s' := RecvStep(s, t, timed, a, c, capacity);
            |s'.pc| == |s.pc| && Leads(s, timed, a, s'.pc[t], c)
  {
    hide Step, AfterTest;
  }

  lemma {:induction false} ReceiverAccounts(s: State, timed: bool, a: RecvPc, p': Pc, c: Choice)
    requires Leads(s, timed, a, p', c)
    ensures var p := Receiver(timed, a);
            ReturnedIn(p, p') + PendingIn(p') == PendingIn(p) + TakenAt(s, p)
  {
  }

  lemma OtherAccounts(s: State, p: Pc, p': Pc)
    requires !p.Receiver? && (p'.Receiver? ==> p'.r.RLockDestroy?)
    ensures ReturnedIn(p, p') + PendingIn(p') == PendingIn(p) + TakenAt(s, p)
  {
  }

  /** The history of the queue grows by what is taken. */
  lemma {:induction false} TakenIsReceived(s: State, t: nat, c: Choice, capacity: nat, orderly: bool)
    requires Enabled(s, t, c, orderly)
    ensures ReceivedOf(Apply(s, t, c, capacity).log.gone) == ReceivedOf(s.log.gone) + TakenAt(s, s.pc[t])
  {
    hide Step, DoorClosed, NobodySleeps, ReceivedOf, Signalled, AfterTest;
    match s.pc[t]
    case Sender(m, _) => SendReceives(s.log, m, capacity);
    case _ => ReceiveReceives(s.log, capacity);
  }

  lemma {:induction false} OthersReturnNothing(s: State, s': State, t: nat, u: nat)
    requires t < |s.pc| && OthersMoved(s, s', t) && u < |s.pc| && u != t
    ensures ReturnedIn(s.pc[u], s'.pc[u]) == [] && PendingIn(s'.pc[u]) == PendingIn(s.pc[u])
  {
  }

  lemma PendingHolds(p: Pc)
    ensures PendingIn(p) != [] ==> HoldsDestroy(p)
  {
  }

  lemma TakerHolds(s: State, p: Pc, p': Pc)
    ensures TakenAt(s, p) != [] || ReturnedIn(p, p') != [] ==> HoldsDestroy(p)
  {
  }

  lemma {:induction false} ReturnedByOne(s: State, s': State, t: nat)
    requires t < |s.pc| && OthersMoved(s, s', t)
    ensures ReturnedBy(s, s') == ReturnedIn(s.pc[t], s'.pc[t])
  {
    forall u | 0 <= u < |s.pc| && u != t
      ensures ReturnedIn(s.pc[u], s'.pc[u]) == []
    {
      OthersReturnNothing(s, s', t, u);
    }
    hide OthersMoved, ReturnedIn, Concat;
    ConcatOne(seq(|s.pc|, u requires 0 <= u < |s.pc| => ReturnedIn(s.pc[u], s'.pc[u])), t);
  }

  /** If nobody else has a message pending, the thread's is all that is. */
  lemma {:induction false} PendingOne(s: State, t: nat)
    requires t < |s.pc| && forall u | 0 <= u < |s.pc| && u != t :: PendingIn(s.pc[u]) == []
    ensures Pending(s) == PendingIn(s.pc[t])
  {
    hide PendingIn, Concat;
    ConcatOne(seq(|s.pc|, u requires 0 <= u < |s.pc| => PendingIn(s.pc[u])), t);
  }

  lemma {:induction false} PendingSame(s: State, s': State)
    requires |s.pc| == |s'.pc| && forall u | 0 <= u < |s.pc| :: PendingIn(s'.pc[u]) == PendingIn(s.pc[u])
    ensures Pending(s') == Pending(s)
  {
    hide PendingIn, Concat;
    assert seq(|s.pc|, u requires 0 <= u < |s.pc| => PendingIn(s.pc[u]))
        == seq(|s'.pc|, u requires 0 <= u < |s'.pc| => PendingIn(s'.pc[u]));
  }

  lemma {:induction false} OnlyHolderPends(s: State, t: nat, u: nat)
    requires DestroyMutexAgrees(s) && t < |s.pc| && u < |s.pc| && u != t && HoldsDestroy(s.pc[t])
    ensures PendingIn(s.pc[u]) == []
  {
    PendingHolds(s.pc[u]);
  }

  lemma {:induction false} StepAccounts(s: State, t: nat, c: Choice, capacity: nat, orderly: bool)
    requires DestroyMutexAgrees(s) && Enabled(s, t, c, orderly)
    ensures var s' := Apply(s, t, c, capacity);
            && |s'.pc| == |s.pc|
            && ReturnedBy(s, s') + Pending(s') == Pending(s) + TakenAt(s, s.pc[t])
  {
    var s' := Apply(s, t, c, capacity);
    StepOwn(s, t, c, capacity, orderly);
    MoverAccounts(s, t, c, capacity, orderly);
    TakerHolds(s, s.pc[t], s'.pc[t]);
    PendingHolds(s.pc[t]);
    hide Apply, CanStep, PendingIn, ReturnedIn, TakenAt, HoldsDestroy, OwnMutex, OwnDestroyMutex, OwnFlags, OwnQueue, OwnEntry, Pending, ReturnedBy;
    ReturnedByOne(s, s', t);
    forall u | 0 <= u < |s.pc| && u != t
      ensures PendingIn(s'.pc[u]) == PendingIn(s.pc[u])
      ensures HoldsDestroy(s.pc[t]) ==> PendingIn(s.pc[u]) == []
    {
      OthersReturnNothing(s, s', t, u);
      if HoldsDestroy(s.pc[t]) {
        OnlyHolderPends(s, t, u);
      }
    }
    if HoldsDestroy(s.pc[t]) {
      PendingOne(s, t);
      PendingOne(s', t);
    } else {
      PendingSame(s, s');
    }
  }

  lemma {:induction false} AtMostOnePending(s: State)
    requires DestroyMutexAgrees(s)
    ensures |Pending(s)| <= 1
  {
    if s.destroyMutex.Held? {
      var t := s.destroyMutex.thread;
      forall u | 0 <= u < |s.pc| && u != t
        ensures PendingIn(s.pc[u]) == []
      {
        OnlyHolderPends(s, t, u);
      }
      PendingOne(s, t);
    } else {
      forall u | 0 <= u < |s.pc|
        ensures PendingIn(s.pc[u]) == []
      {
        PendingHolds(s.pc[u]);
      }
      ConcatNone(seq(|s.pc|, u requires 0 <= u < |s.pc| => PendingIn(s.pc[u])));
    }
  }

  lemma {:induction false} SameThreads(run: seq<State>, capacity: nat, orderly: bool)
    requires Steps(run, capacity, orderly)
    ensures forall k | 0 < k < |run| :: |run[k - 1].pc| == |run[k].pc|
  {
    forall k | 0 < k < |run|
      ensures |run[k - 1].pc| == |run[k].pc|
    {
      assert Next(run[k - 1], run[k], capacity, orderly);
      var t: nat, c :| Enabled(run[k - 1], t, c, orderly) && run[k] == Apply(run[k - 1], t, c, capacity);
      hide CanStep, Apply;
      StepOwn(run[k - 1], t, c, capacity, orderly);
    }
  }

  /**
   Over every run of any number of threads the messages the receives have returned, in the order in which they returned,
   and then the one, if any, that a receive has taken and is about to return, are exactly the messages received from the
   queue, in order: nobody gets a message twice, or another one than the oldest.
   */
  lemma {:induction false} ReturnedInOrder(run: seq<State>, i: nat, capacity: nat, orderly: bool)
    requires Steps(run, capacity, orderly) && Init(run[0]) && i < |run| && capacity > 0
    ensures forall k | 0 < k < |run| :: |run[k - 1].pc| == |run[k].pc|
    ensures Returned(run, i) + Pending(run[i]) == ReceivedOf(run[i].log.gone) && |Pending(run[i])| <= 1
    decreases i
  {
    hide CanStep, Apply, Pending, ReturnedBy, ReceivedOf, TakenAt, Conserved, MutexAgrees, SleepersJustified, OneDestroyer,
         DestroyStaged, DestroyMutexAgrees;
    SameThreads(run, capacity, orderly);
    RunInv(run, i, capacity, orderly);
    AtMostOnePending(run[i]);
    if i == 0 {
      NoneAtStart(run[0]);
    } else {
      var s, s' := run[i - 1], run[i];
      ReturnedInOrder(run, i - 1, capacity, orderly);
      RunInv(run, i - 1, capacity, orderly);
      assert Next(s, s', capacity, orderly);
      var t: nat, c :| Enabled(s, t, c, orderly) && s' == Apply(s, t, c, capacity);
      StepAccounts(s, t, c, capacity, orderly);
      TakenIsReceived(s, t, c, capacity, orderly);
      Shuffle(Returned(run, i - 1), ReturnedBy(s, s'), Pending(s'), Pending(s), TakenAt(s, s.pc[t]));
    }
  }

  lemma Shuffle(done: seq<Message>, now: seq<Message>, pending': seq<Message>, pending: seq<Message>, taken: seq<Message>)
    requires now + pending' == pending + taken
    ensures done + now + pending' == done + pending + taken
  {
    assert done + now + pending' == done + (now + pending');
    assert done + pending + taken == done + (pending + taken);
  }

  lemma {:induction false} NoneAtStart(s: State)
    requires Init(s)
    ensures Pending(s) == [] && ReceivedOf(s.log.gone) == []
  {
    ConcatNone(seq(|s.pc|, u requires 0 <= u < |s.pc| => PendingIn(s.pc[u])));
  }

  // ----- When a receive returns a message -----

  datatype Decision = Open | Decided(reply: Reply<Message>)

  /**
   The reply of a call from where it cannot change any more. The test of the queue, under the mutex, decides if there is a
   message, and without a deadline also if the queue is no longer valid; after a timed wait it is decided in any case: the
   oldest message if there is one, the wait was woken and the queue is valid.
   */
  function DecisionOf(s: State, p: Pc): Decision {
    if !p.Receiver? then Open
    else
      var oldest := if s.log.queue == [] then Nothing else Got(s.log.queue[0]);
      match p.r
      case RTest =>
        if s.log.queue != [] then Decided(oldest) else if !p.timed && !s.valid then Decided(Nothing) else Open
      case RAfter(expired) => if expired || !s.valid then Decided(Nothing) else Decided(oldest)
      case RPop => Decided(oldest)
      case RUnlock(reply) => Decided(reply)
      case RUnlockDestroy(reply) => Decided(reply)
      case _ => Open
  }

  /** The call of thread `t` ends in this step, with that reply. */
  predicate Returns(s: State, s': State, t: nat, reply: Reply<Message>) {
    t < |s.pc| && t < |s'.pc| && s.pc[t].Receiver? && s.pc[t].r == RUnlockDestroy(reply) && s'.pc[t].Idle?
  }

  lemma {:induction false} OwnDecision(s: State, t: nat, c: Choice, capacity: nat, orderly: bool, reply: Reply<Message>)
    requires Enabled(s, t, c, orderly) && DecisionOf(s, s.pc[t]) == Decided(reply)
    ensures var s' := Apply(s, t, c, capacity);
            && |s'.pc| == |s.pc|
            && (DecisionOf(s', s'.pc[t]) == Decided(reply) || Returns(s, s', t, reply))
  {
    hide Step, CanStep, SendStep, DestroyStep, RecvStep;
    var timed, a := s.pc[t].timed, s.pc[t].r;
    RecvMoves(s, t, timed, a, c, capacity);
    SameQueue(s, t, timed, a, c, capacity);
  }

  lemma {:induction false} SameQueue(s: State, t: nat, timed: bool, a: RecvPc, c: Choice, capacity: nat)
    requires t < |s.pc|
    ensures var s' := RecvStep(s, t, timed, a, c, capacity);
            s'.valid == s.valid && (a.RPop? || s'.log == s.log)
  {
    hide Step, AfterTest;
  }

  /** A thread without the mutex changes neither the queue nor its validity. */
  lemma {:induction false} QueueUntouched(s: State, t: nat, c: Choice, capacity: nat, orderly: bool)
    requires Enabled(s, t, c, orderly) && !HoldsMutex(s.pc[t])
    ensures Apply(s, t, c, capacity).log == s.log && Apply(s, t, c, capacity).valid == s.valid
  {
    hide DoorClosed, NobodySleeps, Signalled, AfterTest, Step;
  }

  lemma {:induction false} DecisionKept(
      s: State, t: nat, c: Choice, capacity: nat, orderly: bool, u: nat, reply: Reply<Message>)
    requires MutexAgrees(s) && Enabled(s, t, c, orderly) && u < |s.pc| && DecisionOf(s, s.pc[u]) == Decided(reply)
    ensures var s' := Apply(s, t, c, capacity);
            && |s'.pc| == |s.pc|
            && (DecisionOf(s', s'.pc[u]) == Decided(reply) || Returns(s, s', u, reply))
  {
    if u == t {
      OwnDecision(s, t, c, capacity, orderly, reply);
    } else {
      hide CanStep, Apply;
      StepOwn(s, t, c, capacity, orderly);
      if HoldsMutex(s.pc[u]) {
        QueueUntouched(s, t, c, capacity, orderly);
      }
    }
  }

  /** A receive begins to wait, and gives the mutex up for that, exactly when its test finds no message and it has a deadline
      or the queue is valid: with a deadline it does not look at bIsValid before. */
  lemma {:induction false} WaitsExactly(s: State, t: nat, c: Choice, capacity: nat, orderly: bool)
    requires Enabled(s, t, c, orderly) && s.pc[t].Receiver? && !Asleep(s.pc[t])
    ensures var s' := Apply(s, t, c, capacity);
            && |s'.pc| == |s.pc|
            && (Asleep(s'.pc[t]) <==> s.pc[t].r.RTest? && s.log.queue == [] && (s.pc[t].timed || s.valid))
            && (Asleep(s'.pc[t]) ==> s'.mutex == Free && s'.destroyMutex == s.destroyMutex)
  {
    hide Step, RecvStep, Apply, CanStep;
    RecvMoves(s, t, s.pc[t].timed, s.pc[t].r, c, capacity);
    ReceiverApplies(s, t, c, capacity);
    SleepFrees(s, t, s.pc[t].timed, s.pc[t].r, c, capacity);
  }

  lemma {:induction false} SleepFrees(s: State, t: nat, timed: bool, a: RecvPc, c: Choice, capacity: nat)
    requires t < |s.pc|
    ensures var s' := RecvStep(s, t, timed, a, c, capacity);
            a.RTest? && AfterTest(s, timed).RSleep? ==> s'.mutex == Free && s'.destroyMutex == s.destroyMutex
  {
    hide Step, AfterTest;
  }

  /** In one of the steps from state `i` to state `j` the call of thread `u` ends with that reply. */
  predicate ReturnsBetween(run: seq<State>, i: nat, j: nat, u: nat, reply: Reply<Message>)
    requires i <= j < |run|
    decreases j
  {
    i < j && (Returns(run[j - 1], run[j], u, reply) || ReturnsBetween(run, i, j - 1, u, reply))
  }

  /** Over every run a call whose reply is decided either is still under way to it, or has returned it: so a receive that
      finds a message at its test, or after a timed wait that was woken in time on a valid queue, returns the message that
      was then the oldest. */
  lemma {:induction false} DecisionReturned(
      run: seq<State>, i: nat, j: nat, capacity: nat, orderly: bool, u: nat, reply: Reply<Message>)
    requires Steps(run, capacity, orderly) && Init(run[0]) && i <= j < |run| && capacity > 0
    requires u < |run[i].pc| && DecisionOf(run[i], run[i].pc[u]) == Decided(reply)
    ensures u < |run[j].pc|
    ensures DecisionOf(run[j], run[j].pc[u]) == Decided(reply) || ReturnsBetween(run, i, j, u, reply)
    decreases j
  {
    hide CanStep, Apply, DecisionOf, Returns, Conserved, MutexAgrees, SleepersJustified, OneDestroyer, DestroyStaged,
         DestroyMutexAgrees;
    if i < j {
      DecisionReturned(run, i, j - 1, capacity, orderly, u, reply);
      SameThreads(run, capacity, orderly);
      RunInv(run, j - 1, capacity, orderly);
      assert Next(run[j - 1], run[j], capacity, orderly);
      var t: nat, c :| Enabled(run[j - 1], t, c, orderly) && run[j] == Apply(run[j - 1], t, c, capacity);
      if DecisionOf(run[j - 1], run[j - 1].pc[u]) == Decided(reply) {
        DecisionKept(run[j - 1], t, c, capacity, orderly, u, reply);
      }
    }
  }
}
