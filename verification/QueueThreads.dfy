/**
 The message queue under threads: any number of senders and receivers and one destroyer, as a system of atomic steps.

 A receiver holds `destroyMutex` from its first to its last statement, also while it sleeps on `consumerCond`; a sender
 takes only `mutex`; the destroyer takes one after the other. Sleeping, signals, spurious wakeups and timeouts are those
 of pthread condition variables.
 */
module QueueThreads {
  import opened MessageQueue

  // ----- The next statement of a thread -----

  datatype SendPc = SLock | SStore | SSignal | SUnlock

  datatype RecvPc =
    | RLockDestroy
    | RLock
    | RTest
    | RSleep
    | RWake(expired: bool)    // to take the mutex again
    | RAfter(expired: bool)   // behind the timed wait
    | RPop
    | RUnlock(reply: Reply<Message>)
    | RUnlockDestroy(reply: Reply<Message>)

  datatype DestroyPc = DLock | DClear | DSignal | DUnlock | DLockDestroy | DFree | DUnlockDestroy | DDone

  datatype Pc =
    | Idle
    | Sender(m: Message, s: SendPc)
    | Receiver(timed: bool, r: RecvPc)
    | Destroyer(d: DestroyPc)

  datatype Owner = Free | Held(thread: nat)

  datatype State = State(
    pc: seq<Pc>, mutex: Owner, destroyMutex: Owner, log: Log<Message>,
    valid: bool,      // bIsValid
    closing: bool,    // DestroyMessageQueue has been called
    freed: bool)      // pAlloc has been freed

  // ----- Who holds what -----

  predicate HoldsMutex(p: Pc) {
    match p
    case Idle => false
    case Sender(_, s) => !s.SLock?
    case Receiver(_, r) => r.RTest? || r.RAfter? || r.RPop? || r.RUnlock?
    case Destroyer(d) => d.DClear? || d.DSignal? || d.DUnlock?
  }

  predicate HoldsDestroy(p: Pc) {
    match p
    case Receiver(_, r) => !r.RLockDestroy?
    case Destroyer(d) => d.DFree? || d.DUnlockDestroy?
    case _ => false
  }

  predicate Asleep(p: Pc) { p.Receiver? && p.r.RSleep? }

  predicate Signalling(p: Pc) { (p.Sender? && p.s.SSignal?) || (p.Destroyer? && p.d.DSignal?) }

  /** The statement reads or writes `pAlloc`. */
  predicate TouchesSlots(p: Pc) { (p.Sender? && p.s.SStore?) || (p.Receiver? && p.r.RPop?) }

  // ----- Steps -----

  /** What the program does not decide: the call an idle thread makes, whom a signal wakes, whether a wait expires. */
  datatype Choice = Choice(call: Pc, waiter: nat, expired: bool)

  predicate NobodySleeps(s: State) { forall w | 0 <= w < |s.pc| :: !Asleep(s.pc[w]) }

  predicate IsSleeper(s: State, w: nat) { w < |s.pc| && Asleep(s.pc[w]) }

  /** Nobody is inside the queue except receivers that already hold `destroyMutex`. */
  predicate DoorClosed(s: State) { forall t | 0 <= t < |s.pc| :: s.pc[t].Idle? || HoldsDestroy(s.pc[t]) }

  /** The calls an idle thread can make. No call starts once Destroy has; an orderly Destroy finds the door closed. */
  predicate CanCall(s: State, call: Pc, orderly: bool) {
    !s.closing &&
    match call
    case Sender(_, a) => a.SLock?
    case Receiver(_, a) => a.RLockDestroy?
    case Destroyer(a) => a.DLock? && (orderly ==> DoorClosed(s))
    case Idle => false
  }

  predicate CanStep(s: State, p: Pc, c: Choice, orderly: bool) {
    match p
    case Idle => CanCall(s, c.call, orderly)
    case Sender(_, a) =>
      (a.SLock? ==> s.mutex == Free) && (a.SSignal? ==> NobodySleeps(s) || IsSleeper(s, c.waiter))
    case Receiver(timed, a) =>
      && (a.RLockDestroy? ==> s.destroyMutex == Free)
      && (a.RLock? || a.RWake? ==> s.mutex == Free)
      && (a.RSleep? && c.expired ==> timed)
    case Destroyer(a) =>
      && !a.DDone?
      && (a.DLock? ==> s.mutex == Free)
      && (a.DSignal? ==> NobodySleeps(s) || IsSleeper(s, c.waiter))
      && (a.DLockDestroy? ==> s.destroyMutex == Free)
  }

  predicate Enabled(s: State, t: nat, c: Choice, orderly: bool) { t < |s.pc| && CanStep(s, s.pc[t], c, orderly) }

  /** pthread_cond_signal: one sleeper, if there is any, goes on to take the mutex again. */
  function Signalled(pc: seq<Pc>, w: nat): (pc': seq<Pc>)
    ensures |pc'| == |pc|
  {
    if w < |pc| && Asleep(pc[w]) then pc[w := Receiver(pc[w].timed, RWake(false))] else pc
  }

  function Goto(s: State, t: nat, p: Pc): State
    requires t < |s.pc|
  {
    s.(pc := s.pc[t := p])
  }

  /** SendMessage */
  function SendStep(s: State, t: nat, m: Message, a: SendPc, c: Choice, capacity: nat): State
    requires t < |s.pc|
  {
    match a
    case SLock => Goto(s, t, Sender(m, SStore)).(mutex := Held(t))
    case SStore => Goto(s, t, Sender(m, SSignal)).(log := Step(s.log, Send(m), capacity))
    case SSignal => Goto(s.(pc := Signalled(s.pc, c.waiter)), t, Sender(m, SUnlock))
    case SUnlock => Goto(s, t, Idle).(mutex := Free)
  }

  /** Where the test of the queue leads; the timed receive does not look at bIsValid before it waits. */
  function AfterTest(s: State, timed: bool): RecvPc {
    if s.log.queue != [] then RPop else if timed || s.valid then RSleep else RUnlock(Nothing)
  }

  /** ReceiveMessage, and ReceiveMessageTimeout when `timed`. */
  function RecvStep(s: State, t: nat, timed: bool, a: RecvPc, c: Choice, capacity: nat): State
    requires t < |s.pc|
  {
    match a
    case RLockDestroy => Goto(s, t, Receiver(timed, RLock)).(destroyMutex := Held(t))
    case RLock => Goto(s, t, Receiver(timed, RTest)).(mutex := Held(t))
    case RTest =>
      var next := AfterTest(s, timed);
      Goto(s, t, Receiver(timed, next)).(mutex := if next.RSleep? then Free else s.mutex)
    case RSleep => Goto(s, t, Receiver(timed, RWake(c.expired)))
    case RWake(e) => Goto(s, t, Receiver(timed, if timed then RAfter(e) else RTest)).(mutex := Held(t))
    case RAfter(e) =>
      Goto(s, t, Receiver(timed, if !s.valid || e || s.log.queue == [] then RUnlock(Nothing) else RPop))
    case RPop =>
      Goto(s, t, Receiver(timed, RUnlock(if s.log.queue == [] then Nothing else Got(s.log.queue[0]))))
      .(log := Step(s.log, Receive, capacity))
    case RUnlock(reply) => Goto(s, t, Receiver(timed, RUnlockDestroy(reply))).(mutex := Free)
    case RUnlockDestroy(_) => Goto(s, t, Idle).(destroyMutex := Free)
  }

  /** DestroyMessageQueue */
  function DestroyStep(s: State, t: nat, a: DestroyPc, c: Choice): State
    requires t < |s.pc|
  {
    match a
    case DLock => Goto(s, t, Destroyer(DClear)).(mutex := Held(t))
    case DClear => Goto(s, t, Destroyer(DSignal)).(valid := false)
    case DSignal => Goto(s.(pc := Signalled(s.pc, c.waiter)), t, Destroyer(DUnlock))
    case DUnlock => Goto(s, t, Destroyer(DLockDestroy)).(mutex := Free)
    case DLockDestroy => Goto(s, t, Destroyer(DFree)).(destroyMutex := Held(t))
    case DFree => Goto(s, t, Destroyer(DUnlockDestroy)).(freed := true)
    case DUnlockDestroy => Goto(s, t, Destroyer(DDone)).(destroyMutex := Free)
    case DDone => s
  }

  function Apply(s: State, t: nat, c: Choice, capacity: nat): State
    requires t < |s.pc|
  {
    match s.pc[t]
    case Idle => Goto(s, t, c.call).(closing := s.closing || c.call.Destroyer?)
    case Sender(m, a) => SendStep(s, t, m, a, c, capacity)
    case Receiver(timed, a) => RecvStep(s, t, timed, a, c, capacity)
    case Destroyer(a) => DestroyStep(s, t, a, c)
  }

  predicate Init(s: State) {
    && (forall t | 0 <= t < |s.pc| :: s.pc[t].Idle?)
    && s.mutex == Free == s.destroyMutex && s.log == Log([], [], []) && s.valid && !s.closing && !s.freed
  }

  ghost predicate Next(s: State, s': State, capacity: nat, orderly: bool) {
    exists t, c :: Enabled(s, t, c, orderly) && s' == Apply(s, t, c, capacity)
  }

  ghost predicate Steps(run: seq<State>, capacity: nat, orderly: bool) {
    run != [] && forall i | 0 < i < |run| :: Next(run[i - 1], run[i], capacity, orderly)
  }

  // ----- The invariant -----

  predicate MutexAgrees(s: State) {
    && (s.mutex.Held? ==> s.mutex.thread < |s.pc|)
    && forall t | 0 <= t < |s.pc| :: HoldsMutex(s.pc[t]) <==> s.mutex == Held(t)
  }

  predicate DestroyMutexAgrees(s: State) {
    && (s.destroyMutex.Held? ==> s.destroyMutex.thread < |s.pc|)
    && forall t | 0 <= t < |s.pc| :: HoldsDestroy(s.pc[t]) <==> s.destroyMutex == Held(t)
  }

  /** The thread that holds the mutex is about to signal, after a store or after the clearing of bIsValid. */
  predicate WakeupPending(s: State) {
    s.mutex.Held? && s.mutex.thread < |s.pc| && Signalling(s.pc[s.mutex.thread])
  }

  /** The same, by a sender. */
  predicate MessagePending(s: State) { WakeupPending(s) && s.pc[s.mutex.thread].Sender? }

  /** There is no message to take, or its sender is about to signal; and for a wait without a deadline the queue is
      valid, or a signal is about to tell otherwise. */
  predicate Justified(s: State, timed: bool) {
    (s.log.queue == [] || MessagePending(s)) && (s.valid || timed || WakeupPending(s))
  }

  predicate SleepersJustified(s: State) {
    forall t | 0 <= t < |s.pc| :: Asleep(s.pc[t]) ==> Justified(s, s.pc[t].timed)
  }

  predicate OneDestroyer(s: State) {
    && (forall t | 0 <= t < |s.pc| :: s.pc[t].Destroyer? ==> s.closing)
    && (forall t, u | 0 <= t < |s.pc| && 0 <= u < |s.pc| :: s.pc[t].Destroyer? && s.pc[u].Destroyer? ==> t == u)
  }

  /** bIsValid is set until the destroyer has cleared it, pAlloc is allocated until it has freed it. */
  predicate FlagsAgree(s: State, d: DestroyPc) {
    && (s.valid <==> d.DLock? || d.DClear?)
    && (s.freed <==> d.DUnlockDestroy? || d.DDone?)
  }

  predicate DestroyStaged(s: State) {
    && (forall t | 0 <= t < |s.pc| :: s.pc[t].Destroyer? ==> FlagsAgree(s, s.pc[t].d))
    && (!s.valid || s.freed ==> s.closing)
  }

  predicate PopsHaveMessages(s: State) {
    forall t | 0 <= t < |s.pc| :: s.pc[t].Receiver? && s.pc[t].r.RPop? ==> s.log.queue != []
  }

  ghost predicate Inv(s: State, capacity: nat) {
    && MutexAgrees(s) && DestroyMutexAgrees(s) && SleepersJustified(s) && OneDestroyer(s) && DestroyStaged(s)
    && PopsHaveMessages(s) && Conserved(s.log, capacity)
  }

  lemma {:induction false} InitInv(s: State, capacity: nat)
    requires Init(s)
    ensures Inv(s, capacity)
  {
  }

  /** From `pc` to `pc'` only thread `t` has moved, except for a sleeper it has signalled. */
  ghost predicate OthersMoved(s: State, s': State, t: nat)
    requires t < |s.pc|
  {
    && |s'.pc| == |s.pc|
    && forall u {:trigger s'.pc[u]} | 0 <= u < |s.pc| && u != t ::
         s'.pc[u] == s.pc[u]
         || (Asleep(s.pc[u]) && s'.pc[u] == Receiver(s.pc[u].timed, RWake(false)) && Signalling(s.pc[t]))
  }

  /** A lock changes hands only between its free state and the thread that moves. */
  ghost predicate LockMoved(o: Owner, o': Owner, t: nat) {
    o' == o || (o == Free && o' == Held(t)) || (o == Held(t) && o' == Free)
  }

  ghost predicate OwnMutex(s: State, s': State, t: nat)
    requires t < |s.pc| == |s'.pc|
  {
    (HoldsMutex(s.pc[t]) <==> s.mutex == Held(t)) ==>
      LockMoved(s.mutex, s'.mutex, t) && (HoldsMutex(s'.pc[t]) <==> s'.mutex == Held(t))
  }

  ghost predicate OwnDestroyMutex(s: State, s': State, t: nat)
    requires t < |s.pc| == |s'.pc|
  {
    (HoldsDestroy(s.pc[t]) <==> s.destroyMutex == Held(t)) ==>
      LockMoved(s.destroyMutex, s'.destroyMutex, t) && (HoldsDestroy(s'.pc[t]) <==> s'.destroyMutex == Held(t))
  }

  /** How the flags of the destruction move with the thread that moves. */
  ghost predicate OwnFlags(s: State, s': State, t: nat)
    requires t < |s.pc| == |s'.pc|
  {
    && (s.closing ==> s'.closing)
    && (s'.pc[t].Destroyer? ==> s.pc[t].Destroyer? || (!s.closing && s'.closing && s'.pc[t].d.DLock?))
    && (s.pc[t].Destroyer? ==> s'.pc[t].Destroyer?)
    && (!s.pc[t].Destroyer? ==> s'.valid == s.valid && s'.freed == s.freed)
    && (s.pc[t].Destroyer? && FlagsAgree(s, s.pc[t].d) ==> FlagsAgree(s', s'.pc[t].d))
  }

  /** A thread falls asleep, and comes to take a message, only by a test; the messages change only under the mutex. */
  ghost predicate OwnQueue(s: State, s': State, t: nat)
    requires t < |s.pc| == |s'.pc|
  {
    && (Asleep(s'.pc[t]) ==> s'.log.queue == [] && (s'.valid || s'.pc[t].timed))
    && (s'.pc[t].Receiver? && s'.pc[t].r.RPop? ==> s'.log.queue != [])
    && (!HoldsMutex(s.pc[t]) ==> s'.log == s.log)
    && (!HoldsDestroy(s.pc[t]) && s'.log != s.log ==> s'.pc[t].Sender? && s'.pc[t].s.SSignal?)
    && (s.valid && !s'.valid ==> Signalling(s'.pc[t]))
    && (s'.log.sent != s.log.sent ==> s.pc[t].Sender?) && (!s.pc[t].Sender? && s.log.queue == [] ==> s'.log.queue == [])
  }

  /** Who comes in, and how the destroyer reaches its last stages. */
  ghost predicate OwnEntry(s: State, s': State, t: nat)
    requires t < |s.pc| == |s'.pc|
  {
    && (s'.pc[t].Sender? ==> s.pc[t].Sender? || !s'.closing)
    && (s'.pc[t].Receiver? && !s.pc[t].Receiver? ==> !s'.closing && !HoldsDestroy(s'.pc[t]))
    && (s.pc[t].Receiver? && HoldsDestroy(s.pc[t]) && s'.pc[t].Receiver? ==> HoldsDestroy(s'.pc[t]))
    && (s'.closing && !s.closing ==> s.pc[t].Idle? && s'.pc[t].Destroyer?)
    && (LastStages(s'.pc[t]) ==> LastStages(s.pc[t]) || s.destroyMutex == Free)
    && (LastStages(s.pc[t]) || (s'.freed && !s.freed) ==> LastStages(s'.pc[t]))
  }

  /** The destroyer has come to hold `destroyMutex`. */
  predicate LastStages(p: Pc) { p.Destroyer? && (p.d.DFree? || p.d.DUnlockDestroy? || p.d.DDone?) }

  ghost predicate Own(s: State, s': State, t: nat)
    requires t < |s.pc|
  {
    && OthersMoved(s, s', t) && OwnMutex(s, s', t) && OwnDestroyMutex(s, s', t)
    && OwnFlags(s, s', t) && OwnQueue(s, s', t) && OwnEntry(s, s', t)
  }

  lemma {:induction false} CallOwn(s: State, t: nat, c: Choice, orderly: bool)
    requires Enabled(s, t, c, orderly) && s.pc[t] == Idle
    ensures Own(s, Goto(s, t, c.call).(closing := s.closing || c.call.Destroyer?), t)
  {
    hide DoorClosed;
  }

  lemma {:induction false} SendOwn(s: State, t: nat, m: Message, a: SendPc, c: Choice, capacity: nat, orderly: bool)
    requires Enabled(s, t, c, orderly) && s.pc[t] == Sender(m, a)
    ensures Own(s, SendStep(s, t, m, a, c, capacity), t)
  {
    hide Step, NobodySleeps;
  }

  lemma {:induction false} RecvOwn(s: State, t: nat, timed: bool, a: RecvPc, c: Choice, capacity: nat, orderly: bool)
    requires Enabled(s, t, c, orderly) && s.pc[t] == Receiver(timed, a)
    ensures Own(s, RecvStep(s, t, timed, a, c, capacity), t)
  {
    RecvOwnLocks(s, t, timed, a, c, capacity, orderly);
    RecvOwnFlags(s, t, timed, a, c, capacity, orderly);
    RecvOwnQueue(s, t, timed, a, c, capacity, orderly);
    hide OthersMoved, OwnMutex, OwnDestroyMutex, OwnFlags, OwnQueue, OwnEntry, RecvStep;
  }

  lemma {:induction false} RecvOwnLocks(
      s: State, t: nat, timed: bool, a: RecvPc, c: Choice, capacity: nat, orderly: bool)
    requires Enabled(s, t, c, orderly) && s.pc[t] == Receiver(timed, a)
    ensures var s' := RecvStep(s, t, timed, a, c, capacity);
            OthersMoved(s, s', t) && OwnMutex(s, s', t) && OwnDestroyMutex(s, s', t)
  {
    hide Step, NobodySleeps;
  }

  lemma {:induction false} RecvOwnFlags(
      s: State, t: nat, timed: bool, a: RecvPc, c: Choice, capacity: nat, orderly: bool)
    requires Enabled(s, t, c, orderly) && s.pc[t] == Receiver(timed, a)
    ensures var s' := RecvStep(s, t, timed, a, c, capacity);
            |s'.pc| == |s.pc| && OwnFlags(s, s', t) && OwnEntry(s, s', t)
  {
    hide Step, NobodySleeps;
  }

  lemma {:induction false} RecvOwnQueue(
      s: State, t: nat, timed: bool, a: RecvPc, c: Choice, capacity: nat, orderly: bool)
    requires Enabled(s, t, c, orderly) && s.pc[t] == Receiver(timed, a)
    ensures var s' := RecvStep(s, t, timed, a, c, capacity);
            |s'.pc| == |s.pc| && OwnQueue(s, s', t)
  {
    hide Step, NobodySleeps;
    ReceiveSends(s.log, capacity);
  }

  lemma {:induction false} DestroyOwn(s: State, t: nat, a: DestroyPc, c: Choice, orderly: bool)
    requires Enabled(s, t, c, orderly) && s.pc[t] == Destroyer(a)
    ensures Own(s, DestroyStep(s, t, a, c), t)
  {
    hide NobodySleeps;
  }

  lemma {:induction false} StepOwn(s: State, t: nat, c: Choice, capacity: nat, orderly: bool)
    requires Enabled(s, t, c, orderly)
    ensures Own(s, Apply(s, t, c, capacity), t)
  {
    hide Own, CanStep, SendStep, RecvStep, DestroyStep;
    match s.pc[t]
    case Idle => CallOwn(s, t, c, orderly);
    case Sender(m, a) => SendOwn(s, t, m, a, c, capacity, orderly);
    case Receiver(timed, a) => RecvOwn(s, t, timed, a, c, capacity, orderly);
    case Destroyer(a) => DestroyOwn(s, t, a, c, orderly);
  }

  lemma {:induction false} MutexKept(s: State, s': State, t: nat)
    requires t < |s.pc| && Own(s, s', t) && MutexAgrees(s)
    ensures MutexAgrees(s')
  {
  }

  lemma {:induction false} DestroyMutexKept(s: State, s': State, t: nat)
    requires t < |s.pc| && Own(s, s', t) && DestroyMutexAgrees(s)
    ensures DestroyMutexAgrees(s')
  {
  }

  /** At most one thread sleeps, because a sleeper keeps holding `destroyMutex`. */
  lemma {:induction false} OneSleeper(s: State, t: nat, u: nat)
    requires DestroyMutexAgrees(s) && IsSleeper(s, t) && IsSleeper(s, u)
    ensures t == u
  {
    assert HoldsDestroy(s.pc[t]) && HoldsDestroy(s.pc[u]);
  }

  /** A signal leaves nobody asleep. */
  lemma {:induction false} SignalWakesAll(s: State, t: nat, c: Choice, capacity: nat, orderly: bool)
    requires DestroyMutexAgrees(s) && Enabled(s, t, c, orderly) && Signalling(s.pc[t])
    ensures NobodySleeps(Apply(s, t, c, capacity))
  {
    hide Step;
    if !NobodySleeps(s) {
      forall u | 0 <= u < |s.pc| && u != c.waiter
        ensures !Asleep(s.pc[u])
      {
        if Asleep(s.pc[u]) {
          OneSleeper(s, u, c.waiter);
        }
      }
    }
  }

  /** What a step without a signal does to the reasons a sleeper has. */
  lemma {:induction false} ReasonsKept(s: State, s': State, t: nat, timed: bool)
    requires t < |s.pc| && Own(s, s', t) && MutexAgrees(s) && !Signalling(s.pc[t]) && !HoldsDestroy(s.pc[t])
    requires Justified(s, timed)
    ensures Justified(s', timed)
  {
    MutexKept(s, s', t);
    if WakeupPending(s) {
      assert HoldsMutex(s.pc[s.mutex.thread]);
      assert s'.pc[s.mutex.thread] == s.pc[s.mutex.thread];
    } else if Signalling(s'.pc[t]) {
      assert HoldsMutex(s'.pc[t]);
    }
  }

  lemma {:induction false} SleepersKept(s: State, t: nat, c: Choice, capacity: nat, orderly: bool)
    requires MutexAgrees(s) && DestroyMutexAgrees(s) && SleepersJustified(s) && Enabled(s, t, c, orderly)
    ensures SleepersJustified(Apply(s, t, c, capacity))
  {
    hide Apply, CanStep;
    var s' := Apply(s, t, c, capacity);
    if Signalling(s.pc[t]) {
      SignalWakesAll(s, t, c, capacity, orderly);
    } else {
      StepOwn(s, t, c, capacity, orderly);
      forall u | 0 <= u < |s'.pc| && Asleep(s'.pc[u]) && u != t
        ensures Justified(s', s'.pc[u].timed)
      {
        assert HoldsDestroy(s.pc[u]);
        ReasonsKept(s, s', t, s.pc[u].timed);
      }
    }
  }

  lemma {:induction false} OneDestroyerKept(s: State, s': State, t: nat)
    requires t < |s.pc| && Own(s, s', t) && OneDestroyer(s)
    ensures OneDestroyer(s')
  {
    forall u | 0 <= u < |s'.pc| && s'.pc[u].Destroyer? && u != t
      ensures s.pc[u].Destroyer?
    {
    }
  }

  lemma {:induction false} StagesKept(s: State, s': State, t: nat)
    requires t < |s.pc| && Own(s, s', t) && OneDestroyer(s) && DestroyStaged(s)
    ensures DestroyStaged(s')
  {
    forall u | 0 <= u < |s'.pc| && s'.pc[u].Destroyer? && u != t
      ensures FlagsAgree(s', s'.pc[u].d)
    {
      assert s'.pc[u] == s.pc[u];
    }
  }

  lemma {:induction false} PopsKept(s: State, s': State, t: nat)
    requires t < |s.pc| && Own(s, s', t) && MutexAgrees(s) && PopsHaveMessages(s)
    ensures PopsHaveMessages(s')
  {
    forall u | 0 <= u < |s'.pc| && s'.pc[u].Receiver? && s'.pc[u].r.RPop? && u != t
      ensures s'.log.queue != []
    {
      assert s'.pc[u] == s.pc[u] && HoldsMutex(s.pc[u]);
    }
  }

  lemma {:induction false} LogKept(s: State, t: nat, c: Choice, capacity: nat, orderly: bool)
    requires Conserved(s.log, capacity) && Enabled(s, t, c, orderly) && capacity > 0
    ensures Conserved(Apply(s, t, c, capacity).log, capacity)
  {
    hide Step, Conserved, Signalled, DoorClosed;
    match s.pc[t]
    case Sender(m, _) => StepConserves(s.log, Send(m), capacity);
    case _ => StepConserves(s.log, Receive, capacity);
  }

  lemma {:induction false} InvKept(s: State, t: nat, c: Choice, capacity: nat, orderly: bool)
    requires Inv(s, capacity) && Enabled(s, t, c, orderly) && capacity > 0
    ensures Inv(Apply(s, t, c, capacity), capacity)
  {
    hide Apply, CanStep, Conserved, Own;
    var s' := Apply(s, t, c, capacity);
    StepOwn(s, t, c, capacity, orderly);
    MutexKept(s, s', t);
    DestroyMutexKept(s, s', t);
    SleepersKept(s, t, c, capacity, orderly);
    OneDestroyerKept(s, s', t);
    StagesKept(s, s', t);
    PopsKept(s, s', t);
    LogKept(s, t, c, capacity, orderly);
  }

  /** The invariant holds in every state of every run. */
  lemma {:induction false} RunInv(run: seq<State>, i: nat, capacity: nat, orderly: bool)
    requires Steps(run, capacity, orderly) && Init(run[0]) && i < |run| && capacity > 0
    ensures Inv(run[i], capacity)
    decreases i
  {
    hide Inv, CanStep, Apply;
    if i == 0 {
      InitInv(run[0], capacity);
    } else {
      RunInv(run, i - 1, capacity, orderly);
      assert Next(run[i - 1], run[i], capacity, orderly);
      var t, c :| Enabled(run[i - 1], t, c, orderly) && run[i] == Apply(run[i - 1], t, c, capacity);
      InvKept(run[i - 1], t, c, capacity, orderly);
    }
  }

  // ----- No lost wakeup -----

  /**
   In every reachable state at most one thread sleeps, and if there is a message then the thread that stored it holds
   the mutex and is about to signal, which leaves nobody asleep (SignalWakesAll). So one signal is enough.
   */
  lemma {:induction false} NoLostWakeup(run: seq<State>, i: nat, capacity: nat, orderly: bool)
    requires Steps(run, capacity, orderly) && Init(run[0]) && i < |run| && capacity > 0
    ensures forall t, u :: IsSleeper(run[i], t) && IsSleeper(run[i], u) ==> t == u
    ensures run[i].log.queue != [] && !NobodySleeps(run[i]) ==> MessagePending(run[i])
    ensures run[i].mutex == Free && run[i].log.queue != [] ==> NobodySleeps(run[i])
  {
    var s := run[i];
    RunInv(run, i, capacity, orderly);
    forall t, u | IsSleeper(s, t) && IsSleeper(s, u)
      ensures t == u
    {
      OneSleeper(s, t, u);
    }
  }

  /** Over every interleaving the messages sent are those received or evicted, in order, and then those queued. */
  lemma {:induction false} MessagesConserved(run: seq<State>, i: nat, capacity: nat, orderly: bool)
    requires Steps(run, capacity, orderly) && Init(run[0]) && i < |run| && capacity > 0
    ensures Conserved(run[i].log, capacity)
  {
    RunInv(run, i, capacity, orderly);
  }

  // ----- Orderly destruction -----

  /** When pAlloc is freed no receiver is between taking and releasing `destroyMutex`. */
  lemma {:induction false} FreedWithoutReceiver(run: seq<State>, i: nat, capacity: nat, orderly: bool, t: nat, u: nat)
    requires Steps(run, capacity, orderly) && Init(run[0]) && i < |run| && capacity > 0
    requires t < |run[i].pc| && run[i].pc[t] == Destroyer(DFree)
    ensures u < |run[i].pc| && run[i].pc[u].Receiver? ==> run[i].pc[u].r.RLockDestroy?
  {
    RunInv(run, i, capacity, orderly);
    assert HoldsDestroy(run[i].pc[t]);
  }

  /** Once an orderly Destroy has begun nobody is outside `destroyMutex`, and once it holds that, nobody is inside. */
  predicate Emptied(s: State) {
    && (s.closing ==> forall t | 0 <= t < |s.pc| :: !s.pc[t].Sender? && (s.pc[t].Receiver? ==> HoldsDestroy(s.pc[t])))
    && ((exists d | 0 <= d < |s.pc| :: LastStages(s.pc[d])) ==> forall t | 0 <= t < |s.pc| :: !s.pc[t].Receiver?)
  }

  lemma {:induction false} OrderlyCall(s: State, t: nat, c: Choice, capacity: nat)
    requires Enabled(s, t, c, true)
    ensures Apply(s, t, c, capacity).closing && !s.closing && s.pc[t].Idle? ==> DoorClosed(s)
  {
  }

  lemma {:induction false} EmptiedKept(s: State, t: nat, c: Choice, capacity: nat)
    requires Inv(s, capacity) && Emptied(s) && Enabled(s, t, c, true)
    ensures Emptied(Apply(s, t, c, capacity))
  {
    hide Apply, CanStep;
    StepOwn(s, t, c, capacity, true);
    OrderlyCall(s, t, c, capacity);
    var s' := Apply(s, t, c, capacity);
    if s'.closing {
      forall u | 0 <= u < |s'.pc|
        ensures !s'.pc[u].Sender? && (s'.pc[u].Receiver? ==> HoldsDestroy(s'.pc[u]))
      {
      }
    }
    if exists d | 0 <= d < |s'.pc| :: LastStages(s'.pc[d]) {
      var d :| 0 <= d < |s'.pc| && LastStages(s'.pc[d]);
      assert s'.closing by {
        OneDestroyerKept(s, s', t);
      }
      forall u | 0 <= u < |s'.pc|
        ensures !s'.pc[u].Receiver?
      {
        assert s.closing;
      }
    }
  }

  lemma {:induction false} RunEmptied(run: seq<State>, i: nat, capacity: nat)
    requires Steps(run, capacity, true) && Init(run[0]) && i < |run| && capacity > 0
    ensures Emptied(run[i])
    decreases i
  {
    hide Inv, CanStep, Apply;
    if i > 0 {
      RunEmptied(run, i - 1, capacity);
      RunInv(run, i - 1, capacity, true);
      assert Next(run[i - 1], run[i], capacity, true);
      var t: nat, c :| Enabled(run[i - 1], t, c, true) && run[i] == Apply(run[i - 1], t, c, capacity);
      EmptiedKept(run[i - 1], t, c, capacity);
    }
  }

  /** With an orderly Destroy no statement touches pAlloc after it has been freed. */
  lemma {:induction false} NoUseAfterFree(run: seq<State>, i: nat, capacity: nat)
    requires Steps(run, capacity, true) && Init(run[0]) && i < |run| && capacity > 0
    ensures run[i].freed ==> forall t | 0 <= t < |run[i].pc| :: !TouchesSlots(run[i].pc[t])
  {
    RunEmptied(run, i, capacity);
    RunInv(run, i, capacity, true);
    FreedHasDestroyer(run, i, capacity);
  }

  /** The flags are set by a destroyer that is still there. */
  lemma {:induction false} FreedHasDestroyer(run: seq<State>, i: nat, capacity: nat)
    requires Steps(run, capacity, true) && Init(run[0]) && i < |run| && capacity > 0
    ensures run[i].freed ==> exists d | 0 <= d < |run[i].pc| :: LastStages(run[i].pc[d])
    decreases i
  {
    if i > 0 {
      FreedHasDestroyer(run, i - 1, capacity);
      assert Next(run[i - 1], run[i], capacity, true);
      var t: nat, c :| Enabled(run[i - 1], t, c, true) && run[i] == Apply(run[i - 1], t, c, capacity);
      FreedStep(run[i - 1], t, c, capacity);
    }
  }

  lemma {:induction false} FreedStep(s: State, t: nat, c: Choice, capacity: nat)
    requires Enabled(s, t, c, true) && (s.freed ==> exists d | 0 <= d < |s.pc| :: LastStages(s.pc[d]))
    ensures var s' := Apply(s, t, c, capacity);
            s'.freed ==> exists d | 0 <= d < |s'.pc| :: LastStages(s'.pc[d])
  {
    hide CanStep, Apply;
    StepOwn(s, t, c, capacity, true);
    var s' := Apply(s, t, c, capacity);
    if s'.freed {
      if s.freed {
        var d :| 0 <= d < |s.pc| && LastStages(s.pc[d]);
        assert LastStages(s'.pc[d]);
      } else {
        assert LastStages(s'.pc[t]);
      }
    }
  }

  // ----- No cycle of lock waits -----

  predicate WantsMutex(p: Pc) {
    match p
    case Idle => false
    case Sender(_, a) => a.SLock?
    case Receiver(_, a) => a.RLock? || a.RWake?
    case Destroyer(a) => a.DLock?
  }

  predicate WantsDestroy(p: Pc) {
    match p
    case Receiver(_, a) => a.RLockDestroy?
    case Destroyer(a) => a.DLockDestroy?
    case _ => false
  }

  predicate WaitsFor(s: State, t: nat, u: nat) {
    t < |s.pc| && ((WantsMutex(s.pc[t]) && s.mutex == Held(u)) || (WantsDestroy(s.pc[t]) && s.destroyMutex == Held(u)))
  }

  /** No chain of lock waits is longer than thread, receiver, holder of the mutex; so there is no cycle. */
  lemma {:induction false} WaitsAreShort(run: seq<State>, i: nat, capacity: nat, orderly: bool, chain: seq<nat>)
    requires Steps(run, capacity, orderly) && Init(run[0]) && i < |run| && capacity > 0
    requires forall k | 0 < k < |chain| :: WaitsFor(run[i], chain[k - 1], chain[k])
    ensures |chain| <= 3
  {
    RunInv(run, i, capacity, orderly);
    if |chain| > 3 {
      ThirdDoesNotWait(run[i], chain[0], chain[1], chain[2], chain[3]);
    }
  }

  lemma {:induction false} ThirdDoesNotWait(s: State, t: nat, u: nat, v: nat, w: nat)
    requires MutexAgrees(s) && DestroyMutexAgrees(s) && WaitsFor(s, t, u) && WaitsFor(s, u, v)
    ensures !WaitsFor(s, v, w)
  {
    assert HoldsMutex(s.pc[u]) || HoldsDestroy(s.pc[u]);
  }

  // ----- After the clearing of bIsValid every call returns -----

  /** The destroyer has cleared bIsValid and signalled. */
  predicate HasSignalled(p: Pc) { p.Destroyer? && !p.d.DLock? && !p.d.DClear? && !p.d.DSignal? }

  predicate Closed(s: State) { exists d | 0 <= d < |s.pc| :: HasSignalled(s.pc[d]) }

  /** How many statements a thread has left at most. */
  function Left(p: Pc): nat {
    match p
    case Idle => 0
    case Sender(_, a) => (match a case SLock => 4 case SStore => 3 case SSignal => 2 case SUnlock => 1)
    case Receiver(timed, a) =>
      (match a
       case RLockDestroy => 9
       case RLock => 8
       case RTest => if timed then 7 else 5
       case RSleep => if timed then 6 else 7
       case RWake(_) => if timed then 5 else 6
       case RAfter(_) => 4
       case RPop => 3
       case RUnlock(_) => 2
       case RUnlockDestroy(_) => 1)
    case Destroyer(a) =>
      match a
      case DLock => 7
      case DClear => 6
      case DSignal => 5
      case DUnlock => 4
      case DLockDestroy => 3
      case DFree => 2
      case DUnlockDestroy => 1
      case DDone => 0
  }

  function LeftOfAll(pc: seq<Pc>): nat { if pc == [] then 0 else Left(pc[0]) + LeftOfAll(pc[1..]) }

  lemma {:induction false} LeftUpdated(pc: seq<Pc>, i: nat, p: Pc)
    requires i < |pc|
    ensures LeftOfAll(pc[i := p]) + Left(pc[i]) == LeftOfAll(pc) + Left(p)
    decreases pc
  {
    if i == 0 {
      assert pc[i := p][1..] == pc[1..];
    } else {
      assert pc[i := p][1..] == pc[1..][i - 1 := p];
      LeftUpdated(pc[1..], i - 1, p);
    }
  }

  lemma {:induction false} SignalLeft(pc: seq<Pc>, w: nat)
    ensures LeftOfAll(Signalled(pc, w)) <= LeftOfAll(pc)
  {
    if w < |pc| && Asleep(pc[w]) {
      LeftUpdated(pc, w, Receiver(pc[w].timed, RWake(false)));
    }
  }

  /** What its own step does to a thread's remaining statements once bIsValid is cleared. */
  ghost predicate OwnLeft(s: State, s': State, t: nat, c: Choice)
    requires t < |s.pc|
  {
    && |s'.pc| == |s.pc| && Left(s'.pc[t]) < Left(s.pc[t])
    && s'.pc == (if Signalling(s.pc[t]) then Signalled(s.pc, c.waiter) else s.pc)[t := s'.pc[t]]
    && (HasSignalled(s.pc[t]) ==> HasSignalled(s'.pc[t]))
  }

  lemma {:induction false} SendLeft(s: State, t: nat, m: Message, a: SendPc, c: Choice, capacity: nat)
    requires t < |s.pc| && s.pc[t] == Sender(m, a)
    ensures OwnLeft(s, SendStep(s, t, m, a, c, capacity), t, c)
  {
    hide Step, Signalled;
  }

  lemma {:induction false} RecvLeft(s: State, t: nat, timed: bool, a: RecvPc, c: Choice, capacity: nat)
    requires t < |s.pc| && s.pc[t] == Receiver(timed, a) && !s.valid
    ensures OwnLeft(s, RecvStep(s, t, timed, a, c, capacity), t, c)
  {
    hide Step, Signalled;
  }

  lemma {:induction false} DestroyLeft(s: State, t: nat, a: DestroyPc, c: Choice)
    requires t < |s.pc| && s.pc[t] == Destroyer(a) && !a.DDone?
    ensures OwnLeft(s, DestroyStep(s, t, a, c), t, c)
  {
    hide Step, Signalled;
  }

  lemma {:induction false} StepLeft(s: State, t: nat, c: Choice, capacity: nat, orderly: bool)
    requires Enabled(s, t, c, orderly) && !s.valid && s.closing
    ensures OwnLeft(s, Apply(s, t, c, capacity), t, c)
  {
    hide OwnLeft, SendStep, RecvStep, DestroyStep, DoorClosed, NobodySleeps;
    match s.pc[t]
    case Idle =>
    case Sender(m, a) => SendLeft(s, t, m, a, c, capacity);
    case Receiver(timed, a) => RecvLeft(s, t, timed, a, c, capacity);
    case Destroyer(a) => DestroyLeft(s, t, a, c);
  }

  lemma {:induction false} StepsRunOut(s: State, t: nat, c: Choice, capacity: nat, orderly: bool)
    requires Inv(s, capacity) && Closed(s) && Enabled(s, t, c, orderly)
    ensures Closed(Apply(s, t, c, capacity))
    ensures LeftOfAll(Apply(s, t, c, capacity).pc) < LeftOfAll(s.pc)
  {
    hide Apply, CanStep, Left, Conserved;
    var d :| 0 <= d < |s.pc| && HasSignalled(s.pc[d]);
    assert FlagsAgree(s, s.pc[d].d);
    StepLeft(s, t, c, capacity, orderly);
    StepOwn(s, t, c, capacity, orderly);
    var s' := Apply(s, t, c, capacity);
    assert HasSignalled(s'.pc[d]);
    if Signalling(s.pc[t]) {
      SignalLeft(s.pc, c.waiter);
      assert Signalled(s.pc, c.waiter)[t] == s.pc[t];
      LeftUpdated(Signalled(s.pc, c.waiter), t, s'.pc[t]);
    } else {
      LeftUpdated(s.pc, t, s'.pc[t]);
    }
  }

  /** From a reachable state in which the destroyer has signalled, every run ends: its length is bounded beforehand. */
  lemma {:induction false} ClosedRunsEnd(run: seq<State>, capacity: nat, orderly: bool)
    requires Steps(run, capacity, orderly) && Inv(run[0], capacity) && Closed(run[0]) && capacity > 0
    ensures |run| <= LeftOfAll(run[0].pc) + 1
    decreases run
  {
    hide Inv, Closed, CanStep, Apply, LeftOfAll;
    if |run| > 1 {
      assert Next(run[0], run[1], capacity, orderly);
      var t: nat, c :| Enabled(run[0], t, c, orderly) && run[1] == Apply(run[0], t, c, capacity);
      InvKept(run[0], t, c, capacity, orderly);
      StepsRunOut(run[0], t, c, capacity, orderly);
      var rest := run[1..];
      forall i | 0 < i < |rest|
        ensures Next(rest[i - 1], rest[i], capacity, orderly)
      {
        assert Next(run[i], run[i + 1], capacity, orderly);
      }
      ClosedRunsEnd(rest, capacity, orderly);
    }
  }

  predicate AllFinished(s: State) { forall t | 0 <= t < |s.pc| :: Finished(s.pc[t]) }

  predicate Finished(p: Pc) { p.Idle? || (p.Destroyer? && p.d.DDone?) }

  /** A spurious wakeup, on which nobody can count. */
  predicate Spurious(s: State, t: nat) { IsSleeper(s, t) && !s.pc[t].timed }

  /** And such a run does not get stuck: as long as a call is unfinished some thread can go on, not counting spurious
      wakeups. */
  lemma {:induction false} ClosedGoesOn(s: State, capacity: nat, orderly: bool)
    requires Inv(s, capacity) && Closed(s) && !AllFinished(s)
    ensures exists t, c :: Enabled(s, t, c, orderly) && !Spurious(s, t)
  {
    var d :| 0 <= d < |s.pc| && HasSignalled(s.pc[d]);
    assert FlagsAgree(s, s.pc[d].d);
    var t :| 0 <= t < |s.pc| && !Finished(s.pc[t]);
    var w := AnySleeper(s);
    var c := Choice(Idle, w, true);
    if s.mutex.Held? {
      assert Enabled(s, s.mutex.thread, c, orderly);
    } else if WantsDestroy(s.pc[t]) && s.destroyMutex.Held? {
      GoesOn(s, s.destroyMutex.thread, w, orderly);
    } else {
      GoesOn(s, t, w, orderly);
    }
  }

  /** Nothing can go on, but for a spurious wakeup. */
  ghost predicate AtRest(s: State, orderly: bool) {
    forall t, c :: Enabled(s, t, c, orderly) ==> Spurious(s, t)
  }

  /** Together: a run in which the destroyer has signalled, and which has come to rest, has returned from every call. */
  lemma {:induction false} ClosedRunsFinish(run: seq<State>, j: nat, capacity: nat, orderly: bool)
    requires Steps(run, capacity, orderly) && Init(run[0]) && j < |run| && capacity > 0
    requires Closed(run[j]) && AtRest(run[|run| - 1], orderly)
    ensures AllFinished(run[|run| - 1])
  {
    hide Inv, Closed, CanStep, Apply;
    var last := |run| - 1;
    RunInv(run, last, capacity, orderly);
    StaysClosed(run, j, last, capacity, orderly);
    if !AllFinished(run[last]) {
      ClosedGoesOn(run[last], capacity, orderly);
    }
  }

  lemma {:induction false} StaysClosed(run: seq<State>, j: nat, k: nat, capacity: nat, orderly: bool)
    requires Steps(run, capacity, orderly) && Init(run[0]) && j <= k < |run| && capacity > 0 && Closed(run[j])
    ensures Closed(run[k])
    decreases k
  {
    hide Inv, Closed, CanStep, Apply;
    if j < k {
      StaysClosed(run, j, k - 1, capacity, orderly);
      RunInv(run, k - 1, capacity, orderly);
      assert Next(run[k - 1], run[k], capacity, orderly);
      var t: nat, c :| Enabled(run[k - 1], t, c, orderly) && run[k] == Apply(run[k - 1], t, c, capacity);
      StepsRunOut(run[k - 1], t, c, capacity, orderly);
    }
  }

  lemma {:induction false} AnySleeper(s: State) returns (w: nat)
    ensures NobodySleeps(s) || IsSleeper(s, w)
  {
    w := 0;
    if !NobodySleeps(s) {
      w :| 0 <= w < |s.pc| && Asleep(s.pc[w]);
    }
  }

  /** With the mutex free, an unfinished thread that does not wait for `destroyMutex` can go on. */
  lemma {:induction false} GoesOn(s: State, t: nat, w: nat, orderly: bool)
    requires t < |s.pc| && !Finished(s.pc[t]) && SleepersJustified(s) && !s.valid && s.mutex == Free
    requires NobodySleeps(s) || IsSleeper(s, w)
    requires WantsDestroy(s.pc[t]) ==> s.destroyMutex == Free
    ensures Enabled(s, t, Choice(Idle, w, s.pc[t].Receiver? && s.pc[t].timed), orderly) && !Spurious(s, t)
  {
  }

  // ----- A sleeping ReceiveMessage returns NULL -----

  /** Where a sleeper can be on its way to returning NULL; Idle is where it has returned. */
  predicate ReturningNull(p: Pc) {
    p.Idle?
    || (p.Receiver? && !p.timed
        && (p.r.RSleep? || p.r.RWake? || p.r.RTest? || p.r == RUnlock(Nothing) || p.r == RUnlockDestroy(Nothing)))
  }

  predicate NoSender(s: State) { forall t | 0 <= t < |s.pc| :: !s.pc[t].Sender? }

  /** No call starts any more and no message can come in. */
  predicate Drying(s: State) { s.closing && NoSender(s) }

  lemma {:induction false} DryingKept(s: State, t: nat, c: Choice, capacity: nat, orderly: bool)
    requires Enabled(s, t, c, orderly) && Drying(s)
    ensures Drying(Apply(s, t, c, capacity))
    ensures s.log.queue == [] ==> Apply(s, t, c, capacity).log.queue == []
  {
    hide Apply, CanStep;
    StepOwn(s, t, c, capacity, orderly);
    var s' := Apply(s, t, c, capacity);
    forall u | 0 <= u < |s'.pc|
      ensures !s'.pc[u].Sender?
    {
    }
  }

  lemma {:induction false} NullStep(s: State, t: nat, c: Choice, capacity: nat, u: nat, orderly: bool)
    requires Enabled(s, t, c, orderly) && u < |s.pc| && ReturningNull(s.pc[u])
    requires s.closing && s.log.queue == []
    ensures var s' := Apply(s, t, c, capacity);
            |s'.pc| == |s.pc| && ReturningNull(s'.pc[u])
  {
    hide DoorClosed, NobodySleeps;
    StepOwn(s, t, c, capacity, orderly);
  }

  /**
   A ReceiveMessage that sleeps while Destroy is under way and no sender is in flight gets no message: in every later
   state it is on its way to returning NULL or has returned it, whoever else waits for `destroyMutex`.
   */
  lemma {:induction false} SleeperReturnsNull(run: seq<State>, i: nat, j: nat, capacity: nat, u: nat, orderly: bool)
    requires Steps(run, capacity, orderly) && Init(run[0]) && i <= j < |run| && capacity > 0
    requires run[i].closing && NoSender(run[i]) && IsSleeper(run[i], u) && !run[i].pc[u].timed
    ensures u < |run[j].pc| && ReturningNull(run[j].pc[u]) && Drying(run[j]) && run[j].log.queue == []
    decreases j
  {
    hide Inv, CanStep, Apply, ReturningNull, Drying;
    if i == j {
      SleeperStarts(run, i, capacity, u, orderly);
    } else {
      SleeperReturnsNull(run, i, j - 1, capacity, u, orderly);
      assert Next(run[j - 1], run[j], capacity, orderly);
      var t: nat, c :| Enabled(run[j - 1], t, c, orderly) && run[j] == Apply(run[j - 1], t, c, capacity);
      DryingKept(run[j - 1], t, c, capacity, orderly);
      IsClosing(run[j - 1]);
      NullStep(run[j - 1], t, c, capacity, u, orderly);
    }
  }

  lemma IsClosing(s: State)
    requires Drying(s)
    ensures s.closing
  {
  }

  lemma {:induction false} SleeperStarts(run: seq<State>, i: nat, capacity: nat, u: nat, orderly: bool)
    requires Steps(run, capacity, orderly) && Init(run[0]) && i < |run| && capacity > 0
    requires run[i].closing && NoSender(run[i]) && IsSleeper(run[i], u) && !run[i].pc[u].timed
    ensures ReturningNull(run[i].pc[u]) && run[i].log.queue == [] && Drying(run[i])
  {
    hide Steps;
    RunInv(run, i, capacity, orderly);
  }

  /** And when the run has come to its end, it has returned. */
  lemma {:induction false} SleeperHasReturned(run: seq<State>, i: nat, j: nat, capacity: nat, u: nat, orderly: bool)
    requires Steps(run, capacity, orderly) && Init(run[0]) && i <= j < |run| && capacity > 0
    requires run[i].closing && NoSender(run[i]) && IsSleeper(run[i], u) && !run[i].pc[u].timed
    requires Closed(run[j]) && AtRest(run[|run| - 1], orderly)
    ensures u < |run[|run| - 1].pc| && run[|run| - 1].pc[u].Idle?
  {
    hide Inv, Closed, AtRest, Steps, Drying;
    SleeperReturnsNull(run, i, |run| - 1, capacity, u, orderly);
    ClosedRunsFinish(run, j, capacity, orderly);
  }

  // ----- Use after free -----

  /** If no sender is in flight and the queue is empty, pAlloc is not touched any more at all, freed or not, even with
      receivers waiting for `destroyMutex`. */
  lemma {:induction false} DrainedUntouched(run: seq<State>, i: nat, j: nat, capacity: nat, orderly: bool)
    requires Steps(run, capacity, orderly) && Init(run[0]) && i <= j < |run| && capacity > 0
    requires Drying(run[i]) && run[i].log.queue == []
    ensures Drying(run[j]) && run[j].log.queue == [] && forall t | 0 <= t < |run[j].pc| :: !TouchesSlots(run[j].pc[t])
    decreases j
  {
    hide CanStep, Apply, Conserved;
    if i < j {
      DrainedUntouched(run, i, j - 1, capacity, orderly);
      assert Next(run[j - 1], run[j], capacity, orderly);
      var t: nat, c :| Enabled(run[j - 1], t, c, orderly) && run[j] == Apply(run[j - 1], t, c, capacity);
      DryingKept(run[j - 1], t, c, capacity, orderly);
    }
    RunInv(run, j, capacity, orderly);
  }

  lemma {:induction false} Move(run: seq<State>, t: nat, c: Choice, capacity: nat) returns (run': seq<State>)
    requires Steps(run, capacity, false) && Enabled(run[|run| - 1], t, c, false)
    ensures Steps(run', capacity, false) && run'[0] == run[0]
    ensures run'[|run'| - 1] == Apply(run[|run| - 1], t, c, capacity)
  {
    hide Apply, CanStep;
    var s' := Apply(run[|run| - 1], t, c, capacity);
    run' := run + [s'];
    assert Next(run[|run| - 1], s', capacity, false);
    forall i | 0 < i < |run'|
      ensures Next(run'[i - 1], run'[i], capacity, false)
    {
      if i < |run| {
        assert Next(run[i - 1], run[i], capacity, false);
      }
    }
  }

  predicate Touched(s: State) { s.freed && exists t | 0 <= t < |s.pc| :: TouchesSlots(s.pc[t]) }

  ghost predicate CanTouchFreed(s: State, capacity: nat) {
    exists run :: run != [] && Steps(run, capacity, false) && run[0] == s && Touched(run[|run| - 1])
  }

  /** A sender that has not stored yet, or a receiver with a message to take. */
  predicate Exposed(s: State) {
    exists t | 0 <= t < |s.pc| ::
      (s.pc[t].Sender? && (s.pc[t].s.SLock? || s.pc[t].s.SStore?)) || (s.pc[t].Receiver? && s.log.queue != [])
  }

  /** Some run goes on to touch pAlloc after it has been freed, exactly when, as it is about to be freed, a sender has not
      stored yet, or a receiver waits while there is a message. */
  lemma {:induction false} TouchedExactly(s: State, d: nat, capacity: nat)
    requires Inv(s, capacity) && d < |s.pc| && s.pc[d] == Destroyer(DFree) && capacity > 0
    ensures CanTouchFreed(s, capacity) <==> Exposed(s)
  {
    hide Steps;
    if Exposed(s) {
      var t :| 0 <= t < |s.pc|
               && ((s.pc[t].Sender? && (s.pc[t].s.SLock? || s.pc[t].s.SStore?)) || (s.pc[t].Receiver? && s.log.queue != []));
      var run := ExposedTouches(s, d, t, capacity);
      NonEmptyRun(run, capacity);
    } else if CanTouchFreed(s, capacity) {
      var run :| run != [] && Steps(run, capacity, false) && run[0] == s && Touched(run[|run| - 1]);
      NeverExposed(run, |run| - 1, capacity);
    }
  }

  lemma NonEmptyRun(run: seq<State>, capacity: nat)
    requires Steps(run, capacity, false)
    ensures run != []
  {
  }

  /** Without such a thread there is none later. */
  lemma {:induction false} NeverExposed(run: seq<State>, i: nat, capacity: nat)
    requires Steps(run, capacity, false) && Inv(run[0], capacity) && run[0].closing && !Exposed(run[0]) && capacity > 0
    requires i < |run|
    ensures Inv(run[i], capacity) && run[i].closing && !Exposed(run[i]) && !Touched(run[i])
    decreases i
  {
    hide CanStep, Apply, MutexAgrees, DestroyMutexAgrees, SleepersJustified, OneDestroyer, DestroyStaged, Conserved;
    if i > 0 {
      NeverExposed(run, i - 1, capacity);
      assert Next(run[i - 1], run[i], capacity, false);
      var t: nat, c :| Enabled(run[i - 1], t, c, false) && run[i] == Apply(run[i - 1], t, c, capacity);
      InvKept(run[i - 1], t, c, capacity, false);
      ExposureKept(run[i - 1], t, c, capacity);
    }
  }

  lemma {:induction false} ExposureKept(s: State, t: nat, c: Choice, capacity: nat)
    requires Enabled(s, t, c, false) && s.closing && !Exposed(s)
    ensures Apply(s, t, c, capacity).closing && !Exposed(Apply(s, t, c, capacity))
  {
    hide DoorClosed, NobodySleeps;
    StepOwn(s, t, c, capacity, false);
    hide Own;
    var s' := Apply(s, t, c, capacity);
    forall u | 0 <= u < |s'.pc|
      ensures !((s'.pc[u].Sender? && (s'.pc[u].s.SLock? || s'.pc[u].s.SStore?)) || (s'.pc[u].Receiver? && s'.log.queue != []))
    {
      assert u < |s.pc|;
    }
  }

  lemma {:induction false} ExposedTouches(s: State, d: nat, t: nat, capacity: nat) returns (run: seq<State>)
    requires Inv(s, capacity) && d < |s.pc| && s.pc[d] == Destroyer(DFree) && t < |s.pc| && capacity > 0
    requires (s.pc[t].Sender? && (s.pc[t].s.SLock? || s.pc[t].s.SStore?)) || (s.pc[t].Receiver? && s.log.queue != [])
    ensures Steps(run, capacity, false) && run[0] == s && Touched(run[|run| - 1])
  {
    var go := Choice(Idle, t, false);
    run := [s];
    run := Move(run, d, go, capacity);
    var s1 := run[|run| - 1];
    assert s1 == Goto(s, d, Destroyer(DUnlockDestroy)).(freed := true) && s1.pc[t] == s.pc[t];
    AlmostDone(s, d, t);
    if !(s.pc[t].Sender? && s.pc[t].s.SStore?) {
      run := Move(run, d, go, capacity);
      var s2 := run[|run| - 1];
      assert s2 == Goto(s1, d, Destroyer(DDone)).(destroyMutex := Free);
      assert forall u | 0 <= u < |s.pc| && u != d :: s2.pc[u] == s.pc[u];
      run := MutexReleased(run, t, capacity);
      run := FreeTouched(run, t, capacity);
    }
  }

  /** Who can hold the mutex as pAlloc is about to be freed: a sender. */
  lemma {:induction false} AlmostDone(s: State, d: nat, t: nat)
    requires MutexAgrees(s) && DestroyMutexAgrees(s) && OneDestroyer(s)
    requires d < |s.pc| && s.pc[d] == Destroyer(DFree) && t < |s.pc|
    ensures s.mutex.Held? ==> s.mutex.thread < |s.pc| && s.mutex.thread != d && s.pc[s.mutex.thread].Sender?
    ensures s.mutex.Held? ==> !s.pc[s.mutex.thread].s.SLock?
    ensures s.pc[t].Receiver? ==> s.pc[t].r.RLockDestroy?
  {
  }

  /** The sender that holds the mutex stores, signals and unlocks it; or it stops at the store, which touches pAlloc. */
  lemma {:induction false} MutexReleased(run: seq<State>, t: nat, capacity: nat) returns (run': seq<State>)
    requires Steps(run, capacity, false)
    requires var s := run[|run| - 1];
             && s.freed && s.destroyMutex == Free && t < |s.pc| && capacity > 0
             && ((s.pc[t].Sender? && s.pc[t].s.SLock?) || (s.pc[t].Receiver? && s.pc[t].r.RLockDestroy? && s.log.queue != []))
             && (s.mutex.Held? ==> s.mutex.thread < |s.pc| && s.pc[s.mutex.thread].Sender? && !s.pc[s.mutex.thread].s.SLock?)
    ensures Steps(run', capacity, false) && run'[0] == run[0]
    ensures var s, s' := run[|run| - 1], run'[|run'| - 1];
            && s'.freed && |s'.pc| == |s.pc|
            && (Touched(s')
                || (s'.mutex == Free == s'.destroyMutex && s'.pc[t] == s.pc[t] && s'.log == s.log))
  {
    hide Step, DoorClosed;
    run' := run;
    var s := run[|run| - 1];
    if s.mutex.Held? {
      var u := s.mutex.thread;
      var w := AnySleeper(s);
      if s.pc[u].s.SStore? {
        assert TouchesSlots(s.pc[u]);
      } else {
        if s.pc[u].s.SSignal? {
          run' := Move(run', u, Choice(Idle, w, false), capacity);
          assert run'[|run'| - 1] == Goto(s.(pc := Signalled(s.pc, w)), u, Sender(s.pc[u].m, SUnlock));
        }
        var s1 := run'[|run'| - 1];
        assert s1.pc[u] == Sender(s.pc[u].m, SUnlock) && s1.pc[t] == s.pc[t] && s1.log == s.log && |s1.pc| == |s.pc|;
        run' := Move(run', u, Choice(Idle, w, false), capacity);
      }
    }
  }

  lemma {:induction false} FreeTouched(run: seq<State>, t: nat, capacity: nat) returns (run': seq<State>)
    requires Steps(run, capacity, false)
    requires var s := run[|run| - 1];
             && s.freed && t < |s.pc|
             && (Touched(s)
                 || (s.mutex == Free == s.destroyMutex
                     && ((s.pc[t].Sender? && s.pc[t].s.SLock?)
                         || (s.pc[t].Receiver? && s.pc[t].r.RLockDestroy? && s.log.queue != []))))
    ensures Steps(run', capacity, false) && run'[0] == run[0] && Touched(run'[|run'| - 1])
  {
    hide Step, DoorClosed, NobodySleeps;
    var go := Choice(Idle, t, false);
    run' := run;
    var s := run[|run| - 1];
    if !Touched(s) {
      run' := Move(run', t, go, capacity);
      if s.pc[t].Receiver? {
        assert run'[|run'| - 1] == Goto(s, t, Receiver(s.pc[t].timed, RLock)).(destroyMutex := Held(t));
        run' := Move(run', t, go, capacity);
        assert run'[|run'| - 1].pc[t] == Receiver(s.pc[t].timed, RTest) && run'[|run'| - 1].log == s.log;
        run' := Move(run', t, go, capacity);
        assert run'[|run'| - 1].pc[t] == Receiver(s.pc[t].timed, RPop) && run'[|run'| - 1].freed;
      } else {
        assert run'[|run'| - 1].pc[t] == Sender(s.pc[t].m, SStore) && run'[|run'| - 1].freed;
      }
      assert TouchesSlots(run'[|run'| - 1].pc[t]) && t < |run'[|run'| - 1].pc|;
    }
  }

  /** The states of the counterexample: thread 0 sends and later destroys, thread 1 receives. */
  function TwoThreads(first: Pc, second: Pc, mutex: Owner, destroyMutex: Owner, log: Log<Message>, valid: bool,
                      closing: bool, freed: bool): State
  {
    State([first, second], mutex, destroyMutex, log, valid, closing, freed)
  }

  lemma {:induction false} OneSent(m: Message) returns (run: seq<State>)
    ensures Steps(run, 2, false) && Init(run[0])
    ensures run[|run| - 1] == TwoThreads(Idle, Idle, Free, Free, Log([m], [m], []), true, false, false)
  {
    var call := Choice(Sender(m, SLock), 0, false);
    var empty: Log<Message>, one: Log<Message> := Log([], [], []), Log([m], [m], []);
    run := [TwoThreads(Idle, Idle, Free, Free, empty, true, false, false)];
    run := Move(run, 0, call, 2);
    assert run[|run| - 1] == TwoThreads(Sender(m, SLock), Idle, Free, Free, empty, true, false, false);
    run := Move(run, 0, call, 2);
    assert run[|run| - 1] == TwoThreads(Sender(m, SStore), Idle, Held(0), Free, empty, true, false, false);
    run := Move(run, 0, call, 2);
    assert run[|run| - 1] == TwoThreads(Sender(m, SSignal), Idle, Held(0), Free, one, true, false, false);
    run := Move(run, 0, call, 2);
    assert run[|run| - 1] == TwoThreads(Sender(m, SUnlock), Idle, Held(0), Free, one, true, false, false);
    run := Move(run, 0, call, 2);
  }

  lemma {:induction false} ThenDestroyed(m: Message) returns (run: seq<State>)
    ensures Steps(run, 2, false) && Init(run[0])
    ensures run[|run| - 1] == TwoThreads(Destroyer(DDone), Receiver(false, RLockDestroy), Free, Free, Log([m], [m], []),
                                         false, true, true)
  {
    var go := Choice(Idle, 0, false);
    var one: Log<Message>, r := Log([m], [m], []), Receiver(false, RLockDestroy);
    run := ThenCleared(m);
    run := Move(run, 0, go, 2);
    assert run[|run| - 1] == TwoThreads(Destroyer(DLockDestroy), r, Free, Free, one, false, true, false);
    run := Move(run, 0, go, 2);
    assert run[|run| - 1] == TwoThreads(Destroyer(DFree), r, Free, Held(0), one, false, true, false);
    run := Move(run, 0, go, 2);
    assert run[|run| - 1] == TwoThreads(Destroyer(DUnlockDestroy), r, Free, Held(0), one, false, true, true);
    run := Move(run, 0, go, 2);
  }

  lemma {:induction false} ThenCleared(m: Message) returns (run: seq<State>)
    ensures Steps(run, 2, false) && Init(run[0])
    ensures run[|run| - 1] == TwoThreads(Destroyer(DUnlock), Receiver(false, RLockDestroy), Held(0), Free, Log([m], [m], []),
                                         false, true, false)
  {
    var go := Choice(Idle, 0, false);
    var one: Log<Message>, r := Log([m], [m], []), Receiver(false, RLockDestroy);
    run := ThenCalled(m);
    run := Move(run, 0, go, 2);
    assert run[|run| - 1] == TwoThreads(Destroyer(DClear), r, Held(0), Free, one, true, true, false);
    run := Move(run, 0, go, 2);
    assert run[|run| - 1] == TwoThreads(Destroyer(DSignal), r, Held(0), Free, one, false, true, false);
    run := Move(run, 0, go, 2);
  }

  lemma {:induction false} ThenCalled(m: Message) returns (run: seq<State>)
    ensures Steps(run, 2, false) && Init(run[0])
    ensures run[|run| - 1] == TwoThreads(Destroyer(DLock), Receiver(false, RLockDestroy), Free, Free, Log([m], [m], []),
                                         true, true, false)
  {
    var one: Log<Message>, r := Log([m], [m], []), Receiver(false, RLockDestroy);
    run := OneSent(m);
    run := Move(run, 1, Choice(r, 0, false), 2);
    assert run[|run| - 1] == TwoThreads(Idle, r, Free, Free, one, true, false, false);
    run := Move(run, 0, Choice(Destroyer(DLock), 0, false), 2);
  }

  /** Without the door closed it can happen: a receiver that was waiting for `destroyMutex` when Destroy began, with a
      message queued, takes it from the freed array. */
  lemma {:induction false} PopAfterFree(m: Message) returns (run: seq<State>)
    ensures Steps(run, 2, false) && Init(run[0])
    ensures var s := run[|run| - 1];
            s.freed && |s.pc| == 2 && TouchesSlots(s.pc[1])
  {
    var one: Log<Message> := Log([m], [m], []);
    var go := Choice(Idle, 0, false);
    var done := Destroyer(DDone);
    run := ThenDestroyed(m);
    run := Move(run, 1, go, 2);
    assert run[|run| - 1] == TwoThreads(done, Receiver(false, RLock), Free, Held(1), one, false, true, true);
    run := Move(run, 1, go, 2);
    assert run[|run| - 1] == TwoThreads(done, Receiver(false, RTest), Held(1), Held(1), one, false, true, true);
    run := Move(run, 1, go, 2);
    assert run[|run| - 1] == TwoThreads(done, Receiver(false, RPop), Held(1), Held(1), one, false, true, true);
  }
}
