/**
 The thread that keeps an MQTT instance connected, its disconnect callbacks, and the threads that publish through it.

 Every call into the library returns what it likes: its code is part of the event that makes the step. A callback can
 come at any time and on any thread; several can be under way at once.
 */
module MqttReconnect {
  import opened MqttStatus

  const STATUS_IDLE := 0
  const STATUS_CONNECTING := 1
  const STATUS_CONNACK_RECVD := 2
  const STATUS_CONNECT_ERROR := 4

  const MQTT_CODE_CONTINUE := -101

  // ----- Calls on an instance -----

  /** OnEventCallback passes a code on unless it is an error and the code before was one as well. */
  predicate Reported(last: int, rc: int) { last < MQTT_ERR_NOMEM || rc < MQTT_ERR_NOMEM }

  /** The codes passed on, of those that come in one after the other. */
  function Reports(last: int, codes: seq<int>): seq<int>
    decreases codes
  {
    if codes == [] then []
    else (if Reported(last, codes[0]) then [codes[0]] else []) + Reports(codes[0], codes[1..])
  }

  /** No two errors are reported in a row, and while the last code is an error the next report is no error. */
  lemma {:induction false} ErrorsReportedOnce(last: int, codes: seq<int>)
    ensures var reports := Reports(last, codes);
            && (forall i | 0 < i < |reports| :: reports[i - 1] < MQTT_ERR_NOMEM || reports[i] < MQTT_ERR_NOMEM)
            && (last >= MQTT_ERR_NOMEM && reports != [] ==> reports[0] < MQTT_ERR_NOMEM)
    decreases codes
  {
    if codes != [] {
      ErrorsReportedOnce(codes[0], codes[1..]);
    }
  }

  /** Every change between success and error is reported. */
  lemma {:induction false} ChangesReported(last: int, codes: seq<int>)
    requires codes != []
    ensures var reports := Reports(last, codes);
            var newest := codes[|codes| - 1];
            newest >= MQTT_ERR_NOMEM <==>
            if reports == [] then last >= MQTT_ERR_NOMEM else reports[|reports| - 1] >= MQTT_ERR_NOMEM
    decreases codes
  {
    if |codes| > 1 {
      ChangesReported(codes[0], codes[1..]);
    } else {
      assert Reports(codes[0], codes[1..]) == [];
    }
  }

  /** A code is passed on exactly when it or the code before it is below 3001, the first error. */
  lemma {:induction false} ReportsExactly(last: int, codes: seq<int>, i: nat)
    requires i < |codes|
    ensures var before := if i == 0 then last else codes[i - 1];
            Reports(last, codes[..i + 1]) ==
            Reports(last, codes[..i]) + if codes[i] < 3001 || before < 3001 then [codes[i]] else []
    decreases i
  {
    if i == 0 {
      assert codes[..1] == [codes[0]] && codes[..1][1..] == [];
    } else {
      var rest := codes[1..];
      ReportsExactly(codes[0], rest, i - 1);
      assert codes[..i + 1][1..] == rest[..i] && codes[..i][1..] == rest[..i - 1];
    }
  }

  class MqttInstance {
    var status: int
    var lastStatus: int
    var connected: bool
    var isDestroying: bool
    /** The codes the application's OnEvent has been called with. */
    var events: seq<int>

    /** LinkMqttInstanceInit. It leaves lastStatus as it comes from malloc. */
    constructor (garbage: int)
      ensures status == STATUS_IDLE && !connected && !isDestroying && lastStatus == garbage && events == []
    {
      status, lastStatus, connected, isDestroying, events := STATUS_IDLE, garbage, false, false, [];
    }

    method OnEventCallback(rc: int)
      modifies `lastStatus, `events
      ensures lastStatus == rc && events == old(events) + Reports(old(lastStatus), [rc])
    {
      assert Reports(rc, [][..]) == [];
      if lastStatus < MQTT_ERR_NOMEM || rc < MQTT_ERR_NOMEM {
        events := events + [rc];
      }
      lastStatus := rc;
    }

    /** `context` says whether the instance has its client context; `net` and `ack` are what MqttClient_NetConnect and
        MqttClient_Connect return. */
    method LinkMqttConnect(context: bool, net: int, ack: int) returns (rc: int)
      modifies this
      ensures isDestroying == old(isDestroying)
      ensures !context ==>
                && rc == MQTT_ERR_NOMEM && connected == old(connected) && status == old(status)
                && lastStatus == old(lastStatus) && events == old(events)
      ensures context ==> rc == ErrorStatusChange(if net != MQTT_CODE_SUCCESS then net else ack)
      ensures context ==> lastStatus == if net == MQTT_CODE_SUCCESS then rc else old(lastStatus)
      ensures rc == MQTT_SUCCESS <==> context && net == MQTT_CODE_SUCCESS && ack == MQTT_CODE_SUCCESS
      ensures if rc == MQTT_SUCCESS then connected && status == STATUS_CONNACK_RECVD
              else connected == old(connected) && status == old(status)
      ensures context ==>
                events == old(events) + Reports(old(lastStatus), if net == MQTT_CODE_SUCCESS then [rc] else [])
    {
      if !context {
        return MQTT_ERR_NOMEM;
      }
      if net != MQTT_CODE_SUCCESS {
        return ErrorStatusChange(net);
      }
      if ack == MQTT_CODE_SUCCESS {
        connected := true;
        status := STATUS_CONNACK_RECVD;
      }
      OnEventCallback(if ack == MQTT_CODE_SUCCESS then MQTT_SUCCESS else ErrorStatusChange(ack));
      return ErrorStatusChange(ack);
    }

    /** The part of a turn of LinkMqttThread before LinkMqttLoop, when nothing else comes in between. */
    method ConnectTurn(context: bool, net: int, ack: int) returns (attempted: bool)
      modifies this
      ensures isDestroying == old(isDestroying)
      ensures attempted <==> !old(connected) && old(status) != STATUS_CONNECTING
      ensures !attempted ==> connected == old(connected) && status == old(status) && events == old(events)
      ensures attempted ==>
                && (connected <==> context && net == MQTT_CODE_SUCCESS && ack == MQTT_CODE_SUCCESS)
                && status == (if connected then STATUS_CONNACK_RECVD else STATUS_CONNECT_ERROR)
                && events == old(events) +
                     Reports(old(lastStatus), [if connected then MQTT_SUCCESS
                                               else if !context then MQTT_ERR_NOMEM
                                               else ErrorStatusChange(if net != MQTT_CODE_SUCCESS then net else ack)])
    {
      attempted := !connected && status != STATUS_CONNECTING;
      if attempted {
        status := STATUS_CONNECTING;
        var rc := ErrorStatusChange(0);  // ClientOptSet
        if rc == MQTT_SUCCESS {
          rc := LinkMqttConnect(context, net, ack);
        }
        if rc != MQTT_SUCCESS {
          OnEventCallback(rc);
          status := STATUS_CONNECT_ERROR;
        }
      }
    }

    /** The callback, when nothing else comes in between. A timeout is no disconnection. */
    method OnDisconnectCallback(code: int)
      modifies this
      ensures isDestroying == old(isDestroying)
      ensures if code == MQTT_CODE_ERROR_TIMEOUT then
                connected == old(connected) && status == old(status) && events == old(events)
              else
                && !connected && (status == STATUS_IDLE <==> code == MQTT_CODE_SUCCESS)
                && (status == STATUS_CONNECT_ERROR <==> code != MQTT_CODE_SUCCESS)
                && events == old(events) + Reports(old(lastStatus), [ErrorStatusChange(code)])
    {
      if code == MQTT_CODE_ERROR_TIMEOUT {
        return;
      }
      OnEventCallback(if code == MQTT_CODE_SUCCESS then MQTT_SUCCESS else ErrorStatusChange(code));
      connected := false;
      if code == MQTT_CODE_SUCCESS {
        status := STATUS_IDLE;
      } else {
        status := STATUS_CONNECT_ERROR;
      }
    }
  }

  // ----- Steps -----

  /** The next statement of LinkMqttThread and of the routines it calls. */
  datatype Pc =
    | Init
    | Head            // reads `connected`
    | ReadStatus      // ... and then `status`
    | ElseStatus      // reads `status` in the else branch
    | SetConnecting
    | OptSet
    | NetConnect
    | Connect
    | SetConnected
    | SetConnack
    | Test(rc: int)
    | SetError
    | Lock            // LinkMqttLoop
    | Wait
    | Ping
    | Unlock
    | Again           // reads `isDestroying`
    | Leave
    | Done

  datatype Owner = Nobody | Thread | Other

  datatype CallbackPc = Disconnect | Clear | SetStatus

  datatype Callback = Callback(code: int, pc: CallbackPc)

  datatype State = State(
    pc: Pc, status: int, connected: bool, destroying: bool, callbacks: seq<Callback>, listMutex: Owner,
    begun: nat,      // turns of the loop that began unconnected
    attempts: nat,   // calls of MqttClient_NetConnect
    naps: nat,       // sleeps in the branch for STATUS_CONNECTING
    jammed: bool)    // LinkMqttLoop has returned without unlocking

  datatype Event =
    | Own(code: int, due: bool)  // the thread; what its library call returns, and whether a ping is due
    | Begin(code: int)           // a disconnect callback begins
    | Callback(k: nat)           // a callback goes on
    | OtherLock | OtherUnlock    // publish, subscribe or unsubscribe
    | Destroy                    // LinkMqttDestroy

  function Start(): State {
    State(Init, STATUS_IDLE, false, false, [], Nobody, 0, 0, 0, false)
  }

  predicate Enabled(s: State, e: Event) {
    match e
    case Own(_, _) => !s.pc.Done? && (s.pc.Lock? ==> s.listMutex == Nobody)
    case Begin(_) => true
    case Callback(k) => k < |s.callbacks|
    case OtherLock => s.listMutex == Nobody
    case OtherUnlock => s.listMutex == Other
    case Destroy => true
  }

  function ThreadStep(s: State, code: int, due: bool): State {
    match s.pc
    case Init => s.(pc := if ErrorStatusChange(code) == MQTT_SUCCESS then Head else Done)
    case Head => if !s.connected then s.(pc := ReadStatus, begun := s.begun + 1) else s.(pc := ElseStatus)
    case ReadStatus => s.(pc := if s.status != STATUS_CONNECTING then SetConnecting else ElseStatus)
    case ElseStatus => s.(pc := Lock, naps := if s.status == STATUS_CONNECTING then s.naps + 1 else s.naps)
    case SetConnecting => s.(pc := OptSet, status := STATUS_CONNECTING)
    case OptSet => s.(pc := if ErrorStatusChange(0) == MQTT_SUCCESS then NetConnect else Test(ErrorStatusChange(0)))
    case NetConnect =>
      s.(pc := if code != MQTT_CODE_SUCCESS then Test(ErrorStatusChange(code)) else Connect, attempts := s.attempts + 1)
    case Connect => s.(pc := if code != MQTT_CODE_SUCCESS then Test(ErrorStatusChange(code)) else SetConnected)
    case SetConnected => s.(pc := SetConnack, connected := true)
    case SetConnack => s.(pc := Test(MQTT_SUCCESS), status := STATUS_CONNACK_RECVD)
    case Test(rc) => s.(pc := if rc != MQTT_SUCCESS then SetError else Lock)
    case SetError => s.(pc := Lock, status := STATUS_CONNECT_ERROR)
    case Lock => s.(pc := Wait, listMutex := Thread)
    case Wait => s.(pc := if code == MQTT_CODE_ERROR_TIMEOUT && due then Ping else Unlock)
    case Ping => if code == MQTT_CODE_CONTINUE then s.(pc := Again, jammed := true) else s.(pc := Unlock)
    case Unlock => s.(pc := Again, listMutex := Nobody)
    case Again => s.(pc := if s.destroying then Leave else Head)
    case Leave => s.(pc := Done, connected := false)
    case Done => s
  }

  function CallbackStep(s: State, k: nat): State
    requires k < |s.callbacks|
  {
    var c := s.callbacks[k];
    match c.pc
    case Disconnect => s.(connected := false, callbacks := s.callbacks[k := c.(pc := Clear)])
    case Clear => s.(connected := false, callbacks := s.callbacks[k := c.(pc := SetStatus)])
    case SetStatus =>
      s.(status := if c.code == MQTT_CODE_SUCCESS then STATUS_IDLE else STATUS_CONNECT_ERROR,
         callbacks := s.callbacks[..k] + s.callbacks[k + 1..])
  }

  function Next(s: State, e: Event): State
    requires Enabled(s, e)
  {
    match e
    case Own(code, due) => ThreadStep(s, code, due)
    case Begin(code) =>
      if code == MQTT_CODE_ERROR_TIMEOUT then s
      else s.(callbacks := s.callbacks + [Callback.Callback(code, Disconnect)])
    case Callback(k) => CallbackStep(s, k)
    case OtherLock => s.(listMutex := Other)
    case OtherUnlock => s.(listMutex := Nobody)
    case Destroy => s.(destroying := true)
  }

  predicate CanRun(s: State, events: seq<Event>)
    decreases events
  {
    events == [] || (Enabled(s, events[0]) && CanRun(Next(s, events[0]), events[1..]))
  }

  function Run(s: State, events: seq<Event>): State
    requires CanRun(s, events)
    decreases events
  {
    if events == [] then s else Run(Next(s, events[0]), events[1..])
  }

  // ----- The invariant -----

  /** Between setting STATUS_CONNECTING and the end of the attempt. */
  predicate Attempting(pc: Pc) {
    pc.OptSet? || pc.NetConnect? || pc.Connect? || pc.SetConnected? || pc.SetConnack? || pc.SetError?
    || (pc.Test? && pc.rc != MQTT_SUCCESS)
  }

  predicate AttemptDue(pc: Pc) { pc.ReadStatus? || pc.SetConnecting? || pc.OptSet? || pc.NetConnect? }

  predicate InLoopCall(pc: Pc) { pc.Wait? || pc.Ping? || pc.Unlock? }

  predicate StatusInv(s: State) {
    && (s.status == STATUS_CONNECTING ==> Attempting(s.pc))
    && (s.pc.Init? || s.pc.Done? ==> !s.connected)
  }

  predicate CountInv(s: State) {
    s.begun == s.attempts + (if AttemptDue(s.pc) then 1 else 0) && s.naps == 0
  }

  predicate MutexInv(s: State) {
    (s.listMutex == Thread <==> s.jammed || InLoopCall(s.pc)) && (s.jammed ==> !InLoopCall(s.pc))
  }

  predicate Inv(s: State) { StatusInv(s) && CountInv(s) && MutexInv(s) }

  lemma {:induction false} InvKept(s: State, e: Event)
    requires Inv(s) && Enabled(s, e)
    ensures Inv(Next(s, e))
  {
    match e
    case Own(code, due) => OwnKept(s, code, due);
    case Callback(k) => assert Next(s, e) == CallbackStep(s, k);
    case _ =>
  }

  lemma {:induction false} OwnKept(s: State, code: int, due: bool)
    requires Inv(s) && Enabled(s, Own(code, due))
    ensures Inv(ThreadStep(s, code, due))
  {
    OwnStatusKept(s, code, due);
    OwnCountKept(s, code, due);
    OwnMutexKept(s, code, due);
    hide ThreadStep, StatusInv, CountInv, MutexInv;
  }

  lemma SuccessOnly(code: int)
    ensures ErrorStatusChange(code) == MQTT_SUCCESS <==> code == MQTT_CODE_SUCCESS
  {
  }

  lemma {:induction false} OwnStatusKept(s: State, code: int, due: bool)
    requires StatusInv(s)
    ensures StatusInv(ThreadStep(s, code, due))
  {
    if Attempting(s.pc) || s.pc.SetConnecting? {
      AttemptStatusKept(s, code, due);
    } else {
      hide Attempting, ErrorStatusChange;
      OtherStatusKept(s, code, due);
    }
  }

  lemma {:induction false} AttemptStatusKept(s: State, code: int, due: bool)
    requires Attempting(s.pc) || s.pc.SetConnecting?
    ensures StatusInv(ThreadStep(s, code, due))
  {
  }

  lemma {:induction false} OtherStatusKept(s: State, code: int, due: bool)
    requires StatusInv(s) && !Attempting(s.pc) && !s.pc.SetConnecting?
    ensures StatusInv(ThreadStep(s, code, due))
  {
    hide ErrorStatusChange;
  }

  lemma {:induction false} OwnCountKept(s: State, code: int, due: bool)
    requires StatusInv(s) && CountInv(s)
    ensures CountInv(ThreadStep(s, code, due))
  {
    if s.pc.Head? || s.pc.ElseStatus? || AttemptDue(s.pc) {
      AttemptCountKept(s, code, due);
    } else {
      OtherCountKept(s, code, due);
    }
    hide *;
  }

  lemma {:induction false} AttemptCountKept(s: State, code: int, due: bool)
    requires StatusInv(s) && CountInv(s) && (s.pc.Head? || s.pc.ElseStatus? || AttemptDue(s.pc))
    ensures CountInv(ThreadStep(s, code, due))
  {
    SuccessOnly(0);
    hide ErrorStatusChange;
  }

  lemma {:induction false} OtherCountKept(s: State, code: int, due: bool)
    requires CountInv(s) && !s.pc.Head? && !s.pc.ElseStatus? && !AttemptDue(s.pc)
    ensures CountInv(ThreadStep(s, code, due))
  {
    hide ErrorStatusChange;
  }

  lemma {:induction false} OwnMutexKept(s: State, code: int, due: bool)
    requires MutexInv(s) && Enabled(s, Own(code, due))
    ensures MutexInv(ThreadStep(s, code, due))
  {
    hide ErrorStatusChange;
    SuccessOnly(0);
  }

  /** The invariant holds after any events whatever, in any order. */
  lemma {:induction false} RunInv(s: State, events: seq<Event>)
    requires Inv(s) && CanRun(s, events)
    ensures Inv(Run(s, events))
    decreases events
  {
    if events != [] {
      InvKept(s, events[0]);
      RunInv(Next(s, events[0]), events[1..]);
    }
  }

  /**
   Reconnection is never passed over: at the head of the loop the status is never STATUS_CONNECTING, so no turn sleeps
   instead of connecting, and as many attempts have been made as turns began unconnected. When the thread is done the
   instance is not connected.
   */
  lemma {:induction false} NeverConnectingAtHead(events: seq<Event>)
    requires CanRun(Start(), events)
    ensures var s := Run(Start(), events);
            && s.naps == 0 && (s.pc.Done? ==> !s.connected)
            && (s.pc.Head? ==> s.status != STATUS_CONNECTING && s.attempts == s.begun)
  {
    RunInv(Start(), events);
  }

  lemma {:induction false} CountsGrow(s: State, events: seq<Event>)
    requires CanRun(s, events)
    ensures Run(s, events).begun >= s.begun && Run(s, events).attempts >= s.attempts
    decreases events
  {
    if events != [] {
      CountsGrow(Next(s, events[0]), events[1..]);
    }
  }

  lemma {:induction false} RunSplits(s: State, a: seq<Event>, b: seq<Event>)
    requires CanRun(s, a + b)
    ensures CanRun(s, a) && CanRun(Run(s, a), b) && Run(s, a + b) == Run(Run(s, a), b)
    decreases a
  {
    if a == [] {
      assert a + b == b;
    } else {
      assert (a + b)[1..] == a[1..] + b;
      RunSplits(Next(s, a[0]), a[1..], b);
    }
  }

  /** A turn that begins unconnected attempts a connection before the next turn begins, or before the thread leaves,
      whatever callbacks come in between. */
  lemma {:induction false} UnconnectedTurnConnects(before: seq<Event>, step: Event, after: seq<Event>)
    requires CanRun(Start(), before + [step] + after)
    requires CanRun(Start(), before) && Run(Start(), before).pc.Head? && !Run(Start(), before).connected && step.Own?
    ensures var end := Run(Start(), before + [step] + after);
            end.pc.Head? || end.pc.Leave? || end.pc.Done? ==> end.attempts > Run(Start(), before).attempts
  {
    var s := Run(Start(), before);
    RunSplits(Start(), before + [step], after);
    RunSplits(Start(), before, [step]);
    RunInv(Start(), before);
    RunInv(Start(), before + [step] + after);
    var s' := Run(Start(), before + [step]);
    assert s' == Next(s, step) by {
      assert [step][1..] == [];
      assert Run(s, [step]) == Run(Next(s, step), []);
    }
    CountsGrow(s', after);
  }

  // ----- Who connects and who disconnects -----

  /** The event is the statement that sets `connected`, after both library calls have succeeded. */
  predicate Connects(s: State, e: Event) { e.Own? && s.pc.SetConnected? }

  /** The event is one of the statements that clear it: the two of a disconnect callback, and the last of the thread. */
  predicate Disconnects(s: State, e: Event) {
    (e.Own? && s.pc.Leave?) || (e.Callback? && e.k < |s.callbacks| && !s.callbacks[e.k].pc.SetStatus?)
  }

  /** Whether the last of these statements has set `connected`; `first` if there is none. */
  predicate LastConnects(s: State, events: seq<Event>, first: bool)
    requires CanRun(s, events)
    decreases events
  {
    if events == [] then first
    else
      var e := events[0];
      LastConnects(Next(s, e), events[1..], Connects(s, e) || (first && !Disconnects(s, e)))
  }

  /** Over every run the instance is connected exactly when the last statement that writes `connected` has set it. */
  lemma {:induction false} ConnectedExactly(s: State, events: seq<Event>)
    requires CanRun(s, events)
    ensures Run(s, events).connected <==> LastConnects(s, events, s.connected)
    decreases events
  {
    if events != [] {
      ConnectedStep(s, events[0]);
      ConnectedExactly(Next(s, events[0]), events[1..]);
      hide Next, Enabled, Connects, Disconnects;
    }
  }

  lemma {:induction false} ConnectedStep(s: State, e: Event)
    requires Enabled(s, e)
    ensures Next(s, e).connected <==> Connects(s, e) || (s.connected && !Disconnects(s, e))
  {
  }

  /** How many of the two library calls of an attempt have succeeded, if the thread is just behind them. */
  function Succeeded(s: State, events: seq<Event>, n: nat): nat
    requires CanRun(s, events)
    decreases events
  {
    if events == [] then n
    else
      var e := events[0];
      var n' := if !e.Own? then n
                else if s.pc.NetConnect? && e.code == 0 then 1
                else if s.pc.Connect? && n == 1 && e.code == 0 then 2
                else 0;
      Succeeded(Next(s, e), events[1..], n')
  }

  /** Over every run the thread comes to set `connected` exactly behind a connection and an acknowledgement that have both
      succeeded. */
  lemma {:induction false} ConnectsAfterBoth(s: State, events: seq<Event>, n: nat)
    requires CanRun(s, events) && (s.pc.Connect? <==> n == 1) && (s.pc.SetConnected? <==> n == 2)
    ensures var end, m := Run(s, events), Succeeded(s, events, n);
            (end.pc.Connect? <==> m == 1) && (end.pc.SetConnected? <==> m == 2)
    decreases events
  {
    if events != [] {
      var e := events[0];
      var n' := if !e.Own? then n
                else if s.pc.NetConnect? && e.code == 0 then 1
                else if s.pc.Connect? && n == 1 && e.code == 0 then 2
                else 0;
      AttemptStep(s, e);
      hide Next, Enabled;
      ConnectsAfterBoth(Next(s, e), events[1..], n');
    }
  }

  lemma {:induction false} AttemptStep(s: State, e: Event)
    requires Enabled(s, e)
    ensures var s' := Next(s, e);
            && (!e.Own? ==> s'.pc == s.pc)
            && (e.Own? ==>
                  && (s'.pc.Connect? <==> s.pc.NetConnect? && e.code == 0)
                  && (s'.pc.SetConnected? <==> s.pc.Connect? && e.code == 0)
                  && (s'.pc.Ping? <==> s.pc.Wait? && e.code == -7 && e.due))
  {
    hide ErrorStatusChange;
  }

  predicate NeverConnects(s: State, events: seq<Event>)
    requires CanRun(s, events)
    decreases events
  {
    events == [] || (!Connects(s, events[0]) && NeverConnects(Next(s, events[0]), events[1..]))
  }

  lemma {:induction false} StaysDisconnected(s: State, events: seq<Event>)
    requires CanRun(s, events) && !s.connected && NeverConnects(s, events)
    ensures !Run(s, events).connected
    decreases events
  {
    if events != [] {
      ConnectedStep(s, events[0]);
      StaysDisconnected(Next(s, events[0]), events[1..]);
    }
  }

  /**
   A lost connection is made again: after a clearing statement of a disconnect callback, and no setting one since, the next
   turn that begins attempts a connection, before another turn begins and before the thread leaves.
   */
  lemma {:induction false} LostConnectionRemade(
      before: seq<Event>, clear: Event, between: seq<Event>, step: Event, after: seq<Event>)
    requires CanRun(Start(), before + [clear] + between + [step] + after)
    requires CanRun(Start(), before) && clear.Callback? && Disconnects(Run(Start(), before), clear) && step.Own?
    requires CanRun(Start(), before + [clear]) && CanRun(Run(Start(), before + [clear]), between)
    requires NeverConnects(Run(Start(), before + [clear]), between)
    requires CanRun(Start(), before + [clear] + between) && Run(Start(), before + [clear] + between).pc.Head?
    ensures var end := Run(Start(), before + [clear] + between + [step] + after);
            end.pc.Head? || end.pc.Leave? || end.pc.Done? ==>
              end.attempts > Run(Start(), before + [clear] + between).attempts
  {
    hide *;
    var s := Run(Start(), before);
    RunSplits(Start(), before, [clear]);
    RunOne(s, clear);
    ConnectedStep(s, clear);
    OnlyOneOf(s, clear);
    StaysDisconnected(Run(Start(), before + [clear]), between);
    RunSplits(Start(), before + [clear], between);
    UnconnectedTurnConnects(before + [clear] + between, step, after);
  }

  lemma OnlyOneOf(s: State, e: Event)
    ensures !(Connects(s, e) && e.Callback?)
  {
  }

  lemma {:induction false} RunOne(s: State, e: Event)
    requires CanRun(s, [e])
    ensures Enabled(s, e) && Run(s, [e]) == Next(s, e)
  {
    assert [e][1..] == [];
    assert Run(Next(s, e), []) == Next(s, e);
  }

  /** The status behind a statement: 1 while connecting, 2 when connected, 4 after an error; a
      callback that ends writes 0 exactly for success, and 4 otherwise. */
  function StatusAfter(s: State, e: Event): int {
    match e
    case Own(_, _) =>
      if s.pc.SetConnecting? then 1 else if s.pc.SetConnack? then 2 else if s.pc.SetError? then 4 else s.status
    case Callback(k) =>
      if k < |s.callbacks| && s.callbacks[k].pc.SetStatus? then (if s.callbacks[k].code == 0 then 0 else 4) else s.status
    case _ => s.status
  }

  lemma {:induction false} StatusExactly(s: State, e: Event)
    requires Enabled(s, e)
    ensures Next(s, e).status == StatusAfter(s, e)
  {
    hide ErrorStatusChange;
    match e
    case Own(code, due) => assert ThreadStep(s, code, due).status == StatusAfter(s, e);
    case Callback(k) => assert CallbackStep(s, k).status == StatusAfter(s, e);
    case _ =>
  }

  /** Disconnect callbacks that have begun, timeouts apart. */
  function Begun(events: seq<Event>): nat {
    if events == [] then 0 else (if events[0].Begin? && events[0].code != -7 then 1 else 0) + Begun(events[1..])
  }

  /** Clearing statements, and final ones, that callbacks have made. */
  function Cleared(s: State, events: seq<Event>): nat
    requires CanRun(s, events)
    decreases events
  {
    if events == [] then 0
    else
      (if events[0].Callback? && Disconnects(s, events[0]) then 1 else 0) + Cleared(Next(s, events[0]), events[1..])
  }

  function Finished(s: State, events: seq<Event>): nat
    requires CanRun(s, events)
    decreases events
  {
    if events == [] then 0
    else
      (if events[0].Callback? && !Disconnects(s, events[0]) then 1 else 0) + Finished(Next(s, events[0]), events[1..])
  }

  /** The clearing statements that callbacks under way have made. */
  function Progress(callbacks: seq<Callback>): nat {
    if callbacks == [] then 0
    else
      (match callbacks[0].pc
       case Disconnect => 0
       case Clear => 1
       case SetStatus => 2) + Progress(callbacks[1..])
  }

  lemma {:induction false} ProgressSplits(a: seq<Callback>, b: seq<Callback>)
    ensures Progress(a + b) == Progress(a) + Progress(b)
  {
    if a == [] {
      assert a + b == b;
    } else {
      assert (a + b)[1..] == a[1..] + b;
      ProgressSplits(a[1..], b);
    }
  }

  lemma {:induction false} ProgressAt(callbacks: seq<Callback>, k: nat)
    requires k < |callbacks|
    ensures Progress(callbacks) == Progress(callbacks[..k]) + Progress([callbacks[k]]) + Progress(callbacks[k + 1..])
    ensures Progress(callbacks[..k] + callbacks[k + 1..]) == Progress(callbacks[..k]) + Progress(callbacks[k + 1..])
  {
    assert callbacks == callbacks[..k] + ([callbacks[k]] + callbacks[k + 1..]);
    ProgressSplits(callbacks[..k], [callbacks[k]] + callbacks[k + 1..]);
    ProgressSplits([callbacks[k]], callbacks[k + 1..]);
    ProgressSplits(callbacks[..k], callbacks[k + 1..]);
  }

  lemma {:induction false} CallbackAccounts(s: State, e: Event)
    requires Enabled(s, e)
    ensures var s', clears := Next(s, e), e.Callback? && Disconnects(s, e);
            var begins, ends := e.Begin? && e.code != -7, e.Callback? && !Disconnects(s, e);
            && |s'.callbacks| == |s.callbacks| + (if begins then 1 else 0) - (if ends then 1 else 0)
            && Progress(s'.callbacks) == Progress(s.callbacks) + (if clears then 1 else 0) - (if ends then 2 else 0)
  {
    match e
    case Begin(code) =>
      ProgressSplits(s.callbacks, [Callback.Callback(code, Disconnect)]);
      assert Progress([Callback.Callback(code, Disconnect)][1..]) == 0;
    case Callback(k) => CallbackMoves(s, k);
    case _ =>
  }

  lemma {:induction false} CallbackMoves(s: State, k: nat)
    requires k < |s.callbacks|
    ensures var s', ends := CallbackStep(s, k), s.callbacks[k].pc.SetStatus?;
            && |s'.callbacks| == |s.callbacks| - (if ends then 1 else 0)
            && Progress(s'.callbacks) == Progress(s.callbacks) + if ends then -2 else 1
  {
    var c, s' := s.callbacks[k], CallbackStep(s, k);
    ProgressAt(s.callbacks, k);
    assert [c][1..] == [];
    if !c.pc.SetStatus? {
      ProgressAt(s'.callbacks, k);
      assert s'.callbacks[..k] == s.callbacks[..k] && s'.callbacks[k + 1..] == s.callbacks[k + 1..];
      assert [s'.callbacks[k]][1..] == [];
    }
  }

  /** Every callback for a disconnection clears `connected` twice before it ends, and nothing else of it does: over every run
      those begun are those ended and those under way, and twice the ended ones and what the others have done so far are all
      the clearing statements. */
  lemma {:induction false} CallbacksRunThrough(s: State, events: seq<Event>)
    requires CanRun(s, events)
    ensures var end := Run(s, events);
            && |s.callbacks| + Begun(events) == Finished(s, events) + |end.callbacks|
            && Progress(s.callbacks) + Cleared(s, events) == 2 * Finished(s, events) + Progress(end.callbacks)
    decreases events
  {
    if events != [] {
      CallbackAccounts(s, events[0]);
      CallbacksRunThrough(Next(s, events[0]), events[1..]);
      hide Next, Enabled, Progress, Disconnects;
    }
  }

  // ----- When the thread is held up -----

  /** The thread itself is held up only at its mutex: while another thread has it, or for ever, once a ping has returned
      MQTT_CODE_CONTINUE, because LinkMqttLoop then returns with the mutex locked. */
  lemma {:induction false} HeldUpExactly(events: seq<Event>, code: int, due: bool)
    requires CanRun(Start(), events)
    ensures var s := Run(Start(), events);
            !Enabled(s, Own(code, due)) <==> s.pc.Done? || (s.pc.Lock? && (s.jammed || s.listMutex == Other))
  {
    RunInv(Start(), events);
  }

  /** From then on the loop makes one more attempt at most, and once at the mutex it stays there: it does not even leave
      when the instance is destroyed. */
  lemma {:induction false} JammedForEver(s: State, events: seq<Event>)
    requires Inv(s) && s.jammed && CanRun(s, events)
    ensures var end := Run(s, events);
            && end.jammed && (s.pc.Lock? ==> end.pc == Lock)
            && end.attempts <= s.attempts + (if Later(s.pc) then 1 else 0)
    decreases events
  {
    if events != [] {
      InvKept(s, events[0]);
      JammedForEver(Next(s, events[0]), events[1..]);
    }
  }

  /** An attempt can still come before the next lock. */
  predicate Later(pc: Pc) { pc.Init? || pc.Again? || pc.Head? || AttemptDue(pc) }

  lemma {:induction false} FlagExactly(s: State, events: seq<Event>)
    requires Inv(s) && !s.jammed && CanRun(s, events)
    ensures Run(s, events).jammed <==> PingContinues(s, events)
    decreases events
  {
    if events != [] {
      InvKept(s, events[0]);
      if Next(s, events[0]).jammed {
        JammedForEver(Next(s, events[0]), events[1..]);
      } else {
        FlagExactly(Next(s, events[0]), events[1..]);
      }
    }
  }

  /** The thread has listMutex outside LinkMqttLoop exactly when one of its pings has returned MQTT_CODE_CONTINUE; and then
      it has it for good. */
  lemma {:induction false} JamsExactly(events: seq<Event>)
    requires CanRun(Start(), events)
    ensures var s := Run(Start(), events);
            s.listMutex == Thread && !InLoopCall(s.pc) <==> PingContinues(Start(), events)
  {
    RunInv(Start(), events);
    FlagExactly(Start(), events);
  }

  /** Once that has happened nobody ever gets the mutex again: no publisher, and not the thread itself. */
  lemma {:induction false} MutexLost(before: seq<Event>, after: seq<Event>)
    requires CanRun(Start(), before + after) && CanRun(Start(), before) && PingContinues(Start(), before)
    ensures var s := Run(Start(), before + after);
            s.listMutex == Thread && !InLoopCall(s.pc) && !Enabled(s, OtherLock)
  {
    RunSplits(Start(), before, after);
    RunInv(Start(), before);
    RunInv(Start(), before + after);
    FlagExactly(Start(), before);
    JammedForEver(Run(Start(), before), after);
  }

  lemma {:induction false} OneMore(s: State, events: seq<Event>, e: Event)
    requires CanRun(s, events) && Enabled(Run(s, events), e)
    ensures CanRun(s, events + [e]) && Run(s, events + [e]) == Next(Run(s, events), e)
    decreases events
  {
    hide Next, Enabled;
    if events == [] {
      assert [e][1..] == [] && [] + [e] == [e];
      assert Run(s, [e]) == Run(Next(s, e), []);
    } else {
      assert (events + [e])[1..] == events[1..] + [e];
      OneMore(Next(s, events[0]), events[1..], e);
    }
  }

  lemma {:induction false} Connected() returns (events: seq<Event>)
    ensures CanRun(Start(), events)
    ensures Run(Start(), events) == State(Lock, STATUS_CONNACK_RECVD, true, false, [], Nobody, 1, 1, 0, false)
  {
    var ok := Own(MQTT_CODE_SUCCESS, false);
    events := [];
    var s := Start();
    while s.pc != Lock
      invariant CanRun(Start(), events) && s == Run(Start(), events)
      invariant s == Start() || s == Start().(pc := Head)
                || (s.begun == 1 && !s.destroying && s.callbacks == [] && s.listMutex == Nobody && s.naps == 0 && !s.jammed
                    && match s.pc
                       case ReadStatus => s.status == STATUS_IDLE && !s.connected && s.attempts == 0
                       case SetConnecting => s.status == STATUS_IDLE && !s.connected && s.attempts == 0
                       case OptSet => !s.connected && s.attempts == 0
                       case NetConnect => !s.connected && s.attempts == 0
                       case Connect => !s.connected && s.attempts == 1
                       case SetConnected => s.attempts == 1
                       case SetConnack => s.connected && s.attempts == 1
                       case Test(rc) =>
                         rc == MQTT_SUCCESS && s.connected && s.attempts == 1 && s.status == STATUS_CONNACK_RECVD
                       case Lock => s.connected && s.attempts == 1 && s.status == STATUS_CONNACK_RECVD
                       case _ => false)
      decreases Distance(s.pc)
    {
      OneMore(Start(), events, ok);
      events, s := events + [ok], Next(s, ok);
    }
  }

  /** Steps to the mutex when everything succeeds. */
  function Distance(pc: Pc): nat {
    match pc
    case Init => 10
    case Head => 9
    case ReadStatus => 8
    case SetConnecting => 7
    case OptSet => 6
    case NetConnect => 5
    case Connect => 4
    case SetConnected => 3
    case SetConnack => 2
    case Test(_) => 1
    case _ => 0
  }

  /** A run into it: the connection is made, the first wait times out with a ping due, and the ping wants to continue. */
  lemma {:induction false} Jams() returns (events: seq<Event>)
    ensures CanRun(Start(), events) && PingContinues(Start(), events)
    ensures Run(Start(), events).pc == Again && Run(Start(), events).connected && Run(Start(), events).listMutex == Thread
  {
    events := Connected();
    OneMore(Start(), events, Own(0, false));
    events := events + [Own(0, false)];
    OneMore(Start(), events, Own(MQTT_CODE_ERROR_TIMEOUT, true));
    events := events + [Own(MQTT_CODE_ERROR_TIMEOUT, true)];
    assert Run(Start(), events).pc == Ping;
    OneMore(Start(), events, Own(MQTT_CODE_CONTINUE, false));
    events := events + [Own(MQTT_CODE_CONTINUE, false)];
    JamsExactly(events);
  }

  predicate PingContinues(s: State, events: seq<Event>)
    requires CanRun(s, events)
    decreases events
  {
    events != []
    && ((s.pc.Ping? && events[0].Own? && events[0].code == MQTT_CODE_CONTINUE)
        || PingContinues(Next(s, events[0]), events[1..]))
  }

  // ----- The end -----

  /** How many steps the thread has left at most once the instance is being destroyed. */
  function Rank(pc: Pc): nat {
    match pc
    case Init => 18
    case Head => 17
    case ReadStatus => 16
    case SetConnecting => 14
    case OptSet => 13
    case NetConnect => 12
    case Connect => 11
    case SetConnected => 10
    case SetConnack => 9
    case Test(_) => 8
    case ElseStatus => 7
    case SetError => 7
    case Lock => 6
    case Wait => 5
    case Ping => 4
    case Unlock => 3
    case Again => 2
    case Leave => 1
    case Done => 0
  }

  function OwnSteps(events: seq<Event>): nat {
    if events == [] then 0 else (if events[0].Own? then 1 else 0) + OwnSteps(events[1..])
  }

  /** Once LinkMqttDestroy has been called the thread is done after a bounded number of its steps, if it is not held up. */
  lemma {:induction false} DestroyEnds(s: State, events: seq<Event>)
    requires s.destroying && CanRun(s, events)
    ensures OwnSteps(events) + Rank(Run(s, events).pc) <= Rank(s.pc)
    ensures OwnSteps(events) >= Rank(s.pc) ==> Run(s, events).pc == Done
    decreases events
  {
    if events != [] {
      RankStep(s, events[0]);
      DestroyEnds(Next(s, events[0]), events[1..]);
      hide Rank, Next, Enabled;
    }
  }

  lemma {:induction false} RankStep(s: State, e: Event)
    requires s.destroying && Enabled(s, e)
    ensures var s' := Next(s, e);
            s'.destroying && (if e.Own? then Rank(s'.pc) < Rank(s.pc) else s'.pc == s.pc)
  {
    match e
    case Own(code, due) => OwnRank(s, code, due);
    case Callback(k) => assert Next(s, e) == CallbackStep(s, k);
    case _ =>
  }

  lemma {:induction false} OwnRank(s: State, code: int, due: bool)
    requires s.destroying && !s.pc.Done?
    ensures Rank(ThreadStep(s, code, due).pc) < Rank(s.pc) && ThreadStep(s, code, due).destroying
  {
  }
}
