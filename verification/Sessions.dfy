/**
 The session table that routes incoming messages to one queue per session.

 A session is identified by its slot number; an MQTT instance is a pointer, 0 being NULL.
 */
module Sessions {
  import opened Bytes
  import opened MessageQueue
  import opened MqttStatus

  const MAX_SESSION_ID := 10
  const MESSAGE_QUEUE_MAX := 32

  type Instance = nat

  // ----- What the table means -----

  datatype Slot = Unused | Used(instance: Instance, log: Log<Message>)

  type Table = seq<Slot>

  datatype Event =
    | Init(instance: Instance, memory: bool, code: int) // LinkInitIOCtrl: whether there is memory for the queue, and what
                                                        // the subscription returns
    | Incoming(instance: Instance, data: seq<Byte>)     // OnIOCtrlMessage
    | Recv(session: int)                                // LinkRecvIOCtrl
    | Dinit(session: int)                               // LinkDinitIOCtrl

  /** The returned int, or for a successful receive the data handed over. `Outside` is no answer: for a negative session
      the source reads before its table. */
  datatype Answer = NoAnswer | Code(code: int) | Data(data: seq<Byte>) | Outside

  /** The first slot not in use, or the size of the table. */
  function FirstFree(table: Table): (k: nat)
    ensures k <= |table| && (k < |table| ==> table[k].Unused?)
    ensures forall j | 0 <= j < k :: table[j].Used?
  {
    if table == [] || table[0].Unused? then 0 else 1 + FirstFree(table[1..])
  }

  /** The first slot in use by the instance, or the size of the table. */
  function FirstOf(table: Table, instance: Instance): (k: nat)
    ensures k <= |table| && (k < |table| ==> table[k].Used? && table[k].instance == instance)
    ensures forall j | 0 <= j < k :: table[j].Used? ==> table[j].instance != instance
  {
    if table == [] || (table[0].Used? && table[0].instance == instance) then 0 else 1 + FirstOf(table[1..], instance)
  }

  function Update(slot: Slot, call: Call<Message>): Slot
    requires slot.Used?
  {
    slot.(log := Step(slot.log, call, MESSAGE_QUEUE_MAX))
  }

  /** The table after an event, and what the call returns. */
  function After(table: Table, e: Event): (r: (Table, Answer))
    ensures |r.0| == |table|
  {
    match e
    case Init(instance, memory, code) =>
      var k := FirstFree(table);
      if k == |table| || instance == 0 then (table, Code(MQTT_ERR_INVAL))
      else if !memory then (table, Code(MQTT_ERR_NOMEM))
      else
        (table[k := Used(instance, Log([], [], []))],
         Code(if ErrorStatusChange(code) != MQTT_SUCCESS then ErrorStatusChange(code) else k))
    case Incoming(instance, data) =>
      var k := FirstOf(table, instance);
      if k == |table| then (table, NoAnswer)
      else (table[k := Update(table[k], Send(Message(k, data)))], NoAnswer)
    case Recv(k) =>
      if k < 0 then (table, Outside)
      else if k >= |table| || table[k].Unused? then (table, Code(MQTT_ERR_INVAL))
      else if table[k].log.queue == [] then (table, Code(MQTT_RETRY))
      else (table[k := Update(table[k], Receive)], Data(table[k].log.queue[0].data))
    case Dinit(k) =>
      if k < 0 then (table, Outside)
      else if k >= |table| || table[k].Unused? then (table, NoAnswer) else (table[k := Unused], NoAnswer)
  }

  // ----- What every event keeps -----

  /** Slots in use have an instance and a sound queue. */
  ghost predicate Sound(table: Table) {
    && |table| == MAX_SESSION_ID
    && forall k | 0 <= k < |table| && table[k].Used? ::
         table[k].instance != 0 && Conserved(table[k].log, MESSAGE_QUEUE_MAX)
  }

  lemma {:induction false} AfterSound(table: Table, e: Event)
    requires Sound(table)
    ensures Sound(After(table, e).0)
  {
    hide Conserved, Step;
    match e
    case Init(_, _, _) => NewLogConserved();
    case Incoming(instance, data) =>
      var k := FirstOf(table, instance);
      if k < |table| {
        StepConserves(table[k].log, Send(Message(k, data)), MESSAGE_QUEUE_MAX);
      }
    case Recv(k) =>
      if 0 <= k < |table| && table[k].Used? {
        StepConserves(table[k].log, Receive, MESSAGE_QUEUE_MAX);
      }
    case Dinit(_) =>
  }

  lemma {:induction false} NewLogConserved()
    ensures Conserved<Message>(Log([], [], []), MESSAGE_QUEUE_MAX)
  {
  }

  /** What LinkInitIOCtrl returns is a slot number exactly when the session was set up and its subscription succeeded. Any
      other code is no slot number; a failed subscription leaves the slot in use. */
  lemma {:induction false} InitAnswer(table: Table, instance: Instance, memory: bool, code: int)
    requires Sound(table)
    ensures var (table', answer) := After(table, Init(instance, memory, code));
            var k := FirstFree(table);
            var fills := k < MAX_SESSION_ID && instance != 0 && memory;
            && answer.Code?
            && (answer.code < MAX_SESSION_ID <==> fills && code == MQTT_CODE_SUCCESS)
            && (answer.code < MAX_SESSION_ID ==> answer.code == k)
            && (answer.code >= MAX_SESSION_ID ==> MQTT_SUCCESS < answer.code)
            && (if fills then table'[k] == Used(instance, Log([], [], [])) else table' == table)
            && forall j | 0 <= j < |table| && j != k :: table'[j] == table[j]
  {
  }

  /** The codes of LinkInitIOCtrl: 3003 without a free slot or an instance, 3001 without memory, and otherwise the slot, or
      what has become of the subscription. */
  lemma {:induction false} InitCodes(table: Table, instance: Instance, memory: bool, code: int)
    requires Sound(table)
    ensures var answer, free := After(table, Init(instance, memory, code)).1, exists k | 0 <= k < |table| :: table[k].Unused?;
            && (instance == 0 || !free ==> answer == Code(3003))
            && (instance != 0 && free && !memory ==> answer == Code(3001))
            && (instance != 0 && free && memory && code != 0 ==> answer == Code(ErrorStatusChange(code)))
            && (instance != 0 && free && memory && code == 0 ==>
                  && answer.Code? && 0 <= answer.code < 10 && table[answer.code].Unused?
                  && forall j | 0 <= j < answer.code :: table[j].Used?)
  {
    if exists k | 0 <= k < |table| :: table[k].Unused? {
      var k :| 0 <= k < |table| && table[k].Unused?;
      assert FirstFree(table) <= k;
    }
  }

  /** The answers of LinkRecvIOCtrl: the oldest data of a session in use, 3019 if it has none, and 3003 exactly for a number
      from 0 on that is no session in use. */
  lemma {:induction false} RecvAnswers(table: Table, k: int)
    requires Sound(table)
    ensures var answer, used := After(table, Recv(k)).1, 0 <= k < |table| && table[k].Used?;
            && (answer == Outside <==> k < 0)
            && (answer == Code(3003) <==> k >= 0 && !used)
            && (answer == Code(3019) <==> used && table[k].log.queue == [])
            && (answer.Data? <==> used && table[k].log.queue != [])
            && (answer.Data? ==> answer.data == table[k].log.queue[0].data)
  {
  }

  // ----- Routing over runs -----

  function RunTable(table: Table, events: seq<Event>): (r: Table)
    ensures |r| == |table|
    decreases events
  {
    if events == [] then table else RunTable(After(table, events[0]).0, events[1..])
  }

  /** The data LinkRecvIOCtrl hands over for session `k`, call by call. */
  function HandedOver(table: Table, events: seq<Event>, k: nat): seq<seq<Byte>>
    decreases events
  {
    if events == [] then []
    else
      var (table', answer) := After(table, events[0]);
      (if events[0] == Recv(k) && answer.Data? then [answer.data] else []) + HandedOver(table', events[1..], k)
  }

  /** The messages that arrive for the instance, addressed to session `k`. */
  function ArrivedFor(events: seq<Event>, instance: Instance, k: nat): seq<Message>
    decreases events
  {
    if events == [] then []
    else
      (if events[0].Incoming? && events[0].instance == instance then [Message(k, events[0].data)] else [])
      + ArrivedFor(events[1..], instance, k)
  }

  /** Those of them that arrive while session `k` is the first one of the instance. */
  function ArrivedFirst(table: Table, events: seq<Event>, instance: Instance, k: nat): seq<Message>
    decreases events
  {
    if events == [] then []
    else
      var e := events[0];
      (if e.Incoming? && e.instance == instance && FirstOf(table, instance) == k then [Message(k, e.data)] else [])
      + ArrivedFirst(After(table, e).0, events[1..], instance, k)
  }

  function DataOf(messages: seq<Message>): seq<seq<Byte>> {
    if messages == [] then [] else [messages[0].data] + DataOf(messages[1..])
  }

  lemma {:induction false} DataOfAppend(a: seq<Message>, b: seq<Message>)
    ensures DataOf(a + b) == DataOf(a) + DataOf(b)
  {
    if a == [] {
      assert a + b == b;
    } else {
      assert (a + b)[1..] == a[1..] + b;
      DataOfAppend(a[1..], b);
    }
  }

  lemma {:induction false} FirstOfIs(table: Table, instance: Instance, k: nat)
    requires k < |table| && table[k].Used? && table[k].instance == instance
    requires forall j | 0 <= j < k :: table[j].Used? ==> table[j].instance != instance
    ensures FirstOf(table, instance) == k
    decreases k
  {
    if k > 0 {
      FirstOfIs(table[1..], instance, k - 1);
    }
  }

  /** One event, as a session in use sees it. */
  lemma {:induction false} AfterRoutes(table: Table, e: Event, k: nat)
    requires k < |table| && table[k].Used? && e != Dinit(k)
    ensures var slot, slot' := table[k], After(table, e).0[k];
            && slot'.Used? && slot'.instance == slot.instance
            && slot'.log == if e.Incoming? && e.instance == slot.instance && FirstOf(table, slot.instance) == k
                            then Step(slot.log, Send(Message(k, e.data)), MESSAGE_QUEUE_MAX)
                            else if e == Recv(k) then Step(slot.log, Receive, MESSAGE_QUEUE_MAX)
                            else slot.log
  {
    hide Step;
    ReceiveSends(table[k].log, MESSAGE_QUEUE_MAX);
  }

  /** The table stays sound over every run. */
  lemma {:induction false} RunSound(table: Table, events: seq<Event>)
    requires Sound(table)
    ensures Sound(RunTable(table, events))
    decreases events
  {
    if events != [] {
      AfterSound(table, events[0]);
      RunSound(After(table, events[0]).0, events[1..]);
    }
  }

  /**
   Routing end to end. Over every run that does not end the session, what was sent to its queue grows by exactly the
   messages that arrive for its instance while it is the first session of that instance, in order, and what was received
   from it by exactly the data its receives hand over. Every message sent is handed over, queued, or was evicted, and
   none was evicted before 32 more had been sent to the queue.
   */
  lemma {:induction false} RunRoutes(table: Table, events: seq<Event>, k: nat)
    requires Sound(table) && k < |table| && table[k].Used? && Dinit(k) !in events
    ensures var slot, slot' := table[k], RunTable(table, events)[k];
            && slot'.Used? && slot'.instance == slot.instance
            && slot'.log.sent == slot.log.sent + ArrivedFirst(table, events, slot.instance, k)
            && DataOf(ReceivedOf(slot'.log.gone)) == DataOf(ReceivedOf(slot.log.gone)) + HandedOver(table, events, k)
            && slot'.log.sent == Messages(slot'.log.gone) + slot'.log.queue && |slot'.log.queue| <= MESSAGE_QUEUE_MAX
            && EvictedLate(slot'.log, MESSAGE_QUEUE_MAX)
    decreases events
  {
    hide After, Step, EvictedLate, ReceivedOf, FirstOf, DataOf;
    if events != [] {
      var e, rest := events[0], events[1..];
      AfterSound(table, e);
      EventHistories(table, e, k);
      RunRoutes(After(table, e).0, rest, k);
      assert RunTable(table, events) == RunTable(After(table, e).0, rest);
      hide Sound, Conserved, Messages;
    }
  }

  /** The same for one event, in terms of the histories. */
  lemma {:induction false} EventHistories(table: Table, e: Event, k: nat)
    requires k < |table| && table[k].Used? && e != Dinit(k)
    ensures var (table', answer) := After(table, e);
            var slot, slot' := table[k], table'[k];
            && slot'.Used? && slot'.instance == slot.instance
            && slot'.log.sent == slot.log.sent + (if e.Incoming? && e.instance == slot.instance
                                                     && FirstOf(table, slot.instance) == k then [Message(k, e.data)] else [])
            && DataOf(ReceivedOf(slot'.log.gone)) ==
               DataOf(ReceivedOf(slot.log.gone)) + (if e == Recv(k) && answer.Data? then [answer.data] else [])
  {
    hide Step, ReceivedOf;
    var l := table[k].log;
    AfterRoutes(table, e, k);
    if e.Incoming? && e.instance == table[k].instance && FirstOf(table, table[k].instance) == k {
      StepHistories(l, Send(Message(k, e.data)), MESSAGE_QUEUE_MAX);
      assert ReceivedOf(l.gone) + [] == ReceivedOf(l.gone);
    } else if e == Recv(k) {
      StepHistories(l, Receive, MESSAGE_QUEUE_MAX);
      if l.queue != [] {
        DataOfAppend(ReceivedOf(l.gone), [l.queue[0]]);
      }
    }
  }

  // ----- Two sessions of one instance -----

  /** The event sets up a session for the instance in a slot below `k`. */
  predicate TakesOver(table: Table, e: Event, instance: Instance, k: nat) {
    e.Init? && e.instance == instance && instance != 0 && e.memory && FirstFree(table) < k
  }

  /** The first session of an instance stays the first one exactly unless it ends or a lower slot is taken over. */
  lemma {:induction false} FirstStaysExactly(table: Table, e: Event, instance: Instance)
    requires FirstOf(table, instance) < |table|
    ensures var k := FirstOf(table, instance);
            FirstOf(After(table, e).0, instance) == k <==> e != Dinit(k) && !TakesOver(table, e, instance, k)
  {
    var k, table' := FirstOf(table, instance), After(table, e).0;
    if e == Dinit(k) {
      assert table'[k].Unused?;
    } else if TakesOver(table, e, instance, k) {
      assert table'[FirstFree(table)].Used? && table'[FirstFree(table)].instance == instance;
    } else {
      hide Step;
      FirstOfIs(table', instance, k);
    }
  }

  predicate NoTakeover(table: Table, events: seq<Event>, instance: Instance, k: nat)
    decreases events
  {
    events == [] || (!TakesOver(table, events[0], instance, k) && NoTakeover(After(table, events[0]).0, events[1..], instance, k))
  }

  /** A first session that neither ends nor is taken over gets all messages of its instance. */
  lemma {:induction false} FirstGetsAll(table: Table, events: seq<Event>, instance: Instance)
    requires Sound(table) && FirstOf(table, instance) < |table|
    requires Dinit(FirstOf(table, instance)) !in events && NoTakeover(table, events, instance, FirstOf(table, instance))
    ensures var k := FirstOf(table, instance);
            && FirstOf(RunTable(table, events), instance) == k
            && RunTable(table, events)[k].log.sent == table[k].log.sent + ArrivedFor(events, instance, k)
    decreases events
  {
    var k := FirstOf(table, instance);
    FirstArrivals(table, events, instance);
    RunRoutes(table, events, k);
  }

  lemma {:induction false} FirstArrivals(table: Table, events: seq<Event>, instance: Instance)
    requires FirstOf(table, instance) < |table|
    requires Dinit(FirstOf(table, instance)) !in events && NoTakeover(table, events, instance, FirstOf(table, instance))
    ensures var k := FirstOf(table, instance);
            && FirstOf(RunTable(table, events), instance) == k
            && ArrivedFirst(table, events, instance, k) == ArrivedFor(events, instance, k)
    decreases events
  {
    hide After, FirstOf;
    if events != [] {
      FirstStaysExactly(table, events[0], instance);
      FirstArrivals(After(table, events[0]).0, events[1..], instance);
    }
  }

  /** As long as the first session of an instance stays in use, a later one gets nothing, over any run. */
  lemma {:induction false} ShadowedGetsNothing(table: Table, events: seq<Event>, k: nat)
    requires Sound(table) && k < |table| && table[k].Used? && FirstOf(table, table[k].instance) < k
    requires Dinit(k) !in events && forall j | 0 <= j < k :: Dinit(j) !in events
    ensures RunTable(table, events)[k].Used? && RunTable(table, events)[k].log.sent == table[k].log.sent
  {
    RunRoutes(table, events, k);
    ShadowedArrivals(table, events, table[k].instance, k);
  }

  lemma {:induction false} ShadowedArrivals(table: Table, events: seq<Event>, instance: Instance, k: nat)
    requires k < |table| && FirstOf(table, instance) < k && forall j | 0 <= j < k :: Dinit(j) !in events
    ensures ArrivedFirst(table, events, instance, k) == []
    decreases events
  {
    hide After, FirstOf;
    if events != [] {
      FirstOnlySinks(table, events[0], instance);
      ShadowedArrivals(After(table, events[0]).0, events[1..], instance, k);
    }
  }

  lemma {:induction false} FirstOnlySinks(table: Table, e: Event, instance: Instance)
    requires FirstOf(table, instance) < |table| && e != Dinit(FirstOf(table, instance))
    ensures FirstOf(After(table, e).0, instance) <= FirstOf(table, instance)
  {
    var k, table' := FirstOf(table, instance), After(table, e).0;
    assert table'[k].Used? && table'[k].instance == instance;
  }

  /** Two sessions are set up for instance 1: the second gets its first message only after the first has ended. */
  lemma {:induction false} SecondSession(a: seq<Byte>, b: seq<Byte>)
    ensures var start: Table := seq(MAX_SESSION_ID, _ => Unused);
            var events := [Init(1, true, 0), Init(1, true, 0), Incoming(1, a)];
            var table := RunTable(start, events);
            var table' := RunTable(table, [Dinit(0), Incoming(1, b)]);
            && table[0].Used? && table[0].log.sent == [Message(0, a)] && table[1].Used? && table[1].log.sent == []
            && table'[0].Unused? && table'[1].Used? && table'[1].log.sent == [Message(1, b)]
  {
    var start: Table := seq(MAX_SESSION_ID, _ => Unused);
    var empty := Used(1, Log([], [], []));
    FirstFreeIs(start, 0);
    var one := start[0 := empty];
    FirstFreeIs(one, 1);
    var two := one[1 := empty];
    FirstOfIs(two, 1, 0);
    var e0, e1, e2 := Init(1, true, 0), Init(1, true, 0), Incoming(1, a);
    assert After(start, e0).0 == one && After(one, e1).0 == two;
    var three := After(two, e2).0;
    assert three[0].log.sent == [Message(0, a)] && three[1] == empty;
    RunThree(start, e0, e1, e2);
    var four := After(three, Dinit(0)).0;
    FirstOfIs(four, 1, 1);
    RunTwo(three, Dinit(0), Incoming(1, b));
    assert After(four, Incoming(1, b)).0[1].log.sent == [Message(1, b)];
  }

  lemma RunTwo(table: Table, a: Event, b: Event)
    ensures RunTable(table, [a, b]) == After(After(table, a).0, b).0
  {
    hide After;
    assert [a, b][1..] == [b] && [b][1..] == [];
    var one := After(table, a).0;
    assert RunTable(one, [b]) == RunTable(After(one, b).0, []);
  }

  lemma RunThree(table: Table, a: Event, b: Event, c: Event)
    ensures RunTable(table, [a, b, c]) == After(After(After(table, a).0, b).0, c).0
  {
    hide After;
    assert [a, b, c][1..] == [b, c];
    RunTwo(After(table, a).0, b, c);
  }

  // ----- The table -----

  /** struct _LinkIOCrtlInfo, without its two constant topics. */
  datatype Session = Session(isUsed: bool, pInstance: Instance, pQueue: MessageQueue?<Message>)

  class SessionTable {
    const sessions: array<Session>
    ghost var Repr: set<object>

    ghost predicate Valid()
      reads this, Repr
    {
      && this in Repr && sessions in Repr && sessions.Length == MAX_SESSION_ID
      && (forall k | 0 <= k < MAX_SESSION_ID && sessions[k].isUsed :: LiveSlot(k))
      && (forall j, k | 0 <= j < k < MAX_SESSION_ID && sessions[j].isUsed && sessions[k].isUsed ::
            sessions[j].pQueue != sessions[k].pQueue && sessions[j].pQueue.pAlloc != sessions[k].pQueue.pAlloc)
    }

    ghost predicate LiveSlot(k: nat)
      requires k < sessions.Length && sessions in Repr
      reads this, Repr
    {
      var s := sessions[k];
      && s.pInstance != 0 && s.pQueue != null && s.pQueue in Repr && s.pQueue.pAlloc in Repr
      && s.pQueue.Valid() && s.pQueue.nCapacity == MESSAGE_QUEUE_MAX && s.pQueue.bIsValid
    }

    ghost function SlotAt(k: nat): Slot
      requires Valid() && k < MAX_SESSION_ID
      reads this, Repr
    {
      if sessions[k].isUsed then
        assert LiveSlot(k);
        Used(sessions[k].pInstance, sessions[k].pQueue.Abstract())
      else Unused
    }

    ghost function Abstract(): (t: Table)
      requires Valid()
      reads this, Repr
      ensures |t| == MAX_SESSION_ID && forall k | 0 <= k < |t| :: t[k] == SlotAt(k)
    {
      seq(MAX_SESSION_ID, k requires 0 <= k < MAX_SESSION_ID && Valid() reads this, Repr => SlotAt(k))
    }

    constructor ()
      ensures Valid() && fresh(Repr) && Abstract() == seq(MAX_SESSION_ID, _ => Unused)
    {
      sessions := new Session[MAX_SESSION_ID](_ => Session(false, 0, null));
      new;
      Repr := {this, sessions};
    }

    /** OnIOCtrlMessage */
    method OnMessage(instance: Instance, data: seq<Byte>)
      requires Valid()
      modifies Repr
      ensures Valid() && fresh(Repr - old(Repr))
      ensures Abstract() == After(old(Abstract()), Incoming(instance, data)).0
    {
      hide Conserved, EvictedLate, Messages, Ring;
      ghost var table := Abstract();
      var id := -1;
      for i := 0 to MAX_SESSION_ID
        invariant id == -1 && forall j | 0 <= j < i :: sessions[j].isUsed ==> instance != sessions[j].pInstance
      {
        if sessions[i].isUsed && instance == sessions[i].pInstance {
          id := i;
          break;
        }
      }
      if id == -1 {
        FirstOfNone(table, instance);
        return;
      }
      FirstOfIs(table, instance, id);
      sessions[id].pQueue.SendMessage(Message(id, data));
    }

    /** LinkInitIOCtrl; `memory` says whether the queue can be allocated, `code` is what the subscription returns. */
    method InitIOCtrl(instance: Instance, memory: bool, code: int) returns (r: int)
      requires Valid()
      modifies Repr
      ensures Valid() && fresh(Repr - old(Repr))
      ensures (Abstract(), Code(r)) == After(old(Abstract()), Init(instance, memory, code))
    {
      hide Conserved, EvictedLate, Messages, Ring;
      ghost var table := Abstract();
      var index := MAX_SESSION_ID;
      for i := 0 to MAX_SESSION_ID
        invariant index == MAX_SESSION_ID && forall j | 0 <= j < i :: sessions[j].isUsed
      {
        if !sessions[i].isUsed {
          index := i;
          break;
        }
      }
      FirstFreeIs(table, index);
      if index == MAX_SESSION_ID {
        return MQTT_ERR_INVAL;
      }
      if instance == 0 {
        return MQTT_ERR_INVAL;
      }
      if !memory {
        return MQTT_ERR_NOMEM;
      }
      SetUp(index, instance);
      var ret := ErrorStatusChange(code);
      if ret != MQTT_SUCCESS {
        return ret;
      }
      return index;
    }

    /** The part of LinkInitIOCtrl that fills the slot. */
    method SetUp(index: nat, instance: Instance)
      requires Valid() && index < MAX_SESSION_ID && instance != 0
      modifies Repr
      ensures Valid() && fresh(Repr - old(Repr))
      ensures Abstract() == old(Abstract())[index := Used(instance, Log([], [], []))]
    {
      hide Conserved, EvictedLate, Messages, Ring;
      ghost var table := Abstract();
      var queue := new MessageQueue<Message>(MESSAGE_QUEUE_MAX);
      sessions[index] := Session(true, instance, queue);
      Repr := Repr + {queue, queue.pAlloc};
      assert Abstract() == table[index := Used(instance, Log([], [], []))];
    }

    /** LinkRecvIOCtrl; the source indexes with any number below the maximum. */
    method RecvIOCtrl(nSession: int) returns (r: Answer)
      requires Valid()
      modifies Repr
      ensures Valid() && fresh(Repr - old(Repr))
      ensures (Abstract(), r) == After(old(Abstract()), Recv(nSession))
    {
      hide Conserved, EvictedLate, Messages, Ring;
      ghost var table := Abstract();
      if nSession >= MAX_SESSION_ID {
        return Code(MQTT_ERR_INVAL);
      }
      if nSession < 0 {
        return Outside;
      }
      if !sessions[nSession].isUsed {
        return Code(MQTT_ERR_INVAL);
      }
      var reply := sessions[nSession].pQueue.ReceiveMessageTimeout();
      ReceiveSends(table[nSession].log, MESSAGE_QUEUE_MAX);
      assert Abstract() == table[nSession := Update(table[nSession], Receive)];
      if reply.Nothing? {
        assert table[nSession := table[nSession]] == table;
        return Code(MQTT_RETRY);
      }
      return Data(reply.message.data);
    }

    /** LinkDinitIOCtrl: the slot is free again and its queue is gone. */
    method DinitIOCtrl(nSession: int) returns (r: Answer)
      requires Valid()
      modifies Repr
      ensures Valid() && fresh(Repr - old(Repr))
      ensures (Abstract(), r) == After(old(Abstract()), Dinit(nSession))
      ensures 0 <= nSession < MAX_SESSION_ID ==> !sessions[nSession].isUsed
    {
      hide Conserved, EvictedLate, Messages, Ring;
      ghost var table := Abstract();
      r := NoAnswer;
      if nSession >= MAX_SESSION_ID {
        return;
      }
      if nSession < 0 {
        return Outside;
      }
      if sessions[nSession].isUsed {
        sessions[nSession] := Session(false, 0, null);
        assert Abstract() == table[nSession := Unused];
      }
    }

    /** Every state of the table is sound. */
    lemma TableSound()
      requires Valid()
      ensures Sound(Abstract())
    {
    }
  }

  lemma {:induction false} FirstOfNone(table: Table, instance: Instance)
    requires forall j | 0 <= j < |table| :: table[j].Used? ==> table[j].instance != instance
    ensures FirstOf(table, instance) == |table|
  {
  }

  lemma {:induction false} FirstFreeIs(table: Table, k: nat)
    requires k <= |table| && (k < |table| ==> table[k].Unused?) && forall j | 0 <= j < k :: table[j].Used?
    ensures FirstFree(table) == k
  {
  }
}
