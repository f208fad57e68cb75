/**
 The bounded message queue: a ring of `nCapacity` slots where a send to a full queue drops the oldest message.
 */
module MessageQueue {
  import opened Bytes

  /** The messages the program sends. */
  datatype Message = Message(nMessageID: int, data: seq<Byte>)

  // ----- What the queue means -----

  /** How a message left the queue. */
  datatype Fate = Received | Evicted

  datatype Departure<T> = Departure(message: T, fate: Fate)

  /** The messages held, oldest first, and everything that has been sent to and has left the queue. */
  datatype Log<T> = Log(queue: seq<T>, sent: seq<T>, gone: seq<Departure<T>>)

  datatype Call<T> = Send(message: T) | Receive

  function Leave<T>(l: Log<T>, fate: Fate): Log<T>
    requires l.queue != []
  {
    l.(queue := l.queue[1..], gone := l.gone + [Departure(l.queue[0], fate)])
  }

  function Step<T>(l: Log<T>, call: Call<T>, capacity: nat): Log<T> {
    match call
    case Send(m) =>
      var l' := l.(queue := l.queue + [m], sent := l.sent + [m]);
      if |l'.queue| > capacity then Leave(l', Evicted) else l'
    case Receive => if l.queue == [] then l else Leave(l, Received)
  }

  /** A receive adds nothing, and does nothing to an empty queue. */
  lemma {:induction false} ReceiveSends<T>(l: Log<T>, capacity: nat)
    ensures Step(l, Receive, capacity).sent == l.sent && (l.queue == [] ==> Step(l, Receive, capacity) == l)
  {
  }

  function Run<T>(l: Log<T>, calls: seq<Call<T>>, capacity: nat): Log<T>
    decreases calls
  {
    if calls == [] then l else Run(Step(l, calls[0], capacity), calls[1..], capacity)
  }

  function Messages<T>(gone: seq<Departure<T>>): (s: seq<T>)
    ensures |s| == |gone|
  {
    if gone == [] then [] else [gone[0].message] + Messages(gone[1..])
  }

  lemma {:induction false} MessagesOneMore<T>(gone: seq<Departure<T>>, d: Departure<T>)
    ensures Messages(gone + [d]) == Messages(gone) + [d.message]
  {
    if gone != [] {
      assert (gone + [d])[1..] == gone[1..] + [d];
      MessagesOneMore(gone[1..], d);
    }
  }

  /** Only old messages were evicted: `capacity` more, at least, have been sent since. */
  ghost predicate EvictedLate<T>(l: Log<T>, capacity: nat) {
    forall i | 0 <= i < |l.gone| && l.gone[i].fate == Evicted :: i + capacity < |l.sent|
  }

  /** Every message sent is in exactly one place: gone, in the order of sending, or still queued behind those. */
  ghost predicate Conserved<T>(l: Log<T>, capacity: nat) {
    l.sent == Messages(l.gone) + l.queue && |l.queue| <= capacity && EvictedLate(l, capacity)
  }

  lemma {:induction false} StepEvictsLate<T>(l: Log<T>, call: Call<T>, capacity: nat)
    requires EvictedLate(l, capacity) && |l.sent| == |l.gone| + |l.queue| && |l.queue| <= capacity
    ensures EvictedLate(Step(l, call, capacity), capacity)
  {
    var l' := Step(l, call, capacity);
    forall i | 0 <= i < |l'.gone| && l'.gone[i].fate == Evicted
      ensures i + capacity < |l'.sent|
    {
      if i < |l.gone| {
        assert l'.gone[i] == l.gone[i];
      }
    }
  }

  lemma {:induction false} LeaveConserves<T>(l: Log<T>, fate: Fate)
    requires l.queue != [] && l.sent == Messages(l.gone) + l.queue
    ensures Leave(l, fate).sent == Messages(Leave(l, fate).gone) + Leave(l, fate).queue
  {
    MessagesOneMore(l.gone, Departure(l.queue[0], fate));
    assert l.queue == [l.queue[0]] + l.queue[1..];
  }

  lemma {:induction false} StepConserves<T>(l: Log<T>, call: Call<T>, capacity: nat)
    requires Conserved(l, capacity) && capacity > 0
    ensures Conserved(Step(l, call, capacity), capacity)
  {
    StepEvictsLate(l, call, capacity);
    hide EvictedLate;
    match call
    case Send(m) =>
      var l' := l.(queue := l.queue + [m], sent := l.sent + [m]);
      assert l'.sent == Messages(l'.gone) + l'.queue;
      if |l'.queue| > capacity {
        LeaveConserves(l', Evicted);
      }
    case Receive =>
      if l.queue != [] {
        LeaveConserves(l, Received);
      }
  }

  /** Conservation over every run, from every conserved state. */
  lemma {:induction false} RunConserves<T>(l: Log<T>, calls: seq<Call<T>>, capacity: nat)
    requires Conserved(l, capacity) && capacity > 0
    ensures Conserved(Run(l, calls, capacity), capacity)
    decreases calls
  {
    if calls != [] {
      StepConserves(l, calls[0], capacity);
      RunConserves(Step(l, calls[0], capacity), calls[1..], capacity);
    }
  }

  function LastOf<T>(s: seq<T>, n: nat): seq<T> { if |s| <= n then s else s[|s| - n..] }

  function Sends<T>(messages: seq<T>): seq<Call<T>> {
    if messages == [] then [] else [Send(messages[0])] + Sends(messages[1..])
  }

  /** A send keeps the latest `capacity` messages. */
  lemma {:induction false} SendKeepsLatest<T>(l: Log<T>, m: T, capacity: nat)
    requires |l.queue| <= capacity && capacity > 0
    ensures Step(l, Send(m), capacity).queue == LastOf(l.queue + [m], capacity)
  {
  }

  lemma {:induction false} LastOfLast<T>(q: seq<T>, rest: seq<T>, n: nat)
    ensures LastOf(LastOf(q, n) + rest, n) == LastOf(q + rest, n)
  {
    if |q| > n {
      var cut := q[..|q| - n];
      assert q == cut + LastOf(q, n);
      hide LastOf;
      CutAway(cut, LastOf(q, n), rest, n);
    }
  }

  lemma CutAway<T>(cut: seq<T>, q: seq<T>, rest: seq<T>, n: nat)
    requires |q| == n
    ensures LastOf(cut + q + rest, n) == LastOf(q + rest, n)
  {
    var all := cut + q + rest;
    forall i | 0 <= i < n
      ensures LastOf(all, n)[i] == LastOf(q + rest, n)[i]
    {
    }
  }

  /** A burst of sends without a receive leaves the latest `capacity` messages of all, in order. */
  lemma {:induction false} BurstKeepsLatest<T>(l: Log<T>, messages: seq<T>, capacity: nat)
    requires |l.queue| <= capacity && capacity > 0
    ensures Run(l, Sends(messages), capacity).queue == LastOf(l.queue + messages, capacity)
    decreases messages
  {
    hide Step, LastOf;
    if messages == [] {
      assert l.queue + messages == l.queue;
      LastOfShort(l.queue, capacity);
    } else {
      var m, rest := messages[0], messages[1..];
      SendKeepsLatest(l, m, capacity);
      LastOfShort(l.queue + [m], capacity);
      BurstKeepsLatest(Step(l, Send(m), capacity), rest, capacity);
      LastOfLast(l.queue + [m], rest, capacity);
      assert l.queue + messages == l.queue + [m] + rest;
      assert Sends(messages) == [Send(m)] + Sends(rest);
    }
  }

  lemma {:induction false} LastOfShort<T>(q: seq<T>, n: nat)
    ensures |LastOf(q, n)| <= n && (|q| <= n ==> LastOf(q, n) == q)
  {
  }

  /** What has been received, in the order of receiving. */
  function ReceivedOf<T>(gone: seq<Departure<T>>): seq<T> {
    if gone == [] then []
    else (if gone[0].fate == Received then [gone[0].message] else []) + ReceivedOf(gone[1..])
  }

  lemma {:induction false} ReceivedOneMore<T>(gone: seq<Departure<T>>, d: Departure<T>)
    ensures ReceivedOf(gone + [d]) == ReceivedOf(gone) + if d.fate == Received then [d.message] else []
  {
    if gone != [] {
      assert (gone + [d])[1..] == gone[1..] + [d];
      ReceivedOneMore(gone[1..], d);
    } else {
      assert gone + [d] == [d];
    }
  }

  /** How the two histories of a queue grow in a step. */
  lemma {:induction false} StepHistories<T>(l: Log<T>, call: Call<T>, capacity: nat)
    ensures var l' := Step(l, call, capacity);
            && l'.sent == l.sent + (if call.Send? then [call.message] else [])
            && ReceivedOf(l'.gone) ==
               ReceivedOf(l.gone) + (if call.Receive? && l.queue != [] then [l.queue[0]] else [])
  {
    match call
    case Send(m) =>
      var q := l.queue + [m];
      ReceivedOneMore(l.gone, Departure(q[0], Evicted));
    case Receive =>
      if l.queue != [] {
        ReceivedOneMore(l.gone, Departure(l.queue[0], Received));
      }
  }

  function EvictedOf<T>(gone: seq<Departure<T>>): seq<T> {
    if gone == [] then []
    else (if gone[0].fate == Evicted then [gone[0].message] else []) + EvictedOf(gone[1..])
  }

  lemma {:induction false} FatesPartition<T>(gone: seq<Departure<T>>)
    ensures multiset(Messages(gone)) == multiset(ReceivedOf(gone)) + multiset(EvictedOf(gone))
  {
    if gone != [] {
      FatesPartition(gone[1..]);
      assert Messages(gone) == [gone[0].message] + Messages(gone[1..]);
    }
  }

  /** Over every run a message is evicted only when at least `capacity` messages have been sent after it. */
  lemma {:induction false} RunEvictsLate<T>(calls: seq<Call<T>>, capacity: nat, i: nat)
    requires capacity > 0
    ensures var l := Run(Log([], [], []), calls, capacity);
            i < |l.gone| && l.gone[i].fate == Evicted ==> i + capacity < |l.sent| && l.sent[i] == l.gone[i].message
  {
    var l := Run(Log([], [], []), calls, capacity);
    RunConserves(Log([], [], []), calls, capacity);
    if i < |l.gone| {
      MessageAt(l.gone, i);
    }
  }

  lemma {:induction false} MessageAt<T>(gone: seq<Departure<T>>, i: nat)
    requires i < |gone|
    ensures Messages(gone)[i] == gone[i].message
  {
    if i > 0 {
      MessageAt(gone[1..], i - 1);
    }
  }

  /** As a count: every message sent is received, evicted or queued, once each. */
  lemma {:induction false} RunAccounts<T>(calls: seq<Call<T>>, capacity: nat)
    requires capacity > 0
    ensures var l := Run(Log([], [], []), calls, capacity);
            multiset(l.sent) == multiset(ReceivedOf(l.gone)) + multiset(EvictedOf(l.gone)) + multiset(l.queue)
  {
    var none: Log<T> := Log([], [], []);
    assert Conserved(none, capacity);
    RunConserves(none, calls, capacity);
    FatesPartition(Run(none, calls, capacity).gone);
  }

  // ----- The ring -----

  /** The slot `i` places behind `start`. */
  function Slot(start: nat, i: nat, capacity: nat): nat
    requires start < capacity && i <= capacity
  {
    if start + i < capacity then start + i else start + i - capacity
  }

  /** An index of the source, brought back into the ring. */
  function Wrapped(i: nat, capacity: nat): nat
    requires capacity > 0
  {
    i % capacity
  }

  /** The slots are what the source computes with `%`. */
  lemma {:induction false} SlotMod(start: nat, i: nat, capacity: nat)
    requires start < capacity && i <= capacity
    ensures Slot(start, i, capacity) == (start + i) % capacity == Wrapped(start + i, capacity)
  {
    var x := start + i;
    var q, r := x / capacity, x % capacity;
    assert x == q * capacity + r;
    assert q < 2 by {
      MulMonotone(q, 2, capacity);
    }
  }

  lemma {:induction false} MulMonotone(a: nat, b: nat, c: nat)
    ensures a >= b ==> a * c >= b * c
  {
  }

  /** The messages held by a ring, oldest first. */
  function Ring<T>(slots: seq<T>, start: nat, n: nat): (s: seq<T>)
    requires start < |slots| && n <= |slots|
    ensures |s| == n
  {
    seq(n, i requires 0 <= i < n => slots[Slot(start, i, |slots|)])
  }

  /** Writing behind the newest message appends it, as long as there is a free slot. */
  lemma {:induction false} RingAppend<T>(slots: seq<T>, start: nat, n: nat, m: T)
    requires start < |slots| && n < |slots|
    ensures Ring(slots[Slot(start, n, |slots|) := m], start, n + 1) == Ring(slots, start, n) + [m]
  {
  }

  /** In a full ring the write lands on the oldest message, and moving the start past it gives the shifted contents. */
  lemma {:induction false} RingOverwrite<T>(slots: seq<T>, start: nat, m: T)
    requires start < |slots|
    ensures Slot(start, |slots|, |slots|) == start
    ensures Ring(slots[start := m], Slot(start, 1, |slots|), |slots|) == (Ring(slots, start, |slots|) + [m])[1..]
  {
  }

  lemma {:induction false} RingDrop<T>(slots: seq<T>, start: nat, n: nat)
    requires start < |slots| && 0 < n <= |slots|
    ensures Ring(slots, start, n)[0] == slots[start]
    ensures Ring(slots, Slot(start, 1, |slots|), n - 1) == Ring(slots, start, n)[1..]
  {
  }

  /** The ring after a send: the store, and in a full ring the start moved past the message it has overwritten. */
  function SentRing<T>(slots: seq<T>, start: nat, n: nat, m: T): (s: seq<T>)
    requires start < |slots| && n <= |slots|
  {
    var slots' := slots[Slot(start, n, |slots|) := m];
    if n < |slots| then Ring(slots', start, n + 1) else Ring(slots', Slot(start, 1, |slots|), n)
  }

  lemma {:induction false} SendRefines<T>(slots: seq<T>, start: nat, n: nat, m: T, sent: seq<T>, gone: seq<Departure<T>>)
    requires start < |slots| && n <= |slots|
    ensures Step(Log(Ring(slots, start, n), sent, gone), Send(m), |slots|) ==
            Log(SentRing(slots, start, n, m), sent + [m],
                gone + if n < |slots| then [] else [Departure(slots[start], Evicted)])
    ensures var slots' := slots[Slot(start, n, |slots|) := m];
            SentRing(slots, start, n, m) ==
            if n < |slots| then Ring(slots', start, n + 1) else Ring(slots', Slot(start, 1, |slots|), n)
  {
    if n < |slots| {
      RingAppend(slots, start, n, m);
    } else {
      RingOverwrite(slots, start, m);
      RingDrop(slots, start, n);
    }
    hide Ring, Slot;
  }

  /** nNextIn stays nSize places behind nNextOut. */
  lemma {:induction false} NextIn(start: nat, n: nat, capacity: nat, in0: nat, in1: nat, out1: nat, n1: nat)
    requires start < capacity && n <= capacity && in0 == Wrapped(start + n, capacity) && in1 == Wrapped(in0 + 1, capacity)
    requires if n < capacity then out1 == start && n1 == n + 1 else out1 == Wrapped(start + 1, capacity) && n1 == capacity
    ensures out1 < capacity && in1 == Wrapped(out1 + n1, capacity)
    ensures n == capacity ==> out1 == Slot(start, 1, capacity)
  {
    hide Wrapped;
    SlotMod(start, n, capacity);
    SlotMod(in0, 1, capacity);
    SlotMod(start, 1, capacity);
    SlotMod(out1, n1, capacity);
  }

  lemma {:induction false} PopRefines<T>(slots: seq<T>, start: nat, n: nat, sent: seq<T>, gone: seq<Departure<T>>)
    requires start < |slots| && 0 < n <= |slots|
    ensures Ring(slots, start, n)[0] == slots[start]
    ensures Step(Log(Ring(slots, start, n), sent, gone), Receive, |slots|) ==
            Log(Ring(slots, Slot(start, 1, |slots|), n - 1), sent, gone + [Departure(slots[start], Received)])
  {
    RingDrop(slots, start, n);
    hide Ring, Slot;
  }

  lemma {:induction false} NextOut(start: nat, n: nat, capacity: nat, next: nat, out1: nat, n1: nat)
    requires start < capacity && 0 < n <= capacity && next == Wrapped(start + n, capacity)
    requires out1 == Wrapped(start + 1, capacity) && n1 == n - 1
    ensures out1 < capacity && next == Wrapped(out1 + n1, capacity) && out1 == Slot(start, 1, capacity)
  {
    hide Wrapped;
    SlotMod(start, n, capacity);
    SlotMod(start, 1, capacity);
    SlotMod(out1, n1, capacity);
  }

  /** NULL or a message; a receive on an empty valid queue waits, and without another thread does not return. */
  datatype Reply<T> = Got(message: T) | Nothing | Waits

  class MessageQueue<T(0)> {
    const pAlloc: array<T>
    const nCapacity: nat
    var nNextIn: nat
    var nNextOut: nat
    var nSize: nat
    var bIsValid: bool
    ghost var sent: seq<T>
    ghost var gone: seq<Departure<T>>

    ghost predicate Bounded()
      reads this
    {
      0 < nCapacity == pAlloc.Length && nNextOut < nCapacity && nSize <= nCapacity
    }

    ghost predicate Valid()
      reads this, pAlloc
    {
      Bounded() && nNextIn == Wrapped(nNextOut + nSize, nCapacity) && Conserved(Abstract(), nCapacity)
    }

    ghost function Abstract(): Log<T>
      requires Bounded()
      reads this, pAlloc
    {
      Log(Ring(pAlloc[..], nNextOut, nSize), sent, gone)
    }

    /** CreateMessageQueue once there is memory. It takes a capacity of 0, with which the queue is of no use: the first send
        would store outside pAlloc. */
    constructor (length: nat)
      ensures fresh(pAlloc) && pAlloc.Length == nCapacity == length && nNextIn == nNextOut == nSize == 0 && bIsValid
      ensures length > 0 <==> Valid()
      ensures length > 0 ==> Abstract() == Log([], [], [])
    {
      pAlloc := new T[length];
      nCapacity := length;
      nNextIn, nNextOut, nSize, bIsValid := 0, 0, 0, true;
      sent, gone := [], [];
    }

    /** CreateMessageQueue; `memory` says whether both allocations succeed. */
    static method CreateMessageQueue(length: nat, memory: bool) returns (q: MessageQueue?<T>)
      ensures q != null <==> memory
      ensures q != null && length > 0 ==> fresh(q) && fresh(q.pAlloc) && q.Valid() && q.nCapacity == length
      ensures q != null && length > 0 ==> q.bIsValid && q.Abstract() == Log([], [], [])
    {
      q := null;
      if memory {
        q := new MessageQueue(length);
      }
    }

    method SendMessage(m: T)
      requires Valid()
      modifies this, pAlloc
      ensures Valid() && bIsValid == old(bIsValid)
      ensures Abstract() == Step(old(Abstract()), Send(m), nCapacity)
    {
      hide Conserved, EvictedLate, Messages, Ring, Step, Slot, SentRing, Wrapped;
      ghost var slots, start, n, in0 := pAlloc[..], nNextOut, nSize, nNextIn;
      ghost var l := Abstract();
      SlotMod(start, n, nCapacity);
      StepConserves(l, Send(m), nCapacity);
      SendRefines(slots, start, n, m, sent, gone);
      pAlloc[nNextIn] := m;
      assert pAlloc[..] == slots[Slot(start, n, nCapacity) := m];
      nNextIn := Wrapped(nNextIn + 1, nCapacity);
      nSize := nSize + 1;
      sent := sent + [m];
      if nSize > nCapacity {
        gone := gone + [Departure(slots[start], Evicted)];
        nNextOut := Wrapped(nNextOut + 1, nCapacity);
        nSize := nCapacity;
      }
      NextIn(start, n, nCapacity, in0, nNextIn, nNextOut, nSize);
      assert Abstract() == Step(l, Send(m), nCapacity);
    }

    /** The common end of the two receives. */
    method Pop() returns (m: T)
      requires Valid() && nSize > 0
      modifies this
      ensures Valid() && bIsValid == old(bIsValid)
      ensures m == old(Abstract()).queue[0] && Abstract() == Step(old(Abstract()), Receive, nCapacity)
    {
      ghost var slots, start, n := pAlloc[..], nNextOut, nSize;
      StepConserves(Abstract(), Receive, nCapacity);
      PopRefines(slots, start, n, sent, gone);
      hide Conserved, Ring, Step, Slot, Wrapped;
      m := pAlloc[nNextOut];
      nNextOut := Wrapped(nNextOut + 1, nCapacity);
      nSize := nSize - 1;
      gone := gone + [Departure(m, Received)];
      NextOut(start, n, nCapacity, nNextIn, nNextOut, nSize);
    }

    /** ReceiveMessage with no other thread about. */
    method ReceiveMessage() returns (r: Reply<T>)
      requires Valid()
      modifies this
      ensures Valid() && bIsValid == old(bIsValid) && Abstract() == Step(old(Abstract()), Receive, nCapacity)
      ensures var q := old(Abstract()).queue;
              r == if q != [] then Got(q[0]) else if bIsValid then Waits else Nothing
    {
      if nSize == 0 {
        return if bIsValid then Waits else Nothing;
      }
      var m := Pop();
      r := Got(m);
    }

    /** ReceiveMessageTimeout with no other thread about: on an empty queue the wait ends in a timeout. */
    method ReceiveMessageTimeout() returns (r: Reply<T>)
      requires Valid()
      modifies this
      ensures Valid() && bIsValid == old(bIsValid) && Abstract() == Step(old(Abstract()), Receive, nCapacity)
      ensures var q := old(Abstract()).queue;
              r == if q != [] then Got(q[0]) else Nothing
    {
      if nSize == 0 {
        return Nothing;
      }
      var m := Pop();
      r := Got(m);
    }
  }
}
