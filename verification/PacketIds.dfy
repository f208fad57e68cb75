/** The generator of packet identifiers, which section 2.3.1 of MQTT 3.1.1 wants non-zero and, while in use, distinct. */
module PacketIds {

  const MAX_PACKET_ID := 65535

  function Next(last: int): int { if last >= MAX_PACKET_ID then 1 else last + 1 }

  /** Values the counter can have: it is 0 before the first call. */
  predicate Reachable(last: int) { 0 <= last <= MAX_PACKET_ID }

  /** The identifier of the k-th call from now on, counted from 0. */
  function IdAt(last: int, k: nat): int
    decreases k
  {
    if k == 0 then Next(last) else IdAt(Next(last), k - 1)
  }

  class Generator {
    var mPacketIdLast: int

    constructor ()
      ensures mPacketIdLast == 0
    {
      mPacketIdLast := 0;
    }

    /** mqtt_get_packetid; the conversion to 16 bits loses nothing. */
    method GetPacketId() returns (id: int)
      requires Reachable(mPacketIdLast)
      modifies this
      ensures id == IdAt(old(mPacketIdLast), 0) && 1 <= id < 0x1_0000
      ensures Reachable(mPacketIdLast) && forall k: nat :: IdAt(mPacketIdLast, k) == IdAt(old(mPacketIdLast), k + 1)
    {
      mPacketIdLast := if mPacketIdLast >= MAX_PACKET_ID then 1 else mPacketIdLast + 1;
      id := mPacketIdLast % 0x1_0000;
    }
  }

  /** From any reachable counter the identifiers count up and start over after 65535 of them, without ever being 0. */
  lemma {:induction false} ClosedForm(last: int, k: nat)
    requires Reachable(last)
    ensures IdAt(last, k) == (last + k) % MAX_PACKET_ID + 1
    ensures 1 <= IdAt(last, k) <= MAX_PACKET_ID
    decreases k
  {
    if k > 0 {
      ClosedForm(Next(last), k - 1);
    }
  }

  /** Two identifiers are the same exactly when a multiple of 65535 calls lies between them. */
  lemma {:induction false} SameIdExactly(last: int, i: nat, j: nat)
    requires Reachable(last) && i <= j
    ensures IdAt(last, i) == IdAt(last, j) <==> (j - i) % MAX_PACKET_ID == 0
  {
    ClosedForm(last, i);
    ClosedForm(last, j);
    SameRemainder(last + i, last + j);
  }

  lemma {:induction false} SameRemainder(a: int, b: int)
    requires 0 <= a <= b
    ensures a % MAX_PACKET_ID == b % MAX_PACKET_ID <==> (b - a) % MAX_PACKET_ID == 0
  {
    var qa, qb, q := a / MAX_PACKET_ID, b / MAX_PACKET_ID, (b - a) / MAX_PACKET_ID;
    assert a == 65535 * qa + a % MAX_PACKET_ID && b == 65535 * qb + b % MAX_PACKET_ID;
    assert b - a == 65535 * q + (b - a) % MAX_PACKET_ID;
    if a % MAX_PACKET_ID == b % MAX_PACKET_ID {
      assert b - a == 65535 * (qb - qa);
    }
  }

  /** Any 65535 consecutive identifiers are pairwise distinct, and so are all the non-zero 16-bit numbers. */
  lemma {:induction false} WindowDistinct(last: int, from: nat, n: nat)
    requires Reachable(last) && n <= MAX_PACKET_ID
    ensures forall i, j {:trigger IdAt(last, i), IdAt(last, j)} | from <= i < j < from + n ::
              IdAt(last, i) != IdAt(last, j)
    ensures n == MAX_PACKET_ID ==>
              forall id {:trigger CallOf(last, from, id)} | 1 <= id <= MAX_PACKET_ID ::
                from <= CallOf(last, from, id) < from + n && IdAt(last, CallOf(last, from, id)) == id
  {
    forall i, j | from <= i < j < from + n
      ensures IdAt(last, i) != IdAt(last, j)
    {
      SameIdExactly(last, i, j);
    }
    forall id | 1 <= id <= MAX_PACKET_ID
      ensures IdAt(last, CallOf(last, from, id)) == id
    {
      ClosedForm(last, CallOf(last, from, id));
    }
  }

  /** The first call from `from` on that returns `id`. */
  function CallOf(last: int, from: nat, id: int): (k: nat)
    ensures k >= from
  {
    from + (id - 1 - last - from) % MAX_PACKET_ID
  }
}
