/**
 The ADTS splitter: cuts an AAC stream into the raw frames behind its headers (section 6.2 of ISO/IEC 13818-7).

 As in the NAL splitter `mem` is the memory from the stream on, the stream is its first `len` bytes, and an address is
 an offset. Bytes are taken as unsigned.
 */
module AdtsSplitter {
  import opened Bytes

  datatype Adts = Adts(addr: int, size: int)

  const ADTS_DECODE_OK := 0
  const ADTS_PARAM_ERROR := -1
  const ADTS_OVERFLOW := -2

  /** A header is read up to its sixth byte, from every place before the end of the stream. */
  const READ_AHEAD: nat := 5

  // ----- Headers -----

  /** (htonl(*p) >> 20) & 0xFFF == 0xFFF */
  predicate SyncAt(mem: seq<Byte>, p: nat)
    requires p + 6 <= |mem|
  {
    mem[p] == 0xFF && mem[p + 1] / 16 == 15
  }

  /** The frame length: two bits, eight bits and three bits of the bytes 3, 4 and 5, see AdtsHeaders.SplitterBits. */
  function FrameLen(mem: seq<Byte>, p: nat): (n: nat)
    requires p + 6 <= |mem|
    ensures n < 8192
  {
    var b3: int, b4: int, b5: int := mem[p + 3], mem[p + 4], mem[p + 5];
    b3 % 4 * 2048 + b4 * 8 + b5 / 32
  }

  function HeaderLen(mem: seq<Byte>, p: nat): (n: nat)
    requires p + 6 <= |mem|
    ensures n == 7 || n == 9
  {
    if mem[p + 1] % 2 == 1 then 7 else 9
  }

  // ----- The walk -----

  /** How the loop ends: at the end of the stream, with a full table, or not at all. */
  datatype Ending = Complete | Overflow | Never

  datatype Walk = Walk(frames: seq<Adts>, ending: Ending)

  /** The loop from `p` on with `room` entries left. A byte that is no sync word leaves everything as it is, for ever. */
  function WalkFrom(mem: seq<Byte>, len: nat, p: nat, room: nat): (w: Walk)
    requires len + READ_AHEAD <= |mem| && room >= 1
    ensures |w.frames| <= room && (w.ending == Overflow <==> |w.frames| == room)
    decreases room
  {
    if p >= len then Walk([], Complete)
    else if !SyncAt(mem, p) then Walk([], Never)
    else
      var f := Adts(p + HeaderLen(mem, p), FrameLen(mem, p) - HeaderLen(mem, p));
      if room == 1 then Walk([f], Overflow)
      else
        var w := WalkFrom(mem, len, p + FrameLen(mem, p), room - 1);
        Walk([f] + w.frames, w.ending)
  }

  /** AacDecodeAdts; `hangs` says that the loop of the source does not end. */
  method AacDecodeAdts(mem: seq<Byte>, len: int, adts: array<Adts>, pSize: int) returns (ret: int, size: int, hangs: bool)
    requires len > 0 ==> len + READ_AHEAD <= |mem| && 1 <= pSize <= adts.Length
    modifies adts
    ensures len <= 0 ==> ret == ADTS_PARAM_ERROR && size == pSize && !hangs && adts[..] == old(adts[..])
    ensures len > 0 ==>
              var w := WalkFrom(mem, len, 0, pSize);
              && (hangs <==> TurnsForEver(mem, len, pSize, Loop(0, [])))
              && (hangs <==> w.ending == Never)
              && (!hangs ==>
                    && size == |w.frames| && size <= adts.Length && adts[..size] == w.frames
                    && ret == if w.ending == Overflow then ADTS_OVERFLOW else ADTS_DECODE_OK)
  {
    hangs := false;
    if len <= 0 {
      return ADTS_PARAM_ERROR, pSize, hangs;
    }
    ghost var w, done: seq<Adts> := WalkFrom(mem, len, 0, pSize), [];
    var p := 0;
    size := 0;
    assert [] + w.frames == w.frames;
    WalkIsLoop(mem, len, pSize, Loop(0, []));
    hide TurnsForEver;
    hide WalkFrom, SyncAt, FrameLen, HeaderLen;
    while p < len
      invariant 0 <= size < pSize && 0 <= p && adts[..size] == done
      invariant w == Onto(done, WalkFrom(mem, len, p, pSize - size))
      decreases pSize - size
    {
      WalkStep(mem, len, p, pSize - size);
      if !SyncAt(mem, p) {
        return 0, size, true;
      }
      ghost var f := FrameAt(mem, p);
      adts[size] := Adts(p + HeaderLen(mem, p), FrameLen(mem, p) - HeaderLen(mem, p));
      assert adts[..size + 1] == done + [f];
      p := p + FrameLen(mem, p);
      size := size + 1;
      if size >= pSize {
        return ADTS_OVERFLOW, size, false;
      }
      OntoMore(done, f, WalkFrom(mem, len, p, pSize - size));
      done := done + [f];
    }
    WalkPast(mem, len, p, pSize - size);
    return ADTS_DECODE_OK, size, false;
  }

  /** The frame whose header stands at `p`. */
  function FrameAt(mem: seq<Byte>, p: nat): Adts
    requires p + 6 <= |mem|
  {
    Adts(p + HeaderLen(mem, p), FrameLen(mem, p) - HeaderLen(mem, p))
  }

  /** Frames found before the walk `w`. */
  function Onto(frames: seq<Adts>, w: Walk): Walk { Walk(frames + w.frames, w.ending) }

  lemma OntoMore(done: seq<Adts>, f: Adts, w: Walk)
    ensures Onto(done, Onto([f], w)) == Onto(done + [f], w)
  {
    assert done + ([f] + w.frames) == (done + [f]) + w.frames;
  }

  /** One turn of the loop. */
  lemma WalkStep(mem: seq<Byte>, len: nat, p: nat, room: nat)
    requires len + READ_AHEAD <= |mem| && room >= 1 && p < len
    ensures WalkFrom(mem, len, p, room) ==
            if !SyncAt(mem, p) then Walk([], Never)
            else if room == 1 then Walk([FrameAt(mem, p)], Overflow)
            else Onto([FrameAt(mem, p)], WalkFrom(mem, len, p + FrameLen(mem, p), room - 1))
  {
  }

  lemma WalkPast(mem: seq<Byte>, len: nat, p: nat, room: nat)
    requires len + READ_AHEAD <= |mem| && room >= 1 && p >= len
    ensures WalkFrom(mem, len, p, room) == Walk([], Complete)
  {
  }

  // ----- Round trip -----

  /** A raw frame to be sent, and what else its header says: `fields` are the bits the splitter does not look at. */
  datatype Packet = Packet(payload: seq<Byte>, crc: seq<Byte>, idLayer: nat, b2: Byte, high6: nat, low5: nat, b6: Byte)

  function HeaderSize(k: Packet): nat { if k.crc == [] then 7 else 9 }

  function PacketSize(k: Packet): nat { HeaderSize(k) + |k.payload| }

  predicate Framable(k: Packet) {
    && (|k.crc| == 0 || |k.crc| == 2) && k.idLayer < 8 && k.high6 < 64 && k.low5 < 32
    && PacketSize(k) < 8192
  }

  function Header(k: Packet): seq<Byte>
    requires Framable(k)
  {
    var n := PacketSize(k);
    [0xFF, 0xF0 + k.idLayer * 2 + (if k.crc == [] then 1 else 0), k.b2, k.high6 * 4 + n / 2048, n / 8 % 256,
     n % 8 * 32 + k.low5, k.b6] + k.crc
  }

  function EncodeOne(k: Packet): (s: seq<Byte>)
    requires Framable(k)
    ensures |s| == PacketSize(k)
  {
    Header(k) + k.payload
  }

  function Encode(packets: seq<Packet>): seq<Byte>
    requires forall i | 0 <= i < |packets| :: Framable(packets[i])
  {
    if packets == [] then [] else EncodeOne(packets[0]) + Encode(packets[1..])
  }

  /** Where the payloads stand when their encoding starts at `p`. */
  function Placed(packets: seq<Packet>, p: nat): (s: seq<Adts>)
    ensures |s| == |packets|
    decreases packets
  {
    if packets == [] then []
    else [Adts(p + HeaderSize(packets[0]), |packets[0].payload|)] + Placed(packets[1..], p + PacketSize(packets[0]))
  }

  /** A header reads back as it was written. */
  lemma {:induction false} HeaderRead(mem: seq<Byte>, p: nat, k: Packet)
    requires Framable(k) && Has(mem, p, EncodeOne(k))
    ensures p + 6 <= |mem| && SyncAt(mem, p) && HeaderLen(mem, p) == HeaderSize(k) && FrameLen(mem, p) == PacketSize(k)
    ensures Has(mem, p + HeaderSize(k), k.payload)
  {
    var h := Header(k);
    HasSplit(mem, p, h, k.payload);
    HasAt(mem, p, h);
    assert mem[p + 0] == h[0] && mem[p + 1] == h[1] && mem[p + 3] == h[3] && mem[p + 4] == h[4] && mem[p + 5] == h[5];
    ThreeDigits(PacketSize(k));
  }

  lemma {:induction false} ThreeDigits(n: nat)
    requires n < 8192
    ensures n / 2048 < 4 && n == n / 2048 * 2048 + n / 8 % 256 * 8 + n % 8
  {
    assert n / 2048 == n / 8 / 256;
  }

  /** The first of some packets, and what is behind it. */
  lemma {:induction false} FirstPacket(mem: seq<Byte>, p: nat, packets: seq<Packet>)
    requires (forall i | 0 <= i < |packets| :: Framable(packets[i])) && Has(mem, p, Encode(packets)) && packets != []
    ensures forall i | 0 <= i < |packets[1..]| :: Framable(packets[1..][i])
    ensures var k, at, q := packets[0], p + HeaderSize(packets[0]), p + PacketSize(packets[0]);
            && p + 6 <= |mem| && SyncAt(mem, p) && FrameLen(mem, p) == PacketSize(k)
            && FrameAt(mem, p) == Adts(at, |k.payload|) && Has(mem, at, k.payload) && at + |k.payload| == q
            && Has(mem, q, Encode(packets[1..])) && q + |Encode(packets[1..])| == p + |Encode(packets)| <= |mem|
            && Placed(packets, p) == [Adts(at, |k.payload|)] + Placed(packets[1..], q)
            && p + 7 <= q
  {
    var k := packets[0];
    assert Encode(packets) == EncodeOne(k) + Encode(packets[1..]);
    assert forall i | 0 <= i < |packets[1..]| :: packets[1..][i] == packets[i + 1];
    HasSplit(mem, p, EncodeOne(k), Encode(packets[1..]));
    HeaderRead(mem, p, k);
    hide Encode, EncodeOne, Has, SyncAt, FrameLen, HeaderLen, Framable;
  }

  lemma NoPackets(p: nat)
    ensures Encode([]) == [] && Placed([], p) == []
  {
  }

  lemma TakeCons(f: Adts, rest: seq<Adts>, n: nat)
    requires 0 < n <= |rest| + 1
    ensures ([f] + rest)[..n] == [f] + rest[..n - 1]
  {
  }

  /** With room for all packets and one more the walk returns the payloads; with less, the first ones and an overflow. */
  lemma {:induction false} WalkFindsPackets(mem: seq<Byte>, len: nat, p: nat, packets: seq<Packet>, room: nat)
    requires forall i | 0 <= i < |packets| :: Framable(packets[i])
    requires len + READ_AHEAD <= |mem| && room >= 1 && Has(mem, p, Encode(packets)) && p + |Encode(packets)| == len
    ensures WalkFrom(mem, len, p, room) ==
            if |packets| < room then Walk(Placed(packets, p), Complete)
            else Walk(Placed(packets, p)[..room], Overflow)
    decreases |packets|
  {
    hide WalkFrom, Placed, Encode, Framable, Has, SyncAt, FrameLen, HeaderLen, FrameAt, PacketSize, HeaderSize;
    if packets == [] {
      NoPackets(p);
      WalkPast(mem, len, p, room);
    } else {
      var q := p + PacketSize(packets[0]);
      FirstPacket(mem, p, packets);
      WalkStep(mem, len, p, room);
      var f, rest := FrameAt(mem, p), Placed(packets[1..], q);
      if room == 1 {
        TakeCons(f, rest, 1);
      } else {
        WalkFindsPackets(mem, len, q, packets[1..], room - 1);
        if |packets| >= room {
          TakeCons(f, rest, room);
        }
      }
    }
  }

  /** The splitter inverts the encoder, whatever stands behind the stream. It ends, since every packet has at least the
      seven bytes of a header. */
  lemma {:induction false} WalkInvertsEncode(packets: seq<Packet>, behind: seq<Byte>, room: nat)
    requires (forall i | 0 <= i < |packets| :: Framable(packets[i])) && |behind| >= READ_AHEAD && room >= 1
    ensures WalkFrom(Encode(packets) + behind, |Encode(packets)|, 0, room) ==
            if |packets| < room then Walk(Placed(packets, 0), Complete) else Walk(Placed(packets, 0)[..room], Overflow)
  {
    var mem, len := Encode(packets) + behind, |Encode(packets)|;
    HasSlice(mem, 0, Encode(packets));
    WalkFindsPackets(mem, len, 0, packets, room);
  }

  // ----- Arbitrary streams -----

  // ----- Turn by turn -----

  /** What the loop has: its place and the entries it has filled. */
  datatype Loop = Loop(p: nat, frames: seq<Adts>)

  /** The loop is left: at the end of the stream, or with a full table. */
  predicate Ended(len: nat, cap: nat, l: Loop) { l.p >= len || |l.frames| >= cap }

  /** One turn of the loop; an ended loop turns no more. */
  function Turn(mem: seq<Byte>, len: nat, cap: nat, l: Loop): Loop
    requires len + READ_AHEAD <= |mem|
  {
    if Ended(len, cap, l) || !SyncAt(mem, l.p) then l
    else Loop(l.p + FrameLen(mem, l.p), l.frames + [FrameAt(mem, l.p)])
  }

  function Turns(mem: seq<Byte>, len: nat, cap: nat, l: Loop, n: nat): Loop
    requires len + READ_AHEAD <= |mem|
    decreases n
  {
    if n == 0 then l else Turns(mem, len, cap, Turn(mem, len, cap, l), n - 1)
  }

  /** The loop turns for ever: after any number of turns it has not ended. */
  ghost predicate TurnsForEver(mem: seq<Byte>, len: nat, cap: nat, l: Loop)
    requires len + READ_AHEAD <= |mem|
  {
    forall n: nat :: !Ended(len, cap, Turns(mem, len, cap, l, n))
  }

  /** Where the loop is stuck it stays. */
  lemma {:induction false} StuckStays(mem: seq<Byte>, len: nat, cap: nat, l: Loop, n: nat)
    requires len + READ_AHEAD <= |mem| && Turn(mem, len, cap, l) == l
    ensures Turns(mem, len, cap, l, n) == l
    decreases n
  {
    if n > 0 {
      StuckStays(mem, len, cap, l, n - 1);
    }
  }

  /** Following the frame lengths, fewer than `room` of them, leads to a place inside the stream without a sync word. */
  predicate Loses(mem: seq<Byte>, len: nat, p: nat, room: nat)
    requires len + READ_AHEAD <= |mem|
    decreases room
  {
    room > 0 && p < len && (!SyncAt(mem, p) || Loses(mem, len, p + FrameLen(mem, p), room - 1))
  }

  /** The loop never ends exactly when, with room left, the frame lengths lead to a place without a sync word. */
  lemma {:induction false} HangsExactly(mem: seq<Byte>, len: nat, cap: nat, l: Loop)
    requires len + READ_AHEAD <= |mem| && |l.frames| <= cap
    ensures TurnsForEver(mem, len, cap, l) <==> Loses(mem, len, l.p, cap - |l.frames|)
    decreases cap - |l.frames|
  {
    if Ended(len, cap, l) {
      EndedStops(mem, len, cap, l);
    } else if !SyncAt(mem, l.p) {
      StuckTurns(mem, len, cap, l);
    } else {
      HangsExactly(mem, len, cap, Turn(mem, len, cap, l));
      OneTurnOn(mem, len, cap, l);
    }
  }

  lemma {:induction false} OneTurnOn(mem: seq<Byte>, len: nat, cap: nat, l: Loop)
    requires len + READ_AHEAD <= |mem| && !Ended(len, cap, l)
    ensures TurnsForEver(mem, len, cap, l) <==> TurnsForEver(mem, len, cap, Turn(mem, len, cap, l))
  {
    var l' := Turn(mem, len, cap, l);
    forall n: nat
      ensures Turns(mem, len, cap, l, n + 1) == Turns(mem, len, cap, l', n)
    {
    }
    if TurnsForEver(mem, len, cap, l) {
      forall n: nat
        ensures !Ended(len, cap, Turns(mem, len, cap, l', n))
      {
        assert !Ended(len, cap, Turns(mem, len, cap, l, n + 1));
      }
    }
    if TurnsForEver(mem, len, cap, l') {
      forall n: nat
        ensures !Ended(len, cap, Turns(mem, len, cap, l, n))
      {
        if n > 0 {
          assert !Ended(len, cap, Turns(mem, len, cap, l', n - 1));
        }
      }
    }
  }

  /** The walk is the loop: it says Never exactly when the loop turns for ever, and otherwise the loop ends, within one
      turn for each entry, with the frames of the walk behind those it had. */
  lemma {:induction false} WalkIsLoop(mem: seq<Byte>, len: nat, cap: nat, l: Loop)
    requires len + READ_AHEAD <= |mem| && |l.frames| < cap
    ensures var w := WalkFrom(mem, len, l.p, cap - |l.frames|);
            && (w.ending == Never <==> TurnsForEver(mem, len, cap, l))
            && (w.ending != Never ==>
                  && Ended(len, cap, Turns(mem, len, cap, l, cap - |l.frames|))
                  && Turns(mem, len, cap, l, cap - |l.frames|).frames == l.frames + w.frames)
    decreases cap - |l.frames|
  {
    hide WalkFrom, FrameLen, HeaderLen, SyncAt, FrameAt, TurnsForEver;
    var n := cap - |l.frames|;
    if l.p >= len {
      WalkPast(mem, len, l.p, n);
      StuckStays(mem, len, cap, l, n);
      EndedStops(mem, len, cap, l);
    } else {
      WalkStep(mem, len, l.p, n);
      if !SyncAt(mem, l.p) {
        StuckTurns(mem, len, cap, l);
      } else {
        var l' := Turn(mem, len, cap, l);
        OneTurnOn(mem, len, cap, l);
        TurnsFirst(mem, len, cap, l, n);
        if n > 1 {
          var w := WalkFrom(mem, len, l'.p, n - 1);
          WalkIsLoop(mem, len, cap, l');
          assert (l.frames + [FrameAt(mem, l.p)]) + w.frames == l.frames + ([FrameAt(mem, l.p)] + w.frames);
        } else {
          EndedStops(mem, len, cap, l');
        }
      }
    }
  }

  lemma TurnsFirst(mem: seq<Byte>, len: nat, cap: nat, l: Loop, n: nat)
    requires len + READ_AHEAD <= |mem| && n > 0
    ensures Turns(mem, len, cap, l, n) == Turns(mem, len, cap, Turn(mem, len, cap, l), n - 1)
    ensures forall l': Loop :: Turns(mem, len, cap, l', 0) == l'
  {
  }

  lemma EndedStops(mem: seq<Byte>, len: nat, cap: nat, l: Loop)
    requires len + READ_AHEAD <= |mem| && Ended(len, cap, l)
    ensures !TurnsForEver(mem, len, cap, l)
  {
    assert Ended(len, cap, Turns(mem, len, cap, l, 0));
  }

  lemma {:induction false} StuckTurns(mem: seq<Byte>, len: nat, cap: nat, l: Loop)
    requires len + READ_AHEAD <= |mem| && !Ended(len, cap, l) && !SyncAt(mem, l.p)
    ensures TurnsForEver(mem, len, cap, l)
  {
    forall n: nat
      ensures !Ended(len, cap, Turns(mem, len, cap, l, n))
    {
      StuckStays(mem, len, cap, l, n);
    }
  }

  /** A stream of framed packets with anything behind them that does not start with a sync word, such as a byte of padding,
      is never done with, unless the packets fill the table. */
  lemma {:induction false} PaddingHangs(packets: seq<Packet>, padding: seq<Byte>, behind: seq<Byte>, cap: nat)
    requires (forall i | 0 <= i < |packets| :: Framable(packets[i])) && |behind| >= READ_AHEAD
    requires padding != [] && padding[0] != 0xFF && |packets| < cap
    ensures var mem := Encode(packets) + padding + behind;
            TurnsForEver(mem, |Encode(packets)| + |padding|, cap, Loop(0, []))
  {
    var mem, len := Encode(packets) + padding + behind, |Encode(packets)| + |padding|;
    assert mem[0..|Encode(packets)|] == Encode(packets);
    HasSlice(mem, 0, Encode(packets));
    assert mem[|Encode(packets)|] == padding[0];
    LosesBehind(mem, len, 0, packets, cap);
    HangsExactly(mem, len, cap, Loop(0, []));
  }

  lemma {:induction false} LosesBehind(mem: seq<Byte>, len: nat, p: nat, packets: seq<Packet>, room: nat)
    requires (forall i | 0 <= i < |packets| :: Framable(packets[i])) && Has(mem, p, Encode(packets))
    requires p + |Encode(packets)| < len && len + READ_AHEAD <= |mem| && mem[p + |Encode(packets)|] != 0xFF
    requires |packets| < room
    ensures Loses(mem, len, p, room)
    decreases |packets|
  {
    hide FrameLen, HeaderLen, FrameAt, Has, Framable;
    if packets == [] {
      NoPackets(p);
    } else {
      FirstPacket(mem, p, packets);
      LosesBehind(mem, len, p + PacketSize(packets[0]), packets[1..], room - 1);
    }
  }
}
