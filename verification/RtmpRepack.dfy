/**
 The repackers: a frame or stream is split, and the pieces worth sending are copied behind each other into one buffer
 that is as large as the input. Calls into the publishing library are recorded in order; what they return is a parameter.
 */
module RtmpRepack {
  import opened Bytes
  import N = NalSplitter
  import A = AdtsSplitter

  const MAX_NALUS_PER_FRAME: nat := 64
  const MAX_ADTS_PER_FRAME: nat := 128

  const NALU_TYPE_SLICE := 1
  const NALU_TYPE_IDR := 5
  const NALU_TYPE_SPS := 7
  const NALU_TYPE_PPS := 8

  datatype Call =
    | SetVideoTimebase(time: int)
    | SetSps(bytes: seq<Byte>)
    | SetPps(bytes: seq<Byte>)
    | SendVideo(key: bool, bytes: seq<Byte>, time: int)
    | SetAudioTimebase(time: int)
    | SetAac(bytes: seq<Byte>)
    | SendAudio(bytes: seq<Byte>, time: int)

  /** How a call comes out: it returns, it never does, or it reads or writes outside its buffers, of which nothing more is
      said. */
  datatype Outcome = Returns(ret: int) | Hangs | Outside

  /** An unsigned size passed on as an int. */
  function AsInt(n: nat): int {
    if n < 0x8000_0000 then n else n - 0x1_0000_0000
  }

  /** The bytes a piece stands for: none if its size is not positive. */
  function Slice(mem: seq<Byte>, addr: int, size: int): (s: seq<Byte>)
    requires size > 0 ==> 0 <= addr && addr + size <= |mem|
  {
    if size > 0 then mem[addr..addr + size] else []
  }

  // ----- Video -----

  predicate IsBody(nalType: int) { nalType == NALU_TYPE_IDR || nalType == NALU_TYPE_SLICE }

  /** Units with bytes lie in the first `len` bytes. */
  predicate Inside(units: seq<N.NalUnit>, len: int) {
    forall k | 0 <= k < |units| :: units[k].size > 0 ==> 0 <= units[k].addr && units[k].addr + units[k].size <= len
  }

  /** The units of a frame with their own sizes. */
  function Units(mem: seq<Byte>, len: nat): (units: seq<N.NalUnit>)
    requires len + N.READ_AHEAD <= |mem|
    ensures |units| == |N.Scan(mem, len, 0)|
  {
    var starts := N.Scan(mem, len, 0);
    N.ScanOrdered(mem, len, 0);
    seq(|starts|, k requires 0 <= k < |starts| => N.NalOf(mem, starts, k, N.SizeOf(starts, len, k)))
  }

  /** What one unit adds to the buffer. */
  function Body(mem: seq<Byte>, u: N.NalUnit): seq<Byte>
    requires u.size > 0 ==> 0 <= u.addr && u.addr + u.size <= |mem|
  {
    if IsBody(u.nalType) then Slice(mem, u.addr, u.size) else []
  }

  /** What RtmpSendVideo puts into its buffer: the IDR and slice units, in order. */
  function Bodies(mem: seq<Byte>, units: seq<N.NalUnit>): seq<Byte>
    requires Inside(units, |mem|)
  {
    if units == [] then [] else Body(mem, units[0]) + Bodies(mem, units[1..])
  }

  predicate IsPps(u: N.NalUnit) { u.nalType == NALU_TYPE_PPS && u.size > 0 }

  predicate HasPps(units: seq<N.NalUnit>) {
    units != [] && (IsPps(units[0]) || HasPps(units[1..]))
  }

  /** The calls one unit makes, with the flag set. */
  function UnitSetup(mem: seq<Byte>, u: N.NalUnit, time: int): seq<Call>
    requires u.size > 0 ==> 0 <= u.addr && u.addr + u.size <= |mem|
  {
    if IsPps(u) then [SetPps(Slice(mem, u.addr, u.size))]
    else if u.nalType == NALU_TYPE_SPS && u.size > 0 then
      [SetVideoTimebase(time), SetSps(Slice(mem, u.addr, u.size))]
    else []
  }

  /** The parameter sets handed to the library: with the flag set, every SPS up to the first PPS, and that one. */
  function Setup(mem: seq<Byte>, units: seq<N.NalUnit>, restart: bool, time: int): seq<Call>
    requires Inside(units, |mem|)
  {
    if units == [] || !restart then []
    else UnitSetup(mem, units[0], time) + Setup(mem, units[1..], !IsPps(units[0]), time)
  }

  /** For any bytes the units found lie in the frame, and from each unit on the bodies take no more room than the frame
      has left: what is copied fits the buffer. */
  lemma {:induction false} BodiesFit(mem: seq<Byte>, len: nat)
    requires len + N.READ_AHEAD <= |mem|
    ensures Inside(Units(mem, len), len) && |Bodies(mem, Units(mem, len))| <= len
  {
    var starts, units := N.Scan(mem, len, 0), Units(mem, len);
    N.ScanOrdered(mem, len, 0);
    BeginsInside(mem, len, 0);
    forall k | 0 <= k < |units| && units[k].size > 0
      ensures 0 <= units[k].addr && units[k].addr + units[k].size <= len
    {
      assert k + 1 < |starts| ==> N.Begin(starts[k + 1]) <= len;
    }
    BodiesFitFrom(mem, len, 0);
    assert units[0..] == units;
  }

  lemma {:induction false} BeginsInside(mem: seq<Byte>, len: nat, p: nat)
    ensures forall k | 0 <= k < |N.Scan(mem, len, p)| :: N.Begin(N.Scan(mem, len, p)[k]) <= len
    decreases len + 1 - p
  {
    if p <= len {
      BeginsInside(mem, len, if N.LongCode(mem, p) then p + 4 else if N.ShortCode(mem, p) then p + 3 else p + 1);
    }
  }

  lemma {:induction false} BodiesFitFrom(mem: seq<Byte>, len: nat, k: nat)
    requires len + N.READ_AHEAD <= |mem| && k <= |Units(mem, len)| && Inside(Units(mem, len), len)
    ensures Inside(Units(mem, len)[k..], |mem|)
    ensures var starts := N.Scan(mem, len, 0);
            |Bodies(mem, Units(mem, len)[k..])| <= if k < |starts| then len - N.Begin(starts[k]) else 0
    decreases |Units(mem, len)| - k
  {
    var starts, units := N.Scan(mem, len, 0), Units(mem, len);
    N.ScanOrdered(mem, len, 0);
    BeginsInside(mem, len, 0);
    if k < |units| {
      BodiesFitFrom(mem, len, k + 1);
      assert units[k..][1..] == units[k + 1..] && units[k..][0] == units[k];
      assert units[k].size == N.SizeOf(starts, len, k);
    }
  }

  /** What an encoder means by a unit: the low five bits of its first byte. */
  function Kind(u: N.Unit): int { At(u.bytes, 0) % 32 }

  /** The bytes of the IDR units (5) and slices (1) of an encoder. */
  function SentBodies(units: seq<N.Unit>): seq<Byte> {
    if units == [] then []
    else (if Kind(units[0]) == 5 || Kind(units[0]) == 1 then units[0].bytes else []) + SentBodies(units[1..])
  }

  /** The parameter sets of an encoder up to its first PPS (8), with the time base before every SPS (7). */
  function SentSetup(units: seq<N.Unit>, time: int): seq<Call> {
    if units == [] then []
    else if Kind(units[0]) == 8 then [SetPps(units[0].bytes)]
    else
      (if Kind(units[0]) == 7 then [SetVideoTimebase(time), SetSps(units[0].bytes)] else []) + SentSetup(units[1..], time)
  }

  predicate SendsPps(units: seq<N.Unit>) { units != [] && (Kind(units[0]) == 8 || SendsPps(units[1..])) }

  /** End to end: of any sendable units, joined with any mix of start codes, exactly the IDR units and slices are copied,
      in order and byte by byte; and with the flag set exactly the parameter sets up to the first PPS are handed over, in
      order and byte by byte. */
  lemma {:induction false} RepackedUnits(units: seq<N.Unit>, behind: seq<Byte>, restart: bool, time: int)
    requires forall i | 0 <= i < |units| :: N.Sendable(units[i].bytes)
    requires |behind| >= N.READ_AHEAD && !N.CodeAt(behind, 0)
    ensures var mem, len := N.Encode(units) + behind, |N.Encode(units)|;
            && Inside(Units(mem, len), |mem|)
            && Bodies(mem, Units(mem, len)) == SentBodies(units)
            && Setup(mem, Units(mem, len), restart, time) == (if restart then SentSetup(units, time) else [])
            && (HasPps(Units(mem, len)) <==> SendsPps(units))
  {
    var mem, len := N.Encode(units) + behind, |N.Encode(units)|;
    N.ScanInvertsEncode(units, behind);
    HasSlice(mem, 0, N.Encode(units));
    BodiesFit(mem, len);
    RepackedFrom(mem, len, units, 0, time);
    assert Units(mem, len)[0..] == Units(mem, len) && units[0..] == units;
    NotRestarted(mem, Units(mem, len), time);
    hide Units, N.Scan, N.Placed, N.Encode, N.Sendable, Has, Bodies, Setup, SentBodies, SentSetup, HasPps, SendsPps;
  }

  lemma {:induction false} RepackedFrom(mem: seq<Byte>, len: nat, units: seq<N.Unit>, k: nat, time: int)
    requires forall i | 0 <= i < |units| :: N.Sendable(units[i].bytes)
    requires len == |N.Encode(units)| && len + N.READ_AHEAD <= |mem| && Has(mem, 0, N.Encode(units))
    requires N.Scan(mem, len, 0) == N.Placed(units, 0) && k <= |units| && Inside(Units(mem, len), |mem|)
    ensures |Units(mem, len)| == |units| && Inside(Units(mem, len)[k..], |mem|)
    ensures Bodies(mem, Units(mem, len)[k..]) == SentBodies(units[k..])
    ensures Setup(mem, Units(mem, len)[k..], true, time) == SentSetup(units[k..], time)
    ensures HasPps(Units(mem, len)[k..]) <==> SendsPps(units[k..])
    decreases |units| - k
  {
    hide *;
    var found := Units(mem, len);
    FoundOnes(mem, len, units);
    InsideFrom(found, k, |mem|);
    if k < |units| {
      RepackedFrom(mem, len, units, k + 1, time);
      UnitFound(mem, len, units, k);
      KindIs(units[k]);
      assert found[k..][1..] == found[k + 1..] && units[k..][1..] == units[k + 1..];
      assert found[k..][0] == found[k] && units[k..][0] == units[k];
      OneMeant(mem, found[k..], units[k..], time);
    } else {
      assert found[k..] == [] && units[k..] == [];
      NoneMeant(mem, time);
    }
  }

  lemma FoundOnes(mem: seq<Byte>, len: nat, units: seq<N.Unit>)
    requires len + N.READ_AHEAD <= |mem| && N.Scan(mem, len, 0) == N.Placed(units, 0)
    ensures |Units(mem, len)| == |units|
  {
  }

  lemma InsideFrom(units: seq<N.NalUnit>, k: nat, len: int)
    requires Inside(units, len) && k <= |units|
    ensures Inside(units[k..], len)
  {
  }

  lemma KindIs(u: N.Unit)
    ensures u.bytes != [] ==> Kind(u) == u.bytes[0] % 32
  {
  }

  lemma NoneMeant(mem: seq<Byte>, time: int)
    ensures Inside([], |mem|) && Bodies(mem, []) == SentBodies([]) && Setup(mem, [], true, time) == SentSetup([], time)
    ensures HasPps([]) <==> SendsPps([])
  {
  }

  /** One unit that is found as it was sent. */
  lemma {:induction false} OneMeant(mem: seq<Byte>, found: seq<N.NalUnit>, units: seq<N.Unit>, time: int)
    requires found != [] && units != [] && Inside(found, |mem|)
    requires found[0].size > 0 && found[0].nalType == Kind(units[0])
    requires Slice(mem, found[0].addr, found[0].size) == units[0].bytes
    requires Inside(found[1..], |mem|)
    requires Bodies(mem, found[1..]) == SentBodies(units[1..])
    requires Setup(mem, found[1..], true, time) == SentSetup(units[1..], time)
    requires HasPps(found[1..]) <==> SendsPps(units[1..])
    ensures Bodies(mem, found) == SentBodies(units)
    ensures Setup(mem, found, true, time) == SentSetup(units, time)
    ensures HasPps(found) <==> SendsPps(units)
  {
    NotRestarted(mem, found[1..], time);
    hide Slice, Kind, Inside;
  }

  lemma {:induction false} UnitFound(mem: seq<Byte>, len: nat, units: seq<N.Unit>, k: nat)
    requires forall i | 0 <= i < |units| :: N.Sendable(units[i].bytes)
    requires len == |N.Encode(units)| && len + N.READ_AHEAD <= |mem| && Has(mem, 0, N.Encode(units))
    requires N.Scan(mem, len, 0) == N.Placed(units, 0) && k < |units|
    ensures var u, b := Units(mem, len)[k], units[k].bytes;
            u.size == |b| > 0 && u.nalType == b[0] % 32 && 0 <= u.addr && u.addr + u.size <= |mem|
            && Slice(mem, u.addr, u.size) == b
  {
    hide *;
    FoundOnes(mem, len, units);
    UnitEntry(mem, len, k);
    N.PlacedUnits(mem, 0, units, k);
    SliceHas(mem, N.Scan(mem, len, 0)[k].addr, units[k].bytes);
  }

  lemma {:induction false} SliceHas(mem: seq<Byte>, addr: nat, b: seq<Byte>)
    requires b != [] && Has(mem, addr, b)
    ensures addr + |b| <= |mem| && Slice(mem, addr, |b|) == b && mem[addr] == b[0]
  {
    hide Has;
    HasAt(mem, addr, b);
    assert mem[addr + 0] == b[0];
    assert mem[addr..addr + |b|] == b;
  }

  lemma {:induction false} UnitEntry(mem: seq<Byte>, len: nat, k: nat)
    requires len + N.READ_AHEAD <= |mem| && k < |Units(mem, len)|
    ensures var starts := N.Scan(mem, len, 0);
            && starts[k].addr < |mem|
            && Units(mem, len)[k] == N.NalUnit(starts[k].addr, N.SizeOf(starts, len, k), mem[starts[k].addr] % 32)
  {
    N.ScanOrdered(mem, len, 0);
  }

  // ----- The size as it is written -----

  /** The units with the sizes the source stores: the last one measured from the unit before. */
  function UnitsAsWritten(mem: seq<Byte>, len: nat): (units: seq<N.NalUnit>)
    requires len + N.READ_AHEAD <= |mem|
    ensures |units| == |N.Scan(mem, len, 0)|
  {
    var starts := N.Scan(mem, len, 0);
    N.ScanOrdered(mem, len, 0);
    seq(|starts|, k requires 0 <= k < |starts| => N.NalOf(mem, starts, k, N.SizeAsWritten(starts, len, k)))
  }

  /** The number of bytes copied. */
  function Total(units: seq<N.NalUnit>): nat {
    if units == [] then 0
    else
      var u := units[|units| - 1];
      Total(units[..|units| - 1]) + if IsBody(u.nalType) && u.size > 0 then u.size else 0
  }

  /** What is as intended: all but the size of the last of several units. */
  lemma {:induction false} AsWrittenParts(mem: seq<Byte>, len: nat)
    requires len + N.READ_AHEAD <= |mem| && N.Scan(mem, len, 0) != []
    ensures var units, written, last := Units(mem, len), UnitsAsWritten(mem, len), |Units(mem, len)| - 1;
            && (forall k | 0 <= k < last :: units[k] == written[k])
            && written[last].nalType == units[last].nalType && written[last].addr == units[last].addr
            && (if last == 0 then written == units
                else written[last].size == len - units[last - 1].addr >= 0 && units[last].addr > units[last - 1].addr)
  {
    var starts, units, written, last := N.Scan(mem, len, 0), Units(mem, len), UnitsAsWritten(mem, len), |Units(mem, len)| - 1;
    N.ScanOrdered(mem, len, 0);
    BeginsInside(mem, len, 0);
    assert forall k | 0 <= k < last :: units[k] == written[k];
    if last > 0 {
      assert starts[last - 1].addr <= N.Begin(starts[last]) <= len;
    }
  }

  /**
   With the size as it is written, everything copied comes from the frame exactly when the frame has a single unit, or
   its last unit is not a body, or nothing stands behind the start code of the unit before it. It fits the buffer
   exactly in these cases and when the bodies before the last unit take no more bytes than stand before the unit before
   the last.
   */
  lemma {:induction false} AsWrittenExact(mem: seq<Byte>, len: nat)
    requires len + N.READ_AHEAD <= |mem| && N.Scan(mem, len, 0) != []
    ensures var units, written, last := Units(mem, len), UnitsAsWritten(mem, len), |Units(mem, len)| - 1;
            var stays := last == 0 || !IsBody(units[last].nalType) || units[last - 1].addr == len;
            && (stays <==> BodiesInside(written, len))
            && (Total(written) <= len <==> stays || Total(units[..last]) <= units[last - 1].addr)
  {
    hide *;
    AsWrittenParts(mem, len);
    BodiesFit(mem, len);
    InsideMemory(Units(mem, len), len, |mem|);
    TotalBodies(mem, Units(mem, len));
    StaysExactly(Units(mem, len), UnitsAsWritten(mem, len), len);
  }

  lemma InsideMemory(units: seq<N.NalUnit>, len: int, len': int)
    requires Inside(units, len) && len <= len'
    ensures Inside(units, len')
  {
  }

  /** The same for any units that lie in a frame, of which the last is taken to begin where the one before it does. */
  lemma {:induction false} StaysExactly(units: seq<N.NalUnit>, written: seq<N.NalUnit>, len: nat)
    requires |units| == |written| > 0 && Inside(units, len) && Total(units) <= len
    requires forall k | 0 <= k < |units| - 1 :: units[k] == written[k]
    requires var last := |units| - 1;
             && written[last].nalType == units[last].nalType && written[last].addr == units[last].addr
             && (if last == 0 then written == units
                 else written[last].size == len - units[last - 1].addr >= 0 && units[last].addr > units[last - 1].addr)
    ensures var last := |units| - 1;
            var stays := last == 0 || !IsBody(units[last].nalType) || units[last - 1].addr == len;
            && (stays <==> BodiesInside(written, len))
            && (Total(written) <= len <==> stays || Total(units[..last]) <= units[last - 1].addr)
  {
    hide IsBody;
    var last := |units| - 1;
    assert units[..last] == written[..last];
    if last > 0 && IsBody(units[last].nalType) && units[last - 1].addr != len {
      assert !BodiesInside(written, len) by {
        assert written[last].size > 0 && written[last].addr + written[last].size > len;
      }
    }
  }

  /** A frame of two slices for which one byte too many is copied. */
  lemma AsWrittenOverruns()
    ensures var mem := [0, 0, 1, 0x41, 9, 9, 9, 0, 0, 1, 0x41] + [9, 9, 9, 9, 9];
            Total(UnitsAsWritten(mem, 11)) == 12
  {
    var mem: seq<Byte> := [0, 0, 1, 0x41, 9, 9, 9, 0, 0, 1, 0x41] + [9, 9, 9, 9, 9];
    N.ScanSkips(mem, 11, 3, 7);
    N.ScanSkips(mem, 11, 10, 12);
    assert N.Scan(mem, 11, 7) == [N.Start(10, 3)];
    assert N.Scan(mem, 11, 0) == [N.Start(3, 3), N.Start(10, 3)];
    var written := UnitsAsWritten(mem, 11);
    assert written == [N.NalUnit(3, 4, 1), N.NalUnit(10, 8, 1)];
    assert Total(written[..1]) == 4;
  }

  predicate BodiesInside(units: seq<N.NalUnit>, len: int) {
    forall k | 0 <= k < |units| && IsBody(units[k].nalType) && units[k].size > 0 :: units[k].addr + units[k].size <= len
  }

  lemma {:induction false} TotalBodies(mem: seq<Byte>, units: seq<N.NalUnit>)
    requires Inside(units, |mem|)
    ensures Total(units) == |Bodies(mem, units)|
    decreases |units|
  {
    if units != [] {
      var front, last := units[..|units| - 1], units[|units| - 1];
      TotalBodies(mem, front);
      assert units == front + [last] && last == units[|units| - 1];
      assert [last][1..] == [];
      BodiesConcat(mem, front, [last]);
    }
  }

  lemma {:induction false} InsideConcat(a: seq<N.NalUnit>, b: seq<N.NalUnit>, len: int)
    requires a != [] && Inside(a, len) && Inside(b, len)
    ensures Inside(a + b, len) && Inside(a[1..], len) && (a[0].size > 0 ==> 0 <= a[0].addr && a[0].addr + a[0].size <= len)
  {
  }

  lemma {:induction false} BodiesConcat(mem: seq<Byte>, a: seq<N.NalUnit>, b: seq<N.NalUnit>)
    requires Inside(a, |mem|) && Inside(b, |mem|)
    ensures Inside(a + b, |mem|) && Bodies(mem, a + b) == Bodies(mem, a) + Bodies(mem, b)
    decreases |a|
  {
    hide *;
    if a == [] {
      NoBodies(mem);
      assert a + b == b;
    } else {
      InsideConcat(a, b, |mem|);
      BodiesUnfold(mem, a);
      BodiesUnfold(mem, a + b);
      assert (a + b)[1..] == a[1..] + b && (a + b)[0] == a[0];
      BodiesConcat(mem, a[1..], b);
    }
  }

  lemma NoBodies(mem: seq<Byte>)
    ensures Inside([], |mem|) && Bodies(mem, []) == []
  {
  }

  lemma {:induction false} BodiesUnfold(mem: seq<Byte>, units: seq<N.NalUnit>)
    requires units != [] && Inside(units, |mem|)
    ensures Inside(units[1..], |mem|)
    ensures units[0].size > 0 ==> 0 <= units[0].addr && units[0].addr + units[0].size <= |mem|
    ensures Bodies(mem, units) == Body(mem, units[0]) + Bodies(mem, units[1..])
  {
    hide Body;
  }

  // ----- Runs of frames -----

  datatype Frame = Frame(mem: seq<Byte>, units: seq<N.NalUnit>, time: int)

  /** The parameter sets handed over while sending frames one after the other; the flag is cleared by the first PPS. */
  function Setups(frames: seq<Frame>, restart: bool): seq<Call>
    requires forall i | 0 <= i < |frames| :: Inside(frames[i].units, |frames[i].mem|)
  {
    if frames == [] then []
    else
      var f := frames[0];
      Setup(f.mem, f.units, restart, f.time) + Setups(frames[1..], restart && !HasPps(f.units))
  }

  predicate AnyPps(frames: seq<Frame>) {
    frames != [] && (HasPps(frames[0].units) || AnyPps(frames[1..]))
  }

  /** A frame's setup ends with a PPS, its only one, exactly when the flag was set and the frame has one. */
  lemma {:induction false} SetupEnds(mem: seq<Byte>, units: seq<N.NalUnit>, restart: bool, time: int)
    requires Inside(units, |mem|)
    ensures var calls := Setup(mem, units, restart, time);
            && (forall i | 0 <= i < |calls| - 1 :: !calls[i].SetPps?)
            && (restart && HasPps(units) <==> calls != [] && calls[|calls| - 1].SetPps?)
            && (!restart ==> calls == [])
    decreases units
  {
    if units != [] && restart {
      SetupEnds(mem, units[1..], !IsPps(units[0]), time);
    }
  }

  /** However many frames are sent over a connection, one PPS at most is handed over, and no parameter set after it;
      one is handed over exactly when a frame has one. */
  lemma {:induction false} ParametersSetOnce(frames: seq<Frame>, restart: bool)
    requires forall i | 0 <= i < |frames| :: Inside(frames[i].units, |frames[i].mem|)
    ensures var calls := Setups(frames, restart);
            && (forall i | 0 <= i < |calls| - 1 :: !calls[i].SetPps?)
            && (calls != [] && calls[|calls| - 1].SetPps? <==> restart && AnyPps(frames))
            && (!restart ==> calls == [])
    decreases frames
  {
    hide Setup, HasPps, Inside;
    if frames != [] {
      var f := frames[0];
      SetupEnds(f.mem, f.units, restart, f.time);
      ParametersSetOnce(frames[1..], restart && !HasPps(f.units));
      LastOfTwo(Setup(f.mem, f.units, restart, f.time), Setups(frames[1..], restart && !HasPps(f.units)));
    }
  }

  /** Calls put behind others, of which none is a PPS unless nothing follows. */
  lemma LastOfTwo(a: seq<Call>, b: seq<Call>)
    ensures (forall i | 0 <= i < |a| - 1 :: !a[i].SetPps?) && (forall i | 0 <= i < |b| - 1 :: !b[i].SetPps?)
            && (b != [] ==> a == [] || !a[|a| - 1].SetPps?) ==>
              forall i | 0 <= i < |a + b| - 1 :: !(a + b)[i].SetPps?
    ensures b != [] ==> (a + b)[|a + b| - 1] == b[|b| - 1]
    ensures b == [] ==> a + b == a
  {
  }

  // ----- Audio -----

  predicate FramesInside(frames: seq<A.Adts>, len: int) {
    forall k | 0 <= k < |frames| :: frames[k].size > 0 ==> 0 <= frames[k].addr && frames[k].addr + frames[k].size <= len
  }

  /** What RtmpSendAudio puts into its buffer. */
  function Payloads(mem: seq<Byte>, frames: seq<A.Adts>): seq<Byte>
    requires FramesInside(frames, |mem|)
  {
    if frames == [] then []
    else Slice(mem, frames[0].addr, frames[0].size) + Payloads(mem, frames[1..])
  }

  /** Where the loop of the splitter stops. */
  function EndOf(mem: seq<Byte>, len: nat, p: nat, room: nat): nat
    requires len + A.READ_AHEAD <= |mem| && room >= 1
    decreases room
  {
    if p >= len || !A.SyncAt(mem, p) then p
    else if room == 1 then p + A.FrameLen(mem, p)
    else EndOf(mem, len, p + A.FrameLen(mem, p), room - 1)
  }

  /** When the walk comes to the end, its frames lie in the stream exactly when the last of them does: when it ends where
      the stream ends, or has no payload. */
  lemma {:induction false} FramesInsideExact(mem: seq<Byte>, len: nat, p: nat, room: nat)
    requires len + A.READ_AHEAD <= |mem| && room >= 1 && p < len
    requires A.WalkFrom(mem, len, p, room).ending == A.Complete
    ensures var frames := A.WalkFrom(mem, len, p, room).frames;
            && frames != []
            && (FramesInside(frames, len) <==> EndOf(mem, len, p, room) == len || frames[|frames| - 1].size <= 0)
    decreases room
  {
    var q := p + A.FrameLen(mem, p);
    var w, rest := A.WalkFrom(mem, len, p, room), A.WalkFrom(mem, len, q, room - 1);
    assert w.frames == [w.frames[0]] + rest.frames;
    assert FramesInside(rest.frames, len) && (w.frames[0].size > 0 ==> q <= len) ==> FramesInside(w.frames, len);
    if FramesInside(w.frames, len) {
      forall k | 0 <= k < |rest.frames| && rest.frames[k].size > 0
        ensures 0 <= rest.frames[k].addr && rest.frames[k].addr + rest.frames[k].size <= len
      {
        assert rest.frames[k] == w.frames[k + 1];
      }
    }
    if q < len {
      FramesInsideExact(mem, len, q, room - 1);
    }
  }

  /** Frames that lie in the stream fit the buffer. */
  lemma {:induction false} PayloadsFit(mem: seq<Byte>, len: nat, p: nat, room: nat)
    requires len + A.READ_AHEAD <= |mem| && room >= 1 && p <= len
    requires FramesInside(A.WalkFrom(mem, len, p, room).frames, len)
    ensures FramesInside(A.WalkFrom(mem, len, p, room).frames, |mem|)
    ensures p + |Payloads(mem, A.WalkFrom(mem, len, p, room).frames)| <= len
    decreases room
  {
    hide A.WalkFrom, A.SyncAt, A.FrameLen, A.HeaderLen, Slice, FramesInside, Payloads;
    var frames := A.WalkFrom(mem, len, p, room).frames;
    InsideMore(frames, len, |mem|);
    NoFrames(mem);
    if p == len {
      A.WalkPast(mem, len, p, room);
    } else {
      A.WalkStep(mem, len, p, room);
      if A.SyncAt(mem, p) {
        var f, q := A.FrameAt(mem, p), p + A.FrameLen(mem, p);
        var rest := if room == 1 then [] else A.WalkFrom(mem, len, q, room - 1).frames;
        assert frames == [f] + rest && f.addr + f.size == q;
        FramesCut(f, rest, len);
        InsideMore(rest, len, |mem|);
        OneFrame(mem, f, len);
        PayloadsConcat(mem, [f], rest);
        if room > 1 && q <= len {
          PayloadsFit(mem, len, q, room - 1);
        } else if room > 1 {
          A.WalkPast(mem, len, q, room - 1);
        }
        SliceLength(mem, f);
      }
    }
  }

  lemma SomeFrames(mem: seq<Byte>, len: nat, room: nat)
    requires 0 < len && len + A.READ_AHEAD <= |mem| && room >= 1 && A.WalkFrom(mem, len, 0, room).ending == A.Complete
    ensures 0 < |A.WalkFrom(mem, len, 0, room).frames| < room
  {
    A.WalkStep(mem, len, 0, room);
  }

  lemma NoFrames(mem: seq<Byte>)
    ensures FramesInside([], |mem|) && Payloads(mem, []) == []
  {
  }

  lemma SliceLength(mem: seq<Byte>, f: A.Adts)
    requires f.size > 0 ==> 0 <= f.addr && f.addr + f.size <= |mem|
    ensures |Slice(mem, f.addr, f.size)| == if f.size > 0 then f.size else 0
  {
  }

  lemma {:induction false} FramesCut(f: A.Adts, rest: seq<A.Adts>, len: int)
    requires FramesInside([f] + rest, len)
    ensures FramesInside(rest, len) && (f.size > 0 ==> 0 <= f.addr && f.addr + f.size <= len)
  {
    var frames := [f] + rest;
    assert frames[0] == f && forall k {:trigger rest[k]} | 0 <= k < |rest| :: rest[k] == frames[k + 1];
  }

  /** The payloads of the packets a sender frames, one after the other. */
  function SentPayloads(packets: seq<A.Packet>): seq<Byte> {
    if packets == [] then [] else packets[0].payload + SentPayloads(packets[1..])
  }

  /** End to end: of any framed packets, fewer than the table has room for, exactly the payloads are copied, in order. */
  lemma {:induction false} RepackedPackets(packets: seq<A.Packet>, behind: seq<Byte>)
    requires (forall i | 0 <= i < |packets| :: A.Framable(packets[i])) && |behind| >= A.READ_AHEAD
    requires |packets| < MAX_ADTS_PER_FRAME
    ensures var mem, len := A.Encode(packets) + behind, |A.Encode(packets)|;
            var w := A.WalkFrom(mem, len, 0, MAX_ADTS_PER_FRAME);
            && w.ending == A.Complete && |w.frames| == |packets| && FramesInside(w.frames, len)
            && FramesInside(w.frames, |mem|) && Payloads(mem, w.frames) == SentPayloads(packets)
  {
    hide *;
    var mem, len := A.Encode(packets) + behind, |A.Encode(packets)|;
    A.WalkInvertsEncode(packets, behind, MAX_ADTS_PER_FRAME);
    assert mem[0..len] == A.Encode(packets);
    HasSlice(mem, 0, A.Encode(packets));
    PlacedInside(mem, 0, packets);
    InsideMore(A.Placed(packets, 0), len, |mem|);
    PlacedPayloads(mem, 0, packets);
  }

  lemma {:induction false} PlacedInside(mem: seq<Byte>, p: nat, packets: seq<A.Packet>)
    requires (forall i | 0 <= i < |packets| :: A.Framable(packets[i])) && Has(mem, p, A.Encode(packets))
    ensures FramesInside(A.Placed(packets, p), p + |A.Encode(packets)|) && p + |A.Encode(packets)| <= |mem|
    decreases packets
  {
    if packets != [] {
      var q := p + A.PacketSize(packets[0]);
      FirstPlaced(mem, p, packets);
      PlacedInside(mem, q, packets[1..]);
      var f, rest, end := A.Placed(packets, p)[0], A.Placed(packets[1..], q), p + |A.Encode(packets)|;
      OneFrame(mem, f, end);
      FramesConcat([f], rest, end);
    } else {
      HasAt(mem, p, []);
    }
  }

  lemma {:induction false} PlacedPayloads(mem: seq<Byte>, p: nat, packets: seq<A.Packet>)
    requires (forall i | 0 <= i < |packets| :: A.Framable(packets[i])) && Has(mem, p, A.Encode(packets))
    requires FramesInside(A.Placed(packets, p), |mem|)
    ensures Payloads(mem, A.Placed(packets, p)) == SentPayloads(packets)
    decreases packets
  {
    if packets != [] {
      var q := p + A.PacketSize(packets[0]);
      FirstPlaced(mem, p, packets);
      var placed, rest := A.Placed(packets, p), A.Placed(packets[1..], q);
      assert [placed[0]][1..] == [] && placed[1..] == rest;
      FramesConcat(placed, [], |mem|);
      PlacedPayloads(mem, q, packets[1..]);
      hide A.Encode, A.EncodeOne, A.Placed, A.Framable, A.PacketSize, A.HeaderSize, Has, FramesInside, Slice;
    }
  }

  lemma {:induction false} InsideMore(frames: seq<A.Adts>, len: int, more: int)
    requires FramesInside(frames, len) && len <= more
    ensures FramesInside(frames, more)
  {
  }

  lemma {:induction false} OneFrame(mem: seq<Byte>, f: A.Adts, len: nat)
    requires len <= |mem| && (f.size > 0 ==> 0 <= f.addr && f.addr + f.size <= len)
    ensures FramesInside([f], len) && FramesInside([f], |mem|) && Payloads(mem, [f]) == Slice(mem, f.addr, f.size)
  {
    assert [f][1..] == [];
  }

  lemma {:induction false} PayloadSlice(mem: seq<Byte>, at: nat, b: seq<Byte>)
    requires Has(mem, at, b)
    ensures at + |b| <= |mem| && Slice(mem, at, |b|) == b
  {
    HasAt(mem, at, b);
    assert mem[at..at + |b|] == b;
  }

  lemma {:induction false} FirstPlaced(mem: seq<Byte>, p: nat, packets: seq<A.Packet>)
    requires (forall i | 0 <= i < |packets| :: A.Framable(packets[i])) && Has(mem, p, A.Encode(packets))
    requires packets != []
    ensures var k := packets[0];
            var f, q := A.Placed(packets, p)[0], p + A.PacketSize(k);
            && Has(mem, q, A.Encode(packets[1..])) && q + |A.Encode(packets[1..])| == p + |A.Encode(packets)| <= |mem|
            && A.Placed(packets, p) == [f] + A.Placed(packets[1..], q)
            && 0 <= f.addr && f.addr + f.size == q && f.size == |k.payload|
            && Slice(mem, f.addr, f.size) == k.payload
  {
    hide *;
    var k := packets[0];
    var at := p + A.HeaderSize(k);
    A.FirstPacket(mem, p, packets);
    PayloadSlice(mem, at, k.payload);
  }

  // ----- The context -----

  /** What one unit adds; and the rest still has its room. */
  lemma {:induction false} BodiesStep(mem: seq<Byte>, units: seq<N.NalUnit>, i: nat)
    requires i < |units| && Inside(units, |mem|)
    ensures Inside(units[..i], |mem|) && Inside(units[..i + 1], |mem|)
    ensures units[i].size > 0 ==> 0 <= units[i].addr && units[i].addr + units[i].size <= |mem|
    ensures Bodies(mem, units[..i + 1]) == Bodies(mem, units[..i]) + Body(mem, units[i])
    ensures |Bodies(mem, units[..i + 1])| <= |Bodies(mem, units)|
  {
    hide *;
    UnitsCut(units, i, |mem|);
    OneUnit(mem, units[i]);
    BodiesConcat(mem, units[..i], [units[i]]);
    BodiesConcat(mem, units[..i + 1], units[i + 1..]);
  }

  lemma {:induction false} UnitsCut(units: seq<N.NalUnit>, i: nat, len: int)
    requires i < |units| && Inside(units, len)
    ensures Inside(units[..i], len) && Inside(units[..i + 1], len) && Inside(units[i + 1..], len)
    ensures units[i].size > 0 ==> 0 <= units[i].addr && units[i].addr + units[i].size <= len
    ensures units[..i + 1] == units[..i] + [units[i]] && units == units[..i + 1] + units[i + 1..]
  {
    assert forall k {:trigger units[i + 1..][k]} | 0 <= k < |units| - i - 1 :: units[i + 1..][k] == units[k + i + 1];
  }

  lemma OneUnit(mem: seq<Byte>, u: N.NalUnit)
    requires u.size > 0 ==> 0 <= u.addr && u.addr + u.size <= |mem|
    ensures Inside([u], |mem|) && Bodies(mem, [u]) == Body(mem, u)
  {
    assert [u][1..] == [];
  }

  lemma {:induction false} SetupStep(mem: seq<Byte>, units: seq<N.NalUnit>, i: nat, restart: bool, time: int)
    requires i < |units| && Inside(units, |mem|)
    ensures Inside(units[..i], |mem|) && Inside(units[..i + 1], |mem|)
    ensures units[i].size > 0 ==> 0 <= units[i].addr && units[i].addr + units[i].size <= |mem|
    ensures Setup(mem, units[..i + 1], restart, time) ==
            Setup(mem, units[..i], restart, time) +
              if restart && !HasPps(units[..i]) then UnitSetup(mem, units[i], time) else []
    ensures HasPps(units[..i + 1]) <==> HasPps(units[..i]) || IsPps(units[i])
    decreases i
  {
    hide *;
    UnitsCut(units, i, |mem|);
    OneSetup(mem, units[i], restart && !HasPps(units[..i]), time);
    SetupConcat(mem, units[..i], [units[i]], restart, time);
  }

  lemma OneSetup(mem: seq<Byte>, u: N.NalUnit, restart: bool, time: int)
    requires u.size > 0 ==> 0 <= u.addr && u.addr + u.size <= |mem|
    ensures Inside([u], |mem|) && (HasPps([u]) <==> IsPps(u))
    ensures Setup(mem, [u], restart, time) == if restart then UnitSetup(mem, u, time) else []
  {
    assert [u][1..] == [];
  }

  lemma {:induction false} SetupConcat(
      mem: seq<Byte>, a: seq<N.NalUnit>, b: seq<N.NalUnit>, restart: bool, time: int)
    requires Inside(a, |mem|) && Inside(b, |mem|)
    ensures Inside(a + b, |mem|) && (HasPps(a + b) <==> HasPps(a) || HasPps(b))
    ensures Setup(mem, a + b, restart, time) == Setup(mem, a, restart, time) + Setup(mem, b, restart && !HasPps(a), time)
    decreases |a|
  {
    hide *;
    NotRestarted(mem, b, time);
    if a == [] {
      NoSetup(mem, restart, time);
      assert a + b == b;
    } else {
      InsideConcat(a, b, |mem|);
      NotRestarted(mem, a, time);
      NotRestarted(mem, a + b, time);
      SetupUnfold(mem, a, restart, time);
      SetupUnfold(mem, a + b, restart, time);
      assert (a + b)[1..] == a[1..] + b && (a + b)[0] == a[0];
      SetupConcat(mem, a[1..], b, restart && !IsPps(a[0]), time);
      NotRestarted(mem, a[1..], time);
    }
  }

  lemma NoSetup(mem: seq<Byte>, restart: bool, time: int)
    ensures Inside([], |mem|) && Setup(mem, [], restart, time) == [] && !HasPps([])
  {
  }

  lemma {:induction false} SetupUnfold(mem: seq<Byte>, units: seq<N.NalUnit>, restart: bool, time: int)
    requires units != [] && Inside(units, |mem|)
    ensures Inside(units[1..], |mem|)
    ensures units[0].size > 0 ==> 0 <= units[0].addr && units[0].addr + units[0].size <= |mem|
    ensures restart ==>
              Setup(mem, units, restart, time) == UnitSetup(mem, units[0], time) + Setup(mem, units[1..], !IsPps(units[0]), time)
    ensures HasPps(units) <==> IsPps(units[0]) || HasPps(units[1..])
  {
    hide UnitSetup, IsPps;
  }

  lemma NotRestarted(mem: seq<Byte>, units: seq<N.NalUnit>, time: int)
    requires Inside(units, |mem|)
    ensures Setup(mem, units, false, time) == []
  {
  }

  lemma {:induction false} FramesConcat(a: seq<A.Adts>, b: seq<A.Adts>, len: int)
    requires a != [] && FramesInside(a, len) && FramesInside(b, len)
    ensures FramesInside(a + b, len) && FramesInside(a[1..], len)
    ensures a[0].size > 0 ==> 0 <= a[0].addr && a[0].addr + a[0].size <= len
  {
  }

  lemma {:induction false} PayloadsConcat(mem: seq<Byte>, a: seq<A.Adts>, b: seq<A.Adts>)
    requires FramesInside(a, |mem|) && FramesInside(b, |mem|)
    ensures FramesInside(a + b, |mem|) && Payloads(mem, a + b) == Payloads(mem, a) + Payloads(mem, b)
    decreases a
  {
    if a == [] {
      assert a + b == b;
    } else {
      assert (a + b)[1..] == a[1..] + b && (a + b)[0] == a[0];
      FramesConcat(a, b, |mem|);
      PayloadsConcat(mem, a[1..], b);
      hide Slice, FramesInside;
      var first := Slice(mem, a[0].addr, a[0].size);
      assert first + (Payloads(mem, a[1..]) + Payloads(mem, b)) == (first + Payloads(mem, a[1..])) + Payloads(mem, b);
    }
  }

  lemma {:induction false} PayloadsStep(mem: seq<Byte>, frames: seq<A.Adts>, i: nat)
    requires i < |frames| && FramesInside(frames, |mem|)
    ensures FramesInside(frames[..i], |mem|) && FramesInside(frames[..i + 1], |mem|)
    ensures frames[i].size > 0 ==> 0 <= frames[i].addr && frames[i].addr + frames[i].size <= |mem|
    ensures Payloads(mem, frames[..i + 1]) ==
            Payloads(mem, frames[..i]) + Slice(mem, frames[i].addr, frames[i].size)
    ensures |Payloads(mem, frames[..i + 1])| <= |Payloads(mem, frames)|
  {
    var f, a, b := [frames[i]], frames[..i], frames[i + 1..];
    assert frames[..i + 1] == a + f && frames == frames[..i + 1] + b && f[1..] == [];
    PayloadsConcat(mem, a, f);
    PayloadsConcat(mem, frames[..i + 1], b);
  }

  lemma Assoc(a: seq<Call>, b: seq<Call>, c: seq<Call>)
    ensures a + b + c == a + (b + c)
  {
  }

  /** memcpy */
  method MemCpy(buf: array<Byte>, to: nat, mem: seq<Byte>, from: nat, n: nat)
    requires to + n <= buf.Length && from + n <= |mem|
    modifies buf
    ensures buf[..to + n] == old(buf[..to]) + mem[from..from + n]
  {
    forall i | 0 <= i < n {
      buf[to + i] := mem[from + i];
    }
  }

  class RtmpContext {
    var videoRestart: bool
    var audioRestart: bool
    /** Whether the context has its publisher. */
    var publisher: bool
    /** The calls made into the publishing library so far. */
    var calls: seq<Call>

    /** RtmpNewContext: whether there is a URL and memory, whether the library makes its own context, and what its
        initialisation returns. */
    static method RtmpNewContext(url: bool, memory: bool, made: bool, init: int) returns (context: RtmpContext?)
      ensures context != null <==> url && memory && made && init == 0
      ensures context != null ==>
                fresh(context) && context.videoRestart && context.audioRestart && context.publisher && context.calls == []
    {
      context := null;
      if !url || !memory || !made || init != 0 {
        return;
      }
      context := new RtmpContext();
    }

    constructor ()
      ensures videoRestart && audioRestart && publisher && calls == []
    {
      videoRestart, audioRestart, publisher, calls := true, true, true, [];
    }

    /** One turn of the loop of RtmpSendVideo. */
    method RepackUnit(mem: seq<Byte>, u: N.NalUnit, time: int, buf: array<Byte>, at: nat) returns (at': nat)
      requires u.size > 0 ==> 0 <= u.addr && u.addr + u.size <= |mem|
      requires at + |Body(mem, u)| <= buf.Length
      modifies this, buf
      ensures audioRestart == old(audioRestart) && publisher == old(publisher)
      ensures at' <= buf.Length && buf[..at'] == old(buf[..at]) + Body(mem, u)
      ensures calls == old(calls) + if old(videoRestart) then UnitSetup(mem, u, time) else []
      ensures videoRestart == (old(videoRestart) && !IsPps(u))
    {
      at' := at;
      if u.nalType == NALU_TYPE_SPS {
        if u.size > 0 && videoRestart {
          calls := calls + [SetVideoTimebase(time), SetSps(mem[u.addr..u.addr + u.size])];
        }
      } else if u.nalType == NALU_TYPE_PPS {
        if u.size > 0 && videoRestart {
          calls := calls + [SetPps(mem[u.addr..u.addr + u.size])];
          videoRestart := false;
        }
      } else if u.nalType == NALU_TYPE_IDR || u.nalType == NALU_TYPE_SLICE {
        if u.size > 0 {
          MemCpy(buf, at, mem, u.addr, u.size);
          at' := at + u.size;
        }
      }
    }

    method RepackVideo(mem: seq<Byte>, units: seq<N.NalUnit>, time: int, buf: array<Byte>) returns (at: nat)
      requires Inside(units, |mem|) && |Bodies(mem, units)| <= buf.Length
      modifies this, buf
      ensures audioRestart == old(audioRestart) && publisher == old(publisher)
      ensures at <= buf.Length && buf[..at] == Bodies(mem, units)
      ensures calls == old(calls) + Setup(mem, units, old(videoRestart), time)
      ensures videoRestart == (old(videoRestart) && !HasPps(units))
    {
      assert units[..0] == [] && units[..|units|] == units;
      assert Setup(mem, [], old(videoRestart), time) == [] && Bodies(mem, []) == [] && !HasPps([]);
      at := 0;
      hide *;
      for i := 0 to |units|
        invariant Inside(units[..i], |mem|) && at <= buf.Length && buf[..at] == Bodies(mem, units[..i])
        invariant calls == old(calls) + Setup(mem, units[..i], old(videoRestart), time)
        invariant videoRestart == (old(videoRestart) && !HasPps(units[..i]))
        invariant audioRestart == old(audioRestart) && publisher == old(publisher)
      {
        ghost var before, flag := Setup(mem, units[..i], old(videoRestart), time), videoRestart;
        BodiesStep(mem, units, i);
        SetupStep(mem, units, i, old(videoRestart), time);
        at := RepackUnit(mem, units[i], time, buf, at);
        Assoc(old(calls), before, if flag then UnitSetup(mem, units[i], time) else []);
      }
    }

    /** RtmpSendVideo, with the last size measured from the last unit. `sent` is what the library returns. The call stores
        outside the table of units exactly when the frame has none, or more than 64. */
    method RtmpSendVideo(mem: seq<Byte>, size: nat, isKey: bool, time: int, sent: int) returns (r: Outcome)
      requires size < 0x1_0000_0000
      requires AsInt(size) > 0 ==> size + N.READ_AHEAD <= |mem|
      modifies this
      ensures audioRestart == old(audioRestart) && publisher == old(publisher)
      ensures AsInt(size) <= 0 ==> r == Returns(-1) && calls == old(calls) && videoRestart == old(videoRestart)
      ensures !r.Hangs?
      ensures r.Outside? <==> AsInt(size) > 0 && !(1 <= |N.Scan(mem, size, 0)| <= MAX_NALUS_PER_FRAME)
      ensures AsInt(size) > 0 && !r.Outside? ==>
                var units := Units(mem, size);
                && Inside(units, |mem|) && |Bodies(mem, units)| <= size
                && calls == old(calls) + Setup(mem, units, old(videoRestart), time)
                            + [SendVideo(isKey, Bodies(mem, units), time)]
                && videoRestart == (old(videoRestart) && !HasPps(units))
                && r == Returns(if sent != 0 then -1 else 0)
    {
      var nalus := new N.NalUnit[MAX_NALUS_PER_FRAME](_ => N.NalUnit(0, 0, 0));
      var buf := new Byte[size](_ => 0);
      var decoded, count, outside := N.H264DecodeFrameIntended(mem, AsInt(size), nalus, MAX_NALUS_PER_FRAME);
      if AsInt(size) > 0 {
        N.TableExactly(mem, size, MAX_NALUS_PER_FRAME);
      }
      if outside {
        return Outside;
      }
      if decoded != N.DECODE_OK {
        return Returns(-1);
      }
      ghost var units := Units(mem, size);
      BodiesFit(mem, size);
      assert nalus[..count] == units;
      var at := RepackVideo(mem, nalus[..count], time, buf);
      calls := calls + [SendVideo(isKey, buf[..at], time)];
      return Returns(if sent != 0 then -1 else 0);
    }

    /** One turn of the loop of RtmpSendAudio. */
    static method RepackFrame(mem: seq<Byte>, f: A.Adts, buf: array<Byte>, at: nat) returns (at': nat)
      requires f.size > 0 ==> 0 <= f.addr && f.addr + f.size <= |mem|
      requires at + |Slice(mem, f.addr, f.size)| <= buf.Length
      modifies buf
      ensures at' <= buf.Length && buf[..at'] == old(buf[..at]) + Slice(mem, f.addr, f.size)
    {
      at' := at;
      if f.size > 0 {
        MemCpy(buf, at, mem, f.addr, f.size);
        at' := at + f.size;
      }
    }

    static method RepackAudio(mem: seq<Byte>, frames: seq<A.Adts>, buf: array<Byte>) returns (at: nat)
      requires FramesInside(frames, |mem|) && |Payloads(mem, frames)| <= buf.Length
      modifies buf
      ensures at <= buf.Length && buf[..at] == Payloads(mem, frames)
    {
      assert frames[..0] == [] && frames[..|frames|] == frames && Payloads(mem, []) == [];
      at := 0;
      hide *;
      for i := 0 to |frames|
        invariant FramesInside(frames[..i], |mem|)
        invariant at <= buf.Length && buf[..at] == Payloads(mem, frames[..i])
      {
        PayloadsStep(mem, frames, i);
        at := RepackFrame(mem, frames[i], buf, at);
      }
    }

    /** RtmpSendAudio. It hangs exactly when the splitter does, and it copies bytes from behind the stream exactly when the
        stream is split to its end with a payload that does not lie in it; see FramesInsideExact. */
    method RtmpSendAudio(mem: seq<Byte>, size: nat, time: int, sent: int) returns (r: Outcome)
      requires size < 0x1_0000_0000
      requires AsInt(size) > 0 ==> size + A.READ_AHEAD <= |mem|
      modifies this
      ensures videoRestart == old(videoRestart) && publisher == old(publisher)
      ensures size == 0 || !publisher ==>
                r == Returns(-1) && calls == old(calls) && audioRestart == old(audioRestart)
      ensures size > 0 && publisher ==> !audioRestart
      ensures size > 0 && publisher ==>
                var setup := if old(audioRestart) then [SetAudioTimebase(time), SetAac([0x14, 0x10])] else [];
                if AsInt(size) <= 0 then r == Returns(-1) && calls == old(calls) + setup
                else
                  var w := A.WalkFrom(mem, size, 0, MAX_ADTS_PER_FRAME);
                  && (r.Hangs? <==> w.ending == A.Never)
                  && (r.Outside? <==> w.ending == A.Complete && !FramesInside(w.frames, size))
                  && (w.ending == A.Overflow ==> r == Returns(-1))
                  && (w.ending != A.Complete || r.Outside? ==> calls == old(calls) + setup)
                  && (w.ending == A.Complete && !r.Outside? ==>
                        && FramesInside(w.frames, |mem|) && |Payloads(mem, w.frames)| <= size
                        && calls == old(calls) + setup + [SendAudio(Payloads(mem, w.frames), time)]
                        && r == Returns(if sent < 0 then -1 else 0))
    {
      hide A.WalkFrom, Payloads, FramesInside, A.TurnsForEver;
      if size == 0 || !publisher {
        return Returns(-1);
      }
      if audioRestart {
        calls := calls + [SetAudioTimebase(time)];
        calls := calls + [SetAac([0x14, 0x10])];
        audioRestart := false;
      }
      var adts := new A.Adts[MAX_ADTS_PER_FRAME](_ => A.Adts(0, 0));
      var decoded, count, hangs := A.AacDecodeAdts(mem, AsInt(size), adts, MAX_ADTS_PER_FRAME);
      if hangs {
        return Hangs;
      }
      if decoded != A.ADTS_DECODE_OK {
        return Returns(-1);
      }
      ghost var w := A.WalkFrom(mem, size, 0, MAX_ADTS_PER_FRAME);
      if w.ending == A.Complete {
        SomeFrames(mem, size, MAX_ADTS_PER_FRAME);
      }
      if count <= 0 || count >= MAX_ADTS_PER_FRAME {
        return Returns(-1);
      }
      assert adts[..count] == w.frames;
      if !FramesInside(adts[..count], size) {
        return Outside;
      }
      PayloadsFit(mem, size, 0, MAX_ADTS_PER_FRAME);
      var buf := new Byte[size](_ => 0);
      var at := RepackAudio(mem, adts[..count], buf);
      calls := calls + [SendAudio(buf[..at], time)];
      return Returns(if sent < 0 then -1 else 0);
    }
  }
}
