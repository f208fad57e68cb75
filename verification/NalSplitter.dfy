/**
 The Annex B splitter: finds the NAL units of a frame by their start codes (Annex B of ITU-T H.264).

 `mem` is the memory from the frame on and the frame is its first `len` bytes: the scan of the source also looks at the
 bytes behind the frame. An address is an offset into `mem`.
 */
module NalSplitter {
  import opened Bytes

  datatype NalUnit = NalUnit(addr: int, size: int, nalType: int)

  const DECODE_OK := 0
  const DECODE_PARARM_ERROR := -1
  const DECODE_BUF_OVERFLOW := -2

  /** The scan reads four bytes from each place up to the end of the frame, and a type byte behind a start code. */
  const READ_AHEAD: nat := 5

  // ----- Start codes -----

  /** htonl(*p) == 0x00000001 */
  predicate LongCode(mem: seq<Byte>, p: nat) {
    p + 4 <= |mem| && mem[p] == 0 && mem[p + 1] == 0 && mem[p + 2] == 0 && mem[p + 3] == 1
  }

  /** htonl(*p) >> 8 == 0x000001 */
  predicate ShortCode(mem: seq<Byte>, p: nat) {
    p + 3 <= |mem| && mem[p] == 0 && mem[p + 1] == 0 && mem[p + 2] == 1
  }

  predicate CodeAt(mem: seq<Byte>, p: nat) { LongCode(mem, p) || ShortCode(mem, p) }

  /** A unit found: where its bytes start, and the length of the start code before it. */
  datatype Start = Start(addr: nat, codeLen: nat)

  function Begin(s: Start): int { s.addr - s.codeLen }

  /** The units the scan finds from `p` on; the loop runs up to and including `p == len`. */
  function Scan(mem: seq<Byte>, len: nat, p: nat): seq<Start>
    decreases len + 1 - p
  {
    if p > len then []
    else if LongCode(mem, p) then [Start(p + 4, 4)] + Scan(mem, len, p + 4)
    else if ShortCode(mem, p) then [Start(p + 3, 3)] + Scan(mem, len, p + 3)
    else Scan(mem, len, p + 1)
  }

  /** The size a unit gets when the next one is found, or at the end of the frame. */
  function SizeOf(starts: seq<Start>, len: nat, k: nat): int
    requires k < |starts|
  {
    if k + 1 < |starts| then starts[k + 1].addr - starts[k].addr - starts[k + 1].codeLen else len - starts[k].addr
  }

  /** As the source has it, the last size is measured from the unit before the last, if there is one. */
  function SizeAsWritten(starts: seq<Start>, len: nat, k: nat): int
    requires k < |starts|
  {
    if k + 1 < |starts| || k == 0 then SizeOf(starts, len, k) else len - starts[k - 1].addr
  }

  /** Consecutive units lie in order, apart by their start codes. */
  predicate Ordered(starts: seq<Start>, p: nat) {
    && (forall k | 0 <= k < |starts| :: (starts[k].codeLen == 3 || starts[k].codeLen == 4) && Begin(starts[k]) >= p)
    && (forall j, k | 0 <= j < k < |starts| :: starts[j].addr <= Begin(starts[k]))
  }

  lemma {:induction false} ScanOrdered(mem: seq<Byte>, len: nat, p: nat)
    ensures Ordered(Scan(mem, len, p), p)
    ensures forall k | 0 <= k < |Scan(mem, len, p)| :: Scan(mem, len, p)[k].addr <= len + 4
    decreases len + 1 - p
  {
    if p <= len {
      if LongCode(mem, p) {
        ScanOrdered(mem, len, p + 4);
      } else if ShortCode(mem, p) {
        ScanOrdered(mem, len, p + 3);
      } else {
        ScanOrdered(mem, len, p + 1);
      }
    }
  }

  /** What the source stores as the last size is the unit's own size exactly when the frame has a single unit; with
      more it is too large by the distance to the unit before. */
  lemma {:induction false} LastSizeExact(mem: seq<Byte>, len: nat)
    requires Scan(mem, len, 0) != []
    ensures var starts := Scan(mem, len, 0);
            var k := |starts| - 1;
            && (SizeAsWritten(starts, len, k) == SizeOf(starts, len, k) <==> |starts| == 1)
            && (|starts| > 1 ==>
                  SizeAsWritten(starts, len, k) == SizeOf(starts, len, k) + (starts[k].addr - starts[k - 1].addr))
            && forall j | 0 <= j < k :: SizeAsWritten(starts, len, j) == SizeOf(starts, len, j)
  {
    ScanOrdered(mem, len, 0);
  }

  // ----- Tiling -----

  /** No start code begins inside the frame, or right behind it, and ends outside. */
  predicate TailClean(mem: seq<Byte>, len: nat) {
    forall p | 0 <= p <= len :: (LongCode(mem, p) ==> p + 4 <= len) && (ShortCode(mem, p) ==> p + 3 <= len)
  }

  /** The units found lie inside the frame exactly when its tail is clean. */
  lemma {:induction false} TailCleanExact(mem: seq<Byte>, len: nat)
    ensures TailClean(mem, len) <==> forall k | 0 <= k < |Scan(mem, len, 0)| :: Scan(mem, len, 0)[k].addr <= len
  {
    if TailClean(mem, len) {
      ScanInside(mem, len, 0);
    } else {
      var p :| 0 <= p <= len && ((LongCode(mem, p) && p + 4 > len) || (ShortCode(mem, p) && p + 3 > len));
      var k := ScanOutside(mem, len, 0, p);
    }
  }

  lemma {:induction false} ScanInside(mem: seq<Byte>, len: nat, p: nat)
    requires TailClean(mem, len)
    ensures forall k | 0 <= k < |Scan(mem, len, p)| :: Scan(mem, len, p)[k].addr <= len
    decreases len + 1 - p
  {
    if p <= len {
      ScanInside(mem, len, Onward(mem, p));
    }
  }

  lemma {:induction false} ScanOutside(mem: seq<Byte>, len: nat, p: nat, q: nat) returns (k: nat)
    requires p <= q <= len && ((LongCode(mem, q) && q + 4 > len) || (ShortCode(mem, q) && q + 3 > len))
    ensures k < |Scan(mem, len, p)| && Scan(mem, len, p)[k].addr > len
    decreases q - p
  {
    var next := Onward(mem, p);
    ScanStepped(mem, len, p);
    if q < next {
      k := 0;
    } else {
      k := ScanOutside(mem, len, next, q);
      hide Scan, LongCode, ShortCode;
      k := k + if CodeAt(mem, p) then 1 else 0;
    }
  }

  /** Where the scan goes from `p`. */
  function Onward(mem: seq<Byte>, p: nat): nat {
    if LongCode(mem, p) then p + 4 else if ShortCode(mem, p) then p + 3 else p + 1
  }

  lemma {:induction false} ScanStepped(mem: seq<Byte>, len: nat, p: nat)
    requires p <= len
    ensures Scan(mem, len, p) ==
            (if CodeAt(mem, p) then [Start(Onward(mem, p), Onward(mem, p) - p)] else []) + Scan(mem, len, Onward(mem, p))
  {
  }

  /** Start codes and units, put together in order. */
  function Pieces(mem: seq<Byte>, len: nat, starts: seq<Start>): seq<Byte>
    requires len <= |mem| && Ordered(starts, 0) && forall k | 0 <= k < |starts| :: starts[k].addr <= len
  {
    if starts == [] then []
    else
      var s := starts[0];
      mem[Begin(s)..s.addr] + mem[s.addr..s.addr + SizeOf(starts, len, 0)] + Pieces(mem, len, starts[1..])
  }

  lemma {:induction false} PiecesJoin(mem: seq<Byte>, len: nat, starts: seq<Start>)
    requires len <= |mem| && Ordered(starts, 0) && forall k | 0 <= k < |starts| :: starts[k].addr <= len
    requires starts != []
    ensures Pieces(mem, len, starts) == mem[Begin(starts[0])..len]
    decreases |starts|
  {
    hide *;
    var s, rest, next := starts[0], starts[1..], starts[0].addr + SizeOf(starts, len, 0);
    OrderedTail(starts, len);
    PiecesFirst(mem, len, starts);
    if rest != [] {
      PiecesJoin(mem, len, rest);
    } else {
      assert mem[len..len] == [];
    }
    SlicesJoin(mem, Begin(s), s.addr, next, len);
  }

  lemma {:induction false} PiecesFirst(mem: seq<Byte>, len: nat, starts: seq<Start>)
    requires len <= |mem| && Ordered(starts, 0) && forall k | 0 <= k < |starts| :: starts[k].addr <= len
    requires starts != [] && Ordered(starts[1..], 0) && forall k | 0 <= k < |starts[1..]| :: starts[1..][k].addr <= len
    ensures var s, rest, next := starts[0], starts[1..], starts[0].addr + SizeOf(starts, len, 0);
            && 0 <= Begin(s) <= s.addr <= next <= len
            && Pieces(mem, len, starts) == mem[Begin(s)..s.addr] + mem[s.addr..next] + Pieces(mem, len, rest)
            && if rest == [] then next == len && Pieces(mem, len, rest) == [] else next == Begin(rest[0])
  {
  }

  lemma {:induction false} OrderedTail(starts: seq<Start>, len: nat)
    requires starts != [] && Ordered(starts, 0) && forall k | 0 <= k < |starts| :: starts[k].addr <= len
    ensures Ordered(starts[1..], 0) && forall k | 0 <= k < |starts[1..]| :: starts[1..][k].addr <= len
    ensures 0 <= Begin(starts[0]) <= starts[0].addr <= starts[0].addr + SizeOf(starts, len, 0) <= len
  {
    assert forall k {:trigger starts[1..][k]} | 0 <= k < |starts[1..]| :: starts[1..][k] == starts[k + 1];
  }

  lemma {:induction false} SlicesJoin(mem: seq<Byte>, a: int, b: int, c: int, d: int)
    requires 0 <= a <= b <= c <= d <= |mem|
    ensures mem[a..b] + mem[b..c] + mem[c..d] == mem[a..d]
  {
  }

  /** Nothing is passed over: wherever a start code begins, the scan has found one that covers that place. */
  lemma {:induction false} NothingPassedOver(mem: seq<Byte>, len: nat, p: nat, q: nat) returns (k: nat)
    requires p <= q <= len && CodeAt(mem, q)
    ensures k < |Scan(mem, len, p)| && Begin(Scan(mem, len, p)[k]) <= q < Scan(mem, len, p)[k].addr
    decreases q - p
  {
    var next := Onward(mem, p);
    ScanStepped(mem, len, p);
    if q < next {
      k := 0;
    } else {
      k := NothingPassedOver(mem, len, next, q);
      hide Scan, LongCode, ShortCode;
      k := k + if CodeAt(mem, p) then 1 else 0;
    }
  }

  /** Every unit found has a start code of its length right before it. */
  lemma {:induction false} ScanSound(mem: seq<Byte>, len: nat, p: nat, k: nat)
    requires k < |Scan(mem, len, p)|
    ensures var s := Scan(mem, len, p)[k];
            && p <= Begin(s) <= len && (s.codeLen == 3 || s.codeLen == 4)
            && (if s.codeLen == 4 then LongCode(mem, Begin(s)) else ShortCode(mem, Begin(s)) && !LongCode(mem, Begin(s)))
    decreases len + 1 - p
  {
    var starts, rest := Scan(mem, len, p), Scan(mem, len, Onward(mem, p));
    ScanStepped(mem, len, p);
    if !CodeAt(mem, p) {
      ScanSound(mem, len, Onward(mem, p), k);
    } else if k > 0 {
      assert starts[k] == rest[k - 1];
      ScanSound(mem, len, Onward(mem, p), k - 1);
    }
  }

  /** All units start inside the frame. */
  predicate Within(starts: seq<Start>, len: nat) {
    forall k | 0 <= k < |starts| :: starts[k].addr <= len
  }

  /** Outside the start codes found, no start code begins in the frame: neither before the first one nor in a unit. */
  lemma {:induction false} NoOtherCode(mem: seq<Byte>, len: nat, x: nat)
    requires x <= len
    requires forall k | 0 <= k < |Scan(mem, len, 0)| :: !(Begin(Scan(mem, len, 0)[k]) <= x < Scan(mem, len, 0)[k].addr)
    ensures !CodeAt(mem, x)
  {
    if CodeAt(mem, x) {
      var k := NothingPassedOver(mem, len, 0, x);
    }
  }

  // ----- Round trip -----

  /** A unit to be sent, and whether it gets a four-byte start code. */
  datatype Unit = Unit(bytes: seq<Byte>, long: bool)

  /** Section 7.4.1: not empty, no start code inside, no zero byte at the end. */
  predicate Sendable(b: seq<Byte>) {
    && b != [] && b[|b| - 1] != 0
    && forall i | 0 <= i < |b| - 2 :: !(b[i] == 0 && b[i + 1] == 0 && b[i + 2] == 1)
  }

  function Code(long: bool): seq<Byte> { if long then [0, 0, 0, 1] else [0, 0, 1] }

  function Encode(units: seq<Unit>): seq<Byte> {
    if units == [] then [] else Code(units[0].long) + units[0].bytes + Encode(units[1..])
  }

  /** Where the units stand when their encoding starts at `p`. */
  function Placed(units: seq<Unit>, p: nat): (starts: seq<Start>)
    ensures |starts| == |units|
    decreases units
  {
    if units == [] then []
    else
      var n := |Code(units[0].long)|;
      [Start(p + n, n)] + Placed(units[1..], p + n + |units[0].bytes|)
  }

  /** Inside a sendable unit no start code begins, whatever follows the unit. */
  lemma {:induction false} NoCodeInside(mem: seq<Byte>, p: nat, b: seq<Byte>, x: nat)
    requires Sendable(b) && Has(mem, p, b) && p <= x < p + |b|
    ensures !CodeAt(mem, x)
  {
    HasAt(mem, p, b);
    var i, last := x - p, |b| - 1;
    assert mem[p + last] == b[last] && mem[p + i] == b[i];
    if i + 1 <= last {
      assert mem[p + (i + 1)] == b[i + 1];
    }
    if i + 2 <= last {
      assert mem[p + (i + 2)] == b[i + 2];
    }
    if i + 3 <= last {
      assert mem[p + (i + 3)] == b[i + 3];
    }
  }

  lemma {:induction false} ScanSkips(mem: seq<Byte>, len: nat, p: nat, q: nat)
    requires p <= q <= len + 1 && forall x | p <= x < q :: !CodeAt(mem, x)
    ensures Scan(mem, len, p) == Scan(mem, len, q)
    decreases q - p
  {
    if p < q {
      assert !CodeAt(mem, p);
      ScanSkips(mem, len, p + 1, q);
    }
  }

  /** One unit is found, and the scan goes on behind it. */
  lemma {:induction false} UnitScanned(mem: seq<Byte>, len: nat, p: nat, u: Unit, rest: seq<Byte>)
    requires Sendable(u.bytes) && Has(mem, p, Code(u.long) + u.bytes + rest)
    requires p + |Code(u.long)| + |u.bytes| + |rest| == len
    ensures var q := p + |Code(u.long)|;
            && Scan(mem, len, p) == [Start(q, |Code(u.long)|)] + Scan(mem, len, q + |u.bytes|)
            && Has(mem, q + |u.bytes|, rest)
  {
    var code := Code(u.long);
    var q := p + |code|;
    HasSplit(mem, p, code + u.bytes, rest);
    HasSplit(mem, p, code, u.bytes);
    CodeFound(mem, p, u.long);
    assert Scan(mem, len, p) == [Start(q, |code|)] + Scan(mem, len, q);
    hide *;
    forall x | q <= x < q + |u.bytes|
      ensures !CodeAt(mem, x)
    {
      NoCodeInside(mem, q, u.bytes, x);
    }
    ScanSkips(mem, len, q, q + |u.bytes|);
  }

  lemma Assoc(a: seq<Start>, b: seq<Start>, c: seq<Start>)
    ensures a + (b + c) == (a + b) + c
  {
  }

  lemma {:induction false} ScanFinds(mem: seq<Byte>, len: nat, p: nat, units: seq<Unit>)
    requires forall i | 0 <= i < |units| :: Sendable(units[i].bytes)
    requires Has(mem, p, Encode(units)) && p + |Encode(units)| == len
    ensures Scan(mem, len, p) == Placed(units, p) + Scan(mem, len, len)
    decreases |units|
  {
    hide *;
    if units == [] {
      NoUnits(p);
    } else {
      FirstUnit(units, p);
      var u, n := units[0], |Code(units[0].long)|;
      var q := p + n + |u.bytes|;
      UnitScanned(mem, len, p, u, Encode(units[1..]));
      ScanFinds(mem, len, q, units[1..]);
      Assoc([Start(p + n, n)], Placed(units[1..], q), Scan(mem, len, len));
    }
  }

  lemma NoUnits(p: nat)
    ensures Encode([]) == [] && Placed([], p) == []
  {
  }

  lemma {:induction false} FirstUnit(units: seq<Unit>, p: nat)
    requires units != [] && forall i | 0 <= i < |units| :: Sendable(units[i].bytes)
    ensures var u, code := units[0], Code(units[0].long);
            && Encode(units) == code + u.bytes + Encode(units[1..])
            && |Encode(units)| == |code| + |u.bytes| + |Encode(units[1..])|
            && Placed(units, p) == [Start(p + |code|, |code|)] + Placed(units[1..], p + |code| + |u.bytes|)
            && Sendable(u.bytes) && forall i | 0 <= i < |units[1..]| :: Sendable(units[1..][i].bytes)
  {
    assert forall i | 0 <= i < |units[1..]| :: units[1..][i] == units[i + 1];
  }

  lemma {:induction false} CodeFound(mem: seq<Byte>, p: nat, long: bool)
    requires Has(mem, p, Code(long))
    ensures if long then LongCode(mem, p) else ShortCode(mem, p) && !LongCode(mem, p)
  {
    var code := Code(long);
    HasAt(mem, p, code);
    assert mem[p + 0] == code[0] && mem[p + 1] == code[1] && mem[p + 2] == code[2];
    if long {
      assert mem[p + 3] == code[3];
    }
  }

  /**
   The splitter inverts the encoder: for any sendable units with any mix of start codes it finds exactly those units,
   in order, exactly when the memory behind the frame does not start with a start code of its own.
   */
  lemma {:induction false} ScanInvertsEncode(units: seq<Unit>, behind: seq<Byte>)
    requires (forall i | 0 <= i < |units| :: Sendable(units[i].bytes)) && |behind| >= READ_AHEAD
    ensures var mem, len := Encode(units) + behind, |Encode(units)|;
            Scan(mem, len, 0) == Placed(units, 0) <==> !CodeAt(behind, 0)
  {
    var mem, len := Encode(units) + behind, |Encode(units)|;
    HasSlice(mem, 0, Encode(units));
    ScanFinds(mem, len, 0, units);
    assert forall i {:trigger mem[len + i]} | 0 <= i < READ_AHEAD :: mem[len + i] == behind[i];
    assert mem[len] == behind[0] && mem[len + 1] == behind[1] && mem[len + 2] == behind[2] && mem[len + 3] == behind[3];
    assert CodeAt(mem, len) <==> CodeAt(behind, 0);
    if !CodeAt(mem, len) {
      assert Scan(mem, len, len) == [];
    } else {
      assert Scan(mem, len, len) != [];
    }
  }

  /** The size and the type stored for each unit are those of the unit. */
  lemma {:induction false} PlacedUnits(mem: seq<Byte>, p: nat, units: seq<Unit>, k: nat)
    requires (forall i | 0 <= i < |units| :: Sendable(units[i].bytes)) && Has(mem, p, Encode(units)) && k < |units|
    ensures var starts := Placed(units, p);
            && SizeOf(starts, p + |Encode(units)|, k) == |units[k].bytes|
            && Has(mem, starts[k].addr, units[k].bytes)
            && units[k].bytes != [] && At(mem, starts[k].addr) == units[k].bytes[0]
    decreases k
  {
    hide *;
    if k > 0 {
      var q := p + |Code(units[0].long)| + |units[0].bytes|;
      RestPlaced(mem, p, units);
      PlacedUnits(mem, q, units[1..], k - 1);
      assert units[1..][k - 1] == units[k];
      SizeOfTail(Placed(units, p), p + |Encode(units)|, k);
    } else {
      FirstUnitPlaced(mem, p, units);
    }
  }

  lemma {:induction false} RestPlaced(mem: seq<Byte>, p: nat, units: seq<Unit>)
    requires (forall i | 0 <= i < |units| :: Sendable(units[i].bytes)) && Has(mem, p, Encode(units)) && units != []
    ensures var q := p + |Code(units[0].long)| + |units[0].bytes|;
            && (forall i | 0 <= i < |units[1..]| :: Sendable(units[1..][i].bytes)) && Has(mem, q, Encode(units[1..]))
            && q + |Encode(units[1..])| == p + |Encode(units)| && Placed(units, p)[1..] == Placed(units[1..], q)
  {
    FirstUnit(units, p);
    hide *;
    HasSplit(mem, p, Code(units[0].long) + units[0].bytes, Encode(units[1..]));
  }

  lemma {:induction false} SizeOfTail(starts: seq<Start>, len: nat, k: nat)
    requires 0 < k < |starts|
    ensures starts[k] == starts[1..][k - 1] && SizeOf(starts, len, k) == SizeOf(starts[1..], len, k - 1)
  {
  }

  lemma {:induction false} FirstUnitPlaced(mem: seq<Byte>, p: nat, units: seq<Unit>)
    requires (forall i | 0 <= i < |units| :: Sendable(units[i].bytes)) && Has(mem, p, Encode(units)) && units != []
    ensures var starts := Placed(units, p);
            && SizeOf(starts, p + |Encode(units)|, 0) == |units[0].bytes|
            && Has(mem, starts[0].addr, units[0].bytes)
            && units[0].bytes != [] && At(mem, starts[0].addr) == units[0].bytes[0]
  {
    var u, code := units[0], Code(units[0].long);
    FirstUnit(units, p);
    HasSplit(mem, p, code + u.bytes, Encode(units[1..]));
    HasSplit(mem, p, code, u.bytes);
    HasFirst(mem, p + |code|, u.bytes);
    if |units| > 1 {
      FirstUnit(units[1..], p + |code| + |u.bytes|);
    }
    hide Sendable, Has;
  }

  // ----- Any frame is an encoding -----

  /** The units the scan finds, cut out of the frame. */
  function Cut(mem: seq<Byte>, len: nat, starts: seq<Start>): (units: seq<Unit>)
    requires len <= |mem| && Ordered(starts, 0) && Within(starts, len)
    ensures |units| == |starts|
  {
    if starts == [] then []
    else
      var s := starts[0];
      OrderedTail(starts, len);
      [Unit(mem[s.addr..s.addr + SizeOf(starts, len, 0)], s.codeLen == 4)] + Cut(mem, len, starts[1..])
  }

  predicate CodesStand(mem: seq<Byte>, starts: seq<Start>) {
    forall k | 0 <= k < |starts| ::
      && 0 <= Begin(starts[k]) && (starts[k].codeLen == 3 || starts[k].codeLen == 4)
      && if starts[k].codeLen == 4 then LongCode(mem, Begin(starts[k])) else ShortCode(mem, Begin(starts[k]))
  }

  lemma {:induction false} CutIsPieces(mem: seq<Byte>, len: nat, starts: seq<Start>)
    requires len <= |mem| && Ordered(starts, 0) && Within(starts, len) && CodesStand(mem, starts)
    ensures Encode(Cut(mem, len, starts)) == Pieces(mem, len, starts)
    decreases |starts|
  {
    if starts != [] {
      var s := starts[0];
      OrderedTail(starts, len);
      CodesTail(mem, starts);
      CutIsPieces(mem, len, starts[1..]);
      CodeSlice(mem, s);
      hide Ordered, Within, CodesStand, SizeOf, Code;
    }
  }

  lemma {:induction false} CodesTail(mem: seq<Byte>, starts: seq<Start>)
    requires starts != [] && CodesStand(mem, starts)
    ensures CodesStand(mem, starts[1..])
  {
    assert forall k {:trigger starts[1..][k]} | 0 <= k < |starts[1..]| :: starts[1..][k] == starts[k + 1];
  }

  lemma {:induction false} CodeSlice(mem: seq<Byte>, s: Start)
    requires 0 <= Begin(s) && (s.codeLen == 3 || s.codeLen == 4) && s.addr <= |mem|
    requires if s.codeLen == 4 then LongCode(mem, Begin(s)) else ShortCode(mem, Begin(s))
    ensures mem[Begin(s)..s.addr] == Code(s.codeLen == 4)
  {
  }

  /**
   For any bytes: the units found start inside the frame exactly when its tail is clean, and then the frame, from its first
   start code to its end, is their encoding, with the start codes that stand there; and no start code begins before the
   first one or inside a unit.
   */
  lemma {:induction false} UnitsTile(mem: seq<Byte>, len: nat)
    requires len <= |mem| && Scan(mem, len, 0) != []
    ensures TailClean(mem, len) <==> Within(Scan(mem, len, 0), len)
    ensures Ordered(Scan(mem, len, 0), 0)
    ensures TailClean(mem, len) ==>
              var starts := Scan(mem, len, 0);
              && 0 <= Begin(starts[0]) <= len && Encode(Cut(mem, len, starts)) == mem[Begin(starts[0])..len]
              && (forall x | 0 <= x < Begin(starts[0]) :: !CodeAt(mem, x))
              && forall k, x | 0 <= k < |starts| && starts[k].addr <= x < starts[k].addr + SizeOf(starts, len, k) ::
                   !CodeAt(mem, x)
  {
    var starts := Scan(mem, len, 0);
    TailCleanExact(mem, len);
    ScanOrdered(mem, len, 0);
    if TailClean(mem, len) {
      forall k | 0 <= k < |starts|
        ensures
          && 0 <= Begin(starts[k]) && (starts[k].codeLen == 3 || starts[k].codeLen == 4)
          && if starts[k].codeLen == 4 then LongCode(mem, Begin(starts[k])) else ShortCode(mem, Begin(starts[k]))
      {
        ScanSound(mem, len, 0, k);
      }
      CutIsPieces(mem, len, starts);
      OrderedTail(starts, len);
      PiecesJoin(mem, len, starts);
      NoCodeOutside(mem, len);
    }
    hide Scan, CodeAt, LongCode, ShortCode, Encode, Cut, Pieces, Ordered;
  }

  lemma {:induction false} NoCodeOutside(mem: seq<Byte>, len: nat)
    requires Within(Scan(mem, len, 0), len) && Scan(mem, len, 0) != []
    ensures var starts := Scan(mem, len, 0);
            && (forall x | 0 <= x < Begin(starts[0]) :: !CodeAt(mem, x))
            && forall k, x | 0 <= k < |starts| && starts[k].addr <= x < starts[k].addr + SizeOf(starts, len, k) ::
                 !CodeAt(mem, x)
  {
    hide Scan, LongCode, ShortCode, CodeAt;
    var starts := Scan(mem, len, 0);
    ScanOrdered(mem, len, 0);
    forall x | 0 <= x < Begin(starts[0])
      ensures !CodeAt(mem, x)
    {
      forall j | 0 <= j < |starts|
        ensures !(Begin(starts[j]) <= x < starts[j].addr)
      {
      }
      NoOtherCode(mem, len, x);
    }
    forall k, x | 0 <= k < |starts| && starts[k].addr <= x < starts[k].addr + SizeOf(starts, len, k)
      ensures !CodeAt(mem, x)
    {
      forall j | 0 <= j < |starts|
        ensures !(Begin(starts[j]) <= x < starts[j].addr)
      {
      }
      NoOtherCode(mem, len, x);
    }
  }

  // ----- The entries of the table -----

  /** The entries one call of H264DecodeNalu reads or writes. */
  function TouchedBy(index: nat): seq<int> { if index > 0 then [index, index - 1] else [index] }

  /** The entries the scan loop touches from `p` on. */
  function LoopTouches(mem: seq<Byte>, len: nat, p: nat, index: nat): seq<int>
    decreases len + 1 - p
  {
    if p > len then []
    else if LongCode(mem, p) then TouchedBy(index) + LoopTouches(mem, len, p + 4, index + 1)
    else if ShortCode(mem, p) then TouchedBy(index) + LoopTouches(mem, len, p + 3, index + 1)
    else LoopTouches(mem, len, p + 1, index)
  }

  /** The entries H264DecodeFrame touches in all; behind the loop the last one, and the one before it to measure from. */
  function Touches(mem: seq<Byte>, len: nat): seq<int> {
    var n := |Scan(mem, len, 0)|;
    LoopTouches(mem, len, 0, 0) + (if n == 1 then [0] else [n - 1, n - 2])
  }

  predicate InTable(touches: seq<int>, cap: nat) {
    forall i | 0 <= i < |touches| :: 0 <= touches[i] < cap
  }

  lemma InTableConcat(a: seq<int>, b: seq<int>, cap: nat)
    ensures InTable(a + b, cap) <==> InTable(a, cap) && InTable(b, cap)
  {
    assert forall i | 0 <= i < |a| :: (a + b)[i] == a[i];
    assert forall i | 0 <= i < |b| :: (a + b)[|a| + i] == b[i];
  }

  lemma {:induction false} LoopInTable(mem: seq<Byte>, len: nat, p: nat, index: nat, cap: nat)
    ensures InTable(LoopTouches(mem, len, p, index), cap) <==>
            Scan(mem, len, p) == [] || index + |Scan(mem, len, p)| <= cap
    decreases len + 1 - p
  {
    if p <= len {
      if CodeAt(mem, p) {
        LoopInTable(mem, len, Onward(mem, p), index + 1, cap);
        InTableConcat(TouchedBy(index), LoopTouches(mem, len, Onward(mem, p), index + 1), cap);
        OneInTable(index, cap);
        hide InTable, LongCode, ShortCode;
      } else {
        LoopInTable(mem, len, p + 1, index, cap);
      }
    }
  }

  lemma OneInTable(index: nat, cap: nat)
    ensures InTable(TouchedBy(index), cap) <==> index < cap
  {
    assert TouchedBy(index)[0] == index;
  }

  /** Every entry touched lies in a table of `cap` entries exactly when the frame has a unit and no more than `cap`. */
  lemma {:induction false} TableExactly(mem: seq<Byte>, len: nat, cap: nat)
    ensures InTable(Touches(mem, len), cap) <==> 1 <= |Scan(mem, len, 0)| <= cap
  {
    var n := |Scan(mem, len, 0)|;
    var last := if n == 1 then [0] else [n - 1, n - 2];
    LoopInTable(mem, len, 0, 0, cap);
    InTableConcat(LoopTouches(mem, len, 0, 0), last, cap);
    assert last[0] == n - 1;
  }

  /** For a frame of sendable units, in the number of units. */
  lemma {:induction false} EncodedInTable(units: seq<Unit>, behind: seq<Byte>, cap: nat)
    requires (forall i | 0 <= i < |units| :: Sendable(units[i].bytes)) && |behind| >= READ_AHEAD && !CodeAt(behind, 0)
    ensures InTable(Touches(Encode(units) + behind, |Encode(units)|), cap) <==> 1 <= |units| <= cap
  {
    ScanInvertsEncode(units, behind);
    TableExactly(Encode(units) + behind, |Encode(units)|, cap);
  }

  /** A frame without a start code is stored before the table, however large that is. */
  lemma {:induction false} NoUnitOutside(len: nat, cap: nat)
    ensures !InTable(Touches(seq(len + READ_AHEAD, _ => 9), len), cap)
  {
    var mem := seq(len + READ_AHEAD, _ => 9);
    ScanSkips(mem, len, 0, len + 1);
    TableExactly(mem, len, cap);
  }

  /** And one with a unit more than the table has entries is stored behind it. */
  lemma {:induction false} OneUnitTooMany(cap: nat)
    ensures var frame := Encode(seq(cap + 1, _ => Unit([9], false)));
            && !InTable(Touches(frame + [9, 9, 9, 9, 9], |frame|), cap)
            && InTable(Touches(frame + [9, 9, 9, 9, 9], |frame|), cap + 1)
  {
    var units := seq(cap + 1, _ => Unit([9], false));
    EncodedInTable(units, [9, 9, 9, 9, 9], cap);
    EncodedInTable(units, [9, 9, 9, 9, 9], cap + 1);
  }

  // ----- The routines -----

  /** H264DecodeNalu: the next entry gets its address and type, the one before its size. */
  method H264DecodeNalu(mem: seq<Byte>, index: nat, data: nat, codeLen: nat, nalus: array<NalUnit>, max: int)
    returns (index': nat, ret: int)
    requires index < nalus.Length && data < |mem|
    modifies nalus
    ensures index' == index + 1 && ret == (if index' >= max then DECODE_BUF_OVERFLOW else 0)
    ensures nalus[index] == old(nalus[index]).(addr := data, nalType := mem[data] % 32)
    ensures index > 0 ==> nalus[index - 1] == old(nalus[index - 1]).(size := data - old(nalus[index - 1]).addr - codeLen)
    ensures forall k | 0 <= k < nalus.Length && k != index && k != index - 1 :: nalus[k] == old(nalus[k])
  {
    nalus[index] := nalus[index].(addr := data, nalType := mem[data] % 32);  // & 0x1F
    if index > 0 {
      nalus[index - 1] := nalus[index - 1].(size := data - nalus[index - 1].addr - codeLen);
    }
    index' := index + 1;
    ret := if index' >= max then DECODE_BUF_OVERFLOW else 0;
  }

  /** The entry for a unit, apart from the size of the last one. */
  ghost predicate Entered(mem: seq<Byte>, len: nat, starts: seq<Start>, k: nat, nal: NalUnit)
    requires k < |starts|
  {
    && nal.addr == starts[k].addr && nal.addr < |mem| && nal.nalType == mem[nal.addr] % 32
    && (k + 1 < |starts| ==> nal.size == SizeOf(starts, len, k))
  }

  /**
   The scan loop of H264DecodeFrame. The overflow the helper reports is assigned to an unsigned variable and then
   compared with 0, so it ends nothing. `outside` says that the loop would go on to store behind the table.
   */
  method ScanFrame(mem: seq<Byte>, len: nat, nalus: array<NalUnit>, max: int) returns (n: nat, outside: bool)
    requires len + READ_AHEAD <= |mem|
    modifies nalus
    ensures outside <==> |Scan(mem, len, 0)| > nalus.Length
    ensures !outside ==>
              var starts := Scan(mem, len, 0);
              n == |starts| && forall k | 0 <= k < n :: Entered(mem, len, starts, k, nalus[k])
  {
    ghost var starts := Scan(mem, len, 0);
    var p := 0;
    n, outside := 0, false;
    while p <= len
      invariant 0 <= n <= |starts| && n <= nalus.Length && starts[n..] == Scan(mem, len, p)
      invariant forall k | 0 <= k < n :: Entered(mem, len, starts[..n], k, nalus[k])
      decreases len + 5 - p
    {
      var ret := 0;
      ghost var rest, had := Scan(mem, len, p), starts[..n];
      if n == nalus.Length && CodeAt(mem, p) {
        ScanStep(starts, n, rest);
        return n, true;
      }
      if LongCode(mem, p) {
        p := p + 4;
        ScanStep(starts, n, rest);
        n, ret := H264DecodeNalu(mem, n, p, 4, nalus, max);
      } else if ShortCode(mem, p) {
        p := p + 3;
        ScanStep(starts, n, rest);
        n, ret := H264DecodeNalu(mem, n, p, 3, nalus, max);
      } else {
        p := p + 1;
      }
    }
    assert starts[..n] == starts;
  }

  lemma {:induction false} ScanStep(starts: seq<Start>, n: nat, rest: seq<Start>)
    requires n <= |starts| && starts[n..] == rest && rest != []
    ensures n < |starts| && starts[n] == rest[0] && starts[n + 1..] == rest[1..] && starts[..n + 1] == starts[..n] + [rest[0]]
  {
  }

  /** The entry for a unit with its size. */
  function NalOf(mem: seq<Byte>, starts: seq<Start>, k: nat, size: int): NalUnit
    requires k < |starts| && starts[k].addr < |mem|
  {
    NalUnit(starts[k].addr, size, mem[starts[k].addr] % 32)
  }

  /** H264DecodeFrame as it is written. `outside` says that it would store outside its table; what happens then is not
      part of the model. */
  method H264DecodeFrame(mem: seq<Byte>, len: int, nalus: array<NalUnit>, max: int)
    returns (ret: int, size: int, outside: bool)
    requires len > 0 ==> len + READ_AHEAD <= |mem|
    modifies nalus
    ensures outside <==> len > 0 && !InTable(Touches(mem, len), nalus.Length)
    ensures len <= 0 ==> ret == DECODE_PARARM_ERROR && size == max && nalus[..] == old(nalus[..])
    ensures len > 0 && !outside ==>
              var starts := Scan(mem, len, 0);
              && ret == DECODE_OK && size == |starts| <= nalus.Length
              && forall k | 0 <= k < |starts| ::
                   starts[k].addr < |mem| && nalus[k] == NalOf(mem, starts, k, SizeAsWritten(starts, len, k))
  {
    if len <= 0 {
      return DECODE_PARARM_ERROR, max, false;
    }
    var n;
    n, outside := ScanFrame(mem, len, nalus, max);
    TableExactly(mem, len, nalus.Length);
    if outside || n == 0 {
      return DECODE_OK, n, true;
    }
    ghost var starts, table := Scan(mem, len, 0), nalus[..];
    assert forall k | 0 <= k < n :: Entered(mem, len, starts, k, nalus[k]) && nalus[k] == table[k];
    if n == 1 {
      nalus[0] := nalus[0].(size := len - nalus[0].addr);
    } else {
      nalus[n - 1] := nalus[n - 1].(size := len - nalus[n - 2].addr);
    }
    forall k | 0 <= k < n
      ensures starts[k].addr < |mem| && nalus[k] == NalOf(mem, starts, k, SizeAsWritten(starts, len, k))
    {
      assert Entered(mem, len, starts, k, table[k]);
      assert n > 1 ==> Entered(mem, len, starts, n - 2, table[n - 2]);
      assert Entered(mem, len, starts, n - 1, table[n - 1]);
    }
    return DECODE_OK, n, false;
  }

  /** H264DecodeFrame with the last size measured from the last unit's own address. */
  method H264DecodeFrameIntended(mem: seq<Byte>, len: int, nalus: array<NalUnit>, max: int)
    returns (ret: int, size: int, outside: bool)
    requires len > 0 ==> len + READ_AHEAD <= |mem|
    modifies nalus
    ensures outside <==> len > 0 && !InTable(Touches(mem, len), nalus.Length)
    ensures len <= 0 ==> ret == DECODE_PARARM_ERROR && size == max && nalus[..] == old(nalus[..])
    ensures len > 0 && !outside ==>
              var starts := Scan(mem, len, 0);
              && ret == DECODE_OK && size == |starts| <= nalus.Length
              && forall k | 0 <= k < |starts| ::
                   starts[k].addr < |mem| && nalus[k] == NalOf(mem, starts, k, SizeOf(starts, len, k))
  {
    if len <= 0 {
      return DECODE_PARARM_ERROR, max, false;
    }
    var n;
    n, outside := ScanFrame(mem, len, nalus, max);
    TableExactly(mem, len, nalus.Length);
    if outside || n == 0 {
      return DECODE_OK, n, true;
    }
    ghost var starts, table := Scan(mem, len, 0), nalus[..];
    assert forall k | 0 <= k < n :: Entered(mem, len, starts, k, nalus[k]) && nalus[k] == table[k];
    nalus[n - 1] := nalus[n - 1].(size := len - nalus[n - 1].addr);
    forall k | 0 <= k < n
      ensures starts[k].addr < |mem| && nalus[k] == NalOf(mem, starts, k, SizeOf(starts, len, k))
    {
      assert Entered(mem, len, starts, k, table[k]);
      assert n > 1 ==> Entered(mem, len, starts, n - 2, table[n - 2]);
      assert Entered(mem, len, starts, n - 1, table[n - 1]);
    }
    return DECODE_OK, n, false;
  }
}
