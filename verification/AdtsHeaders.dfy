/**
 The second reader of ADTS headers, in the device simulator: all 56 bits of a header are gathered in one word and the
 fields are cut out of it. Widths are those of the struct's bit fields, so storing a wider value truncates it.
 */
module AdtsHeaders {
  import opened Bytes
  import A = AdtsSplitter

  datatype FixedHeader = FixedHeader(
    syncword: bv12, id: bv1, layer: bv2, protectionAbsent: bv1, profile: bv2, samplingFrequencyIndex: bv4,
    privateBit: bv1, channelConfiguration: bv3, originalCopy: bv1, home: bv1)

  datatype VariableHeader = VariableHeader(
    copyrightIdBit: bv1, copyrightIdStart: bv1, aacFrameLength: bv13, adtsBufferFullness: bv11, rawDataBlocks: bv2)

  /** The 56 bits of a header, first byte first. */
  function Word(data: seq<bv8>): (w: bv64)
    requires |data| >= 7
  {
    ((data[0] as bv64) << 48) | ((data[1] as bv64) << 40) | ((data[2] as bv64) << 32) | ((data[3] as bv64) << 24)
    | ((data[4] as bv64) << 16) | ((data[5] as bv64) << 8) | (data[6] as bv64)
  }

  function FixedOf(w: bv64): FixedHeader {
    FixedHeader(
      ((w >> 44) & 0xFFF) as bv12, ((w >> 43) & 1) as bv1, ((w >> 41) & 3) as bv2, ((w >> 40) & 1) as bv1,
      ((w >> 38) & 3) as bv2, ((w >> 34) & 0xF) as bv4, ((w >> 33) & 1) as bv1, ((w >> 30) & 7) as bv3,
      ((w >> 29) & 1) as bv1, ((w >> 28) & 1) as bv1)
  }

  function VariableOf(w: bv64): VariableHeader {
    VariableHeader(
      ((w >> 27) & 1) as bv1, ((w >> 26) & 1) as bv1, ((w >> 13) & 0x1FFF) as bv13, ((w >> 2) & 0x7FF) as bv11,
      (w & 3) as bv2)
  }

  /** LinkParseAdtsfixedHeader */
  method ParseAdtsFixedHeader(data: seq<bv8>) returns (h: FixedHeader)
    requires |data| >= 7
    ensures h == FixedOf(Word(data))
  {
    var adts := Gather(data);
    h := FixedHeader(
      ((adts >> 44) & 0xFFF) as bv12,
      ((adts >> 43) & 0x01) as bv1,
      ((adts >> 41) & 0x03) as bv2,
      ((adts >> 40) & 0x01) as bv1,
      ((adts >> 38) & 0x03) as bv2,
      ((adts >> 34) & 0x0f) as bv4,
      ((adts >> 33) & 0x01) as bv1,
      ((adts >> 30) & 0x07) as bv3,
      ((adts >> 29) & 0x01) as bv1,
      ((adts >> 28) & 0x01) as bv1);
  }

  /** The 14-bit mask leaves the 13 bits of the field, and above them the bit before. */
  lemma LowBits(w: bv64)
    ensures ((w >> 13) & 0x3FFF) & 0x1FFF == (w >> 13) & 0x1FFF
    ensures (w >> 13) & 0x3FFF == ((w >> 13) & 0x1FFF) | (if (w >> 26) & 1 == 0 then 0 else 0x2000)
    ensures (w >> 13) & 0x3FFF == (w >> 13) & 0x1FFF <==> (w >> 26) & 1 == 0
  {
  }

  /** LinkParseAdtsVariableHeader. The frame length is cut out with a mask of 14 bits and stored in 13. */
  method ParseAdtsVariableHeader(data: seq<bv8>) returns (h: VariableHeader)
    requires |data| >= 7
    ensures h == VariableOf(Word(data))
  {
    var adts := Gather(data);
    var length: bv64 := (adts >> 13) & 0x3FFF;
    LowBits(adts);
    h := VariableHeader(
      ((adts >> 27) & 0x01) as bv1,
      ((adts >> 26) & 0x01) as bv1,
      (length & 0x1FFF) as bv13,
      ((adts >> 2) & 0x7FF) as bv11,
      (adts & 0x03) as bv2);
  }

  /** The accumulation both of them start with. */
  method Gather(data: seq<bv8>) returns (adts: bv64)
    requires |data| >= 7
    ensures adts == Word(data)
  {
    adts := data[0] as bv64;
    adts := adts << 8;
    adts := adts | data[1] as bv64;
    adts := adts << 8;
    adts := adts | data[2] as bv64;
    adts := adts << 8;
    adts := adts | data[3] as bv64;
    adts := adts << 8;
    adts := adts | data[4] as bv64;
    adts := adts << 8;
    adts := adts | data[5] as bv64;
    adts := adts << 8;
    adts := adts | data[6] as bv64;
  }

  // ----- The layout of section 6.2 of ISO/IEC 13818-7 -----

  /** The seven bytes of a header, written field by field. */
  function Write(f: FixedHeader, v: VariableHeader): (data: seq<bv8>)
    ensures |data| == 7
  {
    [(f.syncword >> 4) as bv8,
     ((f.syncword & 0xF) as bv8 << 4) | (f.id as bv8 << 3) | (f.layer as bv8 << 1) | f.protectionAbsent as bv8,
     (f.profile as bv8 << 6) | (f.samplingFrequencyIndex as bv8 << 2) | (f.privateBit as bv8 << 1)
       | (f.channelConfiguration >> 2) as bv8,
     ((f.channelConfiguration & 3) as bv8 << 6) | (f.originalCopy as bv8 << 5) | (f.home as bv8 << 4)
       | (v.copyrightIdBit as bv8 << 3) | (v.copyrightIdStart as bv8 << 2) | (v.aacFrameLength >> 11) as bv8,
     ((v.aacFrameLength >> 3) & 0xFF) as bv8,
     ((v.aacFrameLength & 7) as bv8 << 5) | (v.adtsBufferFullness >> 6) as bv8,
     ((v.adtsBufferFullness & 0x3F) as bv8 << 2) | v.rawDataBlocks as bv8]
  }

  /** Reading gives back every field that was written. */
  lemma {:induction false} ReadWritten(f: FixedHeader, v: VariableHeader)
    ensures FixedOf(Word(Write(f, v))) == f && VariableOf(Word(Write(f, v))) == v
  {
    FixedWritten(f, v);
    VariableWritten(f, v);
    hide FixedOf, VariableOf, Word, Write;
  }

  lemma FixedWritten(f: FixedHeader, v: VariableHeader)
    ensures FixedOf(Word(Write(f, v))) == f
  {
  }

  lemma VariableWritten(f: FixedHeader, v: VariableHeader)
    ensures VariableOf(Word(Write(f, v))) == v
  {
  }

  /** Reading loses none of the 56 bits. */
  lemma {:induction false} WriteRead(data: seq<bv8>)
    requires |data| == 7
    ensures Write(FixedOf(Word(data)), VariableOf(Word(data))) == data
  {
  }

  // ----- Agreement of the two readers -----

  /** What AacDecodeAdts computes from the header, in 32-bit arithmetic; see SplitterBits. */
  function SplitterFrameLen(data: seq<bv8>): bv32
    requires |data| >= 7
  {
    ((data[3] as bv32 & 0x3) << 11) | (data[4] as bv32 << 3) | ((data[5] as bv32 & 0xE0) >> 5)
  }

  function SplitterHeaderLen(data: seq<bv8>): bv32
    requires |data| >= 7
  {
    if data[1] as bv32 & 0x1 == 1 then 7 else 9
  }

  predicate SplitterSync(data: seq<bv8>)
    requires |data| >= 7
  {
    var word: bv32 :=
      (data[0] as bv32 << 24) | (data[1] as bv32 << 16) | (data[2] as bv32 << 8) | data[3] as bv32;
    (word >> 20) & 0xFFF == 0xFFF
  }

  /** For all headers the two readers agree on the frame length, on the length of the header and on the sync word. */
  lemma {:induction false} ReadersAgree(data: seq<bv8>)
    requires |data| >= 7
    ensures VariableOf(Word(data)).aacFrameLength as bv32 == SplitterFrameLen(data)
    ensures FixedOf(Word(data)).protectionAbsent == 1 <==> SplitterHeaderLen(data) == 7
    ensures FixedOf(Word(data)).syncword == 0xFFF <==> SplitterSync(data)
  {
  }

  /** The same for the splitter's own reading of a place in memory. */
  lemma {:induction false} SplitterAgrees(mem: seq<Byte>, p: nat, data: seq<bv8>)
    requires |data| >= 7 && p + 7 <= |mem| && forall i | 0 <= i < 7 :: data[i] as int == mem[p + i]
    ensures A.FrameLen(mem, p) == VariableOf(Word(data)).aacFrameLength as int
    ensures A.HeaderLen(mem, p) == (if FixedOf(Word(data)).protectionAbsent == 1 then 7 else 9)
    ensures A.SyncAt(mem, p) <==> FixedOf(Word(data)).syncword == 0xFFF
  {
    var x := VariableOf(Word(data)).aacFrameLength;
    assert data[0] as int == mem[p + 0] && data[1] as int == mem[p + 1] && data[3] as int == mem[p + 3];
    assert data[4] as int == mem[p + 4] && data[5] as int == mem[p + 5];
    FieldsFromBytes(data);
    hide Word, VariableOf, FixedOf;
    ThreeParts(x);
    ByteParts(data[1]);
    ByteParts(data[3]);
    ByteParts(data[4]);
    ByteParts(data[5]);
  }

  /** The number a machine word stands for. */
  function Num(w: bv32): int { w as int }

  /** So the masks and shifts of AacDecodeAdts are the arithmetic of the splitter model. */
  lemma {:induction false} SplitterBits(mem: seq<Byte>, p: nat, data: seq<bv8>)
    requires |data| >= 7 && p + 7 <= |mem| && forall i | 0 <= i < 7 :: data[i] as int == mem[p + i]
    ensures Num(SplitterFrameLen(data)) == A.FrameLen(mem, p)
    ensures A.HeaderLen(mem, p) == if SplitterHeaderLen(data) == 7 then 7 else 9
    ensures SplitterSync(data) <==> A.SyncAt(mem, p)
  {
    hide *;
    ReadersAgree(data);
    SplitterAgrees(mem, p, data);
    Widened(VariableOf(Word(data)).aacFrameLength);
  }

  lemma Widened(x: bv13)
    ensures Num(x as bv32) == x as int
  {
  }

  lemma {:induction false} FieldsFromBytes(data: seq<bv8>)
    requires |data| >= 7
    ensures var x := VariableOf(Word(data)).aacFrameLength;
            x >> 11 == data[3] as bv13 & 3 && (x >> 3) & 0xFF == data[4] as bv13 && x & 7 == data[5] as bv13 >> 5
    ensures FixedOf(Word(data)).protectionAbsent == 1 <==> data[1] & 1 == 1
    ensures FixedOf(Word(data)).syncword == 0xFFF <==> data[0] == 0xFF && data[1] >> 4 == 15
  {
  }

  lemma ThreeParts(x: bv13)
    ensures x as int == (x >> 11) as int * 2048 + ((x >> 3) & 0xFF) as int * 8 + (x & 7) as int
  {
  }

  lemma ByteParts(b: bv8)
    ensures b as bv13 as int == b as int && (b as bv13 & 3) as int == b as int % 4
    ensures (b as bv13 >> 5) as int == b as int / 32
    ensures (b & 1 == 1 <==> b as int % 2 == 1) && (b >> 4 == 15 <==> b as int / 16 == 15)
  {
  }

  /** The field does need to truncate: what the 14-bit mask leaves is the frame length exactly when the bit before it,
      the start of the copyright identification, is clear; otherwise that bit stands above it. */
  lemma {:induction false} MaskOneBitTooWide(w: bv64)
    ensures var masked, h := TooWide(w), VariableOf(w);
            && (masked == Wide(h.aacFrameLength) <==> h.copyrightIdStart == 0)
            && masked == Wide(h.aacFrameLength) | (if h.copyrightIdStart == 0 then 0 else 0x2000)
  {
    hide *;
    Cuts(w);
    Masks(w);
  }

  /** What the mask of 14 bits leaves, and what one of 13 bits would. */
  function TooWide(w: bv64): bv64 { (w >> 13) & 0x3FFF }

  function WideEnough(w: bv64): bv64 { (w >> 13) & 0x1FFF }

  predicate NextBitClear(w: bv64) { (w >> 26) & 1 == 0 }

  /** A field among the bits it is cut from. */
  function Wide(x: bv13): bv64 { x as bv64 }

  lemma Cuts(w: bv64)
    ensures Wide(VariableOf(w).aacFrameLength) == WideEnough(w)
    ensures VariableOf(w).copyrightIdStart == 0 <==> NextBitClear(w)
  {
  }

  lemma {:induction false} Masks(w: bv64)
    ensures TooWide(w) == WideEnough(w) <==> NextBitClear(w)
    ensures TooWide(w) == WideEnough(w) | (if NextBitClear(w) then 0 else 0x2000)
  {
    hide *;
    if NextBitClear(w) {
      WhenClear(w);
    } else {
      WhenSet(w);
    }
  }

  lemma WhenClear(w: bv64)
    requires NextBitClear(w)
    ensures TooWide(w) == WideEnough(w) && WideEnough(w) | 0 == WideEnough(w)
  {
  }

  lemma WhenSet(w: bv64)
    requires !NextBitClear(w)
    ensures TooWide(w) == WideEnough(w) | 0x2000 && TooWide(w) != WideEnough(w)
  {
  }
}
