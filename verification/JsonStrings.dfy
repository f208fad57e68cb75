/**
 String literals of cJSON: how parse_string reads one and how print_string_ptr writes one.

 Reading is described by two independent walks over the literal, as in the source: a counting walk that only
 skips escapes, and a decoding walk that also interprets them.
 */
module JsonStrings {
  import opened Bytes

  // ----- Unicode -----

  predicate IsHighSurrogate(u: nat) { 0xD800 <= u <= 0xDBFF }

  predicate IsLowSurrogate(u: nat) { 0xDC00 <= u <= 0xDFFF }

  /** Number of UTF-8 bytes the parser reserves for `u`. */
  function Utf8Length(u: nat): nat {
    if u < 0x80 then 1 else if u < 0x800 then 2 else if u < 0x10000 then 3 else 4
  }

  /** The bytes the fall-through switch stores. See SwitchIsUtf8. */
  function Utf8(u: nat): (bytes: seq<Byte>)
    requires u < 0x110000
    ensures |bytes| == Utf8Length(u)
  {
    if u < 0x80 then [u]
    else if u < 0x800 then [0xC0 + u / 64, 0x80 + u % 64]
    else if u < 0x10000 then [0xE0 + u / 64 / 64, 0x80 + u / 64 % 64, 0x80 + u % 64]
    else [0xF0 + u / 64 / 64 / 64, 0x80 + u / 64 / 64 % 64, 0x80 + u / 64 % 64, 0x80 + u % 64]
  }

  /** The number a machine word stands for; 21 bits hold every code point. */
  function Num(u: bv21): (n: nat) { u as int }

  /** A continuation byte: the mark, and the last six bits. */
  lemma ContinuationByte(u: bv21)
    ensures Num((u | 0x80) & 0xBF) == 0x80 + Num(u & 0x3F)
  {
    assert (u | 0x80) & 0xBF == (u & 0x3F) | 0x80;
    assert (((u & 0x3F) | 0x80) as int) == 0x80 + (u & 0x3F) as int;
  }

  /** A first byte: the mark of the length, and the bits that are left. */
  lemma LeadByte(u: bv21)
    ensures u < 0x20 ==> Num(u | 0xC0) == 0xC0 + Num(u)
    ensures u < 0x10 ==> Num(u | 0xE0) == 0xE0 + Num(u)
    ensures u < 0x08 ==> Num(u | 0xF0) == 0xF0 + Num(u)
  {
  }

  /** The bytes of the switch as the source computes them: `uc` is shifted right by six bits from case to case. */
  function SwitchBytes(uc: bv21): seq<bv21> {
    if uc < 0x80 then [uc]
    else if uc < 0x800 then [(uc >> 6) | 0xC0, (uc | 0x80) & 0xBF]
    else if uc < 0x10000 then [(uc >> 6 >> 6) | 0xE0, ((uc >> 6) | 0x80) & 0xBF, (uc | 0x80) & 0xBF]
    else
      [(uc >> 6 >> 6 >> 6) | 0xF0, ((uc >> 6 >> 6) | 0x80) & 0xBF, ((uc >> 6) | 0x80) & 0xBF, (uc | 0x80) & 0xBF]
  }

  /** The bit operations of the switch store the bytes of Utf8, for every code point. */
  lemma {:induction false} SwitchIsUtf8(uc: bv21)
    requires uc < 0x110000
    ensures Num(uc) < 0x110000 && |SwitchBytes(uc)| == |Utf8(Num(uc))|
    ensures forall i | 0 <= i < |SwitchBytes(uc)| :: Num(SwitchBytes(uc)[i]) == Utf8(Num(uc))[i]
  {
    hide Num;
    Ranges(uc);
    if 0x80 <= uc < 0x800 {
      TwoBytes(uc);
    } else if 0x800 <= uc < 0x10000 {
      ThreeBytes(uc);
    } else if 0x10000 <= uc {
      FourBytes(uc);
    }
  }

  lemma {:induction false} TwoBytes(uc: bv21)
    requires uc < 0x800
    ensures Num((uc >> 6) | 0xC0) == 0xC0 + Num(uc) / 64 && Num((uc | 0x80) & 0xBF) == 0x80 + Num(uc) % 64
  {
    hide Num;
    Ranges(uc);
    SixBits(uc);
    ContinuationByte(uc);
    LeadByte(uc >> 6);
  }

  lemma {:induction false} ThreeBytes(uc: bv21)
    requires uc < 0x10000
    ensures Num((uc >> 6 >> 6) | 0xE0) == 0xE0 + Num(uc) / 64 / 64
    ensures Num(((uc >> 6) | 0x80) & 0xBF) == 0x80 + Num(uc) / 64 % 64 && Num((uc | 0x80) & 0xBF) == 0x80 + Num(uc) % 64
  {
    hide Num;
    Ranges(uc);
    SixBits(uc);
    ContinuationByte(uc);
    ContinuationByte(uc >> 6);
    LeadByte(uc >> 6 >> 6);
  }

  lemma {:induction false} FourBytes(uc: bv21)
    requires uc < 0x110000
    ensures Num((uc >> 6 >> 6 >> 6) | 0xF0) == 0xF0 + Num(uc) / 64 / 64 / 64
    ensures Num(((uc >> 6 >> 6) | 0x80) & 0xBF) == 0x80 + Num(uc) / 64 / 64 % 64
    ensures Num(((uc >> 6) | 0x80) & 0xBF) == 0x80 + Num(uc) / 64 % 64 && Num((uc | 0x80) & 0xBF) == 0x80 + Num(uc) % 64
  {
    hide Num;
    Ranges(uc);
    SixBits(uc);
    ContinuationByte(uc);
    ContinuationByte(uc >> 6);
    ContinuationByte(uc >> 6 >> 6);
    LeadByte(uc >> 6 >> 6 >> 6);
  }

  /** Shifting and masking six bits is dividing by 64. */
  lemma {:induction false} SixBits(u: bv21)
    ensures Num(u & 0x3F) == Num(u) % 64
    ensures Num((u >> 6) & 0x3F) == Num(u) / 64 % 64
    ensures Num((u >> 6 >> 6) & 0x3F) == Num(u) / 64 / 64 % 64
    ensures u < 0x1000 ==> Num(u >> 6) == Num(u) / 64
    ensures Num(u >> 6 >> 6) == Num(u) / 64 / 64
    ensures Num(u >> 6 >> 6 >> 6) == Num(u) / 64 / 64 / 64
  {
    hide Num;
    TwelveBits(u);
    SplitLow(u & 0xFFF);
    SplitLow(u >> 12);
    Regrouped(u);
    hide *;
    Digits64(Num(u), Num(u >> 12), Num(u & 0xFFF), Num((u & 0xFFF) >> 6), Num(u & 0x3F), Num(u >> 12 >> 6),
             Num((u >> 12) & 0x3F));
  }

  lemma Digits64(n: int, high: int, low: int, l1: int, l0: int, h1: int, h0: int)
    requires n == high * 4096 + low && low == l1 * 64 + l0 && high == h1 * 64 + h0
    requires 0 <= l1 < 64 && 0 <= l0 < 64 && 0 <= h0 < 64 && 0 <= h1
    ensures n % 64 == l0 && n / 64 % 64 == l1 && n / 64 / 64 == high && n / 64 / 64 % 64 == h0 && n / 64 / 64 / 64 == h1
    ensures high == 0 ==> n / 64 == l1
  {
    assert n / 64 == high * 64 + l1;
  }

  lemma TwelveBits(u: bv21)
    ensures Num(u) == Num(u >> 12) * 4096 + Num(u & 0xFFF)
  {
  }

  lemma SplitLow(u: bv21)
    requires u < 0x1000
    ensures Num(u) == Num(u >> 6) * 64 + Num(u & 0x3F)
  {
  }

  lemma Regrouped(u: bv21)
    ensures u & 0xFFF < 0x1000 && u >> 12 < 0x1000 && (u & 0xFFF) & 0x3F == u & 0x3F
    ensures (u & 0xFFF) >> 6 == (u >> 6) & 0x3F && u >> 6 >> 6 == u >> 12
    ensures u < 0x1000 ==> u >> 6 == (u >> 6) & 0x3F && Num(u >> 12) == 0
    ensures Num((u >> 6) & 0x3F) < 64 && Num(u & 0x3F) < 64 && Num((u >> 12) & 0x3F) < 64
  {
  }

  /** Comparisons mean the same on words and on numbers. */
  lemma Ranges(u: bv21)
    requires u < 0x110000
    ensures Num(u) < 0x110000 && (u < 0x80 <==> Num(u) < 0x80) && (u < 0x800 <==> Num(u) < 0x800)
    ensures u < 0x10000 <==> Num(u) < 0x10000
    ensures u < 0x800 ==> u >> 6 < 0x20 && u < 0x1000
    ensures u < 0x10000 ==> u >> 6 >> 6 < 0x10
    ensures u >> 6 >> 6 >> 6 < 0x08
  {
  }

  predicate IsContinuation(b: Byte) { 0x80 <= b < 0xC0 }

  /** The six bits a continuation byte carries. */
  function Payload(b: Byte): (v: nat)
    requires IsContinuation(b)
  {
    b - 0x80
  }

  datatype CodePoint = NotUtf8 | CodePoint(value: nat)

  /** Section 3 of RFC 3629, read as a decoder for one whole sequence: no overlong forms, no surrogates. */
  function Rfc3629(bytes: seq<Byte>): CodePoint {
    if bytes == [] then NotUtf8
    else
      var lead: int := bytes[0];
      if |bytes| == 1 && lead < 0x80 then CodePoint(lead)
      else if |bytes| == 2 && 0xC2 <= lead < 0xE0 && IsContinuation(bytes[1]) then
        CodePoint((lead - 0xC0) * 64 + Payload(bytes[1]))
      else if |bytes| == 3 && 0xE0 <= lead < 0xF0 && IsContinuation(bytes[1]) && IsContinuation(bytes[2]) then
        var u := (lead - 0xE0) * 4096 + Payload(bytes[1]) * 64 + Payload(bytes[2]);
        if u < 0x800 || IsHighSurrogate(u) || IsLowSurrogate(u) then NotUtf8 else CodePoint(u)
      else if |bytes| == 4 && 0xF0 <= lead < 0xF5
              && IsContinuation(bytes[1]) && IsContinuation(bytes[2]) && IsContinuation(bytes[3]) then
        var u := (lead - 0xF0) * 262144 + Payload(bytes[1]) * 4096 + Payload(bytes[2]) * 64 + Payload(bytes[3]);
        if 0x10000 <= u < 0x110000 then CodePoint(u) else NotUtf8
      else NotUtf8
  }

  lemma Base64Digits(u: nat)
    ensures u == u / 64 / 64 * 4096 + u / 64 % 64 * 64 + u % 64
    ensures u == u / 64 / 64 / 64 * 262144 + u / 64 / 64 % 64 * 4096 + u / 64 % 64 * 64 + u % 64
  {
  }

  lemma Utf8Decodes(u: nat)
    requires u < 0x110000
    ensures Rfc3629(Utf8(u)) ==
            if IsHighSurrogate(u) || IsLowSurrogate(u) then NotUtf8 else CodePoint(u)
  {
    Base64Digits(u);
    var bytes := Utf8(u);
    if 0x80 <= u < 0x800 {
      assert Payload(bytes[1]) == u % 64;
    } else if 0x800 <= u < 0x10000 {
      assert Payload(bytes[1]) == u / 64 % 64 && Payload(bytes[2]) == u % 64;
    } else if 0x10000 <= u {
      assert Payload(bytes[1]) == u / 64 / 64 % 64 && Payload(bytes[2]) == u / 64 % 64 && Payload(bytes[3]) == u % 64;
    }
  }

  /** Section 2.2 of RFC 2781: the code point a surrogate pair stands for. */
  function Rfc2781(high: nat, low: nat): (u: nat)
    requires IsHighSurrogate(high) && IsLowSurrogate(low)
    ensures 0x10000 <= u < 0x110000
  {
    0x10000 + (high - 0xD800) * 1024 + (low - 0xDC00)
  }

  /** The 20 bits of a pair, joined. */
  function JoinedBits(high: nat, low: nat): (v: nat)
    requires IsHighSurrogate(high) && IsLowSurrogate(low)
    ensures v < 0x100000
  {
    (high - 0xD800) * 1024 + (low - 0xDC00)
  }

  predicate Bit16(v: nat) { v / 0x10000 % 2 == 1 }

  /** The parser ORs 0x10000 into the joined bits: it sets bit 16 and leaves the others alone. */
  function ParserPair(high: nat, low: nat): (u: nat)
    requires IsHighSurrogate(high) && IsLowSurrogate(low)
    ensures 0x10000 <= u < 0x100000
  {
    var v := JoinedBits(high, low);
    if Bit16(v) then v else v + 0x10000
  }

  /** The C expression `0x10000 | ((uc&0x3FF)<<10) | (uc2&0x3FF)` computes ParserPair. */
  lemma {:induction false} PairBits(high: bv21, low: bv21)
    requires 0xD800 <= high <= 0xDBFF && 0xDC00 <= low <= 0xDFFF
    ensures IsHighSurrogate(Num(high)) && IsLowSurrogate(Num(low))
    ensures Num(0x10000 | ((high & 0x3FF) << 10) | (low & 0x3FF)) == ParserPair(Num(high), Num(low))
  {
    hide Num;
    TenBits(high);
    TenBits(low);
    JoinedTens(high & 0x3FF, low & 0x3FF);
    hide ParserPair;
  }

  lemma {:induction false} JoinedTens(h: bv21, l: bv21)
    requires h < 0x400 && l < 0x400 && Num(h) < 0x400 && Num(l) < 0x400
    ensures Num(0x10000 | (h << 10) | l) == ParserPair(0xD800 + Num(h), 0xDC00 + Num(l))
  {
    hide Num;
    Joined(h, l);
    SetBit16((h << 10) | l);
    assert 0x10000 | (h << 10) | l == 0x10000 | ((h << 10) | l);
  }

  lemma TenBits(u: bv21)
    ensures u & 0x3FF < 0x400 && Num(u & 0x3FF) < 0x400
    ensures 0xD800 <= u <= 0xDBFF ==> 0xD800 <= Num(u) <= 0xDBFF && Num(u & 0x3FF) == Num(u) - 0xD800
    ensures 0xDC00 <= u <= 0xDFFF ==> 0xDC00 <= Num(u) <= 0xDFFF && Num(u & 0x3FF) == Num(u) - 0xDC00
  {
  }

  lemma Joined(high: bv21, low: bv21)
    requires high < 0x400 && low < 0x400
    ensures (high << 10) | low < 0x100000 && Num((high << 10) | low) == Num(high) * 1024 + Num(low)
  {
  }

  lemma {:induction false} SetBit16(v: bv21)
    requires v < 0x100000
    ensures Num(0x10000 | v) == if Bit16(Num(v)) then Num(v) else Num(v) + 0x10000
  {
    hide Num;
    TwelveBits(v);
    TwelveBits(0x10000 | v);
    assert (0x10000 | v) & 0xFFF == v & 0xFFF && (0x10000 | v) >> 12 == (v >> 12) | 0x10;
    LowTwelve(v);
    SetBit4(v >> 12);
  }

  lemma LowTwelve(v: bv21)
    ensures Num(v & 0xFFF) < 0x1000
  {
  }

  lemma SetBit4(h: bv21)
    requires h < 0x100
    ensures Num(h | 0x10) == if Num(h) / 16 % 2 == 1 then Num(h) else Num(h) + 16
  {
  }

  /** A surrogate pair reaches its code point exactly when bit 16 is clear; otherwise it lands 0x10000 too low. */
  lemma PairExact(high: nat, low: nat)
    requires IsHighSurrogate(high) && IsLowSurrogate(low)
    ensures Rfc3629(Utf8(ParserPair(high, low))) == CodePoint(Rfc2781(high, low)) <==> !Bit16(JoinedBits(high, low))
    ensures Bit16(JoinedBits(high, low)) ==>
              Rfc3629(Utf8(ParserPair(high, low))) == CodePoint(Rfc2781(high, low) - 0x10000)
  {
    Utf8Decodes(ParserPair(high, low));
  }

  // ----- Reading a literal -----

  predicate HexAt(s: seq<Byte>, i: nat) {
    i + 4 <= |s| && IsHexDigit(s[i]) && IsHexDigit(s[i + 1]) && IsHexDigit(s[i + 2]) && IsHexDigit(s[i + 3])
  }

  function Hex4(s: seq<Byte>, i: nat): (u: nat)
    requires HexAt(s, i)
    ensures u < 0x10000
  {
    HexValue(s[i]) * 4096 + HexValue(s[i + 1]) * 256 + HexValue(s[i + 2]) * 16 + HexValue(s[i + 3])
  }

  /** The walk is at the closing quote or at the end of the text. */
  predicate LiteralStops(s: seq<Byte>, i: nat) {
    At(s, i) == QUOTE || At(s, i) == NUL
  }

  /** Every escape from `i` to the end of the literal is complete (section 7 of RFC 8259). */
  predicate LiteralOk(s: seq<Byte>, i: nat)
    decreases |s| - i
  {
    LiteralStops(s, i)
    || (if s[i] != BACKSLASH then LiteralOk(s, i + 1)
        else if At(s, i + 1) == NUL then false
        else if s[i + 1] == LOWER_U then HexAt(s, i + 2) && LiteralOk(s, i + 6)
        else LiteralOk(s, i + 2))
  }

  /** First walk: where it stops. */
  function CountEnd(s: seq<Byte>, i: nat): (e: nat)
    decreases |s| - i
  {
    if LiteralStops(s, i) then i
    else if s[i] == BACKSLASH then CountEnd(s, i + 2) else CountEnd(s, i + 1)
  }

  /** First walk: its count, from which the buffer is sized. */
  function Count(s: seq<Byte>, i: nat): nat
    decreases |s| - i
  {
    if LiteralStops(s, i) then 0
    else 1 + if s[i] == BACKSLASH then Count(s, i + 2) else Count(s, i + 1)
  }

  /** What the second walk does at one place: the bytes it writes and the place it goes on from. */
  datatype Piece = Piece(bytes: seq<Byte>, next: nat)

  function UnicodePiece(s: seq<Byte>, i: nat): (p: Piece)
    requires HexAt(s, i + 2) && LiteralOk(s, i + 6)
    ensures p.next == i + 6 || (p.next == i + 12 && At(s, i + 6) == BACKSLASH && At(s, i + 7) == LOWER_U)
    ensures |p.bytes| <= 3 || (p.next == i + 12 && |p.bytes| == 4)
  {
    var u := Hex4(s, i + 2);
    if IsLowSurrogate(u) || u == 0 then Piece([], i + 6)
    else if IsHighSurrogate(u) then
      if At(s, i + 6) != BACKSLASH || At(s, i + 7) != LOWER_U then Piece([], i + 6)
      else
        var low := Hex4(s, i + 8);
        if IsLowSurrogate(low) then Piece(Utf8(ParserPair(u, low)), i + 12) else Piece([], i + 12)
    else Piece(Utf8(u), i + 6)
  }

  function EscapedByte(c: Byte): Byte {
    if c == 0x62 then 0x08        // \b
    else if c == 0x66 then 0x0C   // \f
    else if c == 0x6E then 0x0A   // \n
    else if c == 0x72 then 0x0D   // \r
    else if c == 0x74 then 0x09   // \t
    else c
  }

  function PieceAt(s: seq<Byte>, i: nat): (p: Piece)
    requires LiteralOk(s, i) && !LiteralStops(s, i)
    ensures i < p.next <= |s| && LiteralOk(s, p.next)
    ensures |p.bytes| <= 4
  {
    if s[i] != BACKSLASH then Piece([s[i]], i + 1)
    else if s[i + 1] == LOWER_U then UnicodePiece(s, i)
    else Piece([EscapedByte(s[i + 1])], i + 2)
  }

  /** Second walk: where it stops. */
  function LiteralEnd(s: seq<Byte>, i: nat): (e: nat)
    requires i <= |s| && LiteralOk(s, i)
    ensures i <= e <= |s| && LiteralStops(s, e)
    decreases |s| - i
  {
    if LiteralStops(s, i) then i else LiteralEnd(s, PieceAt(s, i).next)
  }

  /** Second walk: all it writes. */
  function Decode(s: seq<Byte>, i: nat): seq<Byte>
    requires i <= |s| && LiteralOk(s, i)
    decreases |s| - i
  {
    if LiteralStops(s, i) then [] else PieceAt(s, i).bytes + Decode(s, PieceAt(s, i).next)
  }

  /** Four hexadecimal digits are four plain steps of the first walk. */
  lemma CountOverHex(s: seq<Byte>, i: nat)
    requires HexAt(s, i)
    ensures CountEnd(s, i) == CountEnd(s, i + 4) && Count(s, i) == 4 + Count(s, i + 4)
  {
    assert CountEnd(s, i) == CountEnd(s, i + 1) && CountEnd(s, i + 1) == CountEnd(s, i + 2);
    assert CountEnd(s, i + 2) == CountEnd(s, i + 3) && CountEnd(s, i + 3) == CountEnd(s, i + 4);
    assert Count(s, i) == 1 + Count(s, i + 1) && Count(s, i + 1) == 1 + Count(s, i + 2);
    assert Count(s, i + 2) == 1 + Count(s, i + 3) && Count(s, i + 3) == 1 + Count(s, i + 4);
  }

  /** One piece of the second walk is covered by a run of the first. */
  lemma CountOverPiece(s: seq<Byte>, i: nat)
    requires LiteralOk(s, i) && !LiteralStops(s, i)
    ensures var p := PieceAt(s, i);
            CountEnd(s, i) == CountEnd(s, p.next) && Count(s, i) >= |p.bytes| + Count(s, p.next)
  {
    if s[i] == BACKSLASH && s[i + 1] == LOWER_U {
      CountOverHex(s, i + 2);
      if PieceAt(s, i).next == i + 12 {
        CountOverHex(s, i + 8);
      }
    }
  }

  /** The two walks stop at the same place and the decoded bytes never outgrow the count. */
  lemma {:induction false} TwoWalksAgree(s: seq<Byte>, i: nat)
    requires i <= |s| && LiteralOk(s, i)
    ensures CountEnd(s, i) == LiteralEnd(s, i)
    ensures |Decode(s, i)| <= Count(s, i)
    decreases |s| - i
  {
    if !LiteralStops(s, i) {
      CountOverPiece(s, i);
      TwoWalksAgree(s, PieceAt(s, i).next);
    }
  }

  /** A decoded string holds no NUL, so as a C string it has its full length. */
  lemma {:induction false} DecodeNulFree(s: seq<Byte>, i: nat)
    requires i <= |s| && LiteralOk(s, i)
    ensures NulFree(Decode(s, i))
    decreases |s| - i
  {
    if !LiteralStops(s, i) {
      DecodeNulFree(s, PieceAt(s, i).next);
    }
  }

  /** The byte is the digit `v` in hexadecimal: 0 to 9, A to F or a to f. */
  predicate SpellsDigit(b: Byte, v: int) {
    (0 <= v <= 9 && b == 0x30 + v) || (10 <= v <= 15 && (b == 0x41 + (v - 10) || b == 0x61 + (v - 10)))
  }

  /** The four bytes from `i` on are the number `u` in hexadecimal, in any mixture of cases. */
  predicate Spells(s: seq<Byte>, i: nat, u: nat) {
    && i + 4 <= |s|
    && SpellsDigit(s[i], u / 16 / 16 / 16) && SpellsDigit(s[i + 1], u / 16 / 16 % 16)
    && SpellsDigit(s[i + 2], u / 16 % 16) && SpellsDigit(s[i + 3], u % 16)
  }

  /** A byte is a digit exactly when it spells one, and which. */
  lemma HexDigitSpells(b: Byte, v: int)
    ensures IsHexDigit(b) && HexValue(b) == v <==> SpellsDigit(b, v)
  {
  }

  /** Four digits are read exactly as the number they spell. */
  lemma {:induction false} Hex4Spells(s: seq<Byte>, i: nat, u: nat)
    ensures HexAt(s, i) && Hex4(s, i) == u <==> Spells(s, i, u)
  {
    hide SpellsDigit, IsHexDigit, HexValue;
    if i + 4 <= |s| {
      HexDigitSpells(s[i], u / 16 / 16 / 16);
      HexDigitSpells(s[i + 1], u / 16 / 16 % 16);
      HexDigitSpells(s[i + 2], u / 16 % 16);
      HexDigitSpells(s[i + 3], u % 16);
      if HexAt(s, i) {
        HexDigits(u, HexValue(s[i]), HexValue(s[i + 1]), HexValue(s[i + 2]), HexValue(s[i + 3]));
      }
    }
  }

  lemma {:induction false} HexDigits(u: nat, a: nat, b: nat, c: nat, d: nat)
    requires a < 16 && b < 16 && c < 16 && d < 16
    ensures a * 4096 + b * 256 + c * 16 + d == u <==>
            a == u / 16 / 16 / 16 && b == u / 16 / 16 % 16 && c == u / 16 % 16 && d == u % 16
  {
    DivideBy16(u, a * 256 + b * 16 + c, d);
    DivideBy16(u / 16, a * 16 + b, c);
    DivideBy16(u / 16 / 16, a, b);
  }

  lemma DivideBy16(u: nat, q: nat, r: nat)
    requires r < 16
    ensures q * 16 + r == u <==> q == u / 16 && r == u % 16
  {
  }

  /** At `i` stand a backslash, a `u` and the number `u` in hexadecimal, and the literal goes on behind them. */
  predicate UnicodeEscapeAt(s: seq<Byte>, i: nat, u: nat) {
    At(s, i) == 0x5C && At(s, i + 1) == 0x75 && Spells(s, i + 2, u) && LiteralOk(s, i + 6)
  }

  lemma {:induction false} UnicodeEscapeRead(s: seq<Byte>, i: nat, u: nat)
    requires UnicodeEscapeAt(s, i, u)
    ensures LiteralOk(s, i) && !LiteralStops(s, i) && HexAt(s, i + 2) && Hex4(s, i + 2) == u
    ensures PieceAt(s, i) == UnicodePiece(s, i)
  {
    Hex4Spells(s, i + 2, u);
    hide Hex4, Spells, UnicodePiece;
  }

  /** A \\uXXXX that spells a number which is not zero and no surrogate is written as the UTF-8 of that code point. */
  lemma {:induction false} EscapeTranscodes(s: seq<Byte>, i: nat, u: nat)
    requires UnicodeEscapeAt(s, i, u) && u != 0 && !IsHighSurrogate(u) && !IsLowSurrogate(u)
    ensures LiteralOk(s, i) && !LiteralStops(s, i)
    ensures PieceAt(s, i) == Piece(Utf8(u), i + 6) && Rfc3629(PieceAt(s, i).bytes) == CodePoint(u)
  {
    UnicodeEscapeRead(s, i, u);
    Utf8Decodes(u);
    hide Spells, Hex4, PieceAt, LiteralOk, Utf8, Rfc3629;
  }

  /**
   Two escapes that spell a surrogate pair are consumed together, and are written as the UTF-8 of the code point of the
   pair exactly when bit 16 of the joined value is clear.
   */
  lemma {:induction false} PairTranscodes(s: seq<Byte>, i: nat, high: nat, low: nat)
    requires UnicodeEscapeAt(s, i, high) && UnicodeEscapeAt(s, i + 6, low) && IsHighSurrogate(high) && IsLowSurrogate(low)
    ensures LiteralOk(s, i) && !LiteralStops(s, i) && PieceAt(s, i) == Piece(Utf8(ParserPair(high, low)), i + 12)
    ensures Rfc3629(PieceAt(s, i).bytes) == CodePoint(Rfc2781(high, low)) <==> !Bit16(JoinedBits(high, low))
    ensures Bit16(JoinedBits(high, low)) ==>
              Rfc3629(PieceAt(s, i).bytes) == CodePoint(Rfc2781(high, low) - 0x10000)
  {
    UnicodeEscapeRead(s, i, high);
    UnicodeEscapeRead(s, i + 6, low);
    PairExact(high, low);
    hide Spells, Hex4, PieceAt, LiteralOk, Utf8, Rfc3629;
  }

  /** All others are dropped: a zero, a low surrogate, and a high one, which takes another escape behind it along. */
  lemma {:induction false} EscapeDropped(s: seq<Byte>, i: nat, u: nat)
    requires UnicodeEscapeAt(s, i, u)
    requires u == 0 || IsLowSurrogate(u) || (IsHighSurrogate(u) && !(At(s, i + 6) == 0x5C && At(s, i + 7) == 0x75))
    ensures LiteralOk(s, i) && !LiteralStops(s, i) && PieceAt(s, i) == Piece([], i + 6)
  {
    UnicodeEscapeRead(s, i, u);
    hide Spells, Hex4, PieceAt, LiteralOk;
  }

  lemma {:induction false} PairDropped(s: seq<Byte>, i: nat, high: nat, low: nat)
    requires UnicodeEscapeAt(s, i, high) && UnicodeEscapeAt(s, i + 6, low) && IsHighSurrogate(high) && !IsLowSurrogate(low)
    ensures LiteralOk(s, i) && !LiteralStops(s, i) && PieceAt(s, i) == Piece([], i + 12)
  {
    UnicodeEscapeRead(s, i, high);
    UnicodeEscapeRead(s, i + 6, low);
    hide Spells, Hex4, PieceAt, LiteralOk;
  }

  /** The escapes \\uD840\\uDC00 and a quote. */
  function EscapedU20000(): seq<Byte> { [0x5C, 0x75, 0x44, 0x38, 0x34, 0x30, 0x5C, 0x75, 0x44, 0x43, 0x30, 0x30, 0x22] }

  /** They stand for U+20000, whose joined value has bit 16 set: they are decoded to U+10000. */
  lemma {:induction false} PairTooLow()
    ensures var s := EscapedU20000();
            && LiteralOk(s, 0) && !LiteralStops(s, 0) && Rfc2781(0xD840, 0xDC00) == 0x20000
            && Rfc3629(PieceAt(s, 0).bytes) == CodePoint(0x10000)
  {
    var s := EscapedU20000();
    hide *;
    SecondOfPair(s);
    UnicodeEscapeRead(s, 6, 0xDC00);
    FirstOfPair(s);
    JoinedU20000();
    PairTranscodes(s, 0, 0xD840, 0xDC00);
  }

  lemma JoinedU20000()
    ensures IsHighSurrogate(0xD840) && IsLowSurrogate(0xDC00)
    ensures Rfc2781(0xD840, 0xDC00) == 0x20000 && Bit16(JoinedBits(0xD840, 0xDC00))
  {
  }

  lemma FirstOfPair(s: seq<Byte>)
    requires s == EscapedU20000() && LiteralOk(s, 6)
    ensures UnicodeEscapeAt(s, 0, 0xD840)
  {
    hide LiteralOk;
  }

  lemma SecondOfPair(s: seq<Byte>)
    requires s == EscapedU20000()
    ensures UnicodeEscapeAt(s, 6, 0xDC00)
  {
    assert LiteralOk(s, 12);
    hide LiteralOk;
  }

  /** The table of section 7 of RFC 8259: the escape of `c` stands for the byte `b`. */
  predicate ShortEscapeMeans(c: Byte, b: Byte) {
    || (c == 0x22 && b == 0x22) || (c == 0x5C && b == 0x5C) || (c == 0x2F && b == 0x2F)
    || (c == 0x62 && b == 0x08) || (c == 0x66 && b == 0x0C) || (c == 0x6E && b == 0x0A)
    || (c == 0x72 && b == 0x0D) || (c == 0x74 && b == 0x09)
  }

  predicate InEscapeTable(c: Byte) { c in {0x22, 0x5C, 0x2F, 0x62, 0x66, 0x6E, 0x72, 0x74} }

  /** A backslash and a byte of the table are read as what the table says, and any other byte than a `u` as itself. */
  lemma {:induction false} ShortEscapeRead(s: seq<Byte>, i: nat, b: Byte)
    requires At(s, i) == 0x5C && At(s, i + 1) != 0x75 && At(s, i + 1) != 0 && LiteralOk(s, i + 2)
    requires if InEscapeTable(At(s, i + 1)) then ShortEscapeMeans(At(s, i + 1), b) else b == At(s, i + 1)
    ensures LiteralOk(s, i) && !LiteralStops(s, i) && PieceAt(s, i) == Piece([b], i + 2)
  {
  }

  /** The bytes that are written with an escape of two bytes, and which: the table without the slash. */
  lemma ShortEscapeWritten(b: Byte, c: Byte)
    ensures HasShortEscape(b) && ShortEscape(b) == c <==> ShortEscapeMeans(c, b) && c != 0x2F
  {
  }

  // ----- Writing a literal -----

  predicate NulFree(t: seq<Byte>) { NUL !in t }

  predicate HasShortEscape(b: Byte) {
    b == QUOTE || b == BACKSLASH || b == 0x08 || b == 0x0C || b == NEWLINE || b == 0x0D || b == TAB
  }

  function ShortEscape(b: Byte): (c: Byte)
    requires HasShortEscape(b)
    ensures EscapedByte(c) == b && c != LOWER_U && c != NUL
  {
    if b == 0x08 then 0x62
    else if b == 0x0C then 0x66
    else if b == NEWLINE then 0x6E
    else if b == 0x0D then 0x72
    else if b == TAB then 0x74
    else b
  }

  /** How one byte is written between the quotes. */
  function Escape(b: Byte): seq<Byte> {
    if b > 31 && b != QUOTE && b != BACKSLASH then [b]
    else if HasShortEscape(b) then [BACKSLASH, ShortEscape(b)]
    else [BACKSLASH, LOWER_U, ZERO, ZERO, LowerHex(b / 16), LowerHex(b % 16)]
  }

  function EscapeAll(t: seq<Byte>): seq<Byte> {
    if t == [] then [] else Escape(t[0]) + EscapeAll(t[1..])
  }

  function PrintString(t: seq<Byte>): seq<Byte> {
    [QUOTE] + EscapeAll(t) + [QUOTE]
  }

  /** The first pass of the printer. */
  function EscapeCount(t: seq<Byte>): nat {
    if t == [] then 0
    else 1 + (if HasShortEscape(t[0]) then 1 else if t[0] < 32 then 5 else 0) + EscapeCount(t[1..])
  }

  /** The two passes of the printer agree: with its quotes and its NUL a literal fills `len + 3` bytes exactly. */
  lemma {:induction false} EscapeCountExact(t: seq<Byte>)
    ensures |PrintString(t)| + 1 == EscapeCount(t) + 3
  {
    if t != [] {
      EscapeCountExact(t[1..]);
    }
  }

  /** One escaped byte reads back as one piece holding that byte. */
  lemma PieceOfEscape(s: seq<Byte>, i: nat, b: Byte)
    requires b != NUL && Has(s, i, Escape(b))
    requires LiteralOk(s, i + |Escape(b)|)
    ensures LiteralOk(s, i) && !LiteralStops(s, i)
    ensures PieceAt(s, i) == Piece([b], i + |Escape(b)|)
  {
    var e := Escape(b);
    HasAt(s, i, e);
    assert e[0] == s[i];
    if |e| == 6 {
      assert e[1] == LOWER_U && e[2] == ZERO && e[3] == ZERO && e[4] == LowerHex(b / 16) && e[5] == LowerHex(b % 16);
      assert Hex4(s, i + 2) == b;
    }
  }

  lemma {:induction false} EscapedTextDecodes(s: seq<Byte>, i: nat, t: seq<Byte>)
    requires NulFree(t) && Has(s, i, EscapeAll(t)) && At(s, i + |EscapeAll(t)|) == QUOTE
    ensures LiteralOk(s, i) && Decode(s, i) == t && LiteralEnd(s, i) == i + |EscapeAll(t)|
    decreases t
  {
    hide PieceAt, Escape, Has, LiteralOk, LiteralEnd, Decode;
    if t == [] {
      NothingLeft(s, i);
    } else {
      var e := Escape(t[0]);
      HasSplit(s, i, e, EscapeAll(t[1..]));
      EscapedTextDecodes(s, i + |e|, t[1..]);
      PieceOfEscape(s, i, t[0]);
      PieceDecoded(s, i);
      assert [t[0]] + t[1..] == t;
    }
  }

  lemma NothingLeft(s: seq<Byte>, i: nat)
    requires At(s, i) == QUOTE
    ensures LiteralOk(s, i) && Decode(s, i) == [] && LiteralEnd(s, i) == i
  {
  }

  lemma PieceDecoded(s: seq<Byte>, i: nat)
    requires LiteralOk(s, i) && !LiteralStops(s, i)
    ensures i <= |s| && Decode(s, i) == PieceAt(s, i).bytes + Decode(s, PieceAt(s, i).next)
    ensures LiteralEnd(s, i) == LiteralEnd(s, PieceAt(s, i).next)
  {
  }

  /** Wherever a printed literal stands in a text, reading it back gives the string it was printed from. */
  lemma StringRoundTrip(s: seq<Byte>, i: nat, t: seq<Byte>)
    requires NulFree(t) && Has(s, i, PrintString(t))
    ensures At(s, i) == QUOTE && LiteralOk(s, i + 1)
    ensures Decode(s, i + 1) == t && At(s, LiteralEnd(s, i + 1)) == QUOTE
    ensures LiteralEnd(s, i + 1) + 1 == i + |PrintString(t)|
  {
    HasSplit(s, i, [QUOTE] + EscapeAll(t), [QUOTE]);
    HasSplit(s, i, [QUOTE], EscapeAll(t));
    HasFirst(s, i, [QUOTE]);
    HasFirst(s, i + 1 + |EscapeAll(t)|, [QUOTE]);
    EscapedTextDecodes(s, i + 1, t);
  }

  // ----- The two-pass routines -----

  /** `out` holds the text `t` as a C string. */
  ghost predicate HoldsText(out: array<Byte>, t: seq<Byte>)
    reads out
  {
    |t| < out.Length && out[..|t|] == t && out[|t|] == NUL
  }

  /** parse_string from the byte after the opening quote: count, allocate, decode into the buffer. */
  method DecodeLiteral(s: seq<Byte>, start: nat) returns (out: array<Byte>, k: nat, end: nat)
    requires start <= |s| && LiteralOk(s, start)
    ensures fresh(out) && out.Length == Count(s, start) + 1
    ensures k == |Decode(s, start)| && HoldsText(out, Decode(s, start))
    ensures end == LiteralEnd(s, start)
  {
    TwoWalksAgree(s, start);
    var len, p := 0, start;
    while !LiteralStops(s, p)
      invariant Count(s, start) == len + Count(s, p)
      decreases |s| - p
    {
      len := len + 1;
      p := if s[p] == BACKSLASH then p + 2 else p + 1;
    }
    out := new Byte[len + 1];
    end := start;
    k := 0;
    while !LiteralStops(s, end)
      invariant end <= |s| && LiteralOk(s, end) && LiteralEnd(s, start) == LiteralEnd(s, end)
      invariant 0 <= k < out.Length && Decode(s, start) == out[..k] + Decode(s, end)
      decreases |s| - end
    {
      assert Decode(s, start) == (out[..k] + PieceAt(s, end).bytes) + Decode(s, PieceAt(s, end).next);
      k, end := DecodePiece(s, end, out, k);
    }
    assert Decode(s, end) == [];
    out[k] := NUL;
    assert out[..k] == Decode(s, start);
  }

  /** One turn of the decoding loop. */
  method DecodePiece(s: seq<Byte>, i: nat, out: array<Byte>, k: nat) returns (k': nat, next: nat)
    requires i <= |s| && LiteralOk(s, i) && !LiteralStops(s, i)
    requires k + |PieceAt(s, i).bytes| < out.Length
    modifies out
    ensures next == PieceAt(s, i).next && k' == k + |PieceAt(s, i).bytes|
    ensures out[..k'] == old(out[..k]) + PieceAt(s, i).bytes
  {
    k' := k;
    if s[i] != BACKSLASH {
      out[k] := s[i];
      k', next := k + 1, i + 1;
    } else if s[i + 1] == LOWER_U {
      var u := Hex4(s, i + 2);
      next := i + 6;
      if IsLowSurrogate(u) || u == 0 {
        return;
      }
      if IsHighSurrogate(u) {
        if At(s, next) != BACKSLASH || At(s, next + 1) != LOWER_U {
          return;
        }
        var low := Hex4(s, next + 2);
        next := next + 6;
        if !IsLowSurrogate(low) {
          return;
        }
        u := ParserPair(u, low);
      }
      k' := StoreUtf8(out, k, u);
    } else {
      out[k] := EscapedByte(s[i + 1]);
      k', next := k + 1, i + 2;
    }
  }

  /** The fall-through switch: the bytes of `u` are stored from the last one back to the first. That the bit operations of
      the source compute these numbers is SwitchIsUtf8. */
  method StoreUtf8(out: array<Byte>, k: nat, u: nat) returns (k': nat)
    requires u < 0x110000 && k + Utf8Length(u) <= out.Length
    modifies out
    ensures k' == k + Utf8Length(u)
    ensures out[..k'] == old(out[..k]) + Utf8(u)
  {
    ghost var had, bytes := out[..k], Utf8(u);
    var len := Utf8Length(u);
    k' := k + len;
    // each case falls through to the next; `uc >>= 6` is the division by 64
    if len == 4 {
      out[k + 3] := 0x80 + u % 64;
      out[k + 2] := 0x80 + u / 64 % 64;
      out[k + 1] := 0x80 + u / 64 / 64 % 64;
      out[k] := 0xF0 + u / 64 / 64 / 64;
    } else if len == 3 {
      out[k + 2] := 0x80 + u % 64;
      out[k + 1] := 0x80 + u / 64 % 64;
      out[k] := 0xE0 + u / 64 / 64;
    } else if len == 2 {
      out[k + 1] := 0x80 + u % 64;
      out[k] := 0xC0 + u / 64;
    } else {
      out[k] := u;
    }
    assert out[k] == bytes[0] && (len > 1 ==> out[k + 1] == bytes[1]);
    assert (len > 2 ==> out[k + 2] == bytes[2]) && (len > 3 ==> out[k + 3] == bytes[3]);
    hide Utf8, Utf8Length;
    assert out[..k'] == had + bytes;
  }

  /** print_string_ptr on a string that is present: count, allocate `len + 3`, escape into the buffer. */
  method EscapeText(t: seq<Byte>) returns (out: array<Byte>)
    ensures fresh(out) && out.Length == EscapeCount(t) + 3 == |PrintString(t)| + 1
    ensures HoldsText(out, PrintString(t))
  {
    EscapeCountExact(t);
    var len := 0;
    for i := 0 to |t|
      invariant EscapeCount(t) == len + EscapeCount(t[i..])
    {
      len := len + 1;
      if HasShortEscape(t[i]) {
        len := len + 1;
      } else if t[i] < 32 {
        len := len + 5;
      }
      assert t[i..][1..] == t[i + 1..];
    }
    out := new Byte[len + 3];
    out[0] := QUOTE;
    var k := 1;
    for i := 0 to |t|
      invariant 1 <= k < out.Length && out[..k] + EscapeAll(t[i..]) == [QUOTE] + EscapeAll(t)
    {
      assert t[i..][1..] == t[i + 1..];
      assert [QUOTE] + EscapeAll(t) == (out[..k] + Escape(t[i])) + EscapeAll(t[i + 1..]);
      k := WriteEscape(t[i], out, k);
    }
    assert EscapeAll(t[|t|..]) == [];
    assert out[..k] == [QUOTE] + EscapeAll(t);
    out[k], out[k + 1] := QUOTE, NUL;
    assert out[..k + 1] == PrintString(t);
  }

  /** One turn of the writing loop. */
  method WriteEscape(b: Byte, out: array<Byte>, k: nat) returns (k': nat)
    requires k + |Escape(b)| < out.Length
    modifies out
    ensures k' == k + |Escape(b)|
    ensures out[..k'] == old(out[..k]) + Escape(b)
  {
    if b > 31 && b != QUOTE && b != BACKSLASH {
      out[k] := b;
      k' := k + 1;
    } else {
      out[k] := BACKSLASH;
      if HasShortEscape(b) {
        out[k + 1] := ShortEscape(b);
        k' := k + 2;
      } else {
        // sprintf of "u%04x" also leaves a NUL behind its last digit
        out[k + 1], out[k + 2], out[k + 3] := LOWER_U, ZERO, ZERO;
        out[k + 4], out[k + 5], out[k + 6] := LowerHex(b / 16), LowerHex(b % 16), NUL;
        k' := k + 6;
      }
    }
  }
}
