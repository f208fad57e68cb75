/**
 The texts cJSON_Parse reads, as a grammar of their own: section 2 of RFC 8259, and what cJSON takes besides. A derivation
 says which bytes stand in the text and, without looking at a text, which tree they mean.
 */
module JsonGrammar {
  import opened Bytes
  import opened JsonStrings
  import opened JsonText
  import opened JsonRoundTrip

  type Digit = d: nat | d < 10

  /** 16 bits, as four hexadecimal digits give them. */
  type Unit16 = u: nat | u < 0x10000

  // ----- Derivations -----

  /** What stands between the quotes: a byte for itself, a backslash and a byte `c` for the byte `b`, or a backslash, a `u`
      and `digits` for a unit of UTF-16. */
  datatype Char = Raw(b: Byte) | Short(c: Byte, b: Byte) | Hex(u: Unit16, digits: seq<Byte>)

  datatype Exponent = NoExponent | Exponent(letter: Byte, sign: seq<Byte>, digits: seq<Digit>)

  datatype Numeral = Numeral(negative: bool, zero: bool, whole: seq<Digit>, fraction: seq<Digit>, exponent: Exponent)

  /** Blanks stand before and after every value and name; `blank` is all there is in an empty container. */
  datatype Doc =
    | NullDoc
    | FalseDoc
    | TrueDoc
    | NumberDoc(n: Numeral)
    | StringDoc(chars: seq<Char>, closed: bool)
    | ArrayDoc(blank: seq<Byte>, entries: seq<Entry>)
    | ObjectDoc(blank: seq<Byte>, members: seq<Member>)

  datatype Entry = Entry(before: seq<Byte>, value: Doc, after: seq<Byte>)

  datatype Member = Member(
    before: seq<Byte>, name: seq<Char>, beforeColon: seq<Byte>, afterColon: seq<Byte>, value: Doc, after: seq<Byte>)

  // ----- Well-formed derivations -----

  /** Bytes from 1 to 32. */
  predicate Blanks(w: seq<Byte>) { forall k | 0 <= k < |w| :: 1 <= w[k] <= 32 }

  predicate FormedChar(c: Char) {
    match c
    case Raw(b) => b != 0 && b != 0x22 && b != 0x5C
    case Short(c, b) => c != 0 && c != 0x75 && if InEscapeTable(c) then ShortEscapeMeans(c, b) else b == c
    case Hex(u, digits) => |digits| == 4 && Spells(digits, 0, u)
  }

  predicate FormedChars(cs: seq<Char>) { forall k | 0 <= k < |cs| :: FormedChar(cs[k]) }

  /** RFC 8259 wants a zero exactly if there are no other digits before the point, and a digit in the exponent. */
  predicate FormedNumeral(n: Numeral) {
    && (n.negative || n.zero || n.whole != [])
    && (n.whole != [] ==> n.whole[0] != 0)
    && FormedExponent(n.exponent)
  }

  predicate FormedExponent(x: Exponent) {
    x.Exponent? ==>
      && (x.letter == 0x65 || x.letter == 0x45)
      && (x.sign == [] || x.sign == [0x2B] || x.sign == [0x2D])
  }

  predicate Formed(d: Doc) {
    match d
    case NumberDoc(n) => FormedNumeral(n)
    case StringDoc(chars, _) => FormedChars(chars)
    case ArrayDoc(w, es) => Blanks(w) && FormedEntries(es)
    case ObjectDoc(w, ms) => Blanks(w) && FormedMembers(ms)
    case _ => true
  }

  /** Only a string that ends with the text can lack its closing quote. */
  predicate Closed(d: Doc) { d.StringDoc? ==> d.closed }

  predicate FormedEntries(es: seq<Entry>) {
    es != [] ==>
      assert es[0].value < es[0];
      && Blanks(es[0].before) && Blanks(es[0].after) && Formed(es[0].value) && Closed(es[0].value)
      && FormedEntries(es[1..])
  }

  predicate FormedMembers(ms: seq<Member>) {
    ms != [] ==>
      assert ms[0].value < ms[0];
      && Blanks(ms[0].before) && FormedChars(ms[0].name) && Blanks(ms[0].beforeColon) && Blanks(ms[0].afterColon)
      && Blanks(ms[0].after) && Formed(ms[0].value) && Closed(ms[0].value)
      && FormedMembers(ms[1..])
  }

  // ----- The text of a derivation -----

  function CharText(c: Char): (t: seq<Byte>)
    ensures t != []
  {
    match c
    case Raw(b) => [b]
    case Short(c, _) => [0x5C, c]
    case Hex(_, digits) => [0x5C, 0x75] + digits
  }

  function CharsText(cs: seq<Char>): seq<Byte> {
    if cs == [] then [] else CharText(cs[0]) + CharsText(cs[1..])
  }

  function DigitByte(d: nat): (b: Byte)
    requires d < 10
    ensures b == 0x30 + d
  {
    0x30 + d
  }

  function DigitsText(ds: seq<Digit>): (t: seq<Byte>)
    ensures |t| == |ds|
  {
    seq(|ds|, k requires 0 <= k < |ds| => DigitByte(ds[k]))
  }

  function SignText(n: Numeral): seq<Byte> { if n.negative then [0x2D] else [] }

  function ZeroText(n: Numeral): seq<Byte> { if n.zero then [0x30] else [] }

  function FractionText(ds: seq<Digit>): seq<Byte> { if ds == [] then [] else [0x2E] + DigitsText(ds) }

  function ExponentText(e: Exponent): seq<Byte> {
    if e.NoExponent? then [] else [e.letter] + e.sign + DigitsText(e.digits)
  }

  function NumeralText(n: Numeral): seq<Byte> {
    SignText(n) + ZeroText(n) + DigitsText(n.whole) + FractionText(n.fraction) + ExponentText(n.exponent)
  }

  function TextOf(d: Doc): seq<Byte>
    decreases d
  {
    match d
    case NullDoc => [0x6E, 0x75, 0x6C, 0x6C]
    case FalseDoc => [0x66, 0x61, 0x6C, 0x73, 0x65]
    case TrueDoc => [0x74, 0x72, 0x75, 0x65]
    case NumberDoc(n) => NumeralText(n)
    case StringDoc(chars, closed) => [0x22] + CharsText(chars) + if closed then [0x22] else []
    case ArrayDoc(w, es) => [0x5B] + (if es == [] then w else EntriesText(es)) + [0x5D]
    case ObjectDoc(w, ms) => [0x7B] + (if ms == [] then w else MembersText(ms)) + [0x7D]
  }

  function EntriesText(es: seq<Entry>): seq<Byte>
    decreases es
  {
    if es == [] then []
    else
      assert es[0].value < es[0];
      es[0].before + TextOf(es[0].value) + es[0].after + if |es| == 1 then [] else [0x2C] + EntriesText(es[1..])
  }

  function NameText(m: Member): seq<Byte> { [0x22] + CharsText(m.name) + [0x22] }

  function MembersText(ms: seq<Member>): seq<Byte>
    decreases ms
  {
    if ms == [] then []
    else
      assert ms[0].value < ms[0];
      ms[0].before + NameText(ms[0]) + (ms[0].beforeColon + [0x3A] + ms[0].afterColon) + TextOf(ms[0].value) + ms[0].after
      + if |ms| == 1 then [] else [0x2C] + MembersText(ms[1..])
  }

  // ----- The tree of a derivation -----

  /** A pair stands for the code point of section 2.2 of RFC 2781 if that is `meant`, and as the parser joins it otherwise. */
  function PairBytes(high: Unit16, low: Unit16, meant: bool): (bytes: seq<Byte>)
    requires IsHighSurrogate(high) && IsLowSurrogate(low)
    ensures |bytes| == 4
  {
    Utf8(if meant then Rfc2781(high, low) else ParserPair(high, low))
  }

  predicate StartsPair(cs: seq<Char>) { |cs| > 1 && cs[0].Hex? && IsHighSurrogate(cs[0].u) && cs[1].Hex? }

  /** What one character stands for that begins no pair. A zero, and a surrogate without its partner, stand for nothing; RFC 8259
      leaves the latter open. */
  function CharBytes(c: Char): seq<Byte> {
    match c
    case Raw(b) => [b]
    case Short(_, b) => [b]
    case Hex(u, _) => if u == 0 || IsHighSurrogate(u) || IsLowSurrogate(u) then [] else Utf8(u)
  }

  /** A high surrogate takes the unit behind it along, whatever that is. */
  function CharsBytes(cs: seq<Char>, meant: bool): seq<Byte>
    decreases |cs|
  {
    if cs == [] then []
    else if StartsPair(cs) then
      (if IsLowSurrogate(cs[1].u) then PairBytes(cs[0].u, cs[1].u, meant) else []) + CharsBytes(cs[2..], meant)
    else
      CharBytes(cs[0]) + CharsBytes(cs[1..], meant)
  }

  function NumberOf(ds: seq<Digit>): nat {
    if ds == [] then 0 else NumberOf(ds[..|ds| - 1]) * 10 + ds[|ds| - 1]
  }

  function Ten(k: nat): (r: real)
    ensures r > 0.0
  {
    if k == 0 then 1.0 else 10.0 * Ten(k - 1)
  }

  function ExponentFactor(e: Exponent): real {
    if e.NoExponent? then 1.0
    else if e.sign == [0x2D] then 1.0 / Ten(NumberOf(e.digits))
    else Ten(NumberOf(e.digits))
  }

  function Mantissa(n: Numeral): real { NumberOf(n.whole) as real + NumberOf(n.fraction) as real / Ten(|n.fraction|) }

  /** The number with these digits, exactly. */
  function NumeralValue(n: Numeral): real {
    var v := Mantissa(n) * ExponentFactor(n.exponent);
    if n.negative then -v else v
  }

  function TreeOf(d: Doc, meant: bool): Json
    decreases d
  {
    match d
    case NullDoc => Null
    case FalseDoc => False
    case TrueDoc => True
    case NumberDoc(n) => Number(NumeralValue(n))
    case StringDoc(chars, _) => String(Text(CharsBytes(chars, meant)))
    case ArrayDoc(_, es) => Array(ItemsOf(es, meant))
    case ObjectDoc(_, ms) => Object(NamedItemsOf(ms, meant))
  }

  function ItemsOf(es: seq<Entry>, meant: bool): seq<Item>
    decreases es
  {
    if es == [] then []
    else
      assert es[0].value < es[0];
      [Item(NoText, TreeOf(es[0].value, meant))] + ItemsOf(es[1..], meant)
  }

  function NamedItemsOf(ms: seq<Member>, meant: bool): seq<Item>
    decreases ms
  {
    if ms == [] then []
    else
      assert ms[0].value < ms[0];
      [Item(Text(CharsBytes(ms[0].name, meant)), TreeOf(ms[0].value, meant))] + NamedItemsOf(ms[1..], meant)
  }

  // ----- Strings -----

  lemma {:induction false} HasHex(s: seq<Byte>, i: nat, c: Char)
    requires c.Hex? && FormedChar(c) && Has(s, i, CharText(c)) && LiteralOk(s, i + 6)
    ensures UnicodeEscapeAt(s, i, c.u) && |CharText(c)| == 6
  {
    HasAt(s, i, CharText(c));
    hide SpellsDigit;
    assert CharText(c)[2] == s[i + 2] && CharText(c)[3] == s[i + 3] && CharText(c)[4] == s[i + 4] && CharText(c)[5] == s[i + 5];
  }

  lemma {:induction false} CharRead(s: seq<Byte>, i: nat, c: Char)
    requires FormedChar(c) && Has(s, i, CharText(c)) && LiteralOk(s, i + |CharText(c)|)
    requires c.Hex? && IsHighSurrogate(c.u) ==> !(At(s, i + 6) == 0x5C && At(s, i + 7) == 0x75)
    ensures LiteralOk(s, i) && !LiteralStops(s, i) && PieceAt(s, i) == Piece(CharBytes(c), i + |CharText(c)|)
  {
    HasFirst(s, i, CharText(c));
    match c
    case Raw(b) => RawRead(s, i);
    case Short(x, b) =>
      HasAt(s, i, CharText(c));
      assert At(s, i + 1) == CharText(c)[1];
      ShortEscapeRead(s, i, b);
    case Hex(u, _) =>
      HasHex(s, i, c);
      if u == 0 || IsHighSurrogate(u) || IsLowSurrogate(u) {
        EscapeDropped(s, i, u);
      } else {
        EscapeTranscodes(s, i, u);
      }
      hide LiteralOk, PieceAt, Utf8;
  }

  lemma RawRead(s: seq<Byte>, i: nat)
    requires At(s, i) != 0 && At(s, i) != 0x22 && At(s, i) != 0x5C && LiteralOk(s, i + 1)
    ensures LiteralOk(s, i) && !LiteralStops(s, i) && PieceAt(s, i) == Piece([At(s, i)], i + 1)
  {
  }

  /** A unit that is followed by another one. */
  lemma {:induction false} PairRead(s: seq<Byte>, i: nat, c: Char, c': Char)
    requires FormedChar(c) && FormedChar(c') && c.Hex? && c'.Hex? && IsHighSurrogate(c.u)
    requires Has(s, i, CharText(c)) && Has(s, i + 6, CharText(c')) && LiteralOk(s, i + 6) && LiteralOk(s, i + 12)
    ensures LiteralOk(s, i) && !LiteralStops(s, i)
    ensures PieceAt(s, i) == Piece(if IsLowSurrogate(c'.u) then PairBytes(c.u, c'.u, false) else [], i + 12)
  {
    HasHex(s, i, c);
    HasHex(s, i + 6, c');
    hide LiteralOk, PieceAt, Utf8;
    if IsLowSurrogate(c'.u) {
      PairTranscodes(s, i, c.u, c'.u);
    } else {
      PairDropped(s, i, c.u, c'.u);
    }
  }

  /** A literal ends, or goes on with another character. */
  lemma {:induction false} NextByte(s: seq<Byte>, i: nat, cs: seq<Char>)
    requires FormedChars(cs) && Has(s, i, CharsText(cs)) && LiteralStops(s, i + |CharsText(cs)|)
    requires cs == [] || !cs[0].Hex?
    ensures !(At(s, i) == 0x5C && At(s, i + 1) == 0x75)
  {
    if cs != [] {
      HasSplit(s, i, CharText(cs[0]), CharsText(cs[1..]));
      HasAt(s, i, CharText(cs[0]));
      assert s[i] == CharText(cs[0])[0];
      assert cs[0].Short? ==> s[i + 1] == CharText(cs[0])[1];
    }
  }

  lemma LiteralEmpty(s: seq<Byte>, i: nat)
    requires i <= |s| && LiteralStops(s, i)
    ensures LiteralOk(s, i) && Decode(s, i) == [] && LiteralEnd(s, i) == i
  {
  }

  lemma CharsUnfold(cs: seq<Char>, meant: bool)
    requires cs != []
    ensures CharsText(cs) == CharText(cs[0]) + CharsText(cs[1..])
    ensures FormedChars(cs) ==> FormedChar(cs[0]) && FormedChars(cs[1..])
    ensures !StartsPair(cs) ==> CharsBytes(cs, meant) == CharBytes(cs[0]) + CharsBytes(cs[1..], meant)
    ensures StartsPair(cs) ==>
              && CharsBytes(cs, meant) ==
                 (if IsLowSurrogate(cs[1].u) then PairBytes(cs[0].u, cs[1].u, meant) else []) + CharsBytes(cs[2..], meant)
              && |cs| > 1 && cs[0].Hex? && cs[1].Hex? && IsHighSurrogate(cs[0].u) && cs[2..] == cs[1..][1..]
              && CharsText(cs[1..]) == CharText(cs[1]) + CharsText(cs[2..])
              && (FormedChars(cs) ==> FormedChar(cs[1]) && FormedChars(cs[2..]) && |CharText(cs[0])| == 6 == |CharText(cs[1])|)
    ensures cs[0].Hex? && IsHighSurrogate(cs[0].u) && FormedChars(cs) && !StartsPair(cs) ==>
              (cs[1..] == [] || !cs[1..][0].Hex?) && |CharText(cs[0])| == 6
  {
    hide Spells, ShortEscapeMeans, InEscapeTable;
    if StartsPair(cs) {
      assert cs[1..][1..] == cs[2..];
    }
  }

  /** Wherever these characters stand, up to a quote or the end, they are read as the bytes they stand for. */
  lemma {:induction false} CharsRead(s: seq<Byte>, i: nat, cs: seq<Char>)
    requires FormedChars(cs) && Has(s, i, CharsText(cs)) && LiteralStops(s, i + |CharsText(cs)|)
    ensures i <= |s| && LiteralOk(s, i) && Decode(s, i) == CharsBytes(cs, false)
    ensures LiteralEnd(s, i) == i + |CharsText(cs)|
    decreases |cs|
  {
    hide *;
    if cs == [] {
      NoChars(s, i);
      LiteralEmpty(s, i);
    } else {
      CharsUnfold(cs, false);
      var c, q := cs[0], i + |CharText(cs[0])|;
      HasSplit(s, i, CharText(c), CharsText(cs[1..]));
      CharsRead(s, q, cs[1..]);
      if StartsPair(cs) {
        HasSplit(s, q, CharText(cs[1]), CharsText(cs[2..]));
        CharsRead(s, q + 6, cs[2..]);
        PairRead(s, i, c, cs[1]);
      } else {
        if c.Hex? && IsHighSurrogate(c.u) {
          NextByte(s, q, cs[1..]);
        }
        CharRead(s, i, c);
      }
      PieceDecoded(s, i);
    }
  }

  lemma NoChars(s: seq<Byte>, i: nat)
    requires Has(s, i, CharsText([]))
    ensures i <= |s| && CharsText([]) == [] && CharsBytes([], false) == [] == CharsBytes([], true)
  {
  }

  /** A quoted text. */
  lemma {:induction false} QuotedRead(s: seq<Byte>, i: nat, cs: seq<Char>, closed: bool)
    requires FormedChars(cs) && Has(s, i, [0x22] + CharsText(cs) + if closed then [0x22] else [])
    requires closed || At(s, i + 1 + |CharsText(cs)|) == 0
    ensures At(s, i) == 0x22
    ensures ParseString(s, i) == Done(CharsBytes(cs, false), i + 1 + |CharsText(cs)| + if closed then 1 else 0)
  {
    hide *;
    var end: seq<Byte> := if closed then [0x22] else [];
    HasSplit(s, i, [0x22] + CharsText(cs), end);
    HasSplit(s, i, [0x22], CharsText(cs));
    HasFirst(s, i, [0x22]);
    var e := i + 1 + |CharsText(cs)|;
    if closed {
      HasFirst(s, e, end);
    }
    Stops(s, e);
    CharsRead(s, i + 1, cs);
    LiteralDone(s, i, e);
  }

  lemma Stops(s: seq<Byte>, i: nat)
    ensures LiteralStops(s, i) <==> At(s, i) == 0x22 || At(s, i) == 0
  {
  }

  lemma LiteralDone(s: seq<Byte>, i: nat, e: nat)
    requires i < |s| && At(s, i) == 0x22 && LiteralOk(s, i + 1) && LiteralEnd(s, i + 1) == e
    ensures ParseString(s, i) == Done(Decode(s, i + 1), if At(s, e) == 0x22 then e + 1 else e)
  {
  }

  // ----- Numbers -----

  ghost predicate DigitsAt(s: seq<Byte>, i: nat, ds: seq<Digit>) {
    i + |ds| <= |s| && forall k | 0 <= k < |ds| :: s[i + k] == DigitByte(ds[k])
  }

  lemma {:induction false} HasDigits(s: seq<Byte>, i: nat, ds: seq<Digit>)
    requires Has(s, i, DigitsText(ds))
    ensures DigitsAt(s, i, ds) && AllDigits(s, i, i + |ds|)
    ensures ds != [] ==> At(s, i) == DigitByte(ds[0])
  {
    HasAt(s, i, DigitsText(ds));
    assert forall k | 0 <= k < |ds| :: DigitsText(ds)[k] == DigitByte(ds[k]);
    forall k | i <= k < i + |ds|
      ensures IsDigit(s[k])
    {
      assert s[i + (k - i)] == DigitByte(ds[k - i]);
    }
  }

  lemma {:induction false} Digitwise(s: seq<Byte>, i: nat, ds: seq<Digit>)
    requires DigitsAt(s, i, ds)
    ensures AllDigits(s, i, i + |ds|)
    ensures ds != [] ==> DigitsAt(s, i, ds[..|ds| - 1]) && s[i + |ds| - 1] == DigitByte(ds[|ds| - 1])
  {
    forall k | i <= k < i + |ds|
      ensures IsDigit(s[k])
    {
      assert s[i + (k - i)] == DigitByte(ds[k - i]);
    }
    if ds != [] {
      assert s[i + (|ds| - 1)] == DigitByte(ds[|ds| - 1]);
    }
  }

  /** Digits appended to the digits of `n`. */
  lemma {:induction false} AccumulateDigits(s: seq<Byte>, i: nat, ds: seq<Digit>, n: nat)
    requires DigitsAt(s, i, ds)
    ensures AllDigits(s, i, i + |ds|)
    ensures Accumulate(s, i, i + |ds|, n) as real == n as real * Ten(|ds|) + NumberOf(ds) as real
    decreases |ds|
  {
    hide *;
    Digitwise(s, i, ds);
    DigitsUnfold(ds);
    if ds == [] {
      AccumulateNone(s, i, n);
    } else {
      var front, last, m := ds[..|ds| - 1], ds[|ds| - 1], i + |ds| - 1;
      AccumulateDigits(s, i, front, n);
      DigitRange(s, i, m);
      AccumulateSplit(s, i, m, m + 1, n);
      AccumulateOne(s, m, Accumulate(s, i, m, n));
      Appended(n as real, Ten(|front|), NumberOf(front) as real, Accumulate(s, i, m, n) as real, last as real);
    }
  }

  lemma DigitRange(s: seq<Byte>, i: nat, m: nat)
    requires AllDigits(s, i, m + 1) && i <= m
    ensures m < |s| && IsDigit(s[m]) && AllDigits(s, i, m) && forall k | i <= k < m + 1 :: IsDigit(s[k])
  {
  }

  lemma AccumulateNone(s: seq<Byte>, i: nat, n: nat)
    requires i <= |s|
    ensures Accumulate(s, i, i, n) == n
  {
  }

  lemma DigitsUnfold(ds: seq<Digit>)
    ensures ds == [] ==> NumberOf(ds) == 0 && Ten(|ds|) == 1.0
    ensures ds != [] ==> NumberOf(ds) == NumberOf(ds[..|ds| - 1]) * 10 + ds[|ds| - 1] && Ten(|ds|) == 10.0 * Ten(|ds| - 1)
  {
  }

  lemma Appended(n: real, t: real, v: real, a: real, d: real)
    requires a == n * t + v
    ensures 10.0 * a + d == n * (10.0 * t) + (10.0 * v + d)
  {
  }

  lemma AccumulateOne(s: seq<Byte>, m: nat, n: nat)
    requires m < |s| && IsDigit(s[m])
    ensures Accumulate(s, m, m + 1, n) == n * 10 + (s[m] - 0x30)
  {
    assert Accumulate(s, m + 1, m + 1, n * 10 + (s[m] - 0x30)) == n * 10 + (s[m] - 0x30);
  }

  /** The numeral stands at `i`, its whole part at `b`, its fraction at `c` and its exponent at `d`, and the scanning of
      parse_number cuts it there and stops at `e`. */
  ghost predicate Cut(s: seq<Byte>, i: nat, n: Numeral, b: nat, c: nat, d: nat, e: nat) {
    && i <= b <= c <= d <= e <= |s|
    && (At(s, i) == MINUS <==> n.negative) && (At(s, i) == MINUS || IsDigit(At(s, i)))
    && ZeroEnd(s, SignEnd(s, i)) == b
    && WholeCut(s, n.whole, b, c) && FractionCut(s, n.fraction, c, d) && ExponentCut(s, n.exponent, d, e)
  }

  ghost predicate WholeCut(s: seq<Byte>, ds: seq<Digit>, b: nat, c: nat) {
    b <= |s| && WholeEnd(s, b) == c == b + |ds| && DigitsAt(s, b, ds)
  }

  ghost predicate FractionCut(s: seq<Byte>, ds: seq<Digit>, c: nat, d: nat) {
    && c <= |s|
    && FractionStart(s, c) == (if ds == [] then c else c + 1)
    && FractionEnd(s, c) == d == FractionStart(s, c) + |ds|
    && DigitsAt(s, FractionStart(s, c), ds)
  }

  ghost predicate ExponentCut(s: seq<Byte>, exponent: Exponent, d: nat, e: nat) {
    && d <= |s|
    && (ExponentAt(s, d) <==> exponent.Exponent?)
    && ExponentEnd(s, d) == e
    && (exponent.Exponent? ==>
          var x := ExponentSignEnd(s, d + 1);
          && x <= |s| && DigitsAt(s, x, exponent.digits) && e == x + |exponent.digits| == DigitsEnd(s, x)
          && (At(s, d + 1) == MINUS <==> exponent.sign == [0x2D]))
  }

  lemma {:induction false} WholeCutValue(s: seq<Byte>, ds: seq<Digit>, b: nat, c: nat)
    requires WholeCut(s, ds, b, c)
    ensures WholeValue(s, b) == NumberOf(ds)
  {
    AccumulateDigits(s, b, ds, 0);
  }

  lemma {:induction false} ExponentCutValue(s: seq<Byte>, exponent: Exponent, d: nat, e: nat)
    requires ExponentCut(s, exponent, d, e)
    ensures Pow10(ExponentValue(s, d)) == ExponentFactor(exponent)
  {
    if exponent.Exponent? {
      var x := ExponentSignEnd(s, d + 1);
      AccumulateDigits(s, x, exponent.digits, 0);
      assert Accumulate(s, x, e, 0) == NumberOf(exponent.digits);
      Powers(NumberOf(exponent.digits));
    } else {
      assert Pow10(0) == 1.0;
    }
  }

  lemma {:induction false} Powers(k: int)
    requires k >= 0
    ensures Pow10(k) == Ten(k) && Pow10(-k) == 1.0 / Ten(k)
  {
    if k > 0 {
      Powers(k - 1);
      assert Pow10(-k) == Pow10(-k + 1) / 10.0;
    }
  }

  lemma {:induction false} PowerLess(e: int, k: nat)
    ensures Pow10(e - k) == Pow10(e) / Ten(k)
    decreases k
  {
    if k > 0 {
      PowerLess(e, k - 1);
      var p := e - (k - 1);
      assert Pow10(p - 1) == Pow10(p) / 10.0;
    }
  }

  /** A number is what its digits mean. */
  lemma {:induction false} CutValue(s: seq<Byte>, i: nat, n: Numeral, b: nat, c: nat, d: nat, e: nat)
    requires Cut(s, i, n, b, c, d, e)
    ensures ParseNumber(s, i) == Done(Number(NumeralValue(n)), e)
  {
    hide *;
    CutParts(s, i, n, b, c, d, e);
    WholeCutValue(s, n.whole, b, c);
    FractionCutValue(s, n.fraction, c, d, NumberOf(n.whole));
    ExponentCutValue(s, n.exponent, d, e);
    var m := Accumulate(s, FractionStart(s, c), d, NumberOf(n.whole));
    NumberCut(s, i, b, c, d, e, m);
    ScaledValue(n, m, ExponentValue(s, d));
  }

  lemma {:induction false} ScaledValue(n: Numeral, m: nat, x: int)
    requires m as real == NumberOf(n.whole) as real * Ten(|n.fraction|) + NumberOf(n.fraction) as real
    requires Pow10(x) == ExponentFactor(n.exponent)
    ensures Scaled(n.negative, m, x - |n.fraction|) == NumeralValue(n)
  {
    hide *;
    var k := |n.fraction|;
    ScaledIs(n.negative, m, x - k);
    PowerLess(x, k);
    NumeralIs(n);
    PointMoved(m as real, NumberOf(n.whole) as real, NumberOf(n.fraction) as real, Ten(k), Pow10(x), Pow10(x - k), Mantissa(n));
  }

  lemma NumeralIs(n: Numeral)
    ensures NumeralValue(n) ==
            if n.negative then -(Mantissa(n) * ExponentFactor(n.exponent)) else Mantissa(n) * ExponentFactor(n.exponent)
    ensures Mantissa(n) == NumberOf(n.whole) as real + NumberOf(n.fraction) as real / Ten(|n.fraction|)
  {
    hide NumberOf, Ten, ExponentFactor;
  }

  /** What parse_number computes, from where it stops. */
  lemma NumberCut(s: seq<Byte>, i: nat, b: nat, c: nat, d: nat, e: nat, m: nat)
    requires i <= |s| && b <= |s| && c <= |s| && d <= |s| && (At(s, i) == MINUS || IsDigit(At(s, i)))
    requires ZeroEnd(s, SignEnd(s, i)) == b && WholeEnd(s, b) == c && FractionEnd(s, c) == d && ExponentEnd(s, d) == e
    requires m == Accumulate(s, FractionStart(s, c), d, WholeValue(s, b))
    ensures ParseNumber(s, i) ==
            Done(Number(Scaled(At(s, i) == MINUS, m, ExponentValue(s, d) - (d - FractionStart(s, c)))), e)
  {
    hide Scaled, Accumulate, ExponentValue, WholeValue, FractionStart, ExponentEnd, WholeEnd, ZeroEnd, SignEnd;
  }

  lemma ScaledIs(negative: bool, m: nat, scale: int)
    ensures Scaled(negative, m, scale) == if negative then -(m as real * Pow10(scale)) else m as real * Pow10(scale)
  {
    hide Pow10;
    var k: int := m;
    assert (-k) as real == -(m as real);
    assert -(m as real) * Pow10(scale) == -(m as real * Pow10(scale));
  }

  lemma CutParts(s: seq<Byte>, i: nat, n: Numeral, b: nat, c: nat, d: nat, e: nat)
    requires Cut(s, i, n, b, c, d, e)
    ensures WholeCut(s, n.whole, b, c) && FractionCut(s, n.fraction, c, d) && ExponentCut(s, n.exponent, d, e)
    ensures i <= |s| && (At(s, i) == MINUS || IsDigit(At(s, i))) && (At(s, i) == MINUS <==> n.negative)
    ensures b <= |s| && ZeroEnd(s, SignEnd(s, i)) == b && WholeEnd(s, b) == c
    ensures c <= |s| && FractionEnd(s, c) == d && d - FractionStart(s, c) == |n.fraction| && d <= |s| && ExponentEnd(s, d) == e
  {
  }

  lemma {:induction false} FractionCutValue(s: seq<Byte>, ds: seq<Digit>, c: nat, d: nat, w: nat)
    requires FractionCut(s, ds, c, d)
    ensures FractionStart(s, c) <= d <= |s| && forall k | FractionStart(s, c) <= k < d :: IsDigit(s[k])
    ensures Accumulate(s, FractionStart(s, c), d, w) as real == w as real * Ten(|ds|) + NumberOf(ds) as real
  {
    AccumulateDigits(s, FractionStart(s, c), ds, w);
  }

  lemma PointMoved(m: real, w: real, f: real, t: real, p: real, q: real, v: real)
    requires t > 0.0 && m == w * t + f && q == p / t && v == w + f / t
    ensures m * q == v * p && -(m * q) == -(v * p)
  {
    assert m / t == v;
    assert m * q == (m / t) * p;
  }

  /** The bytes that can stand in a number. */
  predicate NumberByte(b: Byte) { 0x30 <= b <= 0x39 || b == 0x2B || b == 0x2D || b == 0x2E || b == 0x45 || b == 0x65 }

  lemma {:induction false} ExponentRead(s: seq<Byte>, d: nat, x: Exponent)
    requires FormedExponent(x) && Has(s, d, ExponentText(x)) && !NumberByte(At(s, d + |ExponentText(x)|))
    ensures ExponentCut(s, x, d, d + |ExponentText(x)|)
    ensures !IsDigit(At(s, d)) && At(s, d) != MINUS && At(s, d) != DOT
  {
    HasAt(s, d, ExponentText(x));
    if x.Exponent? {
      var e := d + |ExponentText(x)|;
      HasSplit(s, d, [x.letter] + x.sign, DigitsText(x.digits));
      HasSplit(s, d, [x.letter], x.sign);
      HasFirst(s, d, [x.letter]);
      var from := d + 1 + |x.sign|;
      HasDigits(s, from, x.digits);
      if x.sign != [] {
        HasFirst(s, d + 1, x.sign);
      }
      assert x.digits == [] ==> from == e;
      DigitsEndIs(s, from, e);
    }
  }

  lemma {:induction false} FractionRead(s: seq<Byte>, c: nat, ds: seq<Digit>)
    requires Has(s, c, FractionText(ds))
    requires var b := At(s, c + |FractionText(ds)|);
             !IsDigit(b) && b != MINUS && b != DOT
    ensures FractionCut(s, ds, c, c + |FractionText(ds)|)
    ensures !IsDigit(At(s, c)) && At(s, c) != MINUS
  {
    HasAt(s, c, FractionText(ds));
    if ds != [] {
      HasSplit(s, c, [0x2E], DigitsText(ds));
      HasFirst(s, c, [0x2E]);
      HasDigits(s, c + 1, ds);
      DigitsEndIs(s, c + 1, c + 1 + |ds|);
    }
  }

  lemma {:induction false} WholeDigitsRead(s: seq<Byte>, b: nat, ds: seq<Digit>)
    requires Has(s, b, DigitsText(ds)) && (ds != [] ==> ds[0] != 0)
    requires var x := At(s, b + |ds|);
             !IsDigit(x) && x != MINUS
    ensures WholeCut(s, ds, b, b + |ds|)
    ensures At(s, b) != ZERO && At(s, b) != MINUS && (ds != [] ==> IsDigit(At(s, b)))
  {
    HasAt(s, b, DigitsText(ds));
    HasDigits(s, b, ds);
    DigitsEndIs(s, b, b + |ds|);
  }

  lemma {:induction false} LeadRead(s: seq<Byte>, i: nat, n: Numeral)
    requires Has(s, i, SignText(n)) && Has(s, i + |SignText(n)|, ZeroText(n))
    requires var x := At(s, i + |SignText(n)| + |ZeroText(n)|);
             x != MINUS && x != ZERO && (n.negative || n.zero || IsDigit(x))
    ensures ZeroEnd(s, SignEnd(s, i)) == i + |SignText(n)| + |ZeroText(n)|
    ensures (At(s, i) == MINUS <==> n.negative) && (At(s, i) == MINUS || IsDigit(At(s, i)))
  {
    if n.negative {
      HasFirst(s, i, SignText(n));
    }
    if n.zero {
      HasFirst(s, i + |SignText(n)|, ZeroText(n));
    }
  }

  /** Wherever a numeral stands that does not go on, it is read as its value, to its end. */
  lemma {:induction false} NumeralRead(s: seq<Byte>, i: nat, n: Numeral)
    requires FormedNumeral(n) && Has(s, i, NumeralText(n)) && !NumberByte(At(s, i + |NumeralText(n)|))
    ensures i <= |s| && (At(s, i) == MINUS || IsDigit(At(s, i)))
    ensures ParseNumber(s, i) == Done(Number(NumeralValue(n)), i + |NumeralText(n)|)
  {
    var g, z, w, f, x := SignText(n), ZeroText(n), DigitsText(n.whole), FractionText(n.fraction), ExponentText(n.exponent);
    hide *;
    NumeralTextIs(n);
    HasAt(s, i, NumeralText(n));
    HasSplit(s, i, g + z + w + f, x);
    HasSplit(s, i, g + z + w, f);
    HasSplit(s, i, g + z, w);
    HasSplit(s, i, g, z);
    var b := i + |g| + |z|;
    var c := b + |w|;
    var d := c + |f|;
    ExponentRead(s, d, n.exponent);
    FractionRead(s, c, n.fraction);
    WholeDigitsRead(s, b, n.whole);
    LeadRead(s, i, n);
    CutMade(s, i, n, b, c, d, d + |x|);
    CutValue(s, i, n, b, c, d, d + |x|);
  }

  lemma NumeralTextIs(n: Numeral)
    ensures NumeralText(n) ==
            SignText(n) + ZeroText(n) + DigitsText(n.whole) + FractionText(n.fraction) + ExponentText(n.exponent)
    ensures FormedNumeral(n) ==>
              (n.whole != [] ==> n.whole[0] != 0) && FormedExponent(n.exponent) && (n.negative || n.zero || n.whole != [])
  {
    hide FormedExponent;
  }

  lemma CutMade(s: seq<Byte>, i: nat, n: Numeral, b: nat, c: nat, d: nat, e: nat)
    requires i <= b <= c <= d <= e <= |s| && (At(s, i) == MINUS <==> n.negative) && (At(s, i) == MINUS || IsDigit(At(s, i)))
    requires ZeroEnd(s, SignEnd(s, i)) == b
    requires WholeCut(s, n.whole, b, c) && FractionCut(s, n.fraction, c, d) && ExponentCut(s, n.exponent, d, e)
    ensures Cut(s, i, n, b, c, d, e)
  {
    hide WholeCut, FractionCut, ExponentCut;
  }

  // ----- Values -----

  /** What must not follow: a number goes on as long as it can, and a string without its quote ends the text. */
  predicate Followed(s: seq<Byte>, e: nat, d: Doc) {
    (d.NumberDoc? ==> !NumberByte(At(s, e))) && (!Closed(d) ==> At(s, e) == 0)
  }

  lemma {:induction false} NumeralFirst(n: Numeral)
    requires FormedNumeral(n)
    ensures NumeralText(n) != [] && (NumeralText(n)[0] == 0x2D || IsDigit(NumeralText(n)[0]))
  {
  }

  /** Values start with a byte that is no blank and no bracket that closes. */
  lemma {:induction false} DocFirst(s: seq<Byte>, i: nat, d: Doc)
    requires Formed(d) && Has(s, i, TextOf(d))
    ensures i + |TextOf(d)| <= |s| && |TextOf(d)| > 0 && At(s, i) > 0x20 && At(s, i) != 0x5D
  {
    var t := TextOf(d);
    HasAt(s, i, t);
    assert t != [] && t[0] > 0x20 && t[0] != 0x5D by {
      hide FormedNumeral, NumeralText, EntriesText, MembersText, CharsText;
      if d.NumberDoc? {
        NumeralFirst(d.n);
      }
    }
    HasFirst(s, i, t);
  }

  lemma {:induction false} BlanksSkipped(s: seq<Byte>, i: nat, w: seq<Byte>)
    requires Has(s, i, w) && Blanks(w) && At(s, i + |w|) > 0x20
    ensures i <= |s| && Skip(s, i) == i + |w|
  {
    HasAt(s, i, w);
    SkipBlank(s, i, w);
  }

  predicate Delimiter(b: Byte) { b == 0x2C || b == 0x5D || b == 0x7D }

  lemma {:induction false} AfterValue(s: seq<Byte>, q: nat, w: seq<Byte>, d: Doc)
    requires Has(s, q, w) && Blanks(w) && Delimiter(At(s, q + |w|)) && Closed(d)
    ensures q <= |s| && Skip(s, q) == q + |w| && Followed(s, q, d)
  {
    BlanksSkipped(s, q, w);
    if w != [] {
      HasFirst(s, q, w);
    }
  }

  /** Wherever the text of a derivation stands it is read as its tree, to its end. */
  lemma {:induction false} DocRead(s: seq<Byte>, i: nat, d: Doc)
    requires Formed(d) && Has(s, i, TextOf(d)) && Followed(s, i + |TextOf(d)|, d)
    ensures i <= |s| && ParseValue(s, i) == Done(TreeOf(d, false), i + |TextOf(d)|)
    decreases d, 2
  {
    hide *;
    match d
    case NullDoc => PlainRead(s, i, d);
    case FalseDoc => PlainRead(s, i, d);
    case TrueDoc => PlainRead(s, i, d);
    case NumberDoc(_) => PlainRead(s, i, d);
    case StringDoc(_, _) => PlainRead(s, i, d);
    case ArrayDoc(w, es) =>
      ArrayUnfold(s, i, w, es);
      ArrayDocRead(s, i, w, es);
      ArrayValue(s, i);
    case ObjectDoc(w, ms) =>
      ObjectUnfold(s, i, w, ms);
      ObjectDocRead(s, i, w, ms);
      ObjectValue(s, i);
  }

  /** Values that contain no others. */
  lemma {:induction false} PlainRead(s: seq<Byte>, i: nat, d: Doc)
    requires !d.ArrayDoc? && !d.ObjectDoc?
    requires Formed(d) && Has(s, i, TextOf(d)) && Followed(s, i + |TextOf(d)|, d)
    ensures i <= |s| && ParseValue(s, i) == Done(TreeOf(d, false), i + |TextOf(d)|)
  {
    hide Has, NumeralText, CharsText, ParseArray, ParseObject, ParseNumber, ParseString, FormedNumeral, FormedChars, CharsBytes,
         NumeralValue, StartsWith;
    HasAt(s, i, TextOf(d));
    match d
    case NullDoc => WordRead(s, i, Null, NULL_WORD);
    case FalseDoc => WordRead(s, i, False, FALSE_WORD);
    case TrueDoc => WordRead(s, i, True, TRUE_WORD);
    case NumberDoc(n) =>
      NumeralRead(s, i, n);
      NotAWord(s, i);
    case StringDoc(chars, closed) =>
      QuotedRead(s, i, chars, closed);
      NotAWord(s, i);
  }

  lemma ArrayUnfold(s: seq<Byte>, i: nat, w: seq<Byte>, es: seq<Entry>)
    requires Formed(ArrayDoc(w, es)) && Has(s, i, TextOf(ArrayDoc(w, es)))
    ensures Blanks(w) && FormedEntries(es) && Has(s, i, [0x5B] + (if es == [] then w else EntriesText(es)) + [0x5D])
    ensures |TextOf(ArrayDoc(w, es))| == 2 + if es == [] then |w| else |EntriesText(es)|
    ensures TreeOf(ArrayDoc(w, es), false) == Array(ItemsOf(es, false))
  {
    hide Has, EntriesText, FormedEntries, ItemsOf;
  }

  lemma ObjectUnfold(s: seq<Byte>, i: nat, w: seq<Byte>, ms: seq<Member>)
    requires Formed(ObjectDoc(w, ms)) && Has(s, i, TextOf(ObjectDoc(w, ms)))
    ensures Blanks(w) && FormedMembers(ms) && Has(s, i, [0x7B] + (if ms == [] then w else MembersText(ms)) + [0x7D])
    ensures |TextOf(ObjectDoc(w, ms))| == 2 + if ms == [] then |w| else |MembersText(ms)|
    ensures TreeOf(ObjectDoc(w, ms), false) == Object(NamedItemsOf(ms, false))
  {
    hide Has, MembersText, FormedMembers, NamedItemsOf;
  }

  lemma ArrayValue(s: seq<Byte>, i: nat)
    requires i < |s| && At(s, i) == 0x5B
    ensures ParseValue(s, i) == ParseArray(s, i)
  {
    NotAWord(s, i);
    hide StartsWith, ParseArray;
  }

  lemma ObjectValue(s: seq<Byte>, i: nat)
    requires i < |s| && At(s, i) == 0x7B
    ensures ParseValue(s, i) == ParseObject(s, i)
  {
    NotAWord(s, i);
    hide StartsWith, ParseObject;
  }

  /** parse_array and parse_object, from what they find behind the bracket. */
  lemma {:induction false} ArrayFrom(s: seq<Byte>, i: nat, items: seq<Item>, end: nat)
    requires i < |s| && end <= |s|
    requires if items == [] then At(s, Skip(s, i + 1)) == RBRACKET && end == Skip(s, i + 1) + 1
             else At(s, Skip(s, i + 1)) != RBRACKET && ParseItems(s, i + 1) == Done(items, end)
    ensures ParseArray(s, i) == Done(Array(items), end)
  {
    hide *;
    SkipTwice(s, i + 1);
    ArrayFound(s, i);
  }

  lemma ArrayFound(s: seq<Byte>, i: nat)
    requires i < |s|
    ensures var first := Skip(s, i + 1);
            if At(s, first) == RBRACKET then ParseArray(s, i) == Done(Array([]), first + 1)
            else ParseItems(s, first).Done? ==>
                   ParseArray(s, i) == Done(Array(ParseItems(s, first).value), ParseItems(s, first).at)
  {
    hide ParseItems, Skip;
  }

  lemma {:induction false} ObjectFrom(s: seq<Byte>, i: nat, items: seq<Item>, end: nat)
    requires i < |s| && end <= |s|
    requires if items == [] then At(s, Skip(s, i + 1)) == RBRACE && end == Skip(s, i + 1) + 1
             else At(s, Skip(s, i + 1)) != RBRACE && ParseMembers(s, i + 1) == Done(items, end)
    ensures ParseObject(s, i) == Done(Object(items), end)
  {
    hide *;
    SkipTwice(s, i + 1);
    ObjectFound(s, i);
  }

  lemma ObjectFound(s: seq<Byte>, i: nat)
    requires i < |s|
    ensures var first := Skip(s, i + 1);
            if At(s, first) == RBRACE then ParseObject(s, i) == Done(Object([]), first + 1)
            else ParseMembers(s, first).Done? ==>
                   ParseObject(s, i) == Done(Object(ParseMembers(s, first).value), ParseMembers(s, first).at)
  {
    hide ParseMembers, Skip;
  }

  lemma {:induction false} Framed(s: seq<Byte>, i: nat, a: Byte, t: seq<Byte>, b: Byte)
    requires Has(s, i, [a] + t + [b])
    ensures At(s, i) == a && Has(s, i + 1, t) && At(s, i + 1 + |t|) == b && i + |t| + 2 <= |s|
  {
    HasSplit(s, i, [a] + t, [b]);
    HasSplit(s, i, [a], t);
    HasFirst(s, i, [a]);
    HasFirst(s, i + 1 + |t|, [b]);
  }

  lemma {:induction false} ArrayDocRead(s: seq<Byte>, i: nat, w: seq<Byte>, es: seq<Entry>)
    requires Blanks(w) && FormedEntries(es) && Has(s, i, [0x5B] + (if es == [] then w else EntriesText(es)) + [0x5D])
    ensures i < |s| && At(s, i) == 0x5B
    ensures ParseArray(s, i) == Done(Array(ItemsOf(es, false)), i + 2 + if es == [] then |w| else |EntriesText(es)|)
    decreases es, 1
  {
    hide *;
    Structural();
    var t := if es == [] then w else EntriesText(es);
    Framed(s, i, 0x5B, t, 0x5D);
    ItemsOfUnfold(es, false);
    if es == [] {
      BlanksSkipped(s, i + 1, w);
    } else {
      EntriesRead(s, i + 1, es);
    }
    ArrayFrom(s, i, ItemsOf(es, false), i + |t| + 2);
  }

  lemma ItemsOfUnfold(es: seq<Entry>, meant: bool)
    ensures |ItemsOf(es, meant)| == |es|
    ensures es != [] ==>
              && es[0].value < es[0]
              && ItemsOf(es, meant)[0] == Item(NoText, TreeOf(es[0].value, meant)) && ItemsOf(es, meant)[1..] == ItemsOf(es[1..], meant)
    ensures es != [] && FormedEntries(es) ==>
              Blanks(es[0].before) && Blanks(es[0].after) && Formed(es[0].value) && Closed(es[0].value) && FormedEntries(es[1..])
  {
    if es != [] {
      ItemsOfUnfold(es[1..], meant);
      hide TreeOf, Formed;
    }
  }

  /** Where the parts of the first entry stand. */
  lemma {:induction false} EntryPlaces(s: seq<Byte>, i: nat, es: seq<Entry>) returns (p: nat, q: nat, r: nat)
    requires es != [] && Has(s, i, EntriesText(es))
    ensures p == i + |es[0].before| && q == p + |TextOf(es[0].value)| && r == q + |es[0].after| <= |s|
    ensures Has(s, i, es[0].before) && Has(s, p, TextOf(es[0].value)) && Has(s, q, es[0].after)
    ensures if |es| == 1 then r == i + |EntriesText(es)|
            else At(s, r) == 0x2C && Has(s, r + 1, EntriesText(es[1..])) && r + 1 + |EntriesText(es[1..])| == i + |EntriesText(es)|
    ensures i + |EntriesText(es)| <= |s|
  {
    hide Has, TextOf;
    var e := es[0];
    var tail := if |es| == 1 then [] else [0x2C] + EntriesText(es[1..]);
    assert EntriesText(es) == e.before + TextOf(e.value) + e.after + tail;
    p, q, r := i + |e.before|, i + |e.before| + |TextOf(e.value)|, i + |e.before| + |TextOf(e.value)| + |e.after|;
    HasSplit(s, i, e.before + TextOf(e.value) + e.after, tail);
    HasSplit(s, i, e.before + TextOf(e.value), e.after);
    HasSplit(s, i, e.before, TextOf(e.value));
    if |es| > 1 {
      HasSplit(s, r, [0x2C], EntriesText(es[1..]));
      HasFirst(s, r, [0x2C]);
    }
  }

  /** One turn of the entry loop, from its parts. */
  lemma {:induction false} EntryTurn(s: seq<Byte>, i: nat, p: nat, q: nat, r: nat, v: Json)
    requires i <= p <= |s| && q <= r <= |s| && Skip(s, i) == p && ParseValue(s, p) == Done(v, q) && Skip(s, q) == r
    ensures ParseItems(s, i) == ItemsAfter(s, r, Item(NoText, v), RBRACKET)
  {
    hide ParseValue, ItemsAfter, Skip;
  }

  lemma {:induction false} EntriesRead(s: seq<Byte>, i: nat, es: seq<Entry>)
    requires es != [] && FormedEntries(es) && Has(s, i, EntriesText(es)) && At(s, i + |EntriesText(es)|) == 0x5D
    ensures i <= |s| && Skip(s, i) <= |s| && At(s, Skip(s, i)) != 0x5D
    ensures ParseItems(s, i) == Done(ItemsOf(es, false), i + |EntriesText(es)| + 1)
    decreases es, 0
  {
    hide *;
    Structural();
    ItemsOfUnfold(es, false);
    var p, q, r := EntryPlaces(s, i, es);
    var e, items, end := es[0], ItemsOf(es, false), i + |EntriesText(es)| + 1;
    DocFirst(s, p, e.value);
    BlanksSkipped(s, i, e.before);
    AfterValue(s, q, e.after, e.value);
    DocRead(s, p, e.value);
    EntryTurn(s, i, p, q, r, TreeOf(e.value, false));
    if |es| == 1 {
      AfterLast(s, r, items, RBRACKET);
    } else {
      EntriesRead(s, r + 1, es[1..]);
      MoreItems(s, r, items, end);
    }
  }

  lemma Structural()
    ensures COMMA == 0x2C && COLON == 0x3A && RBRACKET == 0x5D && RBRACE == 0x7D
    ensures Delimiter(0x2C) && Delimiter(0x5D) && Delimiter(0x7D)
  {
  }

  lemma {:induction false} ObjectDocRead(s: seq<Byte>, i: nat, w: seq<Byte>, ms: seq<Member>)
    requires Blanks(w) && FormedMembers(ms) && Has(s, i, [0x7B] + (if ms == [] then w else MembersText(ms)) + [0x7D])
    ensures i < |s| && At(s, i) == 0x7B
    ensures ParseObject(s, i) == Done(Object(NamedItemsOf(ms, false)), i + 2 + if ms == [] then |w| else |MembersText(ms)|)
    decreases ms, 1
  {
    hide *;
    Structural();
    var t := if ms == [] then w else MembersText(ms);
    Framed(s, i, 0x7B, t, 0x7D);
    NamedItemsOfUnfold(ms, false);
    if ms == [] {
      BlanksSkipped(s, i + 1, w);
    } else {
      MembersRead(s, i + 1, ms);
    }
    ObjectFrom(s, i, NamedItemsOf(ms, false), i + |t| + 2);
  }

  lemma NamedItemsOfUnfold(ms: seq<Member>, meant: bool)
    ensures |NamedItemsOf(ms, meant)| == |ms|
    ensures ms != [] ==>
              && ms[0].value < ms[0]
              && NamedItemsOf(ms, meant)[0] == Item(Text(CharsBytes(ms[0].name, meant)), TreeOf(ms[0].value, meant))
              && NamedItemsOf(ms, meant)[1..] == NamedItemsOf(ms[1..], meant)
    ensures ms != [] && FormedMembers(ms) ==>
              && Blanks(ms[0].before) && FormedChars(ms[0].name) && Blanks(ms[0].beforeColon) && Blanks(ms[0].afterColon)
              && Formed(ms[0].value) && Closed(ms[0].value) && Blanks(ms[0].after) && FormedMembers(ms[1..])
  {
    if ms != [] {
      NamedItemsOfUnfold(ms[1..], meant);
      hide TreeOf, Formed, CharsBytes;
    }
  }

  /** Where the parts of a member stand: its name, the byte behind that, the colon, its value, the byte behind that, and
      what follows the member. */
  datatype MemberPlaces = MemberPlaces(name: nat, end: nat, colon: nat, value: nat, behind: nat, next: nat)

  lemma {:induction false} PlacesOfMember(s: seq<Byte>, i: nat, ms: seq<Member>) returns (p: MemberPlaces)
    requires ms != [] && Has(s, i, MembersText(ms))
    ensures p.name == i + |ms[0].before| && p.end == p.name + |NameText(ms[0])| && p.colon == p.end + |ms[0].beforeColon|
    ensures p.value == p.colon + 1 + |ms[0].afterColon| && p.behind == p.value + |TextOf(ms[0].value)|
    ensures p.next == p.behind + |ms[0].after| <= |s|
    ensures Has(s, i, ms[0].before) && Has(s, p.name, NameText(ms[0])) && Has(s, p.end, ms[0].beforeColon)
    ensures At(s, p.colon) == 0x3A && Has(s, p.colon + 1, ms[0].afterColon) && Has(s, p.value, TextOf(ms[0].value))
    ensures Has(s, p.behind, ms[0].after)
    ensures if |ms| == 1 then p.next == i + |MembersText(ms)|
            else && At(s, p.next) == 0x2C && Has(s, p.next + 1, MembersText(ms[1..]))
                 && p.next + 1 + |MembersText(ms[1..])| == i + |MembersText(ms)|
    ensures i + |MembersText(ms)| <= |s|
  {
    hide Has, TextOf, NameText;
    var m := ms[0];
    var name, v := NameText(m), TextOf(m.value);
    var colon := m.beforeColon + [0x3A] + m.afterColon;
    var tail := if |ms| == 1 then [] else [0x2C] + MembersText(ms[1..]);
    assert MembersText(ms) == m.before + name + colon + v + m.after + tail;
    HasParts(s, i, m.before, name, colon, v, m.after, tail);
    var end := i + |m.before| + |name|;
    HasSplit(s, end, m.beforeColon + [0x3A], m.afterColon);
    HasSplit(s, end, m.beforeColon, [0x3A]);
    HasFirst(s, end + |m.beforeColon|, [0x3A]);
    var value := end + |colon|;
    p := MemberPlaces(i + |m.before|, end, end + |m.beforeColon|, value, value + |v|, value + |v| + |m.after|);
    if |ms| > 1 {
      HasSplit(s, p.next, [0x2C], MembersText(ms[1..]));
      HasFirst(s, p.next, [0x2C]);
    }
  }

  /** One turn of the member loop, from its parts. */
  lemma {:induction false} MemberTurn(s: seq<Byte>, i: nat, p: MemberPlaces, name: seq<Byte>, v: Json)
    requires i <= p.name <= |s| && p.end <= p.colon < p.value <= |s| && p.behind <= p.next <= |s|
    requires Skip(s, i) == p.name && ParseString(s, p.name) == Done(name, p.end)
    requires Skip(s, p.end) == p.colon && At(s, p.colon) == COLON
    requires Skip(s, p.colon + 1) == p.value && ParseValue(s, p.value) == Done(v, p.behind) && Skip(s, p.behind) == p.next
    ensures ParseMembers(s, i) == ItemsAfter(s, p.next, Item(Text(name), v), RBRACE)
  {
    hide ParseValue, ParseString, ItemsAfter, Skip;
  }

  lemma {:induction false} NameRead(s: seq<Byte>, i: nat, m: Member)
    requires FormedChars(m.name) && Has(s, i, NameText(m))
    ensures At(s, i) == 0x22 && i <= |s|
    ensures ParseString(s, i) == Done(CharsBytes(m.name, false), i + |NameText(m)|)
  {
    hide Has, FormedChars, CharsBytes, ParseString;
    HasAt(s, i, NameText(m));
    QuotedRead(s, i, m.name, true);
  }

  lemma {:induction false} MembersRead(s: seq<Byte>, i: nat, ms: seq<Member>)
    requires ms != [] && FormedMembers(ms) && Has(s, i, MembersText(ms)) && At(s, i + |MembersText(ms)|) == 0x7D
    ensures i <= |s| && Skip(s, i) <= |s| && At(s, Skip(s, i)) != 0x7D
    ensures ParseMembers(s, i) == Done(NamedItemsOf(ms, false), i + |MembersText(ms)| + 1)
    decreases ms, 0
  {
    hide *;
    Structural();
    NamedItemsOfUnfold(ms, false);
    var p := PlacesOfMember(s, i, ms);
    var m, items, end := ms[0], NamedItemsOf(ms, false), i + |MembersText(ms)| + 1;
    NameRead(s, p.name, m);
    BlanksSkipped(s, i, m.before);
    BlanksSkipped(s, p.end, m.beforeColon);
    DocFirst(s, p.value, m.value);
    BlanksSkipped(s, p.colon + 1, m.afterColon);
    AfterValue(s, p.behind, m.after, m.value);
    DocRead(s, p.value, m.value);
    MemberTurn(s, i, p, CharsBytes(m.name, false), TreeOf(m.value, false));
    if |ms| == 1 {
      AfterLast(s, p.next, items, RBRACE);
    } else {
      MembersRead(s, p.next + 1, ms[1..]);
      MoreMembers(s, p.next, items, end);
    }
  }

  /**
   cJSON_Parse reads every text of the grammar: after any blanks it gives the tree the derivation means and stops right
   behind the value, whatever follows that does not go on with it.
   */
  lemma {:induction false} GrammarParses(w: seq<Byte>, d: Doc, rest: seq<Byte>)
    requires Blanks(w) && Formed(d) && Followed(rest, 0, d)
    ensures Parse(w + TextOf(d) + rest) == Done(TreeOf(d, false), |w| + |TextOf(d)|)
  {
    var s := w + TextOf(d) + rest;
    hide TextOf, TreeOf, Formed, ParseValue, Blanks, Skip;
    HasSlice(s, 0, w + TextOf(d));
    HasSplit(s, 0, w, TextOf(d));
    DocFirst(s, |w|, d);
    BlanksSkipped(s, 0, w);
    assert At(s, |w| + |TextOf(d)|) == At(rest, 0);
    DocRead(s, |w|, d);
  }
}
