/**
 The JSON trees of cJSON as values, the text print_value gives for one, and what parse_value reads from a text.
 */
module JsonText {
  import opened Bytes
  import opened JsonStrings

  /** A `char *` field that may be NULL. */
  datatype MaybeText = NoText | Text(bytes: seq<Byte>)

  datatype Json =
    | Null
    | False
    | True
    | Number(value: real)
    | String(text: MaybeText)
    | Array(items: seq<Item>)
    | Object(members: seq<Item>)

  /** A child in a chain, with its `string` field: NULL in arrays, the member's name in objects. */
  datatype Item = Item(name: MaybeText, value: Json)

  // ----- Printing -----

  const INT_MIN := -0x8000_0000
  const INT_MAX := 0x7FFF_FFFF

  predicate IsInt32(d: real) {
    d == d.Floor as real && INT_MIN <= d.Floor <= INT_MAX
  }

  /** Every number in the tree takes the integer path of print_number. */
  predicate IntegersOnly(j: Json) {
    match j
    case Number(d) => IsInt32(d)
    case Array(items) => forall k | 0 <= k < |items| :: IntegersOnly(items[k].value)
    case Object(items) => forall k | 0 <= k < |items| :: IntegersOnly(items[k].value)
    case _ => true
  }

  predicate IntegersOnlyAll(items: seq<Item>) {
    forall k | 0 <= k < |items| :: IntegersOnly(items[k].value)
  }

  const NULL_WORD: seq<Byte> := [0x6E, 0x75, 0x6C, 0x6C]
  const FALSE_WORD: seq<Byte> := [0x66, 0x61, 0x6C, 0x73, 0x65]
  const TRUE_WORD: seq<Byte> := [0x74, 0x72, 0x75, 0x65]

  function Digits(n: nat): (t: seq<Byte>)
    ensures t != []
  {
    (if n < 10 then [] else Digits(n / 10)) + [ZERO + n % 10]
  }

  /** "%d" */
  function Decimal(n: int): seq<Byte> {
    if n < 0 then [MINUS] + Digits(-n) else Digits(n)
  }

  function Tabs(n: nat): (t: seq<Byte>)
    ensures |t| == n
  {
    seq(n, _ => TAB)
  }

  function Indent(fmt: bool, n: nat): seq<Byte> { if fmt then Tabs(n) else [] }

  function LineEnd(fmt: bool): seq<Byte> { if fmt then [NEWLINE] else [] }

  /** print_string_ptr gives the empty text, without quotes, for NULL. */
  function PrintText(t: MaybeText): seq<Byte> {
    if t.NoText? then [] else PrintString(t.bytes)
  }

  function PrintValue(j: Json, depth: nat, fmt: bool): seq<Byte>
    requires IntegersOnly(j)
    decreases j
  {
    match j
    case Null => NULL_WORD
    case False => FALSE_WORD
    case True => TRUE_WORD
    case Number(d) => Decimal(d.Floor)
    case String(t) => PrintText(t)
    case Array(items) => PrintArray(items, depth, fmt)
    case Object(items) => PrintObject(items, depth, fmt)
  }

  function PrintArray(items: seq<Item>, depth: nat, fmt: bool): seq<Byte>
    requires IntegersOnlyAll(items)
    decreases items, 1
  {
    [LBRACKET] + PrintItems(items, depth, fmt) + [RBRACKET]
  }

  function PrintObject(items: seq<Item>, depth: nat, fmt: bool): seq<Byte>
    requires IntegersOnlyAll(items)
    decreases items, 1
  {
    [LBRACE] + LineEnd(fmt) + PrintMembers(items, depth + 1, fmt) + Indent(fmt, depth) + [RBRACE]
  }

  /** What stands between two array entries. */
  function ItemGap(fmt: bool, last: bool): seq<Byte> {
    if last then [] else if fmt then [COMMA, SPACE] else [COMMA]
  }

  function PrintItems(items: seq<Item>, depth: nat, fmt: bool): seq<Byte>
    requires IntegersOnlyAll(items)
    decreases items, 0
  {
    if items == [] then []
    else
      assert items[0].value < items[0];
      PrintValue(items[0].value, depth + 1, fmt) + ItemGap(fmt, |items| == 1) + PrintItems(items[1..], depth, fmt)
  }

  function NameEnd(fmt: bool): seq<Byte> { if fmt then [COLON, TAB] else [COLON] }

  function MemberEnd(fmt: bool, last: bool): seq<Byte> { (if last then [] else [COMMA]) + LineEnd(fmt) }

  /** `depth` is the depth of the members, one more than that of the object. */
  function PrintMembers(items: seq<Item>, depth: nat, fmt: bool): seq<Byte>
    requires IntegersOnlyAll(items)
    decreases items, 0
  {
    if items == [] then []
    else
      assert items[0].value < items[0];
      Indent(fmt, depth) + PrintText(items[0].name) + NameEnd(fmt) + PrintValue(items[0].value, depth, fmt)
      + MemberEnd(fmt, |items| == 1) + PrintMembers(items[1..], depth, fmt)
  }

  // ----- Parsing -----

  /**
   The outcome of a parse function: a value and the cursor after it, or NULL. IllFormed stands for a string literal
   with an incomplete escape, on which the C code has no defined result.
   */
  datatype Parsed<T> = Done(value: T, at: nat) | Refused | IllFormed

  function Skip(s: seq<Byte>, i: nat): (j: nat)
    requires i <= |s|
    ensures i <= j <= |s| && !(0 < At(s, j) <= SPACE)
    ensures forall k | i <= k < j :: 0 < s[k] <= SPACE
    decreases |s| - i
  {
    if 0 < At(s, i) <= SPACE then Skip(s, i + 1) else i
  }

  predicate StartsWith(s: seq<Byte>, i: nat, w: seq<Byte>) {
    i + |w| <= |s| && s[i..i + |w|] == w
  }

  function DigitsEnd(s: seq<Byte>, i: nat): (e: nat)
    requires i <= |s|
    ensures i <= e <= |s| && !IsDigit(At(s, e))
    ensures forall k | i <= k < e :: IsDigit(s[k])
    decreases |s| - i
  {
    if IsDigit(At(s, i)) then DigitsEnd(s, i + 1) else i
  }

  /** The number whose digits stand in `s[i..e]`, appended to the digits of `n`. */
  function Accumulate(s: seq<Byte>, i: nat, e: nat, n: nat): nat
    requires i <= e <= |s| && forall k | i <= k < e :: IsDigit(s[k])
    decreases e - i
  {
    if i == e then n
    else
      assert IsDigit(s[i]);
      var digit: int := s[i];
      Accumulate(s, i + 1, e, n * 10 + (digit - 0x30))
  }

  function Pow10(k: int): real
    decreases if k < 0 then -k else k
  {
    if k == 0 then 1.0 else if k > 0 then 10.0 * Pow10(k - 1) else Pow10(k + 1) / 10.0
  }

  function Scaled(negative: bool, n: nat, scale: int): real {
    var m: int := n;
    (if negative then -m else m) as real * Pow10(scale)
  }

  function SignEnd(s: seq<Byte>, i: nat): nat { if At(s, i) == MINUS then i + 1 else i }

  function ZeroEnd(s: seq<Byte>, i: nat): nat { if At(s, i) == ZERO then i + 1 else i }

  /** Digits count here only when they start with a nonzero one. */
  function WholeEnd(s: seq<Byte>, i: nat): (e: nat)
    requires i <= |s|
    ensures i <= e <= |s|
  {
    if 0x31 <= At(s, i) <= 0x39 then DigitsEnd(s, i) else i
  }

  predicate FractionAt(s: seq<Byte>, i: nat) { At(s, i) == DOT && IsDigit(At(s, i + 1)) }

  predicate ExponentAt(s: seq<Byte>, i: nat) { At(s, i) == 0x65 || At(s, i) == 0x45 }

  function ExponentSignEnd(s: seq<Byte>, i: nat): nat {
    if At(s, i) == PLUS || At(s, i) == MINUS then i + 1 else i
  }

  function WholeValue(s: seq<Byte>, i: nat): nat
    requires i <= |s|
  {
    if WholeEnd(s, i) == i then 0 else Accumulate(s, i, WholeEnd(s, i), 0)
  }

  function FractionStart(s: seq<Byte>, i: nat): nat { if FractionAt(s, i) then i + 1 else i }

  function FractionEnd(s: seq<Byte>, i: nat): (e: nat)
    requires i <= |s|
    ensures FractionStart(s, i) <= e <= |s| && forall k | FractionStart(s, i) <= k < e :: IsDigit(s[k])
  {
    if FractionAt(s, i) then DigitsEnd(s, i + 1) else i
  }

  function ExponentEnd(s: seq<Byte>, i: nat): (e: nat)
    requires i <= |s|
    ensures i <= e <= |s|
  {
    if ExponentAt(s, i) then DigitsEnd(s, ExponentSignEnd(s, i + 1)) else i
  }

  function ExponentValue(s: seq<Byte>, i: nat): int
    requires i <= |s|
  {
    if !ExponentAt(s, i) then 0
    else
      var start := ExponentSignEnd(s, i + 1);
      var e: int := Accumulate(s, start, DigitsEnd(s, start), 0);
      if At(s, i + 1) == MINUS then -e else e
  }

  /** parse_number, with exact arithmetic. It never refuses. */
  function ParseNumber(s: seq<Byte>, i: nat): (r: Parsed<Json>)
    requires i <= |s| && (At(s, i) == MINUS || IsDigit(At(s, i)))
    ensures r.Done? && i < r.at <= |s| && r.value.Number?
  {
    var whole := ZeroEnd(s, SignEnd(s, i));
    var point := WholeEnd(s, whole);
    var start, end := FractionStart(s, point), FractionEnd(s, point);
    var n := Accumulate(s, start, end, WholeValue(s, whole));
    Done(Number(Scaled(At(s, i) == MINUS, n, ExponentValue(s, end) - (end - start))), ExponentEnd(s, end))
  }

  function ParseString(s: seq<Byte>, i: nat): (r: Parsed<seq<Byte>>)
    requires i <= |s|
    ensures r.Done? ==> i < r.at <= |s|
  {
    if At(s, i) != QUOTE then Refused
    else if !LiteralOk(s, i + 1) then IllFormed
    else
      var e := LiteralEnd(s, i + 1);
      Done(Decode(s, i + 1), if At(s, e) == QUOTE then e + 1 else e)
  }

  function ParseValue(s: seq<Byte>, i: nat): (r: Parsed<Json>)
    requires i <= |s|
    ensures r.Done? ==> i < r.at <= |s|
    decreases |s| - i, 2
  {
    if StartsWith(s, i, NULL_WORD) then Done(Null, i + 4)
    else if StartsWith(s, i, FALSE_WORD) then Done(False, i + 5)
    else if StartsWith(s, i, TRUE_WORD) then Done(True, i + 4)
    else if At(s, i) == QUOTE then
      match ParseString(s, i)
      case Done(t, at) => Done(String(Text(t)), at)
      case Refused => Refused
      case IllFormed => IllFormed
    else if At(s, i) == MINUS || IsDigit(At(s, i)) then ParseNumber(s, i)
    else if At(s, i) == LBRACKET then ParseArray(s, i)
    else if At(s, i) == LBRACE then ParseObject(s, i)
    else Refused
  }

  function ParseArray(s: seq<Byte>, i: nat): (r: Parsed<Json>)
    requires i < |s|
    ensures r.Done? ==> i < r.at <= |s|
    decreases |s| - i, 1
  {
    var first := Skip(s, i + 1);
    if At(s, first) == RBRACKET then Done(Array([]), first + 1)
    else
      match ParseItems(s, first)
      case Done(items, at) => Done(Array(items), at)
      case Refused => Refused
      case IllFormed => IllFormed
  }

  function ParseObject(s: seq<Byte>, i: nat): (r: Parsed<Json>)
    requires i < |s|
    ensures r.Done? ==> i < r.at <= |s|
    decreases |s| - i, 1
  {
    var first := Skip(s, i + 1);
    if At(s, first) == RBRACE then Done(Object([]), first + 1)
    else
      match ParseMembers(s, first)
      case Done(items, at) => Done(Object(items), at)
      case Refused => Refused
      case IllFormed => IllFormed
  }

  /** The entries of an array from one entry to the closing bracket. */
  function ParseItems(s: seq<Byte>, i: nat): (r: Parsed<seq<Item>>)
    requires i <= |s|
    ensures r.Done? ==> i < r.at <= |s|
    decreases |s| - i, 3
  {
    match ParseValue(s, Skip(s, i))
    case Refused => Refused
    case IllFormed => IllFormed
    case Done(v, at) => ItemsAfter(s, Skip(s, at), Item(NoText, v), RBRACKET)
  }

  /** After an entry: a comma and more entries, or the closing byte. */
  function ItemsAfter(s: seq<Byte>, i: nat, first: Item, close: Byte): (r: Parsed<seq<Item>>)
    requires i <= |s| && (close == RBRACKET || close == RBRACE)
    ensures r.Done? ==> i < r.at <= |s|
    decreases |s| - i, 4
  {
    if At(s, i) == COMMA then
      match if close == RBRACKET then ParseItems(s, i + 1) else ParseMembers(s, i + 1)
      case Refused => Refused
      case IllFormed => IllFormed
      case Done(rest, at) => Done([first] + rest, at)
    else if At(s, i) == close then Done([first], i + 1)
    else Refused
  }

  /** The members of an object from one member to the closing brace. */
  function ParseMembers(s: seq<Byte>, i: nat): (r: Parsed<seq<Item>>)
    requires i <= |s|
    ensures r.Done? ==> i < r.at <= |s|
    decreases |s| - i, 3
  {
    match ParseString(s, Skip(s, i))
    case Refused => Refused
    case IllFormed => IllFormed
    case Done(name, at) =>
      var colon := Skip(s, at);
      if At(s, colon) != COLON then Refused
      else
        match ParseValue(s, Skip(s, colon + 1))
        case Refused => Refused
        case IllFormed => IllFormed
        case Done(v, at') => ItemsAfter(s, Skip(s, at'), Item(Text(name), v), RBRACE)
  }

  /** cJSON_Parse: blanks, then a value; what stands behind the value is not looked at. */
  function Parse(s: seq<Byte>): Parsed<Json> {
    ParseValue(s, Skip(s, 0))
  }
}
