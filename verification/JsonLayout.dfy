/** The bytes cJSON prints, as numbers: literals, numerals and escapes, and the layout of containers line by line. */
module JsonLayout {
  import opened Bytes
  import opened JsonStrings
  import opened JsonText
  import opened JsonRoundTrip
  import opened JsonGrammar

  lemma LiteralsPrinted(depth: nat, fmt: bool)
    ensures PrintValue(Null, depth, fmt) == [0x6E, 0x75, 0x6C, 0x6C]
    ensures PrintValue(False, depth, fmt) == [0x66, 0x61, 0x6C, 0x73, 0x65]
    ensures PrintValue(True, depth, fmt) == [0x74, 0x72, 0x75, 0x65]
  {
  }

  /** A number is printed with the digits that mean it, without a leading zero, and behind a minus if it is negative. */
  lemma {:induction false} NumberPrinted(n: int, depth: nat, fmt: bool) returns (ds: seq<Digit>)
    requires INT_MIN <= n <= INT_MAX
    ensures IsInt32(n as real)
    ensures PrintValue(Number(n as real), depth, fmt) == (if n < 0 then [0x2D] else []) + DigitsText(ds)
    ensures NumberOf(ds) == (if n < 0 then -n else n) && ds != [] && (ds[0] == 0 ==> n == 0 && |ds| == 1)
  {
    ds := DigitsPrinted(if n < 0 then -n else n);
    assert (n as real).Floor == n;
  }

  lemma {:induction false} DigitsPrinted(n: nat) returns (ds: seq<Digit>)
    ensures Digits(n) == DigitsText(ds) && NumberOf(ds) == n && ds != [] && (ds[0] == 0 ==> n == 0 && |ds| == 1)
  {
    ds := [n % 10];
    if n >= 10 {
      var front := DigitsPrinted(n / 10);
      ds := front + [n % 10];
      assert ds[..|ds| - 1] == front;
      assert DigitsText(ds) == DigitsText(front) + [DigitByte(n % 10)];
    }
  }

  /** How a byte is printed inside quotes: for itself, with an escape of the table, or in lower-case hexadecimal. */
  lemma {:induction false} EscapePrinted(b: Byte)
    ensures b >= 0x20 && b != 0x22 && b != 0x5C ==> Escape(b) == [b]
    ensures forall c: Byte | ShortEscapeMeans(c, b) && c != 0x2F :: Escape(b) == [0x5C, c]
    ensures b < 0x20 && b !in {0x08, 0x0C, 0x0A, 0x0D, 0x09} ==>
              && |Escape(b)| == 6 && Escape(b)[..4] == [0x5C, 0x75, 0x30, 0x30]
              && SpellsDigit(Escape(b)[4], b / 16) && SpellsDigit(Escape(b)[5], b % 16)
              && (b % 16 > 9 ==> 0x61 <= Escape(b)[5] <= 0x66)
  {
  }

  lemma QuotesPrinted(t: seq<Byte>)
    ensures PrintText(Text(t)) == [0x22] + EscapeAll(t) + [0x22] && PrintText(NoText) == []
  {
  }

  /** The parts one after the other, with the separator between any two. */
  function Joined(parts: seq<seq<Byte>>, separator: seq<Byte>): seq<Byte> {
    if parts == [] then []
    else parts[0] + (if |parts| == 1 then [] else separator + Joined(parts[1..], separator))
  }

  function Entries(items: seq<Item>, depth: nat, fmt: bool): (parts: seq<seq<Byte>>)
    requires IntegersOnlyAll(items)
    ensures |parts| == |items|
  {
    seq(|items|, k requires 0 <= k < |items| => PrintValue(items[k].value, depth + 1, fmt))
  }

  /** `[a, b]`, or `[a,b]` without formatting. */
  lemma {:induction false} ArrayPrinted(items: seq<Item>, depth: nat, fmt: bool)
    requires IntegersOnlyAll(items)
    ensures PrintArray(items, depth, fmt) ==
            [0x5B] + Joined(Entries(items, depth, fmt), if fmt then [0x2C, 0x20] else [0x2C]) + [0x5D]
  {
    ItemsJoined(items, depth, fmt);
  }

  lemma {:induction false} ItemsJoined(items: seq<Item>, depth: nat, fmt: bool)
    requires IntegersOnlyAll(items)
    ensures PrintItems(items, depth, fmt) == Joined(Entries(items, depth, fmt), if fmt then [0x2C, 0x20] else [0x2C])
    decreases |items|
  {
    if items != [] {
      hide PrintValue, IntegersOnly;
      assert Entries(items, depth, fmt)[1..] == Entries(items[1..], depth, fmt);
      ItemsJoined(items[1..], depth, fmt);
    }
  }

  /** One line of an object: tabs up to its depth, the name, a colon, a tab and the value. */
  function Line(item: Item, depth: nat, fmt: bool): seq<Byte>
    requires IntegersOnly(item.value)
  {
    (if fmt then seq(depth, _ => 0x09) else []) + PrintText(item.name) + (if fmt then [0x3A, 0x09] else [0x3A])
    + PrintValue(item.value, depth, fmt)
  }

  function Lines(items: seq<Item>, depth: nat, fmt: bool): (lines: seq<seq<Byte>>)
    requires IntegersOnlyAll(items)
    ensures |lines| == |items|
  {
    seq(|items|, k requires 0 <= k < |items| => Line(items[k], depth, fmt))
  }

  /** A brace, a line for each member with a comma before every next one, and a brace on a line of its own; without
      formatting all that without the white space. */
  lemma {:induction false} ObjectPrinted(items: seq<Item>, depth: nat, fmt: bool)
    requires IntegersOnlyAll(items)
    ensures fmt ==>
              PrintObject(items, depth, fmt) ==
              [0x7B, 0x0A] + Joined(Lines(items, depth + 1, fmt), [0x2C, 0x0A]) + (if items == [] then [] else [0x0A])
              + seq(depth, _ => 0x09) + [0x7D]
    ensures !fmt ==> PrintObject(items, depth, fmt) == [0x7B] + Joined(Lines(items, depth + 1, fmt), [0x2C]) + [0x7D]
  {
    hide PrintMembers, Joined, Lines, IntegersOnlyAll, Tabs;
    MembersJoined(items, depth + 1, fmt);
    TabsAre(depth);
    var lines := Joined(Lines(items, depth + 1, fmt), if fmt then [0x2C, 0x0A] else [0x2C]);
    var end: seq<Byte> := if fmt && items != [] then [0x0A] else [];
    assert PrintObject(items, depth, fmt) == [LBRACE] + LineEnd(fmt) + (lines + end) + Indent(fmt, depth) + [RBRACE];
    if fmt {
      Regroup([LBRACE], LineEnd(fmt), lines, end, Tabs(depth), [RBRACE]);
    } else {
      assert [LBRACE] + [] + (lines + []) + [] + [RBRACE] == [LBRACE] + lines + [RBRACE];
    }
  }

  lemma TabsAre(n: nat)
    ensures Tabs(n) == seq(n, _ => 0x09)
  {
  }

  lemma Regroup(a: seq<Byte>, b: seq<Byte>, c: seq<Byte>, d: seq<Byte>, e: seq<Byte>, f: seq<Byte>)
    ensures a + b + (c + d) + e + f == (a + b) + c + d + e + f
  {
  }

  lemma {:induction false} LineIs(item: Item, depth: nat, fmt: bool)
    requires IntegersOnly(item.value)
    ensures Line(item, depth, fmt) ==
            Indent(fmt, depth) + PrintText(item.name) + NameEnd(fmt) + PrintValue(item.value, depth, fmt)
  {
    hide PrintText, PrintValue, IntegersOnly, Tabs;
    TabsAre(depth);
  }

  lemma {:induction false} LinesUnfold(items: seq<Item>, depth: nat, fmt: bool)
    requires IntegersOnlyAll(items) && items != []
    ensures IntegersOnly(items[0].value) && IntegersOnlyAll(items[1..])
    ensures Lines(items, depth, fmt)[0] == Line(items[0], depth, fmt)
    ensures Lines(items, depth, fmt)[1..] == Lines(items[1..], depth, fmt)
  {
    hide Line, IntegersOnly;
  }

  lemma JoinedUnfold(parts: seq<seq<Byte>>, separator: seq<Byte>)
    ensures parts == [] ==> Joined(parts, separator) == []
    ensures |parts| == 1 ==> Joined(parts, separator) == parts[0]
    ensures |parts| > 1 ==> Joined(parts, separator) == parts[0] + (separator + Joined(parts[1..], separator))
  {
  }

  lemma MemberEndIs(fmt: bool, last: bool)
    ensures MemberEnd(fmt, last) == (if last then [] else [0x2C]) + if fmt then [0x0A] else []
  {
  }

  lemma {:induction false} MembersJoined(items: seq<Item>, depth: nat, fmt: bool)
    requires IntegersOnlyAll(items)
    ensures PrintMembers(items, depth, fmt) ==
            Joined(Lines(items, depth, fmt), if fmt then [0x2C, 0x0A] else [0x2C]) + if fmt && items != [] then [0x0A] else []
    decreases |items|
  {
    hide *;
    var separator: seq<Byte> := if fmt then [0x2C, 0x0A] else [0x2C];
    JoinedUnfold(Lines(items, depth, fmt), separator);
    if items == [] {
      NoMembers(depth, fmt);
    } else {
      var end: seq<Byte> := if fmt then [0x0A] else [];
      MembersUnfold(items, depth, fmt);
      LineIs(items[0], depth, fmt);
      LinesUnfold(items, depth, fmt);
      MembersJoined(items[1..], depth, fmt);
      MemberEndIs(fmt, |items| == 1);
      var line, rest := Line(items[0], depth, fmt), PrintMembers(items[1..], depth, fmt);
      assert PrintMembers(items, depth, fmt) == line + MemberEnd(fmt, |items| == 1) + rest;
      if |items| == 1 {
        NoMembers(depth, fmt);
        assert line + end + [] == line + end;
      } else {
        Between(line, separator, Joined(Lines(items[1..], depth, fmt), separator), end);
      }
    }
  }

  lemma Between(a: seq<Byte>, b: seq<Byte>, c: seq<Byte>, d: seq<Byte>)
    ensures a + b + (c + d) == a + (b + c) + d
  {
  }
}
