/** Parsing what the printer printed gives the tree back, wherever the text stands and whatever follows it. */
module JsonRoundTrip {
  import opened Bytes
  import opened JsonStrings
  import opened JsonText

  /** Trees the API can build for printing: 32-bit integers, strings present and NUL-free, names on members only. */
  predicate Standard(j: Json) {
    match j
    case Number(d) => IsInt32(d)
    case String(t) => t.Text? && NulFree(t.bytes)
    case Array(items) => forall k | 0 <= k < |items| :: items[k].name.NoText? && Standard(items[k].value)
    case Object(items) =>
      forall k | 0 <= k < |items| ::
        items[k].name.Text? && NulFree(items[k].name.bytes) && Standard(items[k].value)
    case _ => true
  }

  lemma {:induction j} StandardIntegers(j: Json)
    requires Standard(j)
    ensures IntegersOnly(j)
  {
  }

  predicate StandardItems(items: seq<Item>) {
    forall k | 0 <= k < |items| :: items[k].name.NoText? && Standard(items[k].value)
  }

  predicate StandardMembers(items: seq<Item>) {
    forall k | 0 <= k < |items| ::
      items[k].name.Text? && NulFree(items[k].name.bytes) && Standard(items[k].value)
  }

  /** The text at `i` does not go on with a number that ends there. */
  predicate NumberStops(s: seq<Byte>, i: nat) {
    !IsDigit(At(s, i)) && !ExponentAt(s, i) && !FractionAt(s, i)
  }

  // ----- Blanks -----

  predicate Blank(w: seq<Byte>) { forall k | 0 <= k < |w| :: 0 < w[k] <= SPACE }

  lemma {:induction false} SkipBlank(s: seq<Byte>, i: nat, w: seq<Byte>)
    requires Has(s, i, w) && Blank(w) && At(s, i + |w|) > SPACE
    ensures Skip(s, i) == i + |w|
    decreases w
  {
    if w != [] {
      HasFirst(s, i, w);
      SkipBlank(s, i + 1, w[1..]);
    }
  }

  // ----- Numbers -----

  lemma {:induction false} AccumulateSplit(s: seq<Byte>, i: nat, m: nat, e: nat, n: nat)
    requires i <= m <= e <= |s| && forall k | i <= k < e :: IsDigit(s[k])
    ensures Accumulate(s, i, e, n) == Accumulate(s, m, e, Accumulate(s, i, m, n))
    decreases m - i
  {
    if i < m {
      assert IsDigit(s[i]);
      var digit: int := s[i];
      AccumulateSplit(s, i + 1, m, e, n * 10 + (digit - 0x30));
    }
  }

  ghost predicate AllDigits(s: seq<Byte>, i: nat, e: nat) {
    i <= e <= |s| && forall k | i <= k < e :: IsDigit(s[k])
  }

  lemma {:induction false} DigitsRead(s: seq<Byte>, i: nat, n: nat)
    requires Has(s, i, Digits(n))
    ensures AllDigits(s, i, i + |Digits(n)|) && Accumulate(s, i, i + |Digits(n)|, 0) == n
    ensures (n == 0) == (At(s, i) == ZERO)
    ensures n == 0 ==> |Digits(n)| == 1
  {
    var last: int := ZERO + n % 10;
    if n < 10 {
      assert Digits(n) == [last];
      HasFirst(s, i, [last]);
      assert Accumulate(s, i + 1, i + 1, n) == n;
    } else {
      var head := Digits(n / 10);
      HasSplit(s, i, head, [last]);
      DigitsRead(s, i, n / 10);
      var m := i + |head|;
      HasFirst(s, m, [last]);
      AccumulateSplit(s, i, m, m + 1, 0);
      assert Accumulate(s, m + 1, m + 1, n) == n;
    }
  }

  lemma {:induction false} DigitsEndIs(s: seq<Byte>, i: nat, e: nat)
    requires AllDigits(s, i, e) && !IsDigit(At(s, e))
    ensures DigitsEnd(s, i) == e
    decreases e - i
  {
    if i < e {
      DigitsEndIs(s, i + 1, e);
    }
  }

  lemma {:induction false} NumberRoundTrip(s: seq<Byte>, i: nat, n: int)
    requires Has(s, i, Decimal(n)) && NumberStops(s, i + |Decimal(n)|)
    ensures At(s, i) == MINUS || IsDigit(At(s, i))
    ensures ParseNumber(s, i) == Done(Number(n as real), i + |Decimal(n)|)
  {
    WholeRead(s, i, n);
    hide *;
    WholeOnly(s, i, if n < 0 then -n else n, i + |Decimal(n)|);
  }

  /** The digits are read up to their end and give the number's absolute value. */
  lemma {:induction false} WholeRead(s: seq<Byte>, i: nat, n: int)
    requires Has(s, i, Decimal(n)) && !IsDigit(At(s, i + |Decimal(n)|))
    ensures i < |s| && (At(s, i) == MINUS || IsDigit(At(s, i))) && (n < 0 <==> At(s, i) == MINUS)
    ensures var first := ZeroEnd(s, SignEnd(s, i));
            && first <= |s| && WholeEnd(s, first) == i + |Decimal(n)|
            && WholeValue(s, first) == if n < 0 then -n else n
  {
    var m := if n < 0 then -n else n;
    var end := i + |Decimal(n)|;
    if n < 0 {
      HasSplit(s, i, [MINUS], Digits(m));
      HasFirst(s, i, [MINUS]);
    }
    var whole := if n < 0 then i + 1 else i;
    DigitsRead(s, whole, m);
    assert IsDigit(s[whole]);
    assert whole + |Digits(m)| == end && SignEnd(s, i) == whole;
    if m == 0 {
      assert WholeEnd(s, end) == end;
    } else {
      DigitsEndIs(s, whole, end);
    }
  }

  /** With neither a fraction nor an exponent the number is its whole part. */
  lemma {:induction false} WholeOnly(s: seq<Byte>, i: nat, m: int, end: nat)
    requires i <= |s| && (At(s, i) == MINUS || IsDigit(At(s, i))) && NumberStops(s, end)
    requires WholeEnd(s, ZeroEnd(s, SignEnd(s, i))) == end && WholeValue(s, ZeroEnd(s, SignEnd(s, i))) == m
    ensures ParseNumber(s, i) == Done(Number((if At(s, i) == MINUS then -m else m) as real), end)
  {
    assert Pow10(0) == 1.0;
  }

  // ----- First bytes -----

  /** A printed value starts with a byte that is neither blank nor the end of an array. */
  lemma {:induction false} FirstByte(s: seq<Byte>, i: nat, j: Json, depth: nat, fmt: bool)
    requires Standard(j) && IntegersOnly(j) && Has(s, i, PrintValue(j, depth, fmt))
    ensures At(s, i) > SPACE && At(s, i) != RBRACKET
    ensures |PrintValue(j, depth, fmt)| > 0
  {
    var t := PrintValue(j, depth, fmt);
    if j.Number? {
      var n := j.value.Floor;
      var m := if n < 0 then -n else n;
      if n < 0 {
        HasSplit(s, i, [MINUS], Digits(m));
        HasFirst(s, i, [MINUS]);
      } else {
        DigitsRead(s, i, m);
        assert IsDigit(s[i]);
      }
    } else {
      assert t != [] && t[0] > SPACE && t[0] != RBRACKET by {
        if j.Array? {
          assert t == PrintArray(j.items, depth, fmt);
        } else if j.Object? {
          assert t == PrintObject(j.members, depth, fmt);
        }
      }
      HasFirst(s, i, t);
    }
  }

  // ----- Values -----

  lemma {:induction false} StringParsed(s: seq<Byte>, i: nat, t: seq<Byte>)
    requires NulFree(t) && Has(s, i, PrintString(t))
    ensures ParseString(s, i) == Done(t, i + |PrintString(t)|)
  {
    StringRoundTrip(s, i, t);
  }

  lemma {:induction false} WordRead(s: seq<Byte>, i: nat, j: Json, w: seq<Byte>)
    requires (j == Null && w == NULL_WORD) || (j == False && w == FALSE_WORD) || (j == True && w == TRUE_WORD)
    requires Has(s, i, w)
    ensures ParseValue(s, i) == Done(j, i + |w|)
  {
    HasFirst(s, i, w);
    if StartsWith(s, i, NULL_WORD) {
      HasFirst(s, i, NULL_WORD);
    } else if StartsWith(s, i, FALSE_WORD) {
      HasFirst(s, i, FALSE_WORD);
    }
  }

  /** A value that does not start with a letter is not one of the three words. */
  lemma {:induction false} NotAWord(s: seq<Byte>, i: nat)
    requires At(s, i) == QUOTE || At(s, i) == MINUS || IsDigit(At(s, i)) || At(s, i) == LBRACKET || At(s, i) == LBRACE
    ensures !StartsWith(s, i, NULL_WORD) && !StartsWith(s, i, FALSE_WORD) && !StartsWith(s, i, TRUE_WORD)
  {
    if StartsWith(s, i, NULL_WORD) {
      HasFirst(s, i, NULL_WORD);
    }
    if StartsWith(s, i, FALSE_WORD) {
      HasFirst(s, i, FALSE_WORD);
    }
    if StartsWith(s, i, TRUE_WORD) {
      HasFirst(s, i, TRUE_WORD);
    }
  }

  /** The round trip for a text that stands anywhere: the cursor stops right behind it. */
  lemma {:induction false} ValueRoundTrip(s: seq<Byte>, i: nat, j: Json, depth: nat, fmt: bool)
    requires Standard(j) && IntegersOnly(j)
    requires Has(s, i, PrintValue(j, depth, fmt))
    requires j.Number? ==> NumberStops(s, i + |PrintValue(j, depth, fmt)|)
    ensures ParseValue(s, i) == Done(j, i + |PrintValue(j, depth, fmt)|)
    decreases j, 1
  {
    FirstByte(s, i, j, depth, fmt);
    match j
    case Null => WordRead(s, i, j, NULL_WORD);
    case False => WordRead(s, i, j, FALSE_WORD);
    case True => WordRead(s, i, j, TRUE_WORD);
    case Number(d) =>
      NumberRoundTrip(s, i, d.Floor);
      NotAWord(s, i);
    case String(t) =>
      StringParsed(s, i, t.bytes);
      NotAWord(s, i);
    case Array(items) =>
      ArrayRoundTrip(s, i, items, depth, fmt);
      NotAWord(s, i);
    case Object(items) =>
      ObjectRoundTrip(s, i, items, depth, fmt);
      NotAWord(s, i);
  }

  lemma {:induction false} ArrayRoundTrip(s: seq<Byte>, i: nat, items: seq<Item>, depth: nat, fmt: bool)
    requires StandardItems(items) && IntegersOnlyAll(items)
    requires Has(s, i, PrintArray(items, depth, fmt))
    ensures At(s, i) == LBRACKET
    ensures ParseArray(s, i) == Done(Array(items), i + |PrintArray(items, depth, fmt)|)
    decreases items, 2
  {
    hide *;
    ArrayParts(s, i, items, depth, fmt);
    if items != [] {
      ItemsFirstByte(s, i + 1, items, depth, fmt);
      ItemsRoundTrip(s, i + 1, items, depth, fmt);
    }
    ArrayRead(s, i, items, i + |PrintArray(items, depth, fmt)|);
  }

  lemma {:induction false} ArrayParts(s: seq<Byte>, i: nat, items: seq<Item>, depth: nat, fmt: bool)
    requires IntegersOnlyAll(items) && Has(s, i, PrintArray(items, depth, fmt))
    ensures var entries := PrintItems(items, depth, fmt);
            && At(s, i) == LBRACKET && Has(s, i + 1, entries) && At(s, i + 1 + |entries|) == RBRACKET
            && |PrintArray(items, depth, fmt)| == |entries| + 2 && i + |entries| + 2 <= |s|
            && (items == [] ==> |entries| == 0)
  {
    hide Has, IntegersOnly, IntegersOnlyAll;
    var entries := PrintItems(items, depth, fmt);
    HasSplit(s, i, [LBRACKET] + entries, [RBRACKET]);
    HasSplit(s, i, [LBRACKET], entries);
    HasFirst(s, i, [LBRACKET]);
    HasFirst(s, i + 1 + |entries|, [RBRACKET]);
  }

  /** parse_array, from what its loop reads. */
  lemma {:induction false} ArrayRead(s: seq<Byte>, i: nat, items: seq<Item>, end: nat)
    requires i < |s| && end <= |s|
    requires if items == [] then At(s, i + 1) == RBRACKET && end == i + 2
             else At(s, i + 1) > SPACE && At(s, i + 1) != RBRACKET && ParseItems(s, i + 1) == Done(items, end)
    ensures ParseArray(s, i) == Done(Array(items), end)
  {
    assert Skip(s, i + 1) == i + 1;
  }

  lemma {:induction false} ItemsFirstByte(s: seq<Byte>, i: nat, items: seq<Item>, depth: nat, fmt: bool)
    requires StandardItems(items) && IntegersOnlyAll(items) && items != []
    requires Has(s, i, PrintItems(items, depth, fmt))
    ensures At(s, i) > SPACE && At(s, i) != RBRACKET
  {
    var v := PrintValue(items[0].value, depth + 1, fmt);
    HasSplit(s, i, v + ItemGap(fmt, |items| == 1), PrintItems(items[1..], depth, fmt));
    HasSplit(s, i, v, ItemGap(fmt, |items| == 1));
    FirstByte(s, i, items[0].value, depth + 1, fmt);
  }

  /** The blanks inside the separators. */
  lemma {:induction false} GapBlanks(fmt: bool, last: bool)
    ensures Blank(NameEnd(fmt)[1..]) && Blank(LineEnd(fmt))
    ensures !last ==> Blank(ItemGap(fmt, last)[1..]) && MemberEnd(fmt, last)[1..] == LineEnd(fmt)
    ensures !last ==> ItemGap(fmt, last) != [] && MemberEnd(fmt, last) != []
    ensures !last ==> ItemGap(fmt, last)[0] == COMMA == MemberEnd(fmt, last)[0]
    ensures last ==> MemberEnd(fmt, last) == LineEnd(fmt)
    ensures NameEnd(fmt) != [] && NameEnd(fmt)[0] == COLON
  {
  }

  lemma {:induction false} IndentBlank(fmt: bool, n: nat)
    ensures Blank(Indent(fmt, n)) && Blank(LineEnd(fmt)) && Blank(LineEnd(fmt) + Indent(fmt, n))
  {
  }

  lemma {:induction false} TailOf(items: seq<Item>)
    requires IntegersOnlyAll(items) && items != []
    ensures IntegersOnly(items[0].value) && IntegersOnlyAll(items[1..])
    ensures StandardItems(items) ==> StandardItems(items[1..]) && items[0].name.NoText? && Standard(items[0].value)
    ensures StandardMembers(items) ==>
              StandardMembers(items[1..]) && items[0].name.Text? && NulFree(items[0].name.bytes)
              && Standard(items[0].value)
    ensures items == [items[0]] + items[1..]
    ensures items[0].value < items[0]
  {
  }

  /** Array entries, read from the first byte of the first one. */
  lemma {:induction false} ItemsRoundTrip(s: seq<Byte>, i: nat, items: seq<Item>, depth: nat, fmt: bool)
    requires StandardItems(items) && IntegersOnlyAll(items) && items != []
    requires Has(s, i, PrintItems(items, depth, fmt)) && At(s, i + |PrintItems(items, depth, fmt)|) == RBRACKET
    ensures ParseItems(s, i) == Done(items, i + |PrintItems(items, depth, fmt)| + 1)
    decreases items, 0
  {
    hide *;
    TailOf(items);
    var gap := ItemGap(fmt, |items| == 1);
    var p := i + |PrintValue(items[0].value, depth + 1, fmt)|;
    var rest := PrintItems(items[1..], depth, fmt);
    ItemParts(s, i, items, depth, fmt);
    ItemsFirstByte(s, i, items, depth, fmt);
    if |items| > 1 {
      GapBlanks(fmt, false);
      HasFirst(s, p, gap);
      ItemsFirstByte(s, p + |gap|, items[1..], depth, fmt);
      SkipBlank(s, p + 1, gap[1..]);
      ItemsRoundTrip(s, p + |gap|, items[1..], depth, fmt);
      SkipTwice(s, p + 1);
    }
    EntryEnds(s, p);
    ValueRoundTrip(s, i, items[0].value, depth + 1, fmt);
    ItemRead(s, i, items[0], p);
    if |items| > 1 {
      MoreItems(s, p, items, i + |PrintItems(items, depth, fmt)| + 1);
    } else {
      AfterLast(s, p, items, RBRACKET);
    }
  }

  lemma {:induction false} ItemsUnfold(items: seq<Item>, depth: nat, fmt: bool)
    requires IntegersOnlyAll(items) && items != []
    ensures PrintItems(items, depth, fmt) ==
            PrintValue(items[0].value, depth + 1, fmt) + ItemGap(fmt, |items| == 1) + PrintItems(items[1..], depth, fmt)
    ensures |items| == 1 ==> ItemGap(fmt, |items| == 1) == [] && PrintItems(items[1..], depth, fmt) == []
  {
  }

  lemma {:induction false} ItemParts(s: seq<Byte>, i: nat, items: seq<Item>, depth: nat, fmt: bool)
    requires IntegersOnlyAll(items) && items != [] && Has(s, i, PrintItems(items, depth, fmt))
    ensures var v, gap := PrintValue(items[0].value, depth + 1, fmt), ItemGap(fmt, |items| == 1);
            var rest := PrintItems(items[1..], depth, fmt);
            && Has(s, i, v) && Has(s, i + |v|, gap) && Has(s, i + |v| + |gap|, rest)
            && |PrintItems(items, depth, fmt)| == |v| + |gap| + |rest|
            && i + |v| + |gap| + |rest| <= |s| && (|items| == 1 ==> gap == [] && rest == [])
  {
    hide Has, PrintValue, ItemGap, IntegersOnly;
    ItemsUnfold(items, depth, fmt);
    var v, gap := PrintValue(items[0].value, depth + 1, fmt), ItemGap(fmt, |items| == 1);
    HasSplit(s, i, v + gap, PrintItems(items[1..], depth, fmt));
    HasSplit(s, i, v, gap);
  }

  /** The ways on after an entry. */
  lemma {:induction false} AfterLast(s: seq<Byte>, i: nat, items: seq<Item>, close: Byte)
    requires i <= |s| && (close == RBRACKET || close == RBRACE) && At(s, i) == close && |items| == 1
    ensures ItemsAfter(s, i, items[0], close) == Done(items, i + 1)
  {
    assert items == [items[0]];
  }

  lemma {:induction false} MoreItems(s: seq<Byte>, i: nat, items: seq<Item>, at: nat)
    requires i <= |s| && At(s, i) == COMMA && items != [] && ParseItems(s, i + 1) == Done(items[1..], at)
    ensures ItemsAfter(s, i, items[0], RBRACKET) == Done(items, at)
  {
    assert items == [items[0]] + items[1..];
  }

  lemma {:induction false} MoreMembers(s: seq<Byte>, i: nat, items: seq<Item>, at: nat)
    requires i <= |s| && At(s, i) == COMMA && items != [] && ParseMembers(s, i + 1) == Done(items[1..], at)
    ensures ItemsAfter(s, i, items[0], RBRACE) == Done(items, at)
  {
    assert items == [items[0]] + items[1..];
  }

  lemma {:induction false} EntryEnds(s: seq<Byte>, i: nat)
    requires At(s, i) == COMMA || At(s, i) == RBRACKET
    ensures NumberStops(s, i) && At(s, i) > SPACE
  {
  }

  /** One turn of the entry loop, from its parts. */
  lemma {:induction false} ItemRead(s: seq<Byte>, i: nat, item: Item, gap: nat)
    requires i < gap <= |s| && At(s, i) > SPACE && At(s, gap) > SPACE && item.name.NoText?
    requires ParseValue(s, i) == Done(item.value, gap)
    ensures ParseItems(s, i) == ItemsAfter(s, gap, item, RBRACKET)
  {
    hide ParseValue, ItemsAfter;
  }

  lemma {:induction false} ObjectParts(s: seq<Byte>, i: nat, items: seq<Item>, depth: nat, fmt: bool)
    requires IntegersOnlyAll(items) && Has(s, i, PrintObject(items, depth, fmt))
    ensures var lead, members, dent := LineEnd(fmt), PrintMembers(items, depth + 1, fmt), Indent(fmt, depth);
            var p := i + 1 + |lead| + |members|;
            && At(s, i) == LBRACE && Has(s, i + 1, lead) && Has(s, i + 1 + |lead|, members) && Has(s, p, dent)
            && At(s, p + |dent|) == RBRACE && |PrintObject(items, depth, fmt)| == p + |dent| + 1 - i
            && i < p <= p + |dent| < |s|
  {
    hide Has, PrintMembers, Indent, LineEnd, IntegersOnly, IntegersOnlyAll;
    var lead, members, dent := LineEnd(fmt), PrintMembers(items, depth + 1, fmt), Indent(fmt, depth);
    HasSplit(s, i, [LBRACE] + lead + members + dent, [RBRACE]);
    HasSplit(s, i, [LBRACE] + lead + members, dent);
    HasSplit(s, i, [LBRACE] + lead, members);
    HasSplit(s, i, [LBRACE], lead);
    HasFirst(s, i, [LBRACE]);
    HasFirst(s, i + 1 + |lead| + |members| + |dent|, [RBRACE]);
  }

  lemma {:induction false} ObjectRoundTrip(s: seq<Byte>, i: nat, items: seq<Item>, depth: nat, fmt: bool)
    requires StandardMembers(items) && IntegersOnlyAll(items)
    requires Has(s, i, PrintObject(items, depth, fmt))
    ensures At(s, i) == LBRACE
    ensures ParseObject(s, i) == Done(Object(items), i + |PrintObject(items, depth, fmt)|)
    decreases items, 2
  {
    hide *;
    var lead, dent := LineEnd(fmt), Indent(fmt, depth);
    ObjectParts(s, i, items, depth, fmt);
    IndentBlank(fmt, depth);
    if items == [] {
      NoMembers(depth + 1, fmt);
      HasJoin(s, i + 1, lead, dent);
      BraceEnds(s, i + 1 + |lead| + |dent|);
      SkipBlank(s, i + 1, lead + dent);
    } else {
      MembersStart(s, i + 1, lead, items, depth + 1, fmt);
      MembersRoundTrip(s, i + 1, lead, items, depth + 1, fmt, dent);
      SkipTwice(s, i + 1);
    }
    ObjectRead(s, i, items, i + |PrintObject(items, depth, fmt)|);
  }

  lemma {:induction false} BraceEnds(s: seq<Byte>, i: nat)
    requires At(s, i) == RBRACE
    ensures At(s, i) > SPACE
  {
  }

  /** parse_object, from what its loop reads. */
  lemma {:induction false} ObjectRead(s: seq<Byte>, i: nat, items: seq<Item>, end: nat)
    requires i < |s| && end <= |s|
    requires var first := Skip(s, i + 1);
             if items == [] then At(s, first) == RBRACE && end == first + 1
             else At(s, first) == QUOTE && ParseMembers(s, first) == Done(items, end)
    ensures ParseObject(s, i) == Done(Object(items), end)
  {
  }

  lemma {:induction false} SkipTwice(s: seq<Byte>, i: nat)
    requires i <= |s|
    ensures Skip(s, Skip(s, i)) == Skip(s, i)
    ensures ParseMembers(s, Skip(s, i)) == ParseMembers(s, i)
    ensures ParseItems(s, Skip(s, i)) == ParseItems(s, i)
  {
    hide ParseValue, ParseString, ItemsAfter;
    assert Skip(s, Skip(s, i)) == Skip(s, i);
  }

  /** The places of the parts of one member, `i` being where its indentation starts. */
  datatype Places = Places(name: nat, colon: nat, value: nat, gap: nat, rest: nat)

  function PlacesOf(i: nat, items: seq<Item>, depth: nat, fmt: bool): Places
    requires IntegersOnlyAll(items) && items != []
  {
    var name := i + |Indent(fmt, depth)|;
    var colon := name + |PrintText(items[0].name)|;
    var value := colon + |NameEnd(fmt)|;
    var gap := value + |PrintValue(items[0].value, depth, fmt)|;
    Places(name, colon, value, gap, gap + |MemberEnd(fmt, |items| == 1)|)
  }

  lemma {:induction false} MembersUnfold(items: seq<Item>, depth: nat, fmt: bool)
    requires IntegersOnlyAll(items) && items != []
    ensures IntegersOnly(items[0].value) && IntegersOnlyAll(items[1..])
    ensures PrintMembers(items, depth, fmt) ==
            Indent(fmt, depth) + PrintText(items[0].name) + NameEnd(fmt) + PrintValue(items[0].value, depth, fmt)
            + MemberEnd(fmt, |items| == 1) + PrintMembers(items[1..], depth, fmt)
  {
  }

  lemma {:induction false} MemberParts(s: seq<Byte>, i: nat, items: seq<Item>, depth: nat, fmt: bool)
    requires IntegersOnlyAll(items) && items != [] && Has(s, i, PrintMembers(items, depth, fmt))
    ensures var p := PlacesOf(i, items, depth, fmt);
            && Has(s, i, Indent(fmt, depth))
            && Has(s, p.name, PrintText(items[0].name))
            && Has(s, p.colon, NameEnd(fmt))
            && Has(s, p.value, PrintValue(items[0].value, depth, fmt))
            && Has(s, p.gap, MemberEnd(fmt, |items| == 1))
            && Has(s, p.rest, PrintMembers(items[1..], depth, fmt))
            && p.rest + |PrintMembers(items[1..], depth, fmt)| == i + |PrintMembers(items, depth, fmt)| <= |s|
            && p.name == i + |Indent(fmt, depth)| && p.colon == p.name + |PrintText(items[0].name)|
            && p.value == p.colon + |NameEnd(fmt)| && p.gap == p.value + |PrintValue(items[0].value, depth, fmt)|
            && p.rest == p.gap + |MemberEnd(fmt, |items| == 1)|
  {
    hide Has, PrintMembers, PrintText, PrintValue, Indent, NameEnd, MemberEnd, IntegersOnly, IntegersOnlyAll;
    MembersUnfold(items, depth, fmt);
    HasParts(s, i, Indent(fmt, depth), PrintText(items[0].name), NameEnd(fmt),
             PrintValue(items[0].value, depth, fmt), MemberEnd(fmt, |items| == 1), PrintMembers(items[1..], depth, fmt));
  }

  lemma {:induction false} QuoteFirst(t: MaybeText)
    requires t.Text?
    ensures PrintText(t) == PrintString(t.bytes) != [] && PrintText(t)[0] == QUOTE
  {
  }

  /** Before a member there are only blanks, and then the quote of its name. */
  lemma {:induction false} MembersStart(s: seq<Byte>, i: nat, lead: seq<Byte>, items: seq<Item>, depth: nat, fmt: bool)
    requires StandardMembers(items) && IntegersOnlyAll(items) && items != []
    requires Blank(lead) && Has(s, i, lead) && Has(s, i + |lead|, PrintMembers(items, depth, fmt))
    ensures var q := PlacesOf(i + |lead|, items, depth, fmt).name;
            Skip(s, i) == q && At(s, q) == QUOTE
  {
    hide Has, Skip, PrintMembers, PrintText, PrintString, PrintValue, NameEnd, MemberEnd, Standard, IntegersOnly, IntegersOnlyAll;
    var dent := Indent(fmt, depth);
    MemberParts(s, i + |lead|, items, depth, fmt);
    QuoteFirst(items[0].name);
    HasFirst(s, i + |lead| + |dent|, PrintText(items[0].name));
    HasJoin(s, i, lead, dent);
    SkipBlank(s, i, lead + dent);
  }

  /** Object members, read from the blanks before the first one; `dent` stands before the closing brace. */
  lemma {:induction false} MembersRoundTrip(
      s: seq<Byte>, i: nat, lead: seq<Byte>, items: seq<Item>, depth: nat, fmt: bool, dent: seq<Byte>)
    requires StandardMembers(items) && IntegersOnlyAll(items) && items != []
    requires Blank(lead) && Has(s, i, lead) && Has(s, i + |lead|, PrintMembers(items, depth, fmt))
    requires var p := i + |lead| + |PrintMembers(items, depth, fmt)|;
             Blank(dent) && Has(s, p, dent) && At(s, p + |dent|) == RBRACE
    ensures ParseMembers(s, i) ==
            Done(items, i + |lead| + |PrintMembers(items, depth, fmt)| + |dent| + 1)
    decreases items, 0
  {
    hide *;
    TailOf(items);
    GapBlanks(fmt, |items| == 1);
    var p := PlacesOf(i + |lead|, items, depth, fmt);
    MemberParts(s, i + |lead|, items, depth, fmt);
    MembersStart(s, i, lead, items, depth, fmt);
    QuoteFirst(items[0].name);
    StringParsed(s, p.name, items[0].name.bytes);
    HasFirst(s, p.colon, NameEnd(fmt));
    FirstByte(s, p.value, items[0].value, depth, fmt);
    SkipBlank(s, p.colon + 1, NameEnd(fmt)[1..]);
    if |items| == 1 {
      assert items[1..] == [];
      NoMembers(depth, fmt);
    }
    GapIsBlank(s, p.gap, items, depth, fmt, dent);
    ValueRoundTrip(s, p.value, items[0].value, depth, fmt);
    MemberRead(s, i, items[0], p.colon, p.value, p.gap);
    if |items| > 1 {
      var gap := MemberEnd(fmt, false);
      HasFirst(s, p.gap, gap);
      MembersRoundTrip(s, p.gap + 1, gap[1..], items[1..], depth, fmt, dent);
      MoreMembers(s, p.gap, items, i + |lead| + |PrintMembers(items, depth, fmt)| + |dent| + 1);
    } else {
      AfterLast(s, Skip(s, p.gap), items, RBRACE);
    }
  }

  lemma {:induction false} NoMembers(depth: nat, fmt: bool)
    ensures PrintMembers([], depth, fmt) == []
  {
  }

  /** One turn of the member loop, from its parts. */
  lemma {:induction false} MemberRead(s: seq<Byte>, i: nat, item: Item, colon: nat, value: nat, gap: nat)
    requires i <= |s| && colon < value <= gap <= |s| && item.name.Text?
    requires ParseString(s, Skip(s, i)) == Done(item.name.bytes, colon)
    requires At(s, colon) == COLON && Skip(s, colon + 1) == value
    requires ParseValue(s, value) == Done(item.value, gap)
    ensures ParseMembers(s, i) == ItemsAfter(s, Skip(s, gap), item, RBRACE)
  {
    hide ParseValue, ParseString, ItemsAfter;
    assert Skip(s, colon) == colon;
  }

  /** After a member's value comes its comma, or only blanks and the closing brace. */
  lemma {:induction false} GapIsBlank(s: seq<Byte>, i: nat, items: seq<Item>, depth: nat, fmt: bool, dent: seq<Byte>)
    requires IntegersOnlyAll(items) && items != []
    requires var gap := MemberEnd(fmt, |items| == 1);
             && Has(s, i, gap)
             && (|items| == 1 ==> Has(s, i + |gap|, dent) && Blank(dent) && At(s, i + |gap| + |dent|) == RBRACE)
    ensures NumberStops(s, i)
    ensures if |items| > 1 then Skip(s, i) == i && At(s, i) == COMMA
            else Skip(s, i) == i + |LineEnd(fmt)| + |dent| && At(s, Skip(s, i)) == RBRACE
  {
    var gap := MemberEnd(fmt, |items| == 1);
    if |items| > 1 {
      HasFirst(s, i, gap);
    } else {
      HasJoin(s, i, gap, dent);
      SkipBlank(s, i, gap + dent);
      HasAt(s, i, gap + dent);
      if gap + dent != [] {
        assert (gap + dent)[0] == s[i];
      }
    }
  }

  // ----- cJSON_Parse inverts cJSON_Print and cJSON_PrintUnformatted -----

  lemma {:induction false} ParseInvertsPrint(j: Json, depth: nat, fmt: bool, rest: seq<Byte>)
    requires Standard(j) && IntegersOnly(j)
    requires j.Number? ==> NumberStops(rest, 0)
    ensures Parse(PrintValue(j, depth, fmt) + rest) == Done(j, |PrintValue(j, depth, fmt)|)
  {
    var t := PrintValue(j, depth, fmt);
    var s := t + rest;
    HasSlice(s, 0, t);
    FirstByte(s, 0, j, depth, fmt);
    assert At(s, |t|) == At(rest, 0) && At(s, |t| + 1) == At(rest, 1);
    ValueRoundTrip(s, 0, j, depth, fmt);
  }

  /** Two trees with the same printed text are the same tree. */
  lemma {:induction false} PrintInjective(j: Json, j': Json, fmt: bool, fmt': bool)
    requires Standard(j) && IntegersOnly(j) && Standard(j') && IntegersOnly(j')
    requires PrintValue(j, 0, fmt) == PrintValue(j', 0, fmt')
    ensures j == j'
  {
    ParseInvertsPrint(j, 0, fmt, []);
    ParseInvertsPrint(j', 0, fmt', []);
  }

  // ----- Whatever parses prints and parses again -----

  lemma FirstAndRest(first: Item, rest: seq<Item>)
    requires IntegersOnlyAll([first] + rest)
    ensures IntegersOnly(first.value) && IntegersOnlyAll(rest)
    ensures first.name.NoText? && Standard(first.value) && StandardItems(rest) ==> StandardItems([first] + rest)
    ensures first.name.Text? && NulFree(first.name.bytes) && Standard(first.value) && StandardMembers(rest) ==>
              StandardMembers([first] + rest)
  {
    assert ([first] + rest)[0] == first;
    assert forall k {:trigger rest[k]} | 0 <= k < |rest| :: rest[k] == ([first] + rest)[k + 1];
    hide Standard, IntegersOnly, NulFree;
  }

  /** What a text stands for is a tree of the round trip exactly when its numbers are 32-bit integers. */
  lemma {:induction false} ParsedStandard(s: seq<Byte>, i: nat)
    requires i <= |s| && ParseValue(s, i).Done?
    ensures Standard(ParseValue(s, i).value) <==> IntegersOnly(ParseValue(s, i).value)
    decreases |s| - i, 2
  {
    var j := ParseValue(s, i).value;
    if Standard(j) {
      StandardIntegers(j);
    } else if IntegersOnly(j) {
      match j
      case Array(items) =>
        if items != [] {
          ParsedItems(s, Skip(s, i + 1));
        }
      case Object(items) =>
        if items != [] {
          ParsedMembers(s, Skip(s, i + 1));
        }
      case String(t) => DecodeNulFree(s, i + 1);
      case _ =>
    }
  }

  lemma {:induction false} ParsedItems(s: seq<Byte>, i: nat)
    requires i <= |s| && ParseItems(s, i).Done? && IntegersOnlyAll(ParseItems(s, i).value)
    ensures StandardItems(ParseItems(s, i).value)
    decreases |s| - i, 3
  {
    hide Standard, IntegersOnly;
    var p := Skip(s, i);
    var Done(v, at) := ParseValue(s, p);
    var after := Skip(s, at);
    ParsedStandard(s, p);
    if At(s, after) == COMMA {
      var rest := ParseItems(s, after + 1).value;
      assert ParseItems(s, i).value == [Item(NoText, v)] + rest;
      FirstAndRest(Item(NoText, v), rest);
      ParsedItems(s, after + 1);
    } else {
      assert ParseItems(s, i).value == [Item(NoText, v)] + [];
      FirstAndRest(Item(NoText, v), []);
    }
  }

  lemma {:induction false} ParsedMembers(s: seq<Byte>, i: nat)
    requires i <= |s| && ParseMembers(s, i).Done? && IntegersOnlyAll(ParseMembers(s, i).value)
    ensures StandardMembers(ParseMembers(s, i).value)
    decreases |s| - i, 3
  {
    hide Standard, IntegersOnly, NulFree, ParseMembers, ParseValue;
    var name, q, v, next, rest := FirstMember(s, i);
    ParsedStandard(s, q);
    FirstAndRest(Item(Text(name), v), rest);
    if next <= |s| {
      ParsedMembers(s, next);
    }
  }

  /** The first member of an object, where its value stands, and the other members, read at `next` if there are any. */
  lemma {:induction false} FirstMember(s: seq<Byte>, i: nat)
    returns (name: seq<Byte>, q: nat, v: Json, next: nat, rest: seq<Item>)
    requires i <= |s| && ParseMembers(s, i).Done?
    ensures NulFree(name) && i < q <= |s| && ParseValue(s, q).Done? && ParseValue(s, q).value == v
    ensures ParseMembers(s, i).value == [Item(Text(name), v)] + rest
    ensures if next <= |s| then i < next && ParseMembers(s, next).Done? && ParseMembers(s, next).value == rest
            else rest == []
  {
    hide ParseString, ParseValue;
    var p := Skip(s, i);
    var Done(t, end) := ParseString(s, p);
    name, q := t, Skip(s, Skip(s, end) + 1);
    var Done(w, at) := ParseValue(s, q);
    var after := Skip(s, at);
    v, next, rest := w, |s| + 1, [];
    MemberName(s, p);
    if At(s, after) == COMMA {
      next := after + 1;
      rest := ParseMembers(s, next).value;
    }
    assert ParseMembers(s, i) == ItemsAfter(s, after, Item(Text(t), w), RBRACE);
    hide ParseMembers;
  }

  lemma MemberName(s: seq<Byte>, p: nat)
    requires p <= |s| && ParseString(s, p).Done?
    ensures NulFree(ParseString(s, p).value)
  {
    DecodeNulFree(s, p + 1);
  }

  /** Any text that parses, with 32-bit integers for its numbers, can be printed, and parses to the same tree again: also
      when the text is read from a block that holds it with its NUL and anything behind that. */
  lemma {:induction false} ReprintParses(s: seq<Byte>, fmt: bool, rest: seq<Byte>)
    requires Parse(s).Done? && IntegersOnly(Parse(s).value)
    ensures var j := Parse(s).value;
            && Parse(PrintValue(j, 0, fmt)) == Done(j, |PrintValue(j, 0, fmt)|)
            && Parse(PrintValue(j, 0, fmt) + ([NUL] + rest)) == Done(j, |PrintValue(j, 0, fmt)|)
  {
    var j := Parse(s).value;
    ParsedStandard(s, Skip(s, 0));
    hide Parse, PrintValue, Standard, IntegersOnly;
    ParseInvertsPrint(j, 0, fmt, []);
    assert PrintValue(j, 0, fmt) + [] == PrintValue(j, 0, fmt);
    ParseInvertsPrint(j, 0, fmt, [NUL] + rest);
  }
}
