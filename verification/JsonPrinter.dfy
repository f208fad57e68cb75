/**
 The printer of cJSON: every text is built in a block whose size was computed beforehand, and every byte written,
 the terminators that strcpy leaves on the way included, lies inside its block.
 */
module JsonPrinter {
  import opened Bytes
  import opened JsonStrings
  import opened JsonText
  import opened JsonHeap
  import JsonParser
  import JsonRoundTrip

  // ----- What the heap shows -----

  predicate ShowsText(m: Store, r: Ref, t: MaybeText) {
    if t.NoText? then r == NULL else r != NULL && r in m && m[r] == Chars(t.bytes) && NulFree(t.bytes)
  }

  /** Read through its pointers, the node shows the item. Ownership plays no part: the children may be shared. */
  predicate Shows(m: Store, r: Ref, item: Item)
    decreases item, 0
  {
    && NodeAt(m, r) && ShowsText(m, m[r].cell.name, item.name)
    && var c := m[r].cell;
    match item.value
    case Null => c.kind == KNull
    case False => c.kind == KFalse
    case True => c.kind == KTrue
    case Number(d) => c.kind == KNumber && c.valuedouble == d && c.valueint == JsonParser.Truncate(d)
    case String(t) => c.kind == KString && ShowsText(m, c.valuestring, t)
    case Array(items) => c.kind == KArray && ShowsChain(m, c.child, items)
    case Object(items) => c.kind == KObject && ShowsChain(m, c.child, items)
  }

  predicate ShowsChain(m: Store, r: Ref, items: seq<Item>)
    decreases items, 1
  {
    if items == [] then r == NULL else Shows(m, r, items[0]) && ShowsChain(m, m[r].cell.next, items[1..])
  }

  // ----- Printed text as a C string -----

  predicate TextsNulFree(j: Json) {
    match j
    case String(t) => t.Text? ==> NulFree(t.bytes)
    case Array(items) => forall k | 0 <= k < |items| :: NameNulFree(items[k]) && TextsNulFree(items[k].value)
    case Object(items) => forall k | 0 <= k < |items| :: NameNulFree(items[k]) && TextsNulFree(items[k].value)
    case _ => true
  }

  predicate NameNulFree(item: Item) { item.name.Text? ==> NulFree(item.name.bytes) }

  predicate TextsNulFreeAll(items: seq<Item>) {
    forall k | 0 <= k < |items| :: NameNulFree(items[k]) && TextsNulFree(items[k].value)
  }

  lemma {:induction false} DigitsNulFree(n: nat)
    ensures NulFree(Digits(n))
  {
    if n >= 10 {
      DigitsNulFree(n / 10);
    }
  }

  lemma {:induction false} EscapedNulFree(t: seq<Byte>)
    requires NulFree(t)
    ensures NulFree(EscapeAll(t))
  {
    if t != [] {
      EscapedNulFree(t[1..]);
    }
  }

  lemma {:induction false} TextNulFree(t: MaybeText)
    requires t.Text? ==> NulFree(t.bytes)
    ensures NulFree(PrintText(t))
  {
    if t.Text? {
      EscapedNulFree(t.bytes);
    }
  }

  /** A printed text has no NUL inside, so strlen measures all of it. */
  lemma {:induction false} PrintedNulFree(j: Json, depth: nat, fmt: bool)
    requires IntegersOnly(j) && TextsNulFree(j)
    ensures NulFree(PrintValue(j, depth, fmt))
    decreases j, 1
  {
    hide Digits, EscapeAll, PrintItems, PrintMembers, TextsNulFreeAll, IntegersOnlyAll;
    match j
    case Null =>
    case False =>
    case True =>
    case Number(d) => DigitsNulFree(if d.Floor < 0 then -d.Floor else d.Floor);
    case String(t) => TextNulFree(t);
    case Array(items) => ItemsNulFree(items, depth, fmt);
    case Object(items) => MembersNulFree(items, depth + 1, fmt);
  }

  lemma {:induction false} ItemsNulFree(items: seq<Item>, depth: nat, fmt: bool)
    requires IntegersOnlyAll(items) && TextsNulFreeAll(items)
    ensures NulFree(PrintItems(items, depth, fmt))
    decreases items, 0
  {
    if items != [] {
      assert items[0].value < items[0];
      PrintedNulFree(items[0].value, depth + 1, fmt);
      ItemsNulFree(items[1..], depth, fmt);
    }
  }

  lemma {:induction false} MembersNulFree(items: seq<Item>, depth: nat, fmt: bool)
    requires IntegersOnlyAll(items) && TextsNulFreeAll(items)
    ensures NulFree(PrintMembers(items, depth, fmt))
    decreases items, 0
  {
    if items != [] {
      assert items[0].value < items[0];
      TextNulFree(items[0].name);
      PrintedNulFree(items[0].value, depth, fmt);
      MembersNulFree(items[1..], depth, fmt);
    }
  }

  lemma {:induction false} ShownNulFree(m: Store, r: Ref, item: Item)
    requires Shows(m, r, item)
    ensures TextsNulFree(item.value) && (item.name.Text? ==> NulFree(item.name.bytes))
    decreases item, 0
  {
    match item.value
    case Array(items) => ShownNulFreeAll(m, m[r].cell.child, items);
    case Object(items) => ShownNulFreeAll(m, m[r].cell.child, items);
    case _ =>
  }

  lemma {:induction false} ShownNulFreeAll(m: Store, r: Ref, items: seq<Item>)
    requires ShowsChain(m, r, items)
    ensures TextsNulFreeAll(items)
    decreases items, 1
  {
    if items != [] {
      ShownNulFree(m, r, items[0]);
      ShownNulFreeAll(m, m[r].cell.next, items[1..]);
    }
  }

  // ----- The C library -----

  method StrLen(src: array<Byte>, ghost t: seq<Byte>) returns (n: nat)
    requires HoldsText(src, t) && NulFree(t)
    ensures n == |t|
  {
    n := 0;
    while src[n] != NUL
      invariant 0 <= n <= |t|
      decreases |t| - n
    {
      assert src[n] == src[..|t| + 1][n];
      n := n + 1;
    }
  }

  /** strcpy writes the text and its NUL. */
  method StrCpy(out: array<Byte>, at: nat, src: array<Byte>, ghost t: seq<Byte>)
    requires out != src && HoldsText(src, t) && NulFree(t) && at + |t| < out.Length
    modifies out
    ensures out[..at + |t|] == old(out[..at]) + t && out[at + |t|] == NUL
  {
    var n := 0;
    while src[n] != NUL
      invariant 0 <= n <= |t| && HoldsText(src, t)
      invariant out[..at + n] == old(out[..at]) + t[..n]
      decreases |t| - n
    {
      assert n < |t|;
      out[at + n] := src[n];
      assert src[n] == t[n] by {
        assert src[..|t|][n] == t[n];
      }
      n := n + 1;
    }
    assert t[..n] == t;
    out[at + n] := NUL;
  }

  /** cJSON_strdup of a constant */
  method Copy(t: seq<Byte>) returns (out: array<Byte>)
    ensures fresh(out) && out.Length == |t| + 1 && HoldsText(out, t)
  {
    out := new Byte[|t| + 1];
    for i := 0 to |t|
      invariant out[..i] == t[..i]
    {
      out[i] := t[i];
    }
    out[|t|] := NUL;
    assert t[..|t|] == t;
  }

  // ----- Scalars -----

  lemma {:induction false} DigitsLength(n: nat, w: nat, bound: nat)
    requires n < bound && 1 <= w && bound == Power10(w)
    ensures |Digits(n)| <= w
    decreases w
  {
    if n >= 10 {
      assert w >= 2 && bound == 10 * Power10(w - 1);
      DigitsLength(n / 10, w - 1, Power10(w - 1));
    }
  }

  function Power10(w: nat): nat { if w == 0 then 1 else 10 * Power10(w - 1) }

  lemma {:induction false} DecimalFits(n: int)
    requires INT_MIN <= n <= INT_MAX
    ensures |Decimal(n)| <= 11
  {
    assert Power10(10) == 10_000_000_000 by {
      assert Power10(5) == 100_000;
    }
    DigitsLength(if n < 0 then -n else n, 10, 10_000_000_000);
  }

  /** print_number on its integer path: 21 bytes hold every "%d". */
  method PrintNumber(valueint: int) returns (out: array<Byte>)
    requires INT_MIN <= valueint <= INT_MAX
    ensures fresh(out) && out.Length == 21 && HoldsText(out, Decimal(valueint))
  {
    DecimalFits(valueint);
    var t := Decimal(valueint);
    out := new Byte[21];
    for i := 0 to |t|
      invariant out[..i] == t[..i]
    {
      out[i] := t[i];
    }
    out[|t|] := NUL;
    assert t[..|t|] == t;
  }

  /** print_string_ptr */
  method PrintStringPtr(m: Store, r: Ref, ghost t: MaybeText) returns (out: array<Byte>)
    requires ShowsText(m, r, t)
    ensures fresh(out) && HoldsText(out, PrintText(t))
  {
    if r == NULL {
      out := Copy([]);
    } else {
      out := EscapeText(m[r].bytes);
    }
  }

  // ----- Containers -----

  method CountChain(m: Store, first: Ref, ghost items: seq<Item>) returns (n: nat)
    requires ShowsChain(m, first, items)
    ensures n == |items|
  {
    var c := first;
    n := 0;
    ghost var rest := items;
    while c != NULL
      invariant ShowsChain(m, c, rest) && n + |rest| == |items|
      decreases rest
    {
      n, c, rest := n + 1, m[c].cell.next, rest[1..];
    }
  }

  /** The bytes print_array reserves for its entries. */
  function RoomForItems(items: seq<Item>, depth: nat, fmt: bool): nat
    requires IntegersOnlyAll(items)
  {
    if items == [] then 0
    else
      |PrintValue(items[0].value, depth + 1, fmt)| + 2 + (if fmt then 1 else 0)
      + RoomForItems(items[1..], depth, fmt)
  }

  /** `entries` are the printed entries, one by one. */
  ghost predicate Rendered(entries: seq<array<Byte>>, items: seq<Item>, depth: nat, fmt: bool)
    requires IntegersOnlyAll(items)
    reads entries
  {
    |entries| == |items|
    && forall k | 0 <= k < |items| :: HoldsText(entries[k], PrintValue(items[k].value, depth + 1, fmt))
  }

  method RenderValue(m: Store, r: Ref, depth: nat, fmt: bool, ghost item: Item) returns (out: array<Byte>)
    requires Shows(m, r, item) && IntegersOnly(item.value)
    ensures fresh(out) && HoldsText(out, PrintValue(item.value, depth, fmt))
    decreases item.value, 1
  {
    var c := m[r].cell;
    match c.kind
    case KNull => out := Copy(NULL_WORD);
    case KFalse => out := Copy(FALSE_WORD);
    case KTrue => out := Copy(TRUE_WORD);
    case KNumber => out := PrintNumber(c.valueint);
    case KString => out := PrintStringPtr(m, c.valuestring, item.value.text);
    case KArray => out := RenderArray(m, c.child, depth, fmt, item.value.items);
    case KObject => out := RenderObject(m, c.child, depth, fmt, item.value.members);
  }

  /** print_array: print the entries, size the block, compose. */
  method RenderArray(m: Store, child: Ref, depth: nat, fmt: bool, ghost items: seq<Item>) returns (out: array<Byte>)
    requires ShowsChain(m, child, items) && IntegersOnlyAll(items)
    ensures fresh(out) && HoldsText(out, PrintArray(items, depth, fmt))
    decreases items, 1
  {
    hide HoldsText, PrintValue, Rendered, PrintArray;
    var n := CountChain(m, child, items);
    var entries, len := RenderItems(m, child, depth, fmt, items);
    ShownNulFreeAll(m, child, items);
    out := new Byte[len];
    ComposeArray(out, entries, n, fmt, depth, items);
  }

  method RenderItems(m: Store, child: Ref, depth: nat, fmt: bool, ghost items: seq<Item>)
    returns (entries: seq<array<Byte>>, len: nat)
    requires ShowsChain(m, child, items) && IntegersOnlyAll(items)
    ensures Rendered(entries, items, depth, fmt) && forall e | e in entries :: fresh(e)
    ensures len == 5 + RoomForItems(items, depth, fmt)
    decreases items, 0
  {
    hide HoldsText, PrintValue, NulFree, IntegersOnly, TextsNulFree;
    var c := child;
    entries, len := [], 5;
    ghost var k := 0;
    assert items[0..] == items && items[..0] == [];
    while c != NULL
      invariant 0 <= k <= |items| && ShowsChain(m, c, items[k..])
      invariant Rendered(entries, items[..k], depth, fmt) && forall e | e in entries :: fresh(e)
      invariant len + RoomForItems(items[k..], depth, fmt) == 5 + RoomForItems(items, depth, fmt)
      decreases |items| - k
    {
      assert items[k].value < items[k];
      assert items[k..][1..] == items[k + 1..];
      var ret := RenderValue(m, c, depth + 1, fmt, items[k]);
      entries := entries + [ret];
      ShownNulFree(m, c, items[k]);
      PrintedNulFree(items[k].value, depth + 1, fmt);
      var size := StrLen(ret, PrintValue(items[k].value, depth + 1, fmt));
      len := len + size + 2 + if fmt then 1 else 0;
      k := k + 1;
      c := m[c].cell.next;
    }
    assert items[..k] == items;
  }

  /** The composing loop of print_array. */
  method ComposeArray(out: array<Byte>, entries: seq<array<Byte>>, n: nat, fmt: bool, ghost depth: nat, ghost items: seq<Item>)
    requires IntegersOnlyAll(items) && TextsNulFreeAll(items) && Rendered(entries, items, depth, fmt) && n == |items|
    requires out !in entries && out.Length == 5 + RoomForItems(items, depth, fmt)
    modifies out
    ensures HoldsText(out, PrintArray(items, depth, fmt))
  {
    hide PrintValue, NulFree, TextsNulFree, IntegersOnly, ItemGap, HoldsText, TextsNulFreeAll, IntegersOnlyAll, RoomForItems;
    out[0] := LBRACKET;
    out[1] := NUL;
    assert out[..1] == [LBRACKET];
    var p := ComposeItems(out, 1, entries, n, fmt, depth, items);
    ghost var was := out[..p];
    out[p], out[p + 1] := RBRACKET, NUL;
    assert out[..p + 1] == was + [RBRACKET];
    Terminated(out, was + [RBRACKET]);
  }

  lemma Terminated(out: array<Byte>, t: seq<Byte>)
    requires |t| < out.Length && out[..|t|] == t && out[|t|] == NUL
    ensures HoldsText(out, t)
  {
  }

  /** Its loop. */
  method ComposeItems(out: array<Byte>, at: nat, entries: seq<array<Byte>>, n: nat, fmt: bool, ghost depth: nat,
                      ghost items: seq<Item>) returns (p: nat)
    requires IntegersOnlyAll(items) && TextsNulFreeAll(items) && Rendered(entries, items, depth, fmt) && n == |items|
    requires out !in entries && at + RoomForItems(items, depth, fmt) + 4 <= out.Length
    modifies out
    ensures p + 4 <= out.Length && out[..p] == old(out[..at]) + PrintItems(items, depth, fmt)
  {
    hide *;
    p := at;
    assert items[0..] == items && items[n..] == [];
    ghost var goal := out[..at] + PrintItems(items, depth, fmt);
    NoItems(depth, fmt);
    for i := 0 to n
      invariant Rendered(entries, items, depth, fmt) && IntegersOnlyAll(items[i..])
      invariant p + RoomForItems(items[i..], depth, fmt) + 4 <= out.Length
      invariant out[..p] + PrintItems(items[i..], depth, fmt) == goal
    {
      EntryAt(entries, items, i, depth, fmt);
      ghost var was := out[..p];
      p := ComposeItem(out, p, entries[i], i == n - 1, depth, fmt, items[i]);
      ItemsCons(was, items[i..], depth, fmt);
    }
    assert out[..p] == goal;
  }

  lemma NoItems(depth: nat, fmt: bool)
    ensures IntegersOnlyAll([]) && RoomForItems([], depth, fmt) == 0 && PrintItems([], depth, fmt) == []
  {
  }

  /** What is known of one entry when the array is composed. */
  lemma {:induction false} EntryAt(entries: seq<array<Byte>>, items: seq<Item>, i: nat, depth: nat, fmt: bool)
    requires IntegersOnlyAll(items) && TextsNulFreeAll(items) && Rendered(entries, items, depth, fmt) && i < |items|
    ensures |entries| == |items| && items[i..][0] == items[i] && items[i..][1..] == items[i + 1..]
    ensures IntegersOnlyAll(items[i..]) && IntegersOnlyAll(items[i + 1..])
    ensures IntegersOnly(items[i].value) && TextsNulFree(items[i].value)
    ensures HoldsText(entries[i], PrintValue(items[i].value, depth + 1, fmt))
    ensures RoomForItems(items[i..], depth, fmt) ==
            |PrintValue(items[i].value, depth + 1, fmt)| + 2 + (if fmt then 1 else 0)
            + RoomForItems(items[i + 1..], depth, fmt)
  {
    hide PrintValue, TextsNulFree, IntegersOnly, HoldsText;
  }

  /** One turn of it. */
  method ComposeItem(out: array<Byte>, at: nat, entry: array<Byte>, last: bool, ghost depth: nat, fmt: bool, ghost item: Item)
    returns (p: nat)
    requires IntegersOnly(item.value) && TextsNulFree(item.value) && out != entry
    requires HoldsText(entry, PrintValue(item.value, depth + 1, fmt))
    requires at + |PrintValue(item.value, depth + 1, fmt)| + 2 + (if fmt then 1 else 0) < out.Length
    modifies out
    ensures p == at + |PrintValue(item.value, depth + 1, fmt)| + |ItemGap(fmt, last)|
    ensures out[..p] == old(out[..at]) + PrintValue(item.value, depth + 1, fmt) + ItemGap(fmt, last)
  {
    hide PrintValue, NulFree, TextsNulFree, IntegersOnly;
    ghost var was, v := out[..at], PrintValue(item.value, depth + 1, fmt);
    PrintedNulFree(item.value, depth + 1, fmt);
    StrCpy(out, at, entry, v);
    var size := StrLen(entry, v);
    p := at + size;
    if !last {
      out[p] := COMMA;
      p := p + 1;
      if fmt {
        out[p] := SPACE;
        p := p + 1;
      }
      out[p] := NUL;
    }
    assert out[..p] == was + v + ItemGap(fmt, last);
  }

  lemma {:induction false} ItemsCons(was: seq<Byte>, items: seq<Item>, depth: nat, fmt: bool)
    requires IntegersOnlyAll(items) && items != []
    ensures was + PrintItems(items, depth, fmt) ==
            was + PrintValue(items[0].value, depth + 1, fmt) + ItemGap(fmt, |items| == 1) + PrintItems(items[1..], depth, fmt)
    ensures |ItemGap(fmt, |items| == 1)| <= if fmt then 2 else 1
  {
    hide PrintValue, IntegersOnly;
    Regroup(was, PrintValue(items[0].value, depth + 1, fmt), ItemGap(fmt, |items| == 1), PrintItems(items[1..], depth, fmt),
            [], [], []);
  }

  /** The bytes print_object reserves for its members; `depth` is the depth of the members. */
  function RoomForMembers(items: seq<Item>, depth: nat, fmt: bool): nat
    requires IntegersOnlyAll(items)
  {
    if items == [] then 0
    else
      |PrintValue(items[0].value, depth, fmt)| + |PrintText(items[0].name)| + 2 + (if fmt then 2 + depth else 0)
      + RoomForMembers(items[1..], depth, fmt)
  }

  /** `names` and `entries` are the printed names and values of the members. */
  ghost predicate RenderedMembers(
      names: seq<array<Byte>>, entries: seq<array<Byte>>, items: seq<Item>, depth: nat, fmt: bool)
    requires IntegersOnlyAll(items)
    reads names, entries
  {
    |names| == |entries| == |items|
    && (forall k | 0 <= k < |items| :: HoldsText(names[k], PrintText(items[k].name)))
    && (forall k | 0 <= k < |items| :: HoldsText(entries[k], PrintValue(items[k].value, depth, fmt)))
  }

  lemma {:induction false} RenderedOneMore(
      names: seq<array<Byte>>, entries: seq<array<Byte>>, items: seq<Item>, k: nat, name: array<Byte>, entry: array<Byte>,
      depth: nat, fmt: bool)
    requires IntegersOnlyAll(items) && k < |items| && RenderedMembers(names, entries, items[..k], depth, fmt)
    requires HoldsText(name, PrintText(items[k].name)) && HoldsText(entry, PrintValue(items[k].value, depth, fmt))
    ensures RenderedMembers(names + [name], entries + [entry], items[..k + 1], depth, fmt)
  {
    hide HoldsText, PrintText, PrintValue;
  }

  /** print_object: print names and values, size the block, compose. */
  method RenderObject(m: Store, child: Ref, depth: nat, fmt: bool, ghost items: seq<Item>) returns (out: array<Byte>)
    requires ShowsChain(m, child, items) && IntegersOnlyAll(items)
    ensures fresh(out) && HoldsText(out, PrintObject(items, depth, fmt))
    decreases items, 1
  {
    hide HoldsText, PrintText, PrintValue, RenderedMembers, PrintObject;
    var n := CountChain(m, child, items);
    var names, entries, len := RenderMembers(m, child, depth + 1, fmt, items);
    ShownNulFreeAll(m, child, items);
    out := new Byte[len];
    ComposeObject(out, names, entries, n, depth + 1, fmt, items);
  }

  method RenderMembers(m: Store, child: Ref, depth: nat, fmt: bool, ghost items: seq<Item>)
    returns (names: seq<array<Byte>>, entries: seq<array<Byte>>, len: nat)
    requires ShowsChain(m, child, items) && IntegersOnlyAll(items)
    ensures RenderedMembers(names, entries, items, depth, fmt)
    ensures (forall e | e in names :: fresh(e)) && forall e | e in entries :: fresh(e)
    ensures len == 7 + (if fmt then depth else 0) + RoomForMembers(items, depth, fmt)
    decreases items, 0
  {
    hide Shows, ShowsChain, ShowsText, HoldsText, PrintValue, PrintText, NulFree, RenderedMembers;
    hide IntegersOnly, IntegersOnlyAll, RoomForMembers;
    var c := child;
    names, entries, len := [], [], 7 + if fmt then depth else 0;
    ghost var k := 0;
    NothingRendered(items, depth, fmt);
    while c != NULL
      invariant 0 <= k <= |items| && ShowsChain(m, c, items[k..]) && IntegersOnlyAll(items[k..])
      invariant IntegersOnlyAll(items[..k]) && RenderedMembers(names, entries, items[..k], depth, fmt)
      invariant (forall e | e in names :: fresh(e)) && forall e | e in entries :: fresh(e)
      invariant len + RoomForMembers(items[k..], depth, fmt) ==
                7 + (if fmt then depth else 0) + RoomForMembers(items, depth, fmt)
      decreases |items| - k
    {
      MemberShown(m, c, items, k, depth, fmt);
      var str, ret, size := RenderMember(m, c, depth, fmt, items[k]);
      RenderedOneMore(names, entries, items, k, str, ret, depth, fmt);
      names, entries := names + [str], entries + [ret];
      len := len + size + 2 + if fmt then 2 + depth else 0;
      k := k + 1;
      c := m[c].cell.next;
    }
    ChainDone(m, items, k, depth, fmt);
  }

  /** One turn of its loop. */
  method RenderMember(m: Store, c: Ref, depth: nat, fmt: bool, ghost item: Item)
    returns (str: array<Byte>, ret: array<Byte>, size: nat)
    requires Shows(m, c, item) && NodeAt(m, c) && ShowsText(m, m[c].cell.name, item.name) && IntegersOnly(item.value)
    requires NulFree(PrintText(item.name)) && NulFree(PrintValue(item.value, depth, fmt))
    ensures fresh(str) && fresh(ret) && HoldsText(str, PrintText(item.name))
    ensures HoldsText(ret, PrintValue(item.value, depth, fmt))
    ensures size == |PrintValue(item.value, depth, fmt)| + |PrintText(item.name)|
    decreases item, 0
  {
    hide Shows, ShowsText, HoldsText, PrintValue, PrintText, NulFree, IntegersOnly;
    str := PrintStringPtr(m, m[c].cell.name, item.name);
    ret := RenderValue(m, c, depth, fmt, item);
    var valueSize := StrLen(ret, PrintValue(item.value, depth, fmt));
    var nameSize := StrLen(str, PrintText(item.name));
    size := valueSize + nameSize;
  }

  lemma NothingRendered(items: seq<Item>, depth: nat, fmt: bool)
    requires IntegersOnlyAll(items)
    ensures items[0..] == items && items[..|items|] == items
    ensures IntegersOnlyAll(items[..0]) && RenderedMembers([], [], items[..0], depth, fmt)
  {
  }

  /** What is known of a member when it is printed. */
  lemma {:induction false} MemberShown(m: Store, c: Ref, items: seq<Item>, k: nat, depth: nat, fmt: bool)
    requires IntegersOnlyAll(items) && k <= |items| && c != NULL && ShowsChain(m, c, items[k..])
    ensures k < |items| && items[k].value < items[k] && NodeAt(m, c) && Shows(m, c, items[k])
    ensures ShowsText(m, m[c].cell.name, items[k].name) && ShowsChain(m, m[c].cell.next, items[k + 1..])
    ensures IntegersOnly(items[k].value)
    ensures IntegersOnlyAll(items[..k + 1]) && IntegersOnlyAll(items[k..]) && IntegersOnlyAll(items[k + 1..])
    ensures NulFree(PrintText(items[k].name)) && NulFree(PrintValue(items[k].value, depth, fmt))
    ensures RoomForMembers(items[k..], depth, fmt) ==
            |PrintValue(items[k].value, depth, fmt)| + |PrintText(items[k].name)| + 2 + (if fmt then 2 + depth else 0)
            + RoomForMembers(items[k + 1..], depth, fmt)
  {
    hide PrintValue, PrintText, NulFree, TextsNulFree;
    assert items[k..][0] == items[k] && items[k..][1..] == items[k + 1..];
    ShownNulFree(m, c, items[k]);
    TextNulFree(items[k].name);
    PrintedNulFree(items[k].value, depth, fmt);
  }

  lemma {:induction false} ChainDone(m: Store, items: seq<Item>, k: nat, depth: nat, fmt: bool)
    requires k <= |items| && ShowsChain(m, NULL, items[k..]) && IntegersOnlyAll(items[k..])
    ensures k == |items| && RoomForMembers(items[k..], depth, fmt) == 0
  {
  }

  /** `n` times the byte `b`, from `at` on. */
  method Fill(out: array<Byte>, at: nat, n: nat)
    requires at + n <= out.Length
    modifies out
    ensures out[..at + n] == old(out[..at]) + Tabs(n)
  {
    for j := 0 to n
      invariant out[..at + j] == old(out[..at]) + Tabs(n)[..j]
    {
      out[at + j] := TAB;
    }
  }

  /** One turn of the composing loop of print_object. */
  method ComposeMember(out: array<Byte>, at: nat, name: array<Byte>, entry: array<Byte>, last: bool, depth: nat, fmt: bool,
                       ghost item: Item)
    returns (p: nat)
    requires IntegersOnly(item.value) && TextsNulFree(item.value) && NameNulFree(item)
    requires HoldsText(name, PrintText(item.name)) && HoldsText(entry, PrintValue(item.value, depth, fmt))
    requires out != name && out != entry
    requires at + |PrintText(item.name)| + |PrintValue(item.value, depth, fmt)| + 2 + (if fmt then 2 + depth else 0) < out.Length
    modifies out
    ensures p == at + |Indent(fmt, depth)| + |PrintText(item.name)| + |NameEnd(fmt)|
                 + |PrintValue(item.value, depth, fmt)| + |MemberEnd(fmt, last)|
    ensures p <= at + |PrintText(item.name)| + |PrintValue(item.value, depth, fmt)| + 2 + (if fmt then 2 + depth else 0)
    ensures out[..p] == old(out[..at]) + Indent(fmt, depth) + PrintText(item.name) + NameEnd(fmt)
                        + PrintValue(item.value, depth, fmt) + MemberEnd(fmt, last)
  {
    hide PrintValue, PrintText, NulFree, TextsNulFree, IntegersOnly;
    hide HoldsText, Indent, NameEnd;
    ghost var was := out[..at];
    p := ComposeName(out, at, name, depth, fmt, item.name);
    was := was + Indent(fmt, depth) + PrintText(item.name) + NameEnd(fmt);
    PrintedNulFree(item.value, depth, fmt);
    StrCpy(out, p, entry, PrintValue(item.value, depth, fmt));
    var size := StrLen(entry, PrintValue(item.value, depth, fmt));
    p := p + size;
    was := was + PrintValue(item.value, depth, fmt);
    if !last {
      out[p] := COMMA;
      p := p + 1;
    }
    if fmt {
      out[p] := NEWLINE;
      p := p + 1;
    }
    out[p] := NUL;
    assert out[..p] == was + MemberEnd(fmt, last);
  }

  /** The part of a turn up to the colon. */
  method ComposeName(out: array<Byte>, at: nat, name: array<Byte>, depth: nat, fmt: bool, ghost t: MaybeText) returns (p: nat)
    requires (t.Text? ==> NulFree(t.bytes)) && HoldsText(name, PrintText(t)) && out != name
    requires at + |PrintText(t)| + 1 + (if fmt then 1 + depth else 0) < out.Length
    modifies out
    ensures p == at + |Indent(fmt, depth)| + |PrintText(t)| + |NameEnd(fmt)|
    ensures p == at + |PrintText(t)| + 1 + (if fmt then 1 + depth else 0)
    ensures out[..p] == old(out[..at]) + Indent(fmt, depth) + PrintText(t) + NameEnd(fmt)
  {
    hide HoldsText, PrintText, NulFree;
    TextNulFree(t);
    ghost var was := out[..at];
    p := at;
    if fmt {
      Fill(out, p, depth);
      p := p + depth;
    }
    assert out[..p] == was + Indent(fmt, depth);
    StrCpy(out, p, name, PrintText(t));
    var size := StrLen(name, PrintText(t));
    p := p + size;
    was := was + Indent(fmt, depth) + PrintText(t);
    out[p] := COLON;
    p := p + 1;
    if fmt {
      out[p] := TAB;
      p := p + 1;
    }
    assert out[..p] == was + NameEnd(fmt);
  }

  /** The composing loop of print_object. */
  method ComposeObject(out: array<Byte>, names: seq<array<Byte>>, entries: seq<array<Byte>>, n: nat, depth: nat, fmt: bool,
                       ghost items: seq<Item>)
    requires depth > 0 && n == |items|
    requires IntegersOnlyAll(items) && TextsNulFreeAll(items) && RenderedMembers(names, entries, items, depth, fmt)
    requires out !in names && out !in entries
    requires out.Length == 7 + (if fmt then depth else 0) + RoomForMembers(items, depth, fmt)
    modifies out
    ensures HoldsText(out, PrintObject(items, depth - 1, fmt))
  {
    hide PrintValue, PrintText, NulFree, TextsNulFree, IntegersOnly, NameEnd, MemberEnd;
    out[0] := LBRACE;
    var p := 1;
    if fmt {
      out[1] := NEWLINE;
      p := 2;
    }
    out[p] := NUL;
    assert out[..p] == [LBRACE] + LineEnd(fmt);
    p := ComposeMembers(out, p, names, entries, n, depth, fmt, items);
    hide *;
    CloseObject(out, p, depth - 1, fmt);
  }

  /** Its loop. */
  method ComposeMembers(out: array<Byte>, at: nat, names: seq<array<Byte>>, entries: seq<array<Byte>>, n: nat, depth: nat,
                        fmt: bool, ghost items: seq<Item>) returns (p: nat)
    requires n == |items| && at >= 1
    requires IntegersOnlyAll(items) && TextsNulFreeAll(items) && RenderedMembers(names, entries, items, depth, fmt)
    requires out !in names && out !in entries
    requires at + RoomForMembers(items, depth, fmt) + 2 + (if fmt then depth else 0) < out.Length
    modifies out
    ensures p + 2 + (if fmt then depth else 0) < out.Length
    ensures out[..p] == old(out[..at]) + PrintMembers(items, depth, fmt)
  {
    hide *;
    p := at;
    assert items[0..] == items && items[n..] == [];
    ghost var goal := out[..at] + PrintMembers(items, depth, fmt);
    NoMembers(depth, fmt);
    for i := 0 to n
      invariant RenderedMembers(names, entries, items, depth, fmt) && IntegersOnlyAll(items[i..])
      invariant p + RoomForMembers(items[i..], depth, fmt) + 2 + (if fmt then depth else 0) < out.Length
      invariant out[..p] + PrintMembers(items[i..], depth, fmt) == goal
    {
      MemberAt(names, entries, items, i, depth, fmt);
      ghost var was := out[..p];
      p := ComposeMember(out, p, names[i], entries[i], i == n - 1, depth, fmt, items[i]);
      MembersCons(was, items[i..], depth, fmt);
    }
    assert out[..p] == goal;
  }

  lemma NoMembers(depth: nat, fmt: bool)
    ensures IntegersOnlyAll([]) && RoomForMembers([], depth, fmt) == 0 && PrintMembers([], depth, fmt) == []
  {
  }

  /** What is known of one member when the object is composed. */
  lemma {:induction false} MemberAt(
      names: seq<array<Byte>>, entries: seq<array<Byte>>, items: seq<Item>, i: nat, depth: nat, fmt: bool)
    requires IntegersOnlyAll(items) && TextsNulFreeAll(items) && RenderedMembers(names, entries, items, depth, fmt)
    requires i < |items|
    ensures |names| == |items| == |entries| && items[i..][0] == items[i] && items[i..][1..] == items[i + 1..]
    ensures IntegersOnlyAll(items[i..]) && IntegersOnlyAll(items[i + 1..])
    ensures IntegersOnly(items[i].value) && TextsNulFree(items[i].value) && NameNulFree(items[i])
    ensures HoldsText(names[i], PrintText(items[i].name)) && HoldsText(entries[i], PrintValue(items[i].value, depth, fmt))
    ensures RoomForMembers(items[i..], depth, fmt) ==
            |PrintText(items[i].name)| + |PrintValue(items[i].value, depth, fmt)| + 2 + (if fmt then 2 + depth else 0)
            + RoomForMembers(items[i + 1..], depth, fmt)
  {
    hide PrintValue, PrintText, NulFree, TextsNulFree, IntegersOnly, NameEnd, MemberEnd, HoldsText;
  }

  /** The end of print_object: the indentation of the object itself and its brace. */
  method CloseObject(out: array<Byte>, at: nat, depth: nat, fmt: bool)
    requires at + (if fmt then depth else 0) + 1 < out.Length
    modifies out
    ensures HoldsText(out, old(out[..at]) + Indent(fmt, depth) + [RBRACE])
  {
    var p := at;
    if fmt {
      Fill(out, p, depth);
      p := p + depth;
    }
    assert out[..p] == old(out[..at]) + Indent(fmt, depth);
    out[p], out[p + 1] := RBRACE, NUL;
    assert out[..p + 1] == old(out[..at]) + Indent(fmt, depth) + [RBRACE];
  }

  lemma {:induction false} MembersCons(was: seq<Byte>, items: seq<Item>, depth: nat, fmt: bool)
    requires IntegersOnlyAll(items) && items != []
    ensures was + PrintMembers(items, depth, fmt) ==
            was + Indent(fmt, depth) + PrintText(items[0].name) + NameEnd(fmt) + PrintValue(items[0].value, depth, fmt)
            + MemberEnd(fmt, |items| == 1) + PrintMembers(items[1..], depth, fmt)
  {
    hide PrintValue, PrintText, IntegersOnly, Indent, NameEnd, MemberEnd;
    Regroup(was, Indent(fmt, depth), PrintText(items[0].name), NameEnd(fmt), PrintValue(items[0].value, depth, fmt),
            MemberEnd(fmt, |items| == 1), PrintMembers(items[1..], depth, fmt));
  }

  lemma {:induction false} Regroup(
      was: seq<Byte>, a: seq<Byte>, b: seq<Byte>, c: seq<Byte>, d: seq<Byte>, e: seq<Byte>, f: seq<Byte>)
    ensures was + (a + b + c + d + e + f) == was + a + b + c + d + e + f
  {
  }

  // ----- How much room there is -----

  /** The reservation of print_array exceeds the entries by one byte an entry and one more separator. */
  lemma {:induction false} ItemsRoomExact(items: seq<Item>, depth: nat, fmt: bool)
    requires IntegersOnlyAll(items) && items != []
    ensures RoomForItems(items, depth, fmt) == |PrintItems(items, depth, fmt)| + |items| + 1 + if fmt then 1 else 0
    decreases items
  {
    if |items| > 1 {
      ItemsRoomExact(items[1..], depth, fmt);
    } else {
      assert items[1..] == [];
    }
  }

  /** That of print_object exceeds the members by one byte in all. */
  lemma {:induction false} MembersRoomExact(items: seq<Item>, depth: nat, fmt: bool)
    requires IntegersOnlyAll(items) && items != []
    ensures RoomForMembers(items, depth, fmt) == |PrintMembers(items, depth, fmt)| + 1
    decreases items
  {
    hide PrintValue, PrintText, IntegersOnly;
    if |items| > 1 {
      MembersRoomExact(items[1..], depth, fmt);
    } else {
      assert items[1..] == [];
    }
  }

  /** The text of a container and its NUL leave exactly this much of the block unused. */
  lemma {:induction false} BlocksExact(items: seq<Item>, depth: nat, fmt: bool)
    requires IntegersOnlyAll(items)
    ensures 5 + RoomForItems(items, depth, fmt) ==
            |PrintArray(items, depth, fmt)| + 1 + 2 + (if items == [] then 0 else |items| + 1 + if fmt then 1 else 0)
    ensures 7 + (if fmt then depth + 1 else 0) + RoomForMembers(items, depth + 1, fmt) ==
            |PrintObject(items, depth, fmt)| + 1 + (if items == [] then 4 else 5)
  {
    if items != [] {
      ItemsRoomExact(items, depth, fmt);
      MembersRoomExact(items, depth + 1, fmt);
    }
  }

  // ----- From the heap to text and back -----

  lemma {:induction false} OwnedShows(m: Store, t: Tree)
    requires Owns(m, t) && JsonParser.Plain(t)
    ensures Shows(m, t.at, JsonParser.ItemOf(t))
    decreases t
  {
    OwnedShowsAll(m, t.kids, NULL);
    var v := JsonParser.ValueOf(t);
    assert JsonParser.ItemOf(t) == Item(TextOf(t.name), v);
  }

  lemma {:induction false} OwnedShowsAll(m: Store, ts: seq<Tree>, prev: Ref)
    requires Chain(m, ts, prev, NULL) && JsonParser.PlainAll(ts)
    ensures ShowsChain(m, Head(ts, NULL), JsonParser.ItemsOf(ts))
    decreases ts
  {
    if ts != [] {
      OwnedShows(m, ts[0]);
      OwnedShowsAll(m, ts[1..], ts[0].at);
    }
  }

  /** What the parser left on the heap for a text, with 32-bit integers for its numbers, can be printed, formatted or not;
      and the block the printer fills, read as a text, parses to the same tree again. */
  lemma {:induction false} HeapRoundTrip(m: Store, t: Tree, s: seq<Byte>, fmt: bool, out: array<Byte>)
    requires Owns(m, t) && JsonParser.Plain(t)
    requires Parse(s).Done? && Parse(s).value == JsonParser.ValueOf(t) && IntegersOnly(Parse(s).value)
    ensures Shows(m, t.at, JsonParser.ItemOf(t))
    ensures HoldsText(out, PrintValue(JsonParser.ValueOf(t), 0, fmt)) ==>
              Parse(out[..]) == Done(JsonParser.ValueOf(t), |PrintValue(JsonParser.ValueOf(t), 0, fmt)|)
  {
    hide *;
    OwnedShows(m, t);
    var text := PrintValue(JsonParser.ValueOf(t), 0, fmt);
    if HoldsText(out, text) {
      BlockRead(out, text);
      JsonRoundTrip.ReprintParses(s, fmt, out[|text| + 1..]);
    }
  }

  lemma BlockRead(out: array<Byte>, t: seq<Byte>)
    requires HoldsText(out, t)
    ensures |t| < out.Length && out[..] == t + ([NUL] + out[|t| + 1..])
  {
  }
}
