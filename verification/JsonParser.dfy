/**
 The parser of cJSON on its heap: it fills items in place and links new ones. On success the item shows the tree the
 text stands for; on failure, at whatever point and for whatever reason, the item still owns all that was allocated.
 */
module JsonParser {
  import opened Bytes
  import opened JsonStrings
  import opened JsonText
  import opened JsonHeap

  // ----- The value a tree of blocks stands for -----

  function ValueOf(t: Tree): Json
    decreases t, 0
  {
    match t.kind
    case KFalse => False
    case KTrue => True
    case KNull => Null
    case KNumber => Number(t.number)
    case KString => String(TextOf(t.text))
    case KArray => Array(ItemsOf(t.kids))
    case KObject => Object(ItemsOf(t.kids))
  }

  function ItemOf(t: Tree): Item
    decreases t, 1
  {
    Item(TextOf(t.name), ValueOf(t))
  }

  function ItemsOf(ts: seq<Tree>): (items: seq<Item>)
    ensures |items| == |ts|
    decreases ts
  {
    if ts == [] then [] else [ItemOf(ts[0])] + ItemsOf(ts[1..])
  }

  lemma {:induction false} ItemsOfAppend(ts: seq<Tree>, us: seq<Tree>)
    ensures ItemsOf(ts + us) == ItemsOf(ts) + ItemsOf(us)
    decreases ts
  {
    if ts == [] {
      assert ts + us == us;
    } else {
      assert (ts + us)[1..] == ts[1..] + us;
      ItemsOfAppend(ts[1..], us);
    }
  }

  /** `(int)n` */
  function Truncate(d: real): int { if d >= 0.0 then d.Floor else -(-d).Floor }

  /** No reference items, and the two number fields agree. */
  predicate Plain(t: Tree)
    decreases t
  {
    !t.isRef && (t.kind == KNumber ==> t.valueint == Truncate(t.number)) && PlainAll(t.kids)
  }

  predicate PlainAll(ts: seq<Tree>)
    decreases ts
  {
    ts == [] || (Plain(ts[0]) && PlainAll(ts[1..]))
  }

  lemma {:induction false} PlainOneMore(ts: seq<Tree>, u: Tree)
    requires PlainAll(ts) && Plain(u)
    ensures PlainAll(ts + [u])
    decreases ts
  {
    if ts != [] {
      assert (ts + [u])[1..] == ts[1..] + [u];
      PlainOneMore(ts[1..], u);
    }
  }

  // ----- What parsing into an item does to the heap -----

  /** An item with nothing in it but perhaps a name, as the parse functions are given. */
  function BareTree(r: Ref, kind: Kind, name: Str): Tree { Tree(r, kind, false, 0, 0.0, NoStr, name, []) }

  ghost predicate Bare(m: Store, r: Ref, name: Str) {
    && NodeAt(m, r) && HoldsStr(m, m[r].cell.name, name)
    && var c := m[r].cell;
    && !c.isRef && c.child == NULL && c.valuestring == NULL && c.valueint == 0 && c.valuedouble == 0.0
  }

  /**
   From `m` to `m'` the item at the root of `t` came to own `t`: of what it owns all but `had` is newly allocated,
   nothing else was allocated, nothing was freed and no other block was changed.
   */
  ghost predicate Grown(m: Store, m': Store, t: Tree, had: set<Ref>) {
    && NodeAt(m, t.at) && Owns(m', t) && t.at in had && had <= Blocks(t)
    && m'[t.at].cell.next == m[t.at].cell.next && m'[t.at].cell.prev == m[t.at].cell.prev
    && m'.Keys == m.Keys + Blocks(t)
    && Blocks(t) - had !! m.Keys
    && Same(m, m', m.Keys - {t.at})
  }

  /** An item's own fields are set, and its strings and children stay as they are. */
  lemma {:induction false} FieldsSet(m: Store, t: Tree, cell: Cell, t': Tree)
    requires Owns(m, t) && !t.isRef && !t'.isRef
    requires t' == t.(kind := t'.kind, valueint := t'.valueint, number := t'.number)
    requires cell == m[t.at].cell.(kind := t'.kind, valueint := t'.valueint, valuedouble := t'.number)
    ensures Owns(m[t.at := Node(cell)], t') && Blocks(t') == Blocks(t)
  {
    ChainFrame(m, m[t.at := Node(cell)], t.kids, NULL, NULL);
  }

  /** The last child grows where it stands. */
  lemma {:induction false} LastKidGrows(m: Store, m': Store, t: Tree, kids: seq<Tree>, u: Tree, u': Tree, had: set<Ref>)
    requires Owns(m, t) && !t.isRef && t.kids == kids + [u]
    requires Grown(m, m', u', had) && u'.at == u.at && had <= Blocks(u)
    ensures var t' := t.(kids := kids + [u']);
            Owns(m', t') && Blocks(t') == Blocks(t) - Blocks(u) + Blocks(u')
  {
    ItemBlocks(m, t);
    LastKidChain(m, m', kids, u, u', had);
    RestKept(m, m', t, kids, u, u');
    hide Owns, Chain, Blocks, BlocksAll, Grown, Apart, HoldsStr, HoldsItem;
  }

  lemma {:induction false} RestKept(m: Store, m': Store, t: Tree, kids: seq<Tree>, u: Tree, u': Tree)
    requires HoldsItem(m, t) && !t.isRef && t.kids == kids + [u] && Chain(m', kids + [u'], NULL, NULL)
    requires Head(kids + [u'], NULL) == Head(kids + [u], NULL)
    requires BlocksAll(kids + [u]) == BlocksAll(kids) + Blocks(u) && BlocksAll(kids + [u']) == BlocksAll(kids) + Blocks(u')
    requires BlocksAll(kids) !! Blocks(u) && u.at in Blocks(u) && Blocks(u') - Blocks(u) !! m.Keys
    requires Same(m, m', m.Keys - {u.at}) && {t.at} + StrBlocks(t.text) + StrBlocks(t.name) <= m.Keys
    ensures var t' := t.(kids := kids + [u']);
            Owns(m', t') && Blocks(t') == Blocks(t) - Blocks(u) + Blocks(u')
  {
    hide Chain, BlocksAll;
    var t' := t.(kids := kids + [u']);
    assert Blocks(t') == {t.at} + StrBlocks(t.text) + StrBlocks(t.name) + BlocksAll(kids) + Blocks(u');
    assert Blocks(t) == {t.at} + StrBlocks(t.text) + StrBlocks(t.name) + BlocksAll(kids) + Blocks(u);
    hide Blocks;
    assert m'[t.at] == m[t.at];
  }

  /** The chain up to a last child that grows. */
  lemma {:induction false} LastKidChain(m: Store, m': Store, kids: seq<Tree>, u: Tree, u': Tree, had: set<Ref>)
    requires Chain(m, kids + [u], NULL, NULL) && Grown(m, m', u', had) && u'.at == u.at && had <= Blocks(u)
    ensures Chain(m', kids + [u'], NULL, NULL) && Head(kids + [u'], NULL) == Head(kids + [u], NULL)
    ensures BlocksAll(kids + [u]) == BlocksAll(kids) + Blocks(u) && BlocksAll(kids + [u']) == BlocksAll(kids) + Blocks(u')
    ensures u.at in Blocks(u) && BlocksAll(kids) !! Blocks(u) && Blocks(u') - Blocks(u) !! m.Keys
    ensures Same(m, m', m.Keys - {u.at})
  {
    ChainLive(m, kids + [u], NULL, NULL);
    BlocksAppend(kids, [u]);
    BlocksAppend(kids, [u']);
    ChainSplit(m, kids, [u], NULL, NULL);
    BlocksOne(u);
    BlocksOne(u');
    assert Chain(m, [u], Last(kids, NULL), NULL);
    ChainFrame(m, m', kids, NULL, u.at);
    assert Chain(m', [u'], Last(kids, NULL), NULL);
    ChainJoin(m', kids, [u'], NULL, NULL);
  }

  /** Growth seen from the start of a parse goes on as long as only the item and its new blocks are touched. */
  lemma {:induction false} GrownOn(m0: Store, m: Store, m': Store, t: Tree, t': Tree, had: set<Ref>)
    requires Grown(m0, m, t, had)
    requires t'.at == t.at && Owns(m', t') && Blocks(t) <= Blocks(t') && Blocks(t') - Blocks(t) !! m.Keys
    requires m'.Keys == m.Keys + Blocks(t') && Same(m, m', m.Keys - (Blocks(t) - had) - {t.at})
    requires m'[t.at].cell.next == m[t.at].cell.next && m'[t.at].cell.prev == m[t.at].cell.prev
    ensures Grown(m0, m', t', had)
  {
  }

  lemma {:induction false} GrownSelf(m: Store, m': Store, t: Tree)
    requires NodeAt(m, t.at) && Owns(m', t) && m'.Keys == m.Keys && Blocks(t) <= m.Keys && Same(m, m', m.Keys - {t.at})
    requires m'[t.at].cell.next == m[t.at].cell.next && m'[t.at].cell.prev == m[t.at].cell.prev
    ensures Grown(m, m', t, Blocks(t))
  {
  }

  // ----- The entries of a chain -----

  /** What the loop of parse_array or parse_object reads, by its closing byte. */
  function Entries(s: seq<Byte>, i: nat, close: Byte): Parsed<seq<Item>>
    requires i <= |s|
  {
    if close == RBRACKET then ParseItems(s, i) else ParseMembers(s, i)
  }

  /** One entry: a value, or a name, a colon and a value. */
  function Entry(s: seq<Byte>, i: nat, close: Byte): (r: Parsed<Item>)
    requires i <= |s|
    ensures r.Done? ==> i < r.at <= |s|
  {
    if close == RBRACKET then
      match JsonText.ParseValue(s, Skip(s, i))
      case Done(v, at) => Done(Item(NoText, v), at)
      case Refused => Refused
      case IllFormed => IllFormed
    else
      match JsonText.ParseString(s, Skip(s, i))
      case Refused => Refused
      case IllFormed => IllFormed
      case Done(name, at) =>
        var colon := Skip(s, at);
        if At(s, colon) != COLON then Refused
        else
          match JsonText.ParseValue(s, Skip(s, colon + 1))
          case Done(v, at') => Done(Item(Text(name), v), at')
          case Refused => Refused
          case IllFormed => IllFormed
  }

  /** `items` in front of what a parse function reads. */
  function Before(items: seq<Item>, r: Parsed<seq<Item>>): Parsed<seq<Item>> {
    match r
    case Done(rest, at) => Done(items + rest, at)
    case Refused => Refused
    case IllFormed => IllFormed
  }

  /** The entries are an entry and, after it, the closing byte or a comma and more entries. */
  lemma {:induction false} EntriesStep(s: seq<Byte>, i: nat, close: Byte)
    requires i <= |s| && (close == RBRACKET || close == RBRACE)
    ensures Entry(s, i, close).Refused? ==> Entries(s, i, close).Refused?
    ensures Entry(s, i, close).IllFormed? ==> Entries(s, i, close).IllFormed?
    ensures Entry(s, i, close).Done? ==>
              var Done(item, at) := Entry(s, i, close);
              var p := Skip(s, at);
              Entries(s, i, close) ==
              if At(s, p) == COMMA then Before([item], Entries(s, p + 1, close))
              else if At(s, p) == close then Done([item], p + 1)
              else Refused
  {
    hide LiteralOk, LiteralEnd, Decode, Skip, JsonText.ParseValue;
    if Entry(s, i, close).Done? {
      var Done(item, at) := Entry(s, i, close);
      assert Entries(s, i, close) == ItemsAfter(s, Skip(s, at), item, close);
    }
  }

  lemma {:induction false} BeforeNothing(r: Parsed<seq<Item>>)
    ensures Before([], r) == r
  {
    if r.Done? {
      assert [] + r.value == r.value;
    }
  }

  /** The loop over the commas, seen from its start: `items` have been read and `p` is where the next one stands. */
  lemma {:induction false} EntriesAdvance(s: seq<Byte>, first: nat, p: nat, close: Byte, items: seq<Item>)
    requires first <= |s| && p <= |s| && (close == RBRACKET || close == RBRACE)
    requires Entries(s, first, close) == Before(items, Entries(s, p, close))
    ensures Entry(s, p, close).IllFormed? ==> Entries(s, first, close).IllFormed?
    ensures Entry(s, p, close).Refused? ==> Entries(s, first, close).Refused?
    ensures Entry(s, p, close).Done? ==>
              var Done(item, at) := Entry(s, p, close);
              var q := Skip(s, at);
              Entries(s, first, close) ==
              if At(s, q) == COMMA then Before(items + [item], Entries(s, q + 1, close))
              else if At(s, q) == close then Done(items + [item], q + 1)
              else Refused
  {
    hide Entries, Entry, Skip;
    EntriesStep(s, p, close);
    if Entry(s, p, close).Done? {
      var Done(item, at) := Entry(s, p, close);
      var q := Skip(s, at);
      if At(s, q) == COMMA && Entries(s, q + 1, close).Done? {
        var rest := Entries(s, q + 1, close).value;
        assert items + ([item] + rest) == items + [item] + rest;
      }
    }
  }

  // ----- The parse functions -----

  /** A returned `const char *`: NULL, or a place in the text. */
  datatype Cursor = Nowhere | Place(at: nat)

  method SkipBlanks(s: seq<Byte>, i: nat) returns (j: nat)
    requires i <= |s|
    ensures j == Skip(s, i)
  {
    j := i;
    while 0 < At(s, j) <= SPACE
      invariant j <= |s| && Skip(s, j) == Skip(s, i)
      decreases |s| - j
    {
      j := j + 1;
    }
  }

  method ReadDigits(s: seq<Byte>, i: nat, n: nat) returns (n': nat, j: nat)
    requires i <= |s|
    ensures j == DigitsEnd(s, i) && n' == Accumulate(s, i, j, n)
  {
    n', j := n, i;
    while IsDigit(At(s, j))
      invariant j <= |s| && DigitsEnd(s, j) == DigitsEnd(s, i)
      invariant Accumulate(s, j, DigitsEnd(s, i), n') == Accumulate(s, i, DigitsEnd(s, i), n)
      decreases |s| - j
    {
      var digit: int := s[j];
      n', j := n' * 10 + (digit - 0x30), j + 1;
    }
  }

  /** The scan of parse_number, in exact arithmetic. */
  method ReadNumber(s: seq<Byte>, i: nat) returns (d: real, j: nat)
    requires i <= |s| && (At(s, i) == MINUS || IsDigit(At(s, i)))
    ensures JsonText.ParseNumber(s, i) == Done(Number(d), j)
  {
    hide Scaled, WholeEnd, WholeValue, FractionEnd, FractionStart, Accumulate, ExponentEnd, ExponentValue;
    var whole := if s[i] == MINUS then i + 1 else i;
    if At(s, whole) == ZERO {
      whole := whole + 1;
    }
    var n, point := ReadWhole(s, whole);
    var scale, end, e;
    n, scale, end := ReadFraction(s, point, n);
    e, j := ReadExponent(s, end);
    d := Scaled(s[i] == MINUS, n, e - scale);
  }

  method ReadFraction(s: seq<Byte>, i: nat, n: nat) returns (n': nat, scale: int, j: nat)
    requires i <= |s|
    ensures j == FractionEnd(s, i) && n' == Accumulate(s, FractionStart(s, i), j, n) && scale == j - FractionStart(s, i)
  {
    n', scale, j := n, 0, i;
    if FractionAt(s, i) {
      n', j := ReadDigits(s, i + 1, n);
      scale := j - (i + 1);
    }
  }

  method ReadWhole(s: seq<Byte>, i: nat) returns (n: nat, j: nat)
    requires i <= |s|
    ensures j == WholeEnd(s, i) && n == WholeValue(s, i)
  {
    n, j := 0, i;
    if 0x31 <= At(s, i) <= 0x39 {
      n, j := ReadDigits(s, i, 0);
    }
  }

  method ReadExponent(s: seq<Byte>, i: nat) returns (e: int, j: nat)
    requires i <= |s|
    ensures j == ExponentEnd(s, i) && e == ExponentValue(s, i)
  {
    e, j := 0, i;
    if ExponentAt(s, i) {
      e, j := ReadDigits(s, ExponentSignEnd(s, i + 1), 0);
      if At(s, i + 1) == MINUS {
        e := -e;
      }
    }
  }

  /** The item `r` is set to a scalar kind. */
  method SetScalar(h: Heap, r: Ref, kind: Kind, n: int, d: real, ghost name: Str) returns (ghost t: Tree)
    requires h.Valid() && Bare(h.store, r, name) && (kind == KNumber ==> n == Truncate(d))
    modifies h
    ensures h.Valid() && h.top == old(h.top) && h.refusals == old(h.refusals) && Plain(t)
    ensures t == Tree(r, kind, false, n, d, NoStr, name, [])
    ensures Grown(old(h.store), h.store, t, {r} + StrBlocks(name))
  {
    t := BareTree(r, h.store[r].cell.kind, name);
    var cell := h.store[r].cell.(kind := kind, valueint := n, valuedouble := d);
    FieldsSet(h.store, t, cell, t.(kind := kind, valueint := n, number := d));
    OwnedLive(h.store, t);
    t := t.(kind := kind, valueint := n, number := d);
    h.store := h.store[r := Node(cell)];
    assert BlocksAll(t.kids) == {};
    GrownSelf(old(h.store), h.store, t);
  }

  /** parse_string: the decoded text becomes the item's `valuestring`. */
  method ParseString(h: Heap, item: Ref, s: seq<Byte>, i: nat, ghost name: Str) returns (at: Cursor, ghost t: Tree)
    requires h.Valid() && Bare(h.store, item, name) && i <= |s| && !JsonText.ParseString(s, i).IllFormed?
    modifies h
    ensures h.Valid() && old(h.top) <= h.top && old(h.refusals) <= h.refusals
    ensures t.at == item && t.name == name && t.kids == [] && !t.isRef && t.valueint == 0 && t.number == 0.0
    ensures Grown(old(h.store), h.store, t, {item} + StrBlocks(name)) && Plain(t)
    ensures at.Nowhere? ==> t.text == NoStr && (JsonText.ParseString(s, i).Refused? || h.refusals > old(h.refusals))
    ensures at.Place? ==> t.kind == KString && t.text.Str? && JsonText.ParseString(s, i) == Done(t.text.bytes, at.at)
  {
    ghost var m := h.store;
    t := BareTree(item, h.store[item].cell.kind, name);
    OwnedLive(m, t);
    GrownSelf(m, m, t);
    if At(s, i) != QUOTE {
      return Nowhere, t;
    }
    var out, len, end := DecodeLiteral(s, i + 1);
    DecodeNulFree(s, i + 1);
    var r := h.Malloc(Chars(out[..len]));
    if r == NULL {
      return Nowhere, t;
    }
    h.store := h.store[item := Node(h.store[item].cell.(valuestring := r, kind := KString))];
    t := t.(kind := KString, text := Str(r, out[..len]));
    at := Place(if At(s, end) == QUOTE then end + 1 else end);
  }

  /** The heap after a new item `r` is linked in as the last child; `last` is NULL when it is the first. */
  function KidAdded(m: Store, item: Ref, last: Ref, r: Ref): Store
    requires NodeAt(m, item) && (last != NULL ==> NodeAt(m, last)) && r !in m && r != NULL
  {
    if last == NULL then m[r := Node(ZeroCell)][item := Node(m[item].cell.(child := r))]
    else m[r := Node(ZeroCell.(prev := last))][last := Node(m[last].cell.(next := r))]
  }

  lemma {:induction false} KidAddedOwned(m: Store, t: Tree, r: Ref)
    requires Owns(m, t) && !t.isRef && r !in m && r != NULL
    ensures var last := Last(t.kids, NULL);
            && (last == NULL <==> t.kids == []) && (last != NULL ==> NodeAt(m, last) && last in BlocksAll(t.kids))
            && var m', t' := KidAdded(m, t.at, last, r), t.(kids := t.kids + [BareTree(r, KFalse, NoStr)]);
            && Owns(m', t') && Bare(m', r, NoStr) && Blocks(t') == Blocks(t) + {r}
  {
    var u := BareTree(r, KFalse, NoStr);
    assert Blocks(u) == {r};
    OwnedLive(m, t);
    LastIsBlock(t.kids);
    if t.kids == [] {
      var m1 := m[r := Node(ZeroCell)];
      OwnsFrame(m, m1, t);
      FirstKid(m1, t, u);
      assert t.kids + [u] == [u];
    } else {
      ChainNewEnd(m, t.kids, NULL, NULL, NULL);
      var m1 := m[r := Node(ZeroCell.(prev := Last(t.kids, NULL)))];
      OwnsFrame(m, m1, t);
      NextKid(m1, t, u);
    }
  }

  /** `child = cJSON_New_Item()`, linked behind `last` or as the first child of `item`. */
  method AddKid(h: Heap, item: Ref, last: Ref) returns (r: Ref)
    requires h.Valid() && NodeAt(h.store, item) && (last != NULL ==> NodeAt(h.store, last))
    modifies h
    ensures h.Valid() && old(h.top) <= h.top && old(h.refusals) <= h.refusals
    ensures r == NULL ==> h.refusals > old(h.refusals) && h.store == old(h.store)
    ensures r != NULL ==> r !in old(h.store) && h.store == KidAdded(old(h.store), item, last, r)
  {
    r := h.NewItem();
    if r != NULL {
      if last == NULL {
        h.store := h.store[item := Node(h.store[item].cell.(child := r))];
      } else {
        h.store := SetNext(h.store, last, r);
        h.store := SetPrev(h.store, r, last);
      }
    }
  }

  method ParseValue(h: Heap, item: Ref, s: seq<Byte>, i: nat, ghost name: Str) returns (at: Cursor, ghost t: Tree)
    requires h.Valid() && Bare(h.store, item, name) && i <= |s| && !JsonText.ParseValue(s, i).IllFormed?
    modifies h
    ensures h.Valid() && old(h.top) <= h.top && old(h.refusals) <= h.refusals
    ensures t.at == item && t.name == name && Plain(t) && Grown(old(h.store), h.store, t, {item} + StrBlocks(name))
    ensures at.Nowhere? ==> JsonText.ParseValue(s, i).Refused? || h.refusals > old(h.refusals)
    ensures at.Place? ==> JsonText.ParseValue(s, i) == Done(ValueOf(t), at.at)
    decreases |s| - i, 2
  {
    if StartsWith(s, i, NULL_WORD) {
      t := SetScalar(h, item, KNull, 0, 0.0, name);
      return Place(i + 4), t;
    }
    if StartsWith(s, i, FALSE_WORD) {
      t := SetScalar(h, item, KFalse, 0, 0.0, name);
      return Place(i + 5), t;
    }
    if StartsWith(s, i, TRUE_WORD) {
      t := SetScalar(h, item, KTrue, 1, 0.0, name);
      return Place(i + 4), t;
    }
    if At(s, i) == QUOTE {
      at, t := ParseString(h, item, s, i, name);
      return;
    }
    if At(s, i) == MINUS || IsDigit(At(s, i)) {
      var d, j := ReadNumber(s, i);
      t := SetScalar(h, item, KNumber, Truncate(d), d, name);
      return Place(j), t;
    }
    if At(s, i) == LBRACKET {
      at, t := ParseContainer(h, item, s, i, RBRACKET, name);
      return;
    }
    if At(s, i) == LBRACE {
      at, t := ParseContainer(h, item, s, i, RBRACE, name);
      return;
    }
    t := BareTree(item, h.store[item].cell.kind, name);
    OwnedLive(h.store, t);
    GrownSelf(h.store, h.store, t);
    at := Nowhere;
  }

  /** parse_array and parse_object, which differ in the kind they set, the closing byte and what an entry is. */
  method ParseContainer(h: Heap, item: Ref, s: seq<Byte>, i: nat, close: Byte, ghost name: Str)
    returns (at: Cursor, ghost t: Tree)
    requires h.Valid() && Bare(h.store, item, name) && i < |s|
    requires close == RBRACKET || close == RBRACE
    requires !Container(s, i, close).IllFormed?
    modifies h
    ensures h.Valid() && old(h.top) <= h.top && old(h.refusals) <= h.refusals
    ensures t.at == item && t.name == name && Plain(t) && Grown(old(h.store), h.store, t, {item} + StrBlocks(name))
    ensures at.Nowhere? ==> Container(s, i, close).Refused? || h.refusals > old(h.refusals)
    ensures at.Place? ==> Container(s, i, close) == Done(ValueOf(t), at.at)
    decreases |s| - i, 1
  {
    var kind := if close == RBRACKET then KArray else KObject;
    t := SetScalar(h, item, kind, 0, 0.0, name);
    var first := SkipBlanks(s, i + 1);
    if At(s, first) == close {
      return Place(first + 1), t;
    }
    ghost var m, t0 := h.store, t;
    at, t := ParseEntries(h, item, s, first, close, t0);
    GrownOn(old(h.store), m, h.store, t0, t, {item} + StrBlocks(name));
  }

  function Container(s: seq<Byte>, i: nat, close: Byte): Parsed<Json>
    requires i < |s|
  {
    if close == RBRACKET then ParseArray(s, i) else ParseObject(s, i)
  }

  /** A decoded string moves from `valuestring` to the name of the item. */
  lemma {:induction false} TextBecomesName(m: Store, t: Tree)
    requires Owns(m, t) && !t.isRef && t.name == NoStr && t.kids == [] && t.valueint == 0 && t.number == 0.0
    ensures var c := m[t.at].cell;
            var m' := m[t.at := Node(c.(name := c.valuestring, valuestring := NULL))];
            && Owns(m', t.(name := t.text, text := NoStr)) && Blocks(t.(name := t.text, text := NoStr)) == Blocks(t)
            && Bare(m', t.at, t.text)
  {
  }

  lemma {:induction false} GrownNamed(m0: Store, m: Store, t: Tree)
    requires Grown(m0, m, t, {t.at}) && !t.isRef && t.name == NoStr && t.kids == [] && t.valueint == 0 && t.number == 0.0
    ensures NodeAt(m, t.at)
    ensures var c := m[t.at].cell;
            var m' := m[t.at := Node(c.(name := c.valuestring, valuestring := NULL))];
            Grown(m0, m', t.(name := t.text, text := NoStr), {t.at}) && Bare(m', t.at, t.text)
  {
    TextBecomesName(m, t);
  }

  lemma {:induction false} GrownMember(m0: Store, m: Store, m': Store, t: Tree, t': Tree)
    requires Grown(m0, m, t, {t.at}) && t.kids == [] && t.text == NoStr && t'.at == t.at
    requires Grown(m, m', t', {t.at} + StrBlocks(t.name))
    ensures Grown(m0, m', t', {t.at})
  {
    assert BlocksAll(t.kids) == {};
    GrownOn(m0, m, m', t, t', {t.at});
  }

  /** One member: its name, the colon and its value. */
  method ParseMember(h: Heap, child: Ref, s: seq<Byte>, i: nat) returns (at: Cursor, ghost u: Tree)
    requires h.Valid() && Bare(h.store, child, NoStr) && i <= |s| && !Entry(s, i, RBRACE).IllFormed?
    modifies h
    ensures h.Valid() && old(h.top) <= h.top && old(h.refusals) <= h.refusals
    ensures u.at == child && Plain(u) && Grown(old(h.store), h.store, u, {child})
    ensures at.Nowhere? ==> Entry(s, i, RBRACE).Refused? || h.refusals > old(h.refusals)
    ensures at.Place? ==> Entry(s, i, RBRACE) == Done(ItemOf(u), at.at)
    decreases |s| - i, 3
  {
    hide Grown, Owns, Skip;
    var j := SkipBlanks(s, i);
    assert {child} + StrBlocks(NoStr) == {child};
    at, u := ParseString(h, child, s, j, NoStr);
    if at.Nowhere? {
      return;
    }
    GrownNamed(old(h.store), h.store, u);
    var cell := h.store[child].cell;
    h.store := h.store[child := Node(cell.(name := cell.valuestring, valuestring := NULL))];
    ghost var m, u' := h.store, u.(name := u.text, text := NoStr);
    u := u';
    var colon := SkipBlanks(s, at.at);
    if At(s, colon) != COLON {
      return Nowhere, u;
    }
    j := SkipBlanks(s, colon + 1);
    at, u := ParseValue(h, child, s, j, u'.name);
    GrownMember(old(h.store), m, h.store, u', u);
  }

  method ParseEntry(h: Heap, child: Ref, s: seq<Byte>, i: nat, close: Byte) returns (at: Cursor, ghost u: Tree)
    requires h.Valid() && Bare(h.store, child, NoStr) && i <= |s| && !Entry(s, i, close).IllFormed?
    requires close == RBRACKET || close == RBRACE
    modifies h
    ensures h.Valid() && old(h.top) <= h.top && old(h.refusals) <= h.refusals
    ensures u.at == child && Plain(u) && Grown(old(h.store), h.store, u, {child})
    ensures at.Nowhere? ==> Entry(s, i, close).Refused? || h.refusals > old(h.refusals)
    ensures at.Place? ==> Entry(s, i, close) == Done(ItemOf(u), at.at)
    decreases |s| - i, 4
  {
    if close == RBRACKET {
      var j := SkipBlanks(s, i);
      at, u := ParseValue(h, child, s, j, NoStr);
    } else {
      at, u := ParseMember(h, child, s, i);
    }
  }

  /** From `m` to `m'` the children of `t` became those of `t'`, in newly allocated blocks. */
  ghost predicate MoreKids(m: Store, m': Store, t: Tree, t': Tree) {
    && NodeAt(m, t.at) && Owns(m', t') && t' == t.(kids := t'.kids)
    && Blocks(t) <= Blocks(t') && Blocks(t') - Blocks(t) !! m.Keys && m'.Keys == m.Keys + Blocks(t')
    && Same(m, m', m.Keys - BlocksAll(t.kids) - {t.at})
    && m'[t.at].cell.next == m[t.at].cell.next && m'[t.at].cell.prev == m[t.at].cell.prev
  }

  lemma {:induction false} MoreKidsAdded(m: Store, t: Tree, r: Ref)
    requires Owns(m, t) && !t.isRef && r !in m && r != NULL
    ensures var last := Last(t.kids, NULL);
            && (last != NULL ==> NodeAt(m, last))
            && MoreKids(m, KidAdded(m, t.at, last, r), t, t.(kids := t.kids + [BareTree(r, KFalse, NoStr)]))
  {
    OwnedLive(m, t);
    KidAddedOwned(m, t, r);
  }

  lemma {:induction false} MoreKidsGrown(m: Store, m1: Store, m2: Store, t: Tree, u: Tree, u': Tree)
    requires MoreKids(m, m1, t, t.(kids := t.kids + [u])) && !t.isRef && Blocks(u) == {u.at} && u.at !in m
    requires Owns(m, t) && Grown(m1, m2, u', {u.at}) && u'.at == u.at
    ensures MoreKids(m, m2, t, t.(kids := t.kids + [u']))
  {
    var t1 := t.(kids := t.kids + [u]);
    LastKidGrows(m1, m2, t1, t.kids, u, u', {u.at});
    OwnedLive(m, t);
    OwnedLive(m1, t1);
  }

  /** One child is added and parsed. */
  method ParseNextEntry(h: Heap, item: Ref, s: seq<Byte>, i: nat, close: Byte, last: Ref, ghost t: Tree)
    returns (at: Cursor, r: Ref, ghost t': Tree)
    requires h.Valid() && Owns(h.store, t) && t.at == item && !t.isRef && i <= |s| && last == Last(t.kids, NULL)
    requires close == RBRACKET || close == RBRACE
    requires !Entry(s, i, close).IllFormed?
    modifies h
    ensures h.Valid() && old(h.top) <= h.top && old(h.refusals) <= h.refusals
    ensures MoreKids(old(h.store), h.store, t, t') && (PlainAll(t.kids) ==> PlainAll(t'.kids))
    ensures at.Nowhere? ==> Entry(s, i, close).Refused? || h.refusals > old(h.refusals)
    ensures at.Place? ==>
              && |t'.kids| == |t.kids| + 1 && t'.kids == t.kids + [t'.kids[|t.kids|]] && r == t'.kids[|t.kids|].at
              && Entry(s, i, close) == Done(ItemOf(t'.kids[|t.kids|]), at.at)
    decreases |s| - i, 5
  {
    ghost var m := h.store;
    OwnedLive(m, t);
    KidAddedOwned(m, t, h.top);
    t' := t;
    r := AddKid(h, item, last);
    if r == NULL {
      return Nowhere, r, t';
    }
    KidAddedOwned(m, t, r);
    MoreKidsAdded(m, t, r);
    ghost var m1, u := h.store, BareTree(r, KFalse, NoStr);
    ghost var u';
    at, u' := ParseEntry(h, r, s, i, close);
    MoreKidsGrown(m, m1, h.store, t, u, u');
    if PlainAll(t.kids) {
      PlainOneMore(t.kids, u');
    }
    t' := t.(kids := t.kids + [u']);
  }

  /** The first child and the loop over the commas. */
  method ParseEntries(h: Heap, item: Ref, s: seq<Byte>, first: nat, close: Byte, ghost t0: Tree)
    returns (at: Cursor, ghost t: Tree)
    requires h.Valid() && Owns(h.store, t0) && t0.at == item && !t0.isRef && t0.kids == [] && first <= |s|
    requires close == RBRACKET || close == RBRACE
    requires !Entries(s, first, close).IllFormed?
    modifies h
    ensures h.Valid() && old(h.top) <= h.top && old(h.refusals) <= h.refusals
    ensures t == t0.(kids := t.kids) && PlainAll(t.kids) && Grown(old(h.store), h.store, t, Blocks(t0))
    ensures at.Nowhere? ==> Entries(s, first, close).Refused? || h.refusals > old(h.refusals)
    ensures at.Place? ==> Entries(s, first, close) == Done(ItemsOf(t.kids), at.at)
    decreases |s| - first, 6
  {
    hide Entries, Entry, Skip, Owns, Grown, MoreKids, Plain;
    t := t0;
    OwnedLive(h.store, t0);
    GrownSelf(h.store, h.store, t0);
    BeforeNothing(Entries(s, first, close));
    var p, last, more := first, NULL, true;
    while more
      invariant h.Valid() && old(h.top) <= h.top && old(h.refusals) <= h.refusals
      invariant t == t0.(kids := t.kids) && Owns(h.store, t) && Grown(old(h.store), h.store, t, Blocks(t0))
      invariant last == Last(t.kids, NULL) && first <= p <= |s| && PlainAll(t.kids)
      invariant Entries(s, first, close) ==
                if more then Before(ItemsOf(t.kids), Entries(s, p, close))
                else if At(s, p) == close then Done(ItemsOf(t.kids), p + 1)
                else Refused
      decreases more, |s| - p
    {
      EntriesAdvance(s, first, p, close, ItemsOf(t.kids));
      ghost var m, t' := h.store, t;
      at, last, t' := ParseNextEntry(h, item, s, p, close, last, t);
      GrownMoreKids(old(h.store), m, h.store, t0, t, t');
      if at.Nowhere? {
        t := t';
        return;
      }
      ItemsOfOneMore(t.kids, t'.kids);
      t := t';
      p := SkipBlanks(s, at.at);
      more := At(s, p) == COMMA;
      if more {
        p := p + 1;
      }
    }
    at := if At(s, p) == close then Place(p + 1) else Nowhere;
  }

  lemma {:induction false} ItemsOfOneMore(ts: seq<Tree>, us: seq<Tree>)
    requires |us| == |ts| + 1 && us == ts + [us[|ts|]]
    ensures ItemsOf(us) == ItemsOf(ts) + [ItemOf(us[|ts|])] && Last(us, NULL) == us[|ts|].at
  {
    ItemsOfAppend(ts, [us[|ts|]]);
    assert ItemsOf([us[|ts|]]) == [ItemOf(us[|ts|])];
  }

  lemma {:induction false} GrownMoreKids(m0: Store, m: Store, m': Store, t0: Tree, t: Tree, t': Tree)
    requires t == t0.(kids := t.kids) && t0.kids == [] && Grown(m0, m, t, Blocks(t0)) && MoreKids(m, m', t, t')
    ensures Grown(m0, m', t', Blocks(t0)) && Owns(m', t')
  {
    assert BlocksAll(t0.kids) == {} && BlocksAll(t.kids) !! Blocks(t0);
    GrownOn(m0, m, m', t, t', Blocks(t0));
  }

  /** From `m` to `m'` exactly the blocks of `t` were allocated, and `t` stands on its own. */
  ghost predicate Allocated(m: Store, m': Store, t: Tree) {
    && Owns(m', t) && m'[t.at].cell.next == NULL == m'[t.at].cell.prev
    && m.Keys !! Blocks(t) && m'.Keys == m.Keys + Blocks(t) && Same(m, m', m.Keys)
  }

  /**
   cJSON_Parse. A text that stands for a tree gives exactly that tree in newly allocated blocks; in every other case,
   also when memory runs out half way, it gives NULL and the heap is as it was before.
   */
  method Parse(h: Heap, value: MaybeText) returns (c: Ref, ghost t: Tree)
    requires h.Valid() && (value.Text? ==> !JsonText.Parse(value.bytes).IllFormed?)
    modifies h
    ensures h.Valid() && old(h.refusals) <= h.refusals
    ensures c == NULL ==>
              h.store == old(h.store) && (value.NoText? || JsonText.Parse(value.bytes).Refused? || h.refusals > old(h.refusals))
    ensures c != NULL ==>
              && value.Text? && t.at == c && Plain(t) && Allocated(old(h.store), h.store, t)
              && JsonText.Parse(value.bytes).Done? && JsonText.Parse(value.bytes).value == ValueOf(t)
  {
    t := BareTree(NULL, KFalse, NoStr);
    c := h.NewItem();
    if c == NULL {
      return;
    }
    t := BareTree(c, KFalse, NoStr);
    var at := Nowhere;
    ghost var m := h.store;
    GrownSelf(m, m, t);
    assert {c} + StrBlocks(NoStr) == {c};
    if value.Text? {
      var i := SkipBlanks(value.bytes, 0);
      at, t := ParseValue(h, c, value.bytes, i, NoStr);
    }
    GrownFromNew(old(h.store), m, h.store, t);
    if at.Nowhere? {
      ghost var m' := h.store;
      BlocksOne(t);
      h.Delete(c, [t], NULL);
      AllocatedUndone(old(h.store), m', t, h.store);
      c := NULL;
    }
  }

  lemma {:induction false} GrownFromNew(m0: Store, m: Store, m': Store, t: Tree)
    requires t.at !in m0 && m == m0[t.at := Node(ZeroCell)] && Grown(m, m', t, {t.at})
    ensures Allocated(m0, m', t) && Chain(m', [t], NULL, NULL)
  {
  }

  lemma {:induction false} AllocatedUndone(m: Store, m': Store, t: Tree, m'': Store)
    requires m.Keys !! Blocks(t) && m'.Keys == m.Keys + Blocks(t) && Same(m, m', m.Keys) && m'' == m' - Blocks(t)
    ensures m'' == m
  {
  }
}
