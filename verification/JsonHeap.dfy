/**
 The heap cJSON works on: nodes and strings from malloc, linked by pointers.

 A pointer is a number, 0 is NULL, and the heap is the map of live blocks, so a pointer to freed memory is one that is
 no longer in the map. The ghost type Tree says which blocks an item owns; Owns says that the heap holds such a tree.
 */
module JsonHeap {
  import opened Bytes
  import opened JsonStrings
  import opened JsonText

  type Ref = nat

  const NULL: Ref := 0

  datatype Kind = KFalse | KTrue | KNull | KNumber | KString | KArray | KObject

  /** struct cJSON; `isRef` is the cJSON_IsReference bit of `type`. */
  datatype Cell = Cell(
    next: Ref, prev: Ref, child: Ref, kind: Kind, isRef: bool,
    valuestring: Ref, valueint: int, valuedouble: real, name: Ref)

  const ZeroCell := Cell(NULL, NULL, NULL, KFalse, false, NULL, 0, 0.0, NULL)

  datatype Block = Node(cell: Cell) | Chars(bytes: seq<Byte>)

  type Store = map<Ref, Block>

  // ----- Ownership -----

  datatype Str = NoStr | Str(at: Ref, bytes: seq<Byte>)

  datatype Tree = Tree(at: Ref, kind: Kind, isRef: bool, valueint: int, number: real, text: Str, name: Str, kids: seq<Tree>)

  function TextOf(s: Str): MaybeText { if s.NoStr? then NoText else Text(s.bytes) }

  function StrBlocks(s: Str): set<Ref> { if s.NoStr? then {} else {s.at} }

  function Blocks(t: Tree): set<Ref>
    decreases t
  {
    {t.at} + StrBlocks(t.text) + StrBlocks(t.name) + BlocksAll(t.kids)
  }

  function BlocksAll(ts: seq<Tree>): set<Ref>
    decreases ts
  {
    if ts == [] then {} else Blocks(ts[0]) + BlocksAll(ts[1..])
  }

  function Head(ts: seq<Tree>, end: Ref): Ref { if ts == [] then end else ts[0].at }

  function Last(ts: seq<Tree>, prev: Ref): Ref { if ts == [] then prev else ts[|ts| - 1].at }

  predicate HoldsStr(m: Store, r: Ref, s: Str) {
    if s.NoStr? then r == NULL
    else r == s.at != NULL && r in m && m[r] == Chars(s.bytes) && NulFree(s.bytes)
  }

  predicate NodeAt(m: Store, r: Ref) { r != NULL && r in m && m[r].Node? }

  /** The parts of one item share no block. */
  predicate Apart(t: Tree) {
    && t.at !in StrBlocks(t.text) + StrBlocks(t.name) + BlocksAll(t.kids)
    && StrBlocks(t.text) !! StrBlocks(t.name) + BlocksAll(t.kids)
    && StrBlocks(t.name) !! BlocksAll(t.kids)
  }

  /** The fields of the item itself. A reference item owns neither its children nor its string. */
  predicate HoldsItem(m: Store, t: Tree) {
    && NodeAt(m, t.at)
    && var c := m[t.at].cell;
    && c.kind == t.kind && c.isRef == t.isRef && c.valueint == t.valueint && c.valuedouble == t.number
    && HoldsStr(m, c.name, t.name)
    && (if t.isRef then t.text == NoStr && t.kids == []
        else HoldsStr(m, c.valuestring, t.text) && c.child == Head(t.kids, NULL))
    && Apart(t)
  }

  predicate Owns(m: Store, t: Tree)
    decreases t
  {
    HoldsItem(m, t) && Chain(m, t.kids, NULL, NULL)
  }

  /** A stretch of siblings, doubly linked: `prev` stands before its first node and `end` behind its last. */
  predicate Chain(m: Store, ts: seq<Tree>, prev: Ref, end: Ref)
    decreases ts
  {
    ts == []
    || (&& Owns(m, ts[0])
        && m[ts[0].at].cell.prev == prev
        && m[ts[0].at].cell.next == Head(ts[1..], end)
        && Blocks(ts[0]) !! BlocksAll(ts[1..])
        && Chain(m, ts[1..], ts[0].at, end))
  }

  /** What is on the heap at `s` is the same in both. */
  predicate Same(m: Store, m': Store, s: set<Ref>) {
    forall r | r in s && r in m :: r in m' && m'[r] == m[r]
  }

  lemma {:induction false} OwnsFrame(m: Store, m': Store, t: Tree)
    requires Owns(m, t) && Same(m, m', Blocks(t))
    ensures Owns(m', t)
    decreases t
  {
    ChainFrame(m, m', t.kids, NULL, NULL);
  }

  lemma {:induction false} ChainFrame(m: Store, m': Store, ts: seq<Tree>, prev: Ref, end: Ref)
    requires Chain(m, ts, prev, end) && Same(m, m', BlocksAll(ts))
    ensures Chain(m', ts, prev, end)
    decreases ts
  {
    if ts != [] {
      OwnsFrame(m, m', ts[0]);
      ChainFrame(m, m', ts[1..], ts[0].at, end);
    }
  }

  lemma {:induction false} OwnedLive(m: Store, t: Tree)
    requires Owns(m, t)
    ensures Blocks(t) <= m.Keys && NULL !in Blocks(t) && NodeAt(m, t.at)
    decreases t
  {
    ChainLive(m, t.kids, NULL, NULL);
  }

  lemma {:induction false} ChainLive(m: Store, ts: seq<Tree>, prev: Ref, end: Ref)
    requires Chain(m, ts, prev, end)
    ensures BlocksAll(ts) <= m.Keys && NULL !in BlocksAll(ts)
    decreases ts
  {
    if ts != [] {
      OwnedLive(m, ts[0]);
      ChainLive(m, ts[1..], ts[0].at, end);
    }
  }

  lemma {:induction false} ChainFirst(m: Store, ts: seq<Tree>, prev: Ref)
    requires Chain(m, ts, prev, NULL) && Head(ts, NULL) != NULL
    ensures ts != [] && ts[0].at == Head(ts, NULL) && Owns(m, ts[0]) && NodeAt(m, ts[0].at)
    ensures m[ts[0].at].cell.next == Head(ts[1..], NULL) && Chain(m, ts[1..], ts[0].at, NULL)
    ensures BlocksAll(ts) == Blocks(ts[0]) + BlocksAll(ts[1..]) && Blocks(ts[0]) !! BlocksAll(ts[1..])
    ensures forall m': Store | m' == m - Blocks(ts[0]) :: Same(m, m', BlocksAll(ts[1..]))
  {
    ChainLive(m, ts[1..], ts[0].at, NULL);
  }

  lemma {:induction false} ChainEnds(m: Store, ts: seq<Tree>, prev: Ref)
    requires Chain(m, ts, prev, NULL) && Head(ts, NULL) == NULL
    ensures ts == [] && BlocksAll(ts) == {}
  {
  }

  /** How the parts of an item lie in its blocks. */
  lemma {:induction false} ItemBlocks(m: Store, t: Tree)
    requires Owns(m, t)
    ensures NodeAt(m, t.at) && t.at in Blocks(t) && BlocksAll(t.kids) <= Blocks(t) && t.at !in BlocksAll(t.kids)
    ensures StrBlocks(t.text) + StrBlocks(t.name) <= Blocks(t) - {t.at} - BlocksAll(t.kids)
    ensures Blocks(t) <= m.Keys && NULL !in Blocks(t) && Apart(t)
    ensures !t.isRef ==> m[t.at].cell.child == Head(t.kids, NULL) && Chain(m, t.kids, NULL, NULL)
  {
    OwnedLive(m, t);
  }

  lemma {:induction false} BlocksAppend(ts: seq<Tree>, us: seq<Tree>)
    ensures BlocksAll(ts + us) == BlocksAll(ts) + BlocksAll(us)
    decreases ts
  {
    if ts == [] {
      assert ts + us == us;
    } else {
      assert (ts + us)[1..] == ts[1..] + us;
      BlocksAppend(ts[1..], us);
    }
  }

  /** A chain can be cut anywhere. */
  lemma {:induction false} ChainSplit(m: Store, ts: seq<Tree>, us: seq<Tree>, prev: Ref, end: Ref)
    requires Chain(m, ts + us, prev, end)
    ensures Chain(m, ts, prev, Head(us, end)) && Chain(m, us, Last(ts, prev), end)
    ensures BlocksAll(ts) !! BlocksAll(us)
    decreases ts
  {
    if ts == [] {
      assert ts + us == us;
    } else {
      assert (ts + us)[1..] == ts[1..] + us;
      BlocksAppend(ts[1..], us);
      ChainSplit(m, ts[1..], us, ts[0].at, end);
    }
  }

  /** Two chains that point at each other are one. */
  lemma {:induction false} ChainJoin(m: Store, ts: seq<Tree>, us: seq<Tree>, prev: Ref, end: Ref)
    requires Chain(m, ts, prev, Head(us, end)) && Chain(m, us, Last(ts, prev), end)
    requires BlocksAll(ts) !! BlocksAll(us)
    ensures Chain(m, ts + us, prev, end)
    decreases ts
  {
    if ts == [] {
      assert ts + us == us;
    } else {
      assert (ts + us)[1..] == ts[1..] + us;
      BlocksAppend(ts[1..], us);
      ChainJoin(m, ts[1..], us, ts[0].at, end);
    }
  }

  function SetNext(m: Store, r: Ref, next: Ref): Store
    requires NodeAt(m, r)
  {
    m[r := Node(m[r].cell.(next := next))]
  }

  function SetPrev(m: Store, r: Ref, prev: Ref): Store
    requires NodeAt(m, r)
  {
    m[r := Node(m[r].cell.(prev := prev))]
  }

  /** The links of an item are not part of what it owns. */
  lemma {:induction false} OwnsRelinked(m: Store, m': Store, t: Tree, next: Ref, prev: Ref)
    requires Owns(m, t) && Same(m, m', Blocks(t) - {t.at})
    requires t.at in m' && m'[t.at] == Node(m[t.at].cell.(next := next, prev := prev))
    ensures Owns(m', t)
  {
    ChainFrame(m, m', t.kids, NULL, NULL);
  }

  /** Redirecting the `next` field of the last node moves the end of the chain. */
  lemma {:induction false} ChainNewEnd(m: Store, ts: seq<Tree>, prev: Ref, end: Ref, end': Ref)
    requires Chain(m, ts, prev, end) && ts != []
    ensures var r := Last(ts, prev);
            && r in BlocksAll(ts) && NodeAt(m, r) && m[r].cell.next == end
            && Chain(SetNext(m, r, end'), ts, prev, end')
    decreases ts
  {
    var r := Last(ts, prev);
    if |ts| == 1 {
      var m' := SetNext(m, r, end');
      OwnsRelinked(m, m', ts[0], end', m[r].cell.prev);
    } else {
      ChainNewEnd(m, ts[1..], ts[0].at, end, end');
      var m' := SetNext(m, r, end');
      OwnsFrame(m, m', ts[0]);
    }
  }

  /** Redirecting the `prev` field of the first node moves the start of the chain. */
  lemma {:induction false} ChainNewStart(m: Store, ts: seq<Tree>, prev: Ref, end: Ref, prev': Ref)
    requires Chain(m, ts, prev, end) && ts != []
    ensures var r := Head(ts, end);
            && r in BlocksAll(ts) && NodeAt(m, r) && m[r].cell.prev == prev
            && Chain(SetPrev(m, r, prev'), ts, prev', end)
  {
    var r := ts[0].at;
    var m' := SetPrev(m, r, prev');
    OwnsRelinked(m, m', ts[0], m[r].cell.next, prev');
    ChainFrame(m, m', ts[1..], r, end);
  }

  lemma {:induction false} BlocksOne(u: Tree)
    ensures BlocksAll([u]) == Blocks(u)
  {
  }

  lemma {:induction false} LastIsBlock(ts: seq<Tree>)
    ensures ts != [] ==> Last(ts, NULL) in BlocksAll(ts)
    decreases ts
  {
    if |ts| > 1 {
      LastIsBlock(ts[1..]);
    }
  }

  /** The first child is hung into an item. */
  lemma {:induction false} FirstKid(m: Store, t: Tree, u: Tree)
    requires Owns(m, t) && !t.isRef && t.kids == [] && Owns(m, u) && Blocks(t) !! Blocks(u)
    requires m[u.at].cell.next == NULL == m[u.at].cell.prev
    ensures var m' := m[t.at := Node(m[t.at].cell.(child := u.at))];
            Owns(m', t.(kids := [u])) && Blocks(t.(kids := [u])) == Blocks(t) + Blocks(u)
  {
    var m' := m[t.at := Node(m[t.at].cell.(child := u.at))];
    var t' := t.(kids := [u]);
    OwnsFrame(m, m', u);
    BlocksOne(u);
    assert t'.kids == [u] && Head(t'.kids, NULL) == u.at;
    assert Chain(m', [u], NULL, NULL);
    assert Apart(t');
  }

  /** One more child is linked behind the last one. */
  lemma {:induction false} NextKid(m: Store, t: Tree, u: Tree)
    requires Owns(m, t) && !t.isRef && t.kids != [] && Owns(m, u) && Blocks(t) !! Blocks(u)
    requires m[u.at].cell.next == NULL && m[u.at].cell.prev == Last(t.kids, NULL)
    ensures var r := Last(t.kids, NULL);
            && NodeAt(m, r) && r in Blocks(t) && r != t.at
            && Owns(SetNext(m, r, u.at), t.(kids := t.kids + [u]))
            && Blocks(t.(kids := t.kids + [u])) == Blocks(t) + Blocks(u)
  {
    var r, t' := Last(t.kids, NULL), t.(kids := t.kids + [u]);
    ChainNewEnd(m, t.kids, NULL, NULL, u.at);
    var m' := SetNext(m, r, u.at);
    OwnsFrame(m, m', u);
    BlocksOne(u);
    assert Chain(m', [u], r, NULL);
    BlocksAppend(t.kids, [u]);
    ChainJoin(m', t.kids, [u], NULL, NULL);
    assert Head(t.kids + [u], NULL) == Head(t.kids, NULL);
    assert Apart(t');
  }

  // ----- malloc, free and cJSON_Delete -----

  class Heap {
    var store: Store
    var top: Ref        // every address below it has been handed out
    var refusals: nat   // how often malloc has returned NULL

    ghost predicate Valid()
      reads this
    {
      NULL !in store && NULL < top && forall r | r in store :: r < top
    }

    constructor ()
      ensures Valid() && store == map[] && refusals == 0
    {
      store, top, refusals := map[], 1, 0;
    }

    /** malloc may return NULL at any call; otherwise the block is a new one. */
    method Malloc(b: Block) returns (r: Ref)
      requires Valid()
      modifies this
      ensures Valid() && old(top) <= top && old(refusals) <= refusals
      ensures r == NULL ==> refusals > old(refusals) && store == old(store)
      ensures r != NULL ==> refusals == old(refusals) && old(top) <= r && store == old(store)[r := b]
    {
      if * {
        refusals := refusals + 1;
        r := NULL;
      } else {
        r := top;
        top := top + 1;
        store := store[r := b];
      }
    }

    /** free takes a live block, so nothing is freed twice. */
    method Free(r: Ref)
      requires Valid() && r in store
      modifies this
      ensures Valid() && store == old(store) - {r} && top == old(top) && refusals == old(refusals)
    {
      store := store - {r};
    }

    method NewItem() returns (r: Ref)
      requires Valid()
      modifies this
      ensures Valid() && old(top) <= top && old(refusals) <= refusals
      ensures r == NULL ==> refusals > old(refusals) && store == old(store)
      ensures r != NULL ==> refusals == old(refusals) && old(top) <= r && store == old(store)[r := Node(ZeroCell)]
    {
      r := Malloc(Node(ZeroCell));
    }

    /** cJSON_strdup */
    method Strdup(t: seq<Byte>) returns (r: Ref)
      requires Valid()
      modifies this
      ensures Valid() && old(top) <= top && old(refusals) <= refusals
      ensures r == NULL ==> refusals > old(refusals) && store == old(store)
      ensures r != NULL ==> refusals == old(refusals) && old(top) <= r && store == old(store)[r := Chars(t)]
    {
      r := Malloc(Chars(t));
    }

    /** cJSON_Delete frees the blocks the chain owns, each once, and no others. */
    method Delete(c: Ref, ghost ts: seq<Tree>, ghost prev: Ref)
      requires Valid() && c == Head(ts, NULL) && Chain(store, ts, prev, NULL)
      modifies this
      ensures Valid() && store == old(store) - BlocksAll(ts) && top == old(top) && refusals == old(refusals)
      decreases BlocksAll(ts), 1
    {
      var p := c;
      ghost var rest, before := ts, prev;
      ghost var gone: set<Ref> := {};
      hide Chain, Owns, BlocksAll, Blocks, Head, Same;
      while p != NULL
        invariant Valid() && top == old(top) && refusals == old(refusals)
        invariant p == Head(rest, NULL) && Chain(store, rest, before, NULL)
        invariant gone + BlocksAll(rest) == BlocksAll(ts) && store == old(store) - gone
        decreases |rest|
      {
        ChainFirst(store, rest, before);
        var next := store[p].cell.next;
        ghost var m := store;
        DeleteItem(p, rest[0]);
        ChainFrame(m, store, rest[1..], p, NULL);
        gone, before, rest := gone + Blocks(rest[0]), p, rest[1..];
        p := next;
      }
      ChainEnds(store, rest, before);
    }

    /** One turn of the loop in cJSON_Delete. */
    method DeleteItem(p: Ref, ghost t: Tree)
      requires Valid() && p == t.at && Owns(store, t)
      modifies this
      ensures Valid() && store == old(store) - Blocks(t) && top == old(top) && refusals == old(refusals)
      decreases Blocks(t), 0
    {
      ItemFields(store, t);
      hide Owns, Chain, HoldsItem, HoldsStr, Blocks, BlocksAll, Head, StrBlocks;
      var cell := store[p].cell;
      ghost var text, name := StrBlocks(t.text), StrBlocks(t.name);
      FourRemoved(store, BlocksAll(t.kids), text, name, {p});
      if !cell.isRef && cell.child != NULL {
        Delete(cell.child, t.kids, NULL);
      }
      assert store == old(store) - BlocksAll(t.kids);
      if !cell.isRef && cell.valuestring != NULL {
        Free(cell.valuestring);
      }
      assert store == old(store) - BlocksAll(t.kids) - text;
      if cell.name != NULL {
        Free(cell.name);
      }
      assert store == old(store) - BlocksAll(t.kids) - text - name;
      Free(p);
    }
  }

  function AddressOf(s: Str): Ref { if s.NoStr? then NULL else s.at }

  lemma FourRemoved(m: Store, kids: set<Ref>, text: set<Ref>, name: set<Ref>, self: set<Ref>)
    ensures m - kids - text - name - self == m - (self + text + name + kids)
    ensures m - {} == m
  {
  }

  /** What the fields of an item point at, and how its blocks lie. */
  lemma {:induction false} ItemFields(m: Store, t: Tree)
    requires Owns(m, t)
    ensures NodeAt(m, t.at)
    ensures var c := m[t.at].cell;
            && c.name == AddressOf(t.name) && Chain(m, t.kids, NULL, NULL)
            && (if c.isRef then StrBlocks(t.text) == {} == BlocksAll(t.kids)
                else
                  && c.child == Head(t.kids, NULL) && c.valuestring == AddressOf(t.text)
                  && (c.child == NULL ==> BlocksAll(t.kids) == {}))
            && StrBlocks(t.text) == (if AddressOf(t.text) == NULL then {} else {AddressOf(t.text)})
            && StrBlocks(t.name) == (if AddressOf(t.name) == NULL then {} else {AddressOf(t.name)})
    ensures Blocks(t) == {t.at} + StrBlocks(t.text) + StrBlocks(t.name) + BlocksAll(t.kids) && Apart(t)
    ensures Blocks(t) <= m.Keys
  {
    OwnedLive(m, t);
    if Head(t.kids, NULL) == NULL {
      ChainEnds(m, t.kids, NULL);
    }
  }
}
