/**
 Editing the child list of an array or object: add, detach, replace, delete and look up, relinking nodes in place.

 Each edit is given first as a function on the heap, the stores the C statements make. Lemmas then say what tree the
 item owns afterwards.
 */
module JsonLists {
  import opened Bytes
  import opened JsonStrings
  import opened JsonText
  import opened JsonHeap

  /** An item that is in no list. */
  ghost predicate Loose(m: Store, u: Tree) {
    Owns(m, u) && m[u.at].cell.next == NULL == m[u.at].cell.prev
  }

  /** From `m` to `m'` the item of `t` came to own `t'`, by changing only list nodes and `also`. */
  ghost predicate Relinked(m: Store, m': Store, t: Tree, t': Tree, also: set<Ref>) {
    && NodeAt(m, t.at) && Owns(m', t') && t' == t.(kids := t'.kids)
    && m'.Keys == m.Keys && Same(m, m', m.Keys - BlocksAll(t.kids) - {t.at} - also)
    && m'[t.at].cell.next == m[t.at].cell.next && m'[t.at].cell.prev == m[t.at].cell.prev
  }

  /** The node at one place of a chain, and its neighbours. */
  lemma {:induction false} ChainAt(m: Store, ts: seq<Tree>, k: nat, prev: Ref, end: Ref)
    requires Chain(m, ts, prev, end) && k < |ts|
    ensures Chain(m, ts[..k], prev, ts[k].at) && Chain(m, ts[k + 1..], ts[k].at, end) && Owns(m, ts[k])
    ensures m[ts[k].at].cell.prev == Last(ts[..k], prev) && m[ts[k].at].cell.next == Head(ts[k + 1..], end)
    ensures BlocksAll(ts[..k]) !! Blocks(ts[k]) && BlocksAll(ts[..k]) !! BlocksAll(ts[k + 1..])
    ensures Blocks(ts[k]) !! BlocksAll(ts[k + 1..])
    ensures BlocksAll(ts) == BlocksAll(ts[..k]) + Blocks(ts[k]) + BlocksAll(ts[k + 1..])
  {
    var a, b := ts[..k], ts[k + 1..];
    assert ts == a + ts[k..] && ts[k..] == [ts[k]] + b && ts[k..][1..] == b;
    BlocksAppend(a, ts[k..]);
    ChainSplit(m, a, ts[k..], prev, end);
  }

  function SetChild(m: Store, r: Ref, child: Ref): Store
    requires NodeAt(m, r)
  {
    m[r := Node(m[r].cell.(child := child))]
  }

  /** The first child is exchanged; the rest of the item stays. */
  lemma {:induction false} KidsExchanged(m: Store, m': Store, t: Tree, kids: seq<Tree>)
    requires Owns(m, t) && !t.isRef && NodeAt(m', t.at) && m'[t.at].cell == m[t.at].cell.(child := Head(kids, NULL))
    requires Same(m, m', StrBlocks(t.text) + StrBlocks(t.name)) && Chain(m', kids, NULL, NULL)
    requires BlocksAll(kids) !! {t.at} + StrBlocks(t.text) + StrBlocks(t.name)
    ensures Owns(m', t.(kids := kids))
  {
  }

  /** `c->prev = c->next = 0` */
  function Cleared(m: Store, c: Ref): Store
    requires NodeAt(m, c)
  {
    SetNext(SetPrev(m, c, NULL), c, NULL)
  }

  /** The last two stores of an edit: the first child if it was `c`, and the links of `c`. */
  lemma {:induction false} EditFinished(m: Store, m2: Store, t: Tree, c: Tree, kids: seq<Tree>, also: set<Ref>)
    requires Owns(m, t) && !t.isRef && Chain(m2, kids, NULL, NULL) && Owns(m2, c) && NodeAt(m2, c.at)
    requires m2.Keys == m.Keys && Same(m, m2, m.Keys - BlocksAll(t.kids) - also)
    requires t.at in m && Blocks(t) !! also && c.at in BlocksAll(t.kids) && Blocks(c) <= BlocksAll(t.kids)
    requires Blocks(c) !! BlocksAll(kids) && BlocksAll(kids) !! {t.at} + StrBlocks(t.text) + StrBlocks(t.name)
    requires NodeAt(m, t.at) && (m[t.at].cell.child == c.at || m[t.at].cell.child == Head(kids, NULL))
    ensures NodeAt(m2, t.at) && m2[t.at] == m[t.at]
    ensures var m3 := if m2[t.at].cell.child == c.at then SetChild(m2, t.at, Head(kids, NULL)) else m2;
            NodeAt(m3, c.at) && Relinked(m, Cleared(m3, c.at), t, t.(kids := kids), also) && Loose(Cleared(m3, c.at), c)
  {
    hide Owns, Chain, Blocks, BlocksAll, HoldsItem, HoldsStr, Apart, StrBlocks;
    ItemBlocks(m, t);
    ItemBlocks(m2, c);
    assert m2[t.at] == m[t.at];
    var m3 := ChildSet(m2, t.at, c.at, Head(kids, NULL));
    ChainFrame(m2, m3, kids, NULL, NULL);
    OwnsFrame(m2, m3, c);
    var m' := LinksCleared(m3, c.at);
    hide SetChild, Cleared, Head;
    ChainFrame(m3, m', kids, NULL, NULL);
    OwnsRelinked(m3, m', c, NULL, NULL);
    assert m'[t.at] == m3[t.at];
    KidsExchanged(m, m', t, kids);
  }

  lemma ChildSet(m: Store, r: Ref, c: Ref, head: Ref) returns (m': Store)
    requires NodeAt(m, r) && (m[r].cell.child == c || m[r].cell.child == head)
    ensures m' == if m[r].cell.child == c then SetChild(m, r, head) else m
    ensures m'.Keys == m.Keys && Same(m, m', m.Keys - {r}) && NodeAt(m', r)
    ensures m'[r].cell == m[r].cell.(child := head)
  {
    m' := if m[r].cell.child == c then SetChild(m, r, head) else m;
  }

  lemma LinksCleared(m: Store, c: Ref) returns (m': Store)
    requires NodeAt(m, c)
    ensures m' == Cleared(m, c) && m'.Keys == m.Keys && Same(m, m', m.Keys - {c})
    ensures m'[c] == Node(m[c].cell.(next := NULL, prev := NULL))
  {
    m' := Cleared(m, c);
  }

  // ----- Append -----

  function Appended(m: Store, a: Ref, last: Ref, u: Ref): Store
    requires NodeAt(m, a) && NodeAt(m, u) && (last != NULL ==> NodeAt(m, last))
  {
    if last == NULL then SetChild(m, a, u) else SetPrev(SetNext(m, last, u), u, last)
  }

  lemma {:induction false} AppendedOwned(m: Store, t: Tree, u: Tree)
    requires Owns(m, t) && !t.isRef && Loose(m, u) && Blocks(t) !! Blocks(u)
    ensures var last := Last(t.kids, NULL);
            && (last == NULL <==> t.kids == []) && (last != NULL ==> NodeAt(m, last))
            && Relinked(m, Appended(m, t.at, last, u.at), t, t.(kids := t.kids + [u]), {u.at})
  {
    hide Owns, Chain, Blocks, BlocksAll;
    var last := Last(t.kids, NULL);
    ItemBlocks(m, t);
    ItemBlocks(m, u);
    LastIsBlock(t.kids);
    if t.kids == [] {
      assert t.kids + [u] == [u];
      FirstKid(m, t, u);
    } else {
      ChainNewEnd(m, t.kids, NULL, NULL, NULL);
      var m1 := SetPrev(m, u.at, last);
      OwnsRelinked(m, m1, u, NULL, last);
      OwnsFrame(m, m1, t);
      NextKid(m1, t, u);
      assert Appended(m, t.at, last, u.at) == SetNext(m1, last, u.at);
    }
  }

  // ----- Detach -----

  /** The stores of cJSON_DetachItemFromArray once `c` is found. */
  function Detached(m: Store, a: Ref, c: Ref): Store
    requires NodeAt(m, a) && NodeAt(m, c)
    requires (m[c].cell.prev != NULL ==> NodeAt(m, m[c].cell.prev)) && (m[c].cell.next != NULL ==> NodeAt(m, m[c].cell.next))
  {
    var prev, next := m[c].cell.prev, m[c].cell.next;
    var m1 := if prev != NULL then SetNext(m, prev, next) else m;
    var m2 := if next != NULL then SetPrev(m1, next, prev) else m1;
    var m3 := if m2[a].cell.child == c then SetChild(m2, a, next) else m2;
    Cleared(m3, c)
  }

  lemma {:induction false} DetachedOwned(m: Store, t: Tree, k: nat)
    requires Owns(m, t) && !t.isRef && k < |t.kids|
    ensures var c := t.kids[k];
            && NodeAt(m, c.at)
            && (m[c.at].cell.prev != NULL ==> NodeAt(m, m[c.at].cell.prev))
            && (m[c.at].cell.next != NULL ==> NodeAt(m, m[c.at].cell.next))
            && var m' := Detached(m, t.at, c.at);
            && Relinked(m, m', t, t.(kids := t.kids[..k] + t.kids[k + 1..]), {})
            && Loose(m', c)
            && Blocks(c) !! Blocks(t.(kids := t.kids[..k] + t.kids[k + 1..]))
            && Blocks(t) == Blocks(c) + Blocks(t.(kids := t.kids[..k] + t.kids[k + 1..]))
  {
    hide Owns, Chain, Blocks, BlocksAll;
    var c, a, b := t.kids[k], t.kids[..k], t.kids[k + 1..];
    ItemBlocks(m, t);
    ChainAt(m, t.kids, k, NULL, NULL);
    ItemBlocks(m, c);
    BlocksAppend(a, b);
    var m2 := Bridged(m, a, c, b);
    HeadIsFirst(t.kids, k);
    EditFinished(m, m2, t, c, a + b, {});
    KidRemovedBlocks(t, k);
  }

  lemma {:induction false} KidRemovedBlocks(t: Tree, k: nat)
    requires k < |t.kids| && Apart(t)
    requires BlocksAll(t.kids) == BlocksAll(t.kids[..k]) + Blocks(t.kids[k]) + BlocksAll(t.kids[k + 1..])
    requires Blocks(t.kids[k]) !! BlocksAll(t.kids[..k]) + BlocksAll(t.kids[k + 1..])
    ensures Blocks(t.kids[k]) !! Blocks(t.(kids := t.kids[..k] + t.kids[k + 1..]))
    ensures Blocks(t) == Blocks(t.kids[k]) + Blocks(t.(kids := t.kids[..k] + t.kids[k + 1..]))
  {
    BlocksAppend(t.kids[..k], t.kids[k + 1..]);
  }

  /** `c` is the first child exactly when nothing stands before it. */
  lemma {:induction false} HeadIsFirst(ts: seq<Tree>, k: nat)
    requires k < |ts| && Blocks(ts[k]) !! BlocksAll(ts[..k])
    ensures ts[0].at == ts[k].at <==> k == 0
    ensures k > 0 ==> Head(ts[..k] + ts[k + 1..], NULL) == ts[0].at
    ensures k == 0 ==> Head(ts[..k] + ts[k + 1..], NULL) == Head(ts[k + 1..], NULL)
  {
    if k > 0 {
      assert ts[..k][0] == ts[0];
    } else {
      assert ts[..k] + ts[k + 1..] == ts[k + 1..];
    }
  }

  /** The neighbours of `c` are made to point at each other. */
  lemma {:induction false} Bridged(m: Store, a: seq<Tree>, c: Tree, b: seq<Tree>) returns (m2: Store)
    requires Chain(m, a, NULL, c.at) && Chain(m, b, c.at, NULL) && Owns(m, c)
    requires m[c.at].cell.prev == Last(a, NULL) && m[c.at].cell.next == Head(b, NULL)
    requires BlocksAll(a) !! Blocks(c) && BlocksAll(a) !! BlocksAll(b) && Blocks(c) !! BlocksAll(b)
    ensures var prev, next := m[c.at].cell.prev, m[c.at].cell.next;
            && (prev == NULL <==> a == []) && (next == NULL <==> b == [])
            && (prev != NULL ==> NodeAt(m, prev) && prev in BlocksAll(a))
            && (next != NULL ==> NodeAt(m, next) && next in BlocksAll(b))
            && var m1 := if prev != NULL then SetNext(m, prev, next) else m;
            && (next != NULL ==> NodeAt(m1, next))
            && m2 == (if next != NULL then SetPrev(m1, next, prev) else m1)
            && Chain(m2, a + b, NULL, NULL) && Owns(m2, c) && m2[c.at] == m[c.at]
            && m2.Keys == m.Keys && Same(m, m2, m.Keys - BlocksAll(a) - BlocksAll(b))
  {
    var prev, next := Last(a, NULL), Head(b, NULL);
    EndLive(m, a, c.at);
    HeadLive(m, b, c.at);
    OwnedLive(m, c);
    hide Chain, Owns, BlocksAll, Blocks, Last, Head;
    var m1 := EndMoved(m, a, c.at, next);
    ChainFrame(m, m1, b, c.at, NULL);
    m2 := StartMoved(m1, b, c.at, prev);
    ChainFrame(m1, m2, a, NULL, next);
    ChainJoin(m2, a, b, NULL, NULL);
    OwnsFrame(m, m2, c);
  }

  lemma {:induction false} EndLive(m: Store, a: seq<Tree>, end: Ref)
    requires Chain(m, a, NULL, end)
    ensures BlocksAll(a) <= m.Keys && NULL !in BlocksAll(a) && (Last(a, NULL) == NULL <==> a == [])
    ensures a != [] ==> Last(a, NULL) in BlocksAll(a) && NodeAt(m, Last(a, NULL))
  {
    ChainLive(m, a, NULL, end);
    LastIsBlock(a);
    if a != [] {
      ChainNewEnd(m, a, NULL, end, end);
    }
  }

  lemma {:induction false} HeadLive(m: Store, b: seq<Tree>, prev: Ref)
    requires Chain(m, b, prev, NULL)
    ensures BlocksAll(b) <= m.Keys && NULL !in BlocksAll(b) && (Head(b, NULL) == NULL <==> b == [])
    ensures b != [] ==> Head(b, NULL) in BlocksAll(b) && NodeAt(m, Head(b, NULL))
  {
    ChainLive(m, b, prev, NULL);
  }

  /** The chain `a` gets another end. */
  lemma {:induction false} EndMoved(m: Store, a: seq<Tree>, end: Ref, next: Ref) returns (m1: Store)
    requires Chain(m, a, NULL, end)
    ensures a != [] ==> NodeAt(m, Last(a, NULL))
    ensures m1 == if a != [] then SetNext(m, Last(a, NULL), next) else m
    ensures Chain(m1, a, NULL, next) && m1.Keys == m.Keys && Same(m, m1, m.Keys - BlocksAll(a))
  {
    EndLive(m, a, end);
    m1 := m;
    if a != [] {
      ChainNewEnd(m, a, NULL, end, next);
      hide Chain, BlocksAll, Last;
      m1 := SetNext(m, Last(a, NULL), next);
    }
  }

  /** The chain `b` gets another start. */
  lemma {:induction false} StartMoved(m: Store, b: seq<Tree>, start: Ref, prev: Ref) returns (m1: Store)
    requires Chain(m, b, start, NULL)
    ensures b != [] ==> NodeAt(m, Head(b, NULL))
    ensures m1 == if b != [] then SetPrev(m, Head(b, NULL), prev) else m
    ensures Chain(m1, b, prev, NULL) && m1.Keys == m.Keys && Same(m, m1, m.Keys - BlocksAll(b))
  {
    HeadLive(m, b, start);
    m1 := m;
    if b != [] {
      ChainNewStart(m, b, start, NULL, prev);
      hide Chain, BlocksAll, Head;
      m1 := SetPrev(m, Head(b, NULL), prev);
    }
  }

  // ----- Replace -----

  /** The stores of cJSON_ReplaceItemInArray once `c` is found, up to the deletion of `c`. */
  function LinkedIn(m: Store, c: Ref, u: Ref): Store
    requires NodeAt(m, c) && NodeAt(m, u) && c != u && (m[c].cell.next != NULL ==> NodeAt(m, m[c].cell.next))
  {
    var next := m[c].cell.next;
    var m1 := SetPrev(SetNext(m, u, next), u, m[c].cell.prev);
    if next != NULL then SetPrev(m1, next, u) else m1
  }

  function Replaced(m: Store, a: Ref, c: Ref, u: Ref): Store
    requires NodeAt(m, a) && NodeAt(m, c) && NodeAt(m, u) && c != u
    requires (m[c].cell.prev != NULL ==> NodeAt(m, m[c].cell.prev)) && (m[c].cell.next != NULL ==> NodeAt(m, m[c].cell.next))
  {
    var m2, prev := LinkedIn(m, c, u), m[c].cell.prev;
    var m3 := if m2[a].cell.child == c then SetChild(m2, a, u) else if prev != NULL then SetNext(m2, prev, u) else m2;
    Cleared(m3, c)
  }

  /** `u`, which already points at the neighbours of `c`, takes its place between them. */
  lemma {:induction false} Substituted(m: Store, a: seq<Tree>, c: Tree, u: Tree, b: seq<Tree>) returns (m3: Store)
    requires Chain(m, a, NULL, c.at) && Chain(m, b, c.at, NULL) && Owns(m, c) && Owns(m, u)
    requires m[c.at].cell.prev == Last(a, NULL) == m[u.at].cell.prev
    requires m[c.at].cell.next == Head(b, NULL) == m[u.at].cell.next
    requires BlocksAll(a) !! Blocks(c) && BlocksAll(a) !! BlocksAll(b) && Blocks(c) !! BlocksAll(b)
    requires Blocks(u) !! BlocksAll(a) + Blocks(c) + BlocksAll(b)
    ensures var prev, next := m[c.at].cell.prev, m[c.at].cell.next;
            && (prev == NULL <==> a == []) && (next == NULL <==> b == [])
            && (prev != NULL ==> NodeAt(m, prev) && prev in BlocksAll(a))
            && (next != NULL ==> NodeAt(m, next) && next in BlocksAll(b))
            && var m2 := if next != NULL then SetPrev(m, next, u.at) else m;
            && (prev != NULL ==> NodeAt(m2, prev))
            && m3 == (if prev != NULL then SetNext(m2, prev, u.at) else m2)
    ensures Chain(m3, a + [u] + b, NULL, NULL) && Owns(m3, c) && m3[c.at] == m[c.at]
    ensures m3.Keys == m.Keys && Same(m, m3, m.Keys - BlocksAll(a) - BlocksAll(b))
  {
    hide Owns, Chain, Blocks;
    var prev, next := Last(a, NULL), Head(b, NULL);
    ChainLive(m, a, NULL, c.at);
    ChainLive(m, b, c.at, NULL);
    var m2 := m;
    if b != [] {
      ChainNewStart(m, b, c.at, NULL, u.at);
      m2 := SetPrev(m, next, u.at);
    } else {
      ChainNone(m2, u.at, NULL);
    }
    ChainFrame(m, m2, a, NULL, c.at);
    m3 := m2;
    if a != [] {
      ChainNewEnd(m2, a, NULL, c.at, u.at);
      m3 := SetNext(m2, prev, u.at);
    } else {
      ChainNone(m3, NULL, u.at);
    }
    ChainFrame(m2, m3, b, u.at, NULL);
    SubstitutedJoined(m, m3, a, c, u, b);
  }

  lemma {:induction false} ChainNone(m: Store, prev: Ref, end: Ref)
    ensures Chain(m, [], prev, end)
  {
  }

  lemma {:induction false} SubstitutedJoined(m: Store, m3: Store, a: seq<Tree>, c: Tree, u: Tree, b: seq<Tree>)
    requires Owns(m, c) && Owns(m, u) && m[u.at].cell.prev == Last(a, NULL) && m[u.at].cell.next == Head(b, NULL)
    requires BlocksAll(a) !! Blocks(c) && BlocksAll(a) !! BlocksAll(b) && Blocks(c) !! BlocksAll(b)
    requires Blocks(u) !! BlocksAll(a) + Blocks(c) + BlocksAll(b)
    requires Chain(m3, a, NULL, u.at) && Chain(m3, b, u.at, NULL)
    requires Same(m, m3, m.Keys - BlocksAll(a) - BlocksAll(b))
    ensures Chain(m3, a + [u] + b, NULL, NULL) && Owns(m3, c) && c.at in m && c.at in m3 && m3[c.at] == m[c.at]
  {
    hide Owns, Chain, Blocks;
    ItemBlocks(m, u);
    ItemBlocks(m, c);
    OwnsFrame(m, m3, u);
    OwnsFrame(m, m3, c);
    BlocksOne(u);
    ChainOne(m3, u, Last(a, NULL), Head(b, NULL));
    ChainJoin(m3, a, [u], NULL, Head(b, NULL));
    BlocksAppend(a, [u]);
    ChainJoin(m3, a + [u], b, NULL, NULL);
  }

  lemma {:induction false} ChainOne(m: Store, u: Tree, prev: Ref, end: Ref)
    requires Owns(m, u) && m[u.at].cell.prev == prev && m[u.at].cell.next == end
    ensures Chain(m, [u], prev, end)
  {
  }

  function WithKid(t: Tree, k: nat, u: Tree): Tree
    requires k < |t.kids|
  {
    t.(kids := t.kids[..k] + [u] + t.kids[k + 1..])
  }

  lemma {:induction false} ReplacedOwned(m: Store, t: Tree, k: nat, u: Tree)
    requires Owns(m, t) && !t.isRef && k < |t.kids| && Owns(m, u) && Blocks(t) !! Blocks(u)
    ensures var c := t.kids[k];
            && NodeAt(m, c.at) && NodeAt(m, u.at) && c.at != u.at
            && (m[c.at].cell.prev != NULL ==> NodeAt(m, m[c.at].cell.prev))
            && (m[c.at].cell.next != NULL ==> NodeAt(m, m[c.at].cell.next))
            && var m' := Replaced(m, t.at, c.at, u.at);
            && Relinked(m, m', t, WithKid(t, k, u), {u.at})
            && Loose(m', c)
            && Blocks(c) !! Blocks(WithKid(t, k, u))
            && Blocks(t) + Blocks(u) == Blocks(c) + Blocks(WithKid(t, k, u))
  {
    hide Owns, Chain, Blocks, BlocksAll, Relinked, Loose;
    var c := t.kids[k];
    ItemBlocks(m, t);
    ItemBlocks(m, u);
    ChainAt(m, t.kids, k, NULL, NULL);
    ItemBlocks(m, c);
    var m1 := SetPrev(SetNext(m, u.at, m[c.at].cell.next), u.at, m[c.at].cell.prev);
    OwnsFrame(m, m1, t);
    OwnsRelinked(m, m1, u, m[c.at].cell.next, m[c.at].cell.prev);
    LinkedReplaced(m1, t, k, u);
    RelinkedFrom(m, m1, Replaced(m, t.at, c.at, u.at), t, WithKid(t, k, u), u.at);
  }

  lemma {:induction false} RelinkedFrom(m: Store, m1: Store, m': Store, t: Tree, t': Tree, u: Ref)
    requires Relinked(m1, m', t, t', {u}) && u != t.at && m.Keys == m1.Keys && Same(m, m1, m.Keys - {u})
    ensures Relinked(m, m', t, t', {u})
  {
  }

  /** The same, once `u` points at the neighbours. */
  lemma {:induction false} LinkedReplaced(m: Store, t: Tree, k: nat, u: Tree)
    requires Owns(m, t) && !t.isRef && k < |t.kids| && Owns(m, u) && Blocks(t) !! Blocks(u)
    requires var c := t.kids[k];
             && NodeAt(m, c.at) && m[u.at].cell.prev == m[c.at].cell.prev && m[u.at].cell.next == m[c.at].cell.next
    ensures var c := t.kids[k];
            var prev, next := m[c.at].cell.prev, m[c.at].cell.next;
            && (prev != NULL ==> NodeAt(m, prev)) && (next != NULL ==> NodeAt(m, next))
            && var m2 := if next != NULL then SetPrev(m, next, u.at) else m;
            && NodeAt(m2, t.at)
            && var m3 := if m2[t.at].cell.child == c.at then SetChild(m2, t.at, u.at)
                         else if prev != NULL then SetNext(m2, prev, u.at) else m2;
            && NodeAt(m3, c.at)
            && Relinked(m, Cleared(m3, c.at), t, WithKid(t, k, u), {u.at})
            && Loose(Cleared(m3, c.at), c)
            && Blocks(c) !! Blocks(WithKid(t, k, u))
            && Blocks(t) + Blocks(u) == Blocks(c) + Blocks(WithKid(t, k, u))
  {
    hide Owns, Chain, Blocks, BlocksAll, Apart, HoldsItem, HoldsStr, Relinked, Loose, Cleared;
    var c, a, b := t.kids[k], t.kids[..k], t.kids[k + 1..];
    ReplacementApart(m, t, k, u);
    ChainAt(m, t.kids, k, NULL, NULL);
    var m3 := Substituted(m, a, c, u, b);
    EditFinished(m, m3, t, c, a + [u] + b, {u.at});
    KidReplacedBlocks(t, k, u);
  }

  /** Where the blocks of the children lie, with `u` in the place of one of them. */
  lemma {:induction false} ReplacementApart(m: Store, t: Tree, k: nat, u: Tree)
    requires Owns(m, t) && !t.isRef && k < |t.kids| && Owns(m, u) && Blocks(t) !! Blocks(u)
    ensures var c, a, b := t.kids[k], t.kids[..k], t.kids[k + 1..];
            && NodeAt(m, t.at) && Chain(m, t.kids, NULL, NULL) && Apart(t) && t.at in Blocks(t) && u.at in Blocks(u)
            && c.at in Blocks(c) && Blocks(c) <= BlocksAll(t.kids) && NodeAt(m, c.at) && NodeAt(m, u.at)
            && BlocksAll(t.kids) == BlocksAll(a) + Blocks(c) + BlocksAll(b)
            && BlocksAll(a + [u] + b) == BlocksAll(a) + Blocks(u) + BlocksAll(b)
            && Blocks(c) !! BlocksAll(a + [u] + b)
            && BlocksAll(a + [u] + b) !! {t.at} + StrBlocks(t.text) + StrBlocks(t.name)
            && Blocks(u) !! BlocksAll(a) + Blocks(c) + BlocksAll(b)
            && m[t.at].cell.child == Head(t.kids, NULL) && t.at !in BlocksAll(t.kids)
            && (t.kids[0].at == c.at <==> k == 0)
            && Head(a + [u] + b, NULL) == (if k == 0 then u.at else Head(t.kids, NULL))
            && {t.at} + BlocksAll(t.kids) <= m.Keys
  {
    hide Owns, Chain, Blocks, BlocksAll;
    var c, a, b := t.kids[k], t.kids[..k], t.kids[k + 1..];
    ItemBlocks(m, t);
    ItemBlocks(m, u);
    ChainAt(m, t.kids, k, NULL, NULL);
    ItemBlocks(m, c);
    BlocksOne(u);
    BlocksAppend(a, [u]);
    BlocksAppend(a + [u], b);
    HeadIsFirst(t.kids, k);
  }

  lemma {:induction false} KidReplacedBlocks(t: Tree, k: nat, u: Tree)
    requires k < |t.kids| && Apart(t) && Blocks(t) !! Blocks(u)
    requires BlocksAll(t.kids) == BlocksAll(t.kids[..k]) + Blocks(t.kids[k]) + BlocksAll(t.kids[k + 1..])
    requires Blocks(t.kids[k]) !! BlocksAll(t.kids[..k]) + BlocksAll(t.kids[k + 1..])
    ensures Blocks(t.kids[k]) !! Blocks(WithKid(t, k, u))
    ensures Blocks(t) + Blocks(u) == Blocks(t.kids[k]) + Blocks(WithKid(t, k, u))
  {
    BlocksOne(u);
    BlocksAppend(t.kids[..k], [u]);
    BlocksAppend(t.kids[..k] + [u], t.kids[k + 1..]);
  }

  // ----- Looking up -----

  /** The place an index means: the loops step while it is positive, so a negative index means the first child. */
  function PlaceOf(which: int): nat { if which > 0 then which else 0 }

  method GetArraySize(h: Heap, list: Ref, ghost t: Tree) returns (n: int)
    requires Owns(h.store, t) && t.at == list && !t.isRef
    ensures n == |t.kids|
  {
    var c := h.store[list].cell.child;
    n := 0;
    while c != NULL
      invariant 0 <= n <= |t.kids| && c == Head(t.kids[n..], NULL)
      invariant Chain(h.store, t.kids[n..], Last(t.kids[..n], NULL), NULL)
      decreases |t.kids| - n
    {
      WalkOn(h.store, t.kids, n);
      n, c := n + 1, h.store[c].cell.next;
    }
  }

  /** One step along a chain. */
  lemma {:induction false} WalkOn(m: Store, ts: seq<Tree>, k: nat)
    requires Chain(m, ts, NULL, NULL) && k < |ts|
    ensures NodeAt(m, ts[k].at) && m[ts[k].at].cell.next == Head(ts[k + 1..], NULL)
    ensures Owns(m, ts[k]) && Chain(m, ts[k + 1..], Last(ts[..k + 1], NULL), NULL)
  {
    ChainAt(m, ts, k, NULL, NULL);
  }

  method GetArrayItem(h: Heap, list: Ref, which: int, ghost t: Tree) returns (c: Ref)
    requires Owns(h.store, t) && t.at == list && !t.isRef
    ensures c == Head(t.kids[if PlaceOf(which) < |t.kids| then PlaceOf(which) else |t.kids|..], NULL)
  {
    c := h.store[list].cell.child;
    var left := which;
    ghost var k := 0;
    assert t.kids[..] == t.kids;
    while c != NULL && left > 0
      invariant 0 <= k <= |t.kids| && c == Head(t.kids[k..], NULL)
      invariant if which > 0 then k + left == which && left >= 0 else k == 0 && left == which
      decreases |t.kids| - k
    {
      WalkOn(h.store, t.kids, k);
      k, left, c := k + 1, left - 1, h.store[c].cell.next;
    }
    KidsLive(h.store, t);
  }

  lemma {:induction false} KidsLive(m: Store, t: Tree)
    requires Owns(m, t)
    ensures forall k | 0 <= k < |t.kids| :: t.kids[k].at != NULL
  {
    forall k | 0 <= k < |t.kids|
      ensures t.kids[k].at != NULL
    {
      ChainAt(m, t.kids, k, NULL, NULL);
    }
  }

  /** tolower in the C locale */
  function Lower(b: Byte): Byte { if 0x41 <= b <= 0x5A then b + 0x20 else b }

  /** Bytes match exactly when they are equal, or the two cases of one ASCII letter. */
  lemma LowerMatches(b: Byte, c: Byte)
    ensures Lower(b) == Lower(c) <==> b == c || (0x41 <= b <= 0x5A && c == b + 0x20) || (0x41 <= c <= 0x5A && b == c + 0x20)
  {
    if 0x41 <= b <= 0x5A {
      assert Lower(b) == b + 0x20;
    }
    if 0x41 <= c <= 0x5A {
      assert Lower(c) == c + 0x20;
    }
  }

  /** Equal up to the case of ASCII letters; NULL equals only NULL. */
  predicate SameName(a: MaybeText, b: MaybeText) {
    match (a, b)
    case (NoText, NoText) => true
    case (Text(x), Text(y)) => |x| == |y| && forall k | 0 <= k < |x| :: Lower(x[k]) == Lower(y[k])
    case _ => false
  }

  /** cJSON_strcasecmp, whose result is only used as zero or not. */
  method NamesDiffer(a: MaybeText, b: MaybeText) returns (differ: bool)
    requires (a.Text? ==> NulFree(a.bytes)) && (b.Text? ==> NulFree(b.bytes))
    ensures differ <==> !SameName(a, b)
  {
    if a.NoText? {
      return !b.NoText?;
    }
    if b.NoText? {
      return true;
    }
    var k := 0;
    while Lower(At(a.bytes, k)) == Lower(At(b.bytes, k))
      invariant 0 <= k <= |a.bytes| && k <= |b.bytes|
      invariant forall i | 0 <= i < k :: Lower(a.bytes[i]) == Lower(b.bytes[i])
      decreases |a.bytes| - k
    {
      if At(a.bytes, k) == NUL {
        return false;
      }
      k := k + 1;
    }
    return true;
  }

  /** The first child with the name, or the number of children. */
  function FirstNamed(ts: seq<Tree>, name: MaybeText): (k: nat)
    ensures k <= |ts|
    ensures k < |ts| ==> SameName(TextOf(ts[k].name), name)
    ensures forall i | 0 <= i < k :: !SameName(TextOf(ts[i].name), name)
    decreases ts
  {
    if ts == [] || SameName(TextOf(ts[0].name), name) then 0 else 1 + FirstNamed(ts[1..], name)
  }

  /** What the `string` field of a node points at. */
  function NameAt(m: Store, r: Ref): MaybeText {
    if r in m && m[r].Node? && m[r].cell.name in m && m[m[r].cell.name].Chars? then Text(m[m[r].cell.name].bytes)
    else NoText
  }

  /** cJSON_GetObjectItem, and the same loop with a counter in the other functions on names. */
  method GetObjectItem(h: Heap, list: Ref, name: MaybeText, ghost t: Tree) returns (c: Ref, i: int)
    requires h.Valid() && Owns(h.store, t) && t.at == list && !t.isRef && (name.Text? ==> NulFree(name.bytes))
    ensures i == FirstNamed(t.kids, name) && c == Head(t.kids[i..], NULL)
  {
    c, i := h.store[list].cell.child, 0;
    assert t.kids[..] == t.kids == t.kids[0..];
    while c != NULL
      invariant 0 <= i <= |t.kids| && c == Head(t.kids[i..], NULL)
      invariant FirstNamed(t.kids, name) == i + FirstNamed(t.kids[i..], name)
      decreases |t.kids| - i
    {
      WalkOn(h.store, t.kids, i);
      assert NameAt(h.store, c) == TextOf(t.kids[i].name) && t.kids[i..][1..] == t.kids[i + 1..];
      var differ := NamesDiffer(NameAt(h.store, c), name);
      if !differ {
        return;
      }
      i, c := i + 1, h.store[c].cell.next;
    }
    KidsLive(h.store, t);
  }

  // ----- The edits -----

  method AddItemToArray(h: Heap, list: Ref, item: Ref, ghost t: Tree, ghost u: Tree)
    requires h.Valid() && Owns(h.store, t) && t.at == list && !t.isRef
    requires item != NULL ==> Loose(h.store, u) && u.at == item && Blocks(t) !! Blocks(u)
    modifies h
    ensures h.Valid() && h.top == old(h.top) && h.refusals == old(h.refusals)
    ensures if item == NULL then h.store == old(h.store)
            else Relinked(old(h.store), h.store, t, t.(kids := t.kids + [u]), {item})
  {
    hide Owns, Blocks, BlocksAll;
    if item == NULL {
      return;
    }
    ItemBlocks(h.store, t);
    ItemBlocks(h.store, u);
    AppendedOwned(h.store, t, u);
    var c := h.store[list].cell.child;
    if c == NULL {
      KidsLive(h.store, t);
      h.store := SetChild(h.store, list, item);
    } else {
      ghost var k := 0;
      assert t.kids[..] == t.kids;
      WalkOn(h.store, t.kids, 0);
      while h.store[c].cell.next != NULL
        invariant 0 <= k < |t.kids| && c == t.kids[k].at && NodeAt(h.store, c)
        invariant h.store == old(h.store) && h.top == old(h.top) && h.refusals == old(h.refusals)
        invariant h.store[c].cell.next == Head(t.kids[k + 1..], NULL)
        decreases |t.kids| - k
      {
        WalkOn(h.store, t.kids, k + 1);
        k, c := k + 1, h.store[c].cell.next;
      }
      KidsLive(h.store, t);
      h.store := SetPrev(SetNext(h.store, c, item), item, c);
    }
    assert h.store.Keys == old(h.store).Keys;
  }

  method DetachItemFromArray(h: Heap, list: Ref, which: int, ghost t: Tree) returns (c: Ref)
    requires h.Valid() && Owns(h.store, t) && t.at == list && !t.isRef
    modifies h
    ensures h.Valid() && h.top == old(h.top) && h.refusals == old(h.refusals)
    ensures PlaceOf(which) >= |t.kids| ==> c == NULL && h.store == old(h.store)
    ensures PlaceOf(which) < |t.kids| ==>
              var k := PlaceOf(which);
              && c == t.kids[k].at && Loose(h.store, t.kids[k])
              && Relinked(old(h.store), h.store, t, t.(kids := t.kids[..k] + t.kids[k + 1..]), {})
              && Blocks(t.kids[k]) !! Blocks(t.(kids := t.kids[..k] + t.kids[k + 1..]))
              && Blocks(t) == Blocks(t.kids[k]) + Blocks(t.(kids := t.kids[..k] + t.kids[k + 1..]))
  {
    hide Owns, Chain, Blocks, BlocksAll;
    KidsLive(h.store, t);
    c := GetArrayItem(h, list, which, t);
    if c == NULL {
      return;
    }
    DetachedOwned(h.store, t, PlaceOf(which));
    var prev, next := h.store[c].cell.prev, h.store[c].cell.next;
    if prev != NULL {
      h.store := SetNext(h.store, prev, next);
    }
    if next != NULL {
      h.store := SetPrev(h.store, next, prev);
    }
    if h.store[list].cell.child == c {
      h.store := SetChild(h.store, list, next);
    }
    h.store := SetPrev(h.store, c, NULL);
    h.store := SetNext(h.store, c, NULL);
  }

  /** Without the child at `k` the item owns the rest, and exactly the child's blocks are gone. */
  ghost predicate KidFreed(m: Store, m': Store, t: Tree, k: nat)
    requires k < |t.kids|
  {
    var t' := t.(kids := t.kids[..k] + t.kids[k + 1..]);
    && NodeAt(m, t.at) && Owns(m', t') && m'.Keys == m.Keys - Blocks(t.kids[k])
    && Same(m, m', m'.Keys - BlocksAll(t.kids) - {t.at})
    && m'[t.at].cell.next == m[t.at].cell.next && m'[t.at].cell.prev == m[t.at].cell.prev
  }

  /** A kid that has been unlinked, and then its blocks freed. */
  lemma {:induction false} KidFreedBy(m: Store, m1: Store, m2: Store, t: Tree, k: nat)
    requires k < |t.kids| && Owns(m, t) && m2 == m1 - BlocksAll([t.kids[k]])
    requires Relinked(m, m1, t, t.(kids := t.kids[..k] + t.kids[k + 1..]), {})
    requires Blocks(t.kids[k]) !! Blocks(t.(kids := t.kids[..k] + t.kids[k + 1..]))
    requires Blocks(t) == Blocks(t.kids[k]) + Blocks(t.(kids := t.kids[..k] + t.kids[k + 1..]))
    ensures KidFreed(m, m2, t, k)
  {
    BlocksOne(t.kids[k]);
    OwnsFrame(m1, m2, t.(kids := t.kids[..k] + t.kids[k + 1..]));
  }

  lemma {:induction false} LooseChain(m: Store, u: Tree)
    requires Loose(m, u)
    ensures Chain(m, [u], NULL, NULL) && Head([u], NULL) == u.at
  {
    ChainOne(m, u, NULL, NULL);
    hide Chain, Owns;
  }

  lemma NothingOwned(m: Store)
    ensures Chain(m, [], NULL, NULL) && Head([], NULL) == NULL && BlocksAll([]) == {} && m - {} == m
  {
  }

  method DeleteItemFromArray(h: Heap, list: Ref, which: int, ghost t: Tree)
    requires h.Valid() && Owns(h.store, t) && t.at == list && !t.isRef
    modifies h
    ensures h.Valid() && h.top == old(h.top) && h.refusals == old(h.refusals)
    ensures PlaceOf(which) >= |t.kids| ==> h.store == old(h.store)
    ensures PlaceOf(which) < |t.kids| ==> KidFreed(old(h.store), h.store, t, PlaceOf(which))
  {
    hide Owns, Chain, Blocks, BlocksAll, Loose, Relinked, KidFreed, Head;
    ghost var m := h.store;
    var c := DetachItemFromArray(h, list, which, t);
    ghost var k, m1 := PlaceOf(which), h.store;
    ghost var gone := if k < |t.kids| then [t.kids[k]] else [];
    if k < |t.kids| {
      LooseChain(m1, t.kids[k]);
    }
    NothingOwned(m1);
    h.Delete(c, gone, NULL);
    if k < |t.kids| {
      KidFreedBy(m, m1, h.store, t, k);
    }
  }

  method DetachItemFromObject(h: Heap, list: Ref, name: MaybeText, ghost t: Tree) returns (c: Ref)
    requires h.Valid() && Owns(h.store, t) && t.at == list && !t.isRef && (name.Text? ==> NulFree(name.bytes))
    modifies h
    ensures h.Valid() && h.top == old(h.top) && h.refusals == old(h.refusals)
    ensures var k := FirstNamed(t.kids, name);
            if k == |t.kids| then c == NULL && h.store == old(h.store)
            else
              && c == t.kids[k].at && Loose(h.store, t.kids[k])
              && Relinked(old(h.store), h.store, t, t.(kids := t.kids[..k] + t.kids[k + 1..]), {})
              && Blocks(t.kids[k]) !! Blocks(t.(kids := t.kids[..k] + t.kids[k + 1..]))
              && Blocks(t) == Blocks(t.kids[k]) + Blocks(t.(kids := t.kids[..k] + t.kids[k + 1..]))
  {
    hide Owns, Chain, Blocks, BlocksAll, Loose, Relinked;
    var i;
    KidsLive(h.store, t);
    c, i := GetObjectItem(h, list, name, t);
    if c != NULL {
      c := DetachItemFromArray(h, list, i, t);
    }
  }

  method DeleteItemFromObject(h: Heap, list: Ref, name: MaybeText, ghost t: Tree)
    requires h.Valid() && Owns(h.store, t) && t.at == list && !t.isRef && (name.Text? ==> NulFree(name.bytes))
    modifies h
    ensures h.Valid() && h.top == old(h.top) && h.refusals == old(h.refusals)
    ensures var k := FirstNamed(t.kids, name);
            if k == |t.kids| then h.store == old(h.store) else KidFreed(old(h.store), h.store, t, k)
  {
    hide Owns, Chain, Blocks, BlocksAll, Loose, Relinked, KidFreed, Head;
    ghost var m := h.store;
    var c := DetachItemFromObject(h, list, name, t);
    ghost var k, m1 := FirstNamed(t.kids, name), h.store;
    ghost var gone := if k < |t.kids| then [t.kids[k]] else [];
    if k < |t.kids| {
      LooseChain(m1, t.kids[k]);
    }
    NothingOwned(m1);
    h.Delete(c, gone, NULL);
    if k < |t.kids| {
      KidFreedBy(m, m1, h.store, t, k);
    }
  }

  /** The new child takes the old one's place, and exactly the old one's blocks are gone. */
  ghost predicate KidReplaced(m: Store, m': Store, t: Tree, k: nat, u: Tree)
    requires k < |t.kids|
  {
    && NodeAt(m, t.at) && Owns(m', WithKid(t, k, u)) && m'.Keys == m.Keys - Blocks(t.kids[k])
    && Same(m, m', m'.Keys - BlocksAll(t.kids) - {t.at} - {u.at})
    && m'[t.at].cell.next == m[t.at].cell.next && m'[t.at].cell.prev == m[t.at].cell.prev
  }

  method ReplaceItemInArray(h: Heap, list: Ref, which: int, newitem: Ref, ghost t: Tree, ghost u: Tree)
    requires h.Valid() && Owns(h.store, t) && t.at == list && !t.isRef
    requires Owns(h.store, u) && u.at == newitem && Blocks(t) !! Blocks(u)
    modifies h
    ensures h.Valid() && h.top == old(h.top) && h.refusals == old(h.refusals)
    ensures PlaceOf(which) >= |t.kids| ==> h.store == old(h.store)
    ensures PlaceOf(which) < |t.kids| ==> KidReplaced(old(h.store), h.store, t, PlaceOf(which), u)
  {
    hide Owns, Chain, Blocks, BlocksAll, Replaced;
    KidsLive(h.store, t);
    var c := GetArrayItem(h, list, which, t);
    if c == NULL {
      return;
    }
    ghost var k := PlaceOf(which);
    ReplacedOwned(h.store, t, k, u);
    ReplaceLinks(h, list, c, newitem);
    ghost var m := h.store;
    BlocksOne(t.kids[k]);
    ChainOne(m, t.kids[k], NULL, NULL);
    h.Delete(c, [t.kids[k]], NULL);
    ItemBlocks(m, WithKid(t, k, u));
    OwnsFrame(m, h.store, WithKid(t, k, u));
  }

  /** The stores of cJSON_ReplaceItemInArray: the new item points at the neighbours, and the next one back at it ... */
  method LinkIn(h: Heap, c: Ref, newitem: Ref)
    requires h.Valid() && NodeAt(h.store, c) && NodeAt(h.store, newitem) && c != newitem
    requires h.store[c].cell.next != NULL ==> NodeAt(h.store, h.store[c].cell.next)
    modifies h
    ensures h.Valid() && h.top == old(h.top) && h.refusals == old(h.refusals)
    ensures h.store == LinkedIn(old(h.store), c, newitem)
  {
    var next := h.store[c].cell.next;
    h.store := SetNext(h.store, newitem, next);
    h.store := SetPrev(h.store, newitem, h.store[c].cell.prev);
    if next != NULL {
      h.store := SetPrev(h.store, next, newitem);
    }
    assert h.store.Keys == old(h.store).Keys;
  }

  /** ... and the one before, or the list, points at it too, and the old item at nothing. */
  method ReplaceLinks(h: Heap, list: Ref, c: Ref, newitem: Ref)
    requires h.Valid() && NodeAt(h.store, list) && NodeAt(h.store, c) && NodeAt(h.store, newitem) && c != newitem
    requires h.store[c].cell.prev != NULL ==> NodeAt(h.store, h.store[c].cell.prev)
    requires h.store[c].cell.next != NULL ==> NodeAt(h.store, h.store[c].cell.next)
    modifies h
    ensures h.Valid() && h.top == old(h.top) && h.refusals == old(h.refusals)
    ensures h.store == Replaced(old(h.store), list, c, newitem) && h.store.Keys == old(h.store).Keys
  {
    var prev := h.store[c].cell.prev;
    ReplacedStores(h.store, list, c, newitem);
    LinkIn(h, c, newitem);
    hide LinkedIn, Replaced, SetNext, SetPrev, SetChild;
    if h.store[list].cell.child == c {
      h.store := SetChild(h.store, list, newitem);
    } else if prev != NULL {
      h.store := SetNext(h.store, prev, newitem);
    }
    h.store := SetPrev(h.store, c, NULL);
    h.store := SetNext(h.store, c, NULL);
  }

  /** The stores of the second half are on nodes, and do not change which blocks there are. */
  lemma {:induction false} ReplacedStores(m: Store, a: Ref, c: Ref, u: Ref)
    requires NodeAt(m, a) && NodeAt(m, c) && NodeAt(m, u) && c != u
    requires (m[c].cell.prev != NULL ==> NodeAt(m, m[c].cell.prev)) && (m[c].cell.next != NULL ==> NodeAt(m, m[c].cell.next))
    ensures var m2, prev := LinkedIn(m, c, u), m[c].cell.prev;
            && NodeAt(m2, a) && (prev != NULL ==> NodeAt(m2, prev))
            && var m3 := if m2[a].cell.child == c then SetChild(m2, a, u) else if prev != NULL then SetNext(m2, prev, u) else m2;
            && NodeAt(m3, c) && NodeAt(SetPrev(m3, c, NULL), c)
            && Replaced(m, a, c, u) == SetNext(SetPrev(m3, c, NULL), c, NULL) && Replaced(m, a, c, u).Keys == m.Keys
  {
    LinkedInNodes(m, c, u);
  }

  lemma LinkedInNodes(m: Store, c: Ref, u: Ref)
    requires NodeAt(m, c) && NodeAt(m, u) && c != u
    requires m[c].cell.next != NULL ==> NodeAt(m, m[c].cell.next)
    ensures LinkedIn(m, c, u).Keys == m.Keys && forall r | NodeAt(m, r) :: NodeAt(LinkedIn(m, c, u), r)
  {
  }

  // ----- Names and references -----

  /** The name of an item is set from a copy of `name`; an older name is freed or, when it is not, left behind. */
  method SetName(h: Heap, item: Ref, name: seq<Byte>, freeOld: bool, ghost u: Tree) returns (ghost u': Tree)
    requires h.Valid() && Owns(h.store, u) && u.at == item && NulFree(name)
    modifies h
    ensures h.Valid() && old(h.refusals) <= h.refusals
    ensures u' == u.(name := u'.name) && Owns(h.store, u')
    ensures if u'.name.NoStr? then h.refusals > old(h.refusals) else u'.name.bytes == name && u'.name.at !in old(h.store)
    ensures h.store.Keys == old(h.store).Keys - (if freeOld then StrBlocks(u.name) else {}) + StrBlocks(u'.name)
    ensures Same(old(h.store), h.store, h.store.Keys - {item})
    ensures NodeAt(old(h.store), item)
    ensures h.store[item].cell.next == old(h.store)[item].cell.next && h.store[item].cell.prev == old(h.store)[item].cell.prev
  {
    hide Chain, Blocks, BlocksAll;
    ghost var m := h.store;
    ItemBlocks(m, u);
    if freeOld && h.store[item].cell.name != NULL {
      h.Free(h.store[item].cell.name);
    }
    var r := h.Strdup(name);
    ghost var s := if r == NULL then NoStr else Str(r, name);
    h.store := h.store[item := Node(h.store[item].cell.(name := r))];
    u' := u.(name := s);
    Renamed(m, h.store, u, s);
  }

  lemma {:induction false} Renamed(m: Store, m': Store, u: Tree, name: Str)
    requires Owns(m, u) && HoldsStr(m', if name.NoStr? then NULL else name.at, name) && StrBlocks(name) !! m.Keys
    requires Same(m, m', Blocks(u) - {u.at} - StrBlocks(u.name)) && NodeAt(m, u.at) && u.at in m'
    requires m'[u.at] == Node(m[u.at].cell.(name := if name.NoStr? then NULL else name.at))
    ensures Owns(m', u.(name := name))
  {
    ItemBlocks(m, u);
    ChainFrame(m, m', u.kids, NULL, NULL);
  }

  /** cJSON_AddItemToObject: the item is named and becomes the last member. */
  method AddItemToObject(h: Heap, list: Ref, name: seq<Byte>, item: Ref, ghost t: Tree, ghost u: Tree)
    returns (ghost u': Tree)
    requires h.Valid() && Owns(h.store, t) && t.at == list && !t.isRef && NulFree(name)
    requires item != NULL ==> Loose(h.store, u) && u.at == item && Blocks(t) !! Blocks(u)
    modifies h
    ensures h.Valid() && old(h.refusals) <= h.refusals
    ensures item == NULL ==> h.store == old(h.store)
    ensures item != NULL ==>
              && u' == u.(name := u'.name) && Owns(h.store, t.(kids := t.kids + [u']))
              && (if u'.name.NoStr? then h.refusals > old(h.refusals) else u'.name.bytes == name && u'.name.at !in old(h.store))
              && h.store.Keys == old(h.store).Keys - StrBlocks(u.name) + StrBlocks(u'.name)
              && Same(old(h.store), h.store, h.store.Keys - BlocksAll(t.kids) - {list, item})
  {
    hide Owns, Chain, Blocks, BlocksAll;
    u' := u;
    if item == NULL {
      return;
    }
    ghost var m := h.store;
    ItemBlocks(m, t);
    ItemBlocks(m, u);
    u' := SetName(h, item, name, true, u);
    OwnsFrame(m, h.store, t);
    NamedApart(m, t, u, u');
    AddItemToArray(h, list, item, t, u');
  }

  lemma {:induction false} NamedApart(m: Store, t: Tree, u: Tree, u': Tree)
    requires Owns(m, t) && Blocks(t) !! Blocks(u) && u' == u.(name := u'.name) && StrBlocks(u'.name) !! m.Keys
    ensures Blocks(t) !! Blocks(u')
  {
    ItemBlocks(m, t);
  }

  /** `u`, renamed to `u'`, has taken the place of the member at `k`, whose blocks are gone. */
  ghost predicate MemberReplaced(m: Store, m': Store, t: Tree, k: nat, u: Tree, u': Tree)
    requires k < |t.kids|
  {
    && u' == u.(name := u'.name) && StrBlocks(u'.name) !! m.Keys && Owns(m', WithKid(t, k, u'))
    && m'.Keys == m.Keys - Blocks(t.kids[k]) + StrBlocks(u'.name)
    && Same(m, m', m'.Keys - BlocksAll(t.kids) - {t.at, u.at})
  }

  /**
   cJSON_ReplaceItemInObject. A name the new item already has is not freed: see OrphanExactly.
   */
  method ReplaceItemInObject(h: Heap, list: Ref, name: seq<Byte>, newitem: Ref, ghost t: Tree, ghost u: Tree)
    returns (ghost u': Tree)
    requires h.Valid() && Owns(h.store, t) && t.at == list && !t.isRef && NulFree(name)
    requires Owns(h.store, u) && u.at == newitem && Blocks(t) !! Blocks(u)
    modifies h
    ensures h.Valid() && old(h.refusals) <= h.refusals
    ensures var k := FirstNamed(t.kids, Text(name));
            if k == |t.kids| then h.store == old(h.store)
            else
              && MemberReplaced(old(h.store), h.store, t, k, u, u')
              && if u'.name.NoStr? then h.refusals > old(h.refusals) else u'.name.bytes == name
  {
    hide Owns, Chain, Blocks, BlocksAll;
    u' := u;
    KidsLive(h.store, t);
    var c, i := GetObjectItem(h, list, Text(name), t);
    if c != NULL {
      ghost var m := h.store;
      ItemBlocks(m, t);
      ItemBlocks(m, u);
      u' := SetName(h, newitem, name, false, u);
      ghost var m1 := h.store;
      OwnsFrame(m, m1, t);
      NamedApart(m, t, u, u');
      ChainAt(m, t.kids, i, NULL, NULL);
      ReplaceItemInArray(h, list, i, newitem, t, u');
      RenamedReplaced(m, m1, h.store, t, i, u, u');
      hide KidReplaced, MemberReplaced, Same, HoldsItem, HoldsStr, Apart;
    }
  }

  lemma {:induction false} RenamedReplaced(m: Store, m1: Store, m': Store, t: Tree, k: nat, u: Tree, u': Tree)
    requires Owns(m, t) && k < |t.kids| && Blocks(t.kids[k]) <= Blocks(t) && Blocks(t) <= m.Keys
    requires u' == u.(name := u'.name) && StrBlocks(u'.name) !! m.Keys && m1.Keys == m.Keys + StrBlocks(u'.name)
    requires Same(m, m1, m1.Keys - {u.at}) && KidReplaced(m1, m', t, k, u')
    ensures MemberReplaced(m, m', t, k, u, u')
  {
    hide Owns, Blocks, BlocksAll, Chain, WithKid;
  }

  /**
   What replacing a member leaves without an owner is exactly the name the new item had: besides it, the heap holds the
   new tree and what belonged to neither tree before. So nothing is left behind exactly when the new item had no name.
   */
  lemma {:induction false} OrphanExactly(m: Store, m': Store, t: Tree, k: nat, u: Tree, u': Tree)
    requires Owns(m, t) && Owns(m, u) && Blocks(t) !! Blocks(u) && k < |t.kids| && MemberReplaced(m, m', t, k, u, u')
    ensures m'.Keys == (m.Keys - Blocks(t) - Blocks(u)) + Blocks(WithKid(t, k, u')) + StrBlocks(u.name)
    ensures StrBlocks(u.name) !! Blocks(WithKid(t, k, u'))
    ensures m.Keys == Blocks(t) + Blocks(u) ==> (m'.Keys == Blocks(WithKid(t, k, u')) <==> u.name.NoStr?)
  {
    RenamedBlocks(m, u, u');
    NamedApart(m, t, u, u');
    MemberBlocks(m, t, k, u, u');
    assert u.name.Str? ==> u.name.at in StrBlocks(u.name);
    hide Owns, Blocks, BlocksAll, Chain, WithKid, Same, StrBlocks;
    OrphanSets(m.Keys, Blocks(t), Blocks(u), Blocks(t.kids[k]), Blocks(WithKid(t, k, u')), StrBlocks(u.name),
               StrBlocks(u'.name));
  }

  lemma OrphanSets(keys: set<Ref>, t: set<Ref>, u: set<Ref>, kid: set<Ref>, now: set<Ref>, name: set<Ref>, name': set<Ref>)
    requires kid <= t <= keys && name <= u <= keys && t !! u && name' !! keys && kid !! now
    requires t + (u - name + name') == kid + now
    ensures keys - kid + name' == (keys - t - u) + now + name && name !! now
  {
    assert forall r | r in name :: r in u && r !in t && r !in kid + now;
  }

  lemma {:induction false} RenamedBlocks(m: Store, u: Tree, u': Tree)
    requires Owns(m, u) && u' == u.(name := u'.name) && StrBlocks(u'.name) !! m.Keys
    ensures Blocks(u) <= m.Keys && StrBlocks(u.name) <= Blocks(u)
    ensures Blocks(u') == Blocks(u) - StrBlocks(u.name) + StrBlocks(u'.name)
  {
    ItemBlocks(m, u);
  }

  lemma {:induction false} MemberBlocks(m: Store, t: Tree, k: nat, u: Tree, u': Tree)
    requires Owns(m, t) && k < |t.kids| && Blocks(t) !! Blocks(u')
    ensures Blocks(t) <= m.Keys && Blocks(t.kids[k]) <= Blocks(t)
    ensures Blocks(t.kids[k]) !! Blocks(WithKid(t, k, u'))
    ensures Blocks(t) + Blocks(u') == Blocks(t.kids[k]) + Blocks(WithKid(t, k, u'))
  {
    ItemBlocks(m, t);
    ChainAt(m, t.kids, k, NULL, NULL);
    hide Owns, Chain;
    KidReplacedBlocks(t, k, u');
  }

  // An object {"a": false}, and a new item that has the name "b" already.
  const SomeKid := Tree(2, KFalse, false, 0, 0.0, NoStr, Str(3, [0x61]), [])
  const SomeObject := Tree(1, KObject, false, 0, 0.0, NoStr, NoStr, [SomeKid])
  const NamedItem := Tree(4, KTrue, false, 1, 0.0, NoStr, Str(5, [0x62]), [])
  const SomeStore: Store :=
    map[1 := Node(Cell(NULL, NULL, 2, KObject, false, NULL, 0, 0.0, NULL)),
        2 := Node(Cell(NULL, NULL, NULL, KFalse, false, NULL, 0, 0.0, 3)), 3 := Chars([0x61]),
        4 := Node(Cell(NULL, NULL, NULL, KTrue, false, NULL, 1, 0.0, 5)), 5 := Chars([0x62])]

  /** Replacing the member "a" of SomeObject by NamedItem loses the text "b". */
  lemma {:induction false} NamedItemIsOrphaned(m': Store, u': Tree)
    ensures Owns(SomeStore, SomeObject) && Owns(SomeStore, NamedItem) && Blocks(SomeObject) !! Blocks(NamedItem)
    ensures FirstNamed(SomeObject.kids, Text([0x61])) == 0
    ensures MemberReplaced(SomeStore, m', SomeObject, 0, NamedItem, u') ==>
              5 in m' && 5 !in Blocks(WithKid(SomeObject, 0, u'))
  {
    SomeObjectOwned();
    if MemberReplaced(SomeStore, m', SomeObject, 0, NamedItem, u') {
      OrphanExactly(SomeStore, m', SomeObject, 0, NamedItem, u');
      assert 5 in StrBlocks(NamedItem.name);
      hide Owns, Blocks, WithKid, MemberReplaced, FirstNamed;
    }
  }

  lemma {:induction false} SomeObjectOwned()
    ensures Owns(SomeStore, SomeObject) && Owns(SomeStore, NamedItem) && Blocks(SomeObject) !! Blocks(NamedItem)
    ensures FirstNamed(SomeObject.kids, Text([0x61])) == 0
  {
    assert Blocks(SomeKid) == {2, 3} && Blocks(NamedItem) == {4, 5};
    BlocksOne(SomeKid);
    assert Blocks(SomeObject) == {1, 2, 3};
    assert Owns(SomeStore, SomeKid) && Owns(SomeStore, NamedItem);
    ChainOne(SomeStore, SomeKid, NULL, NULL);
    assert TextOf(SomeKid.name) == Text([0x61]) && SameName(Text([0x61]), Text([0x61]));
    assert SomeObject.kids[0] == SomeKid;
    SomeKidFirst();
    hide FirstNamed;
    assert Owns(SomeStore, SomeObject);
  }

  lemma SomeKidFirst()
    ensures FirstNamed(SomeObject.kids, Text([0x61])) == 0
  {
    var kids, name := SomeObject.kids, Text([0x61]);
    assert kids != [] && kids[0] == SomeKid && TextOf(SomeKid.name) == name;
    assert SameName(name, name);
  }

  /** What a reference item owns: itself alone, whatever it shares with the original. */
  function Reference(r: Ref, t: Tree): Tree { Tree(r, t.kind, true, t.valueint, t.number, NoStr, NoStr, []) }

  /** create_reference */
  method CreateReference(h: Heap, item: Ref, ghost t: Tree) returns (r: Ref)
    requires h.Valid() && Owns(h.store, t) && t.at == item
    modifies h
    ensures h.Valid() && old(h.refusals) <= h.refusals
    ensures r == NULL ==> h.refusals > old(h.refusals) && h.store == old(h.store)
    ensures r != NULL ==>
              && r !in old(h.store) && h.store.Keys == old(h.store).Keys + {r} && Same(old(h.store), h.store, old(h.store).Keys)
              && Loose(h.store, Reference(r, t)) && Blocks(Reference(r, t)) == {r} && Owns(h.store, t)
              && h.store[r].cell.child == h.store[item].cell.child
              && h.store[r].cell.valuestring == h.store[item].cell.valuestring
  {
    hide Owns, Chain, Blocks, BlocksAll, Loose, Apart, HoldsItem, Reference;
    ItemBlocks(h.store, t);
    r := h.NewItem();
    if r != NULL {
      ghost var m := h.store;
      h.store := h.store[r := Node(h.store[item].cell.(name := NULL, isRef := true, next := NULL, prev := NULL))];
      assert forall x | x in h.store :: x in m;
      ReferenceMade(old(h.store), h.store, r, t);
    }
  }

  lemma {:induction false} ReferenceMade(m: Store, m': Store, r: Ref, t: Tree)
    requires Owns(m, t) && NodeAt(m, t.at) && r !in m && r != NULL && r in m' && Same(m, m', m.Keys)
    requires m'[r] == Node(m[t.at].cell.(name := NULL, isRef := true, next := NULL, prev := NULL))
    ensures Loose(m', Reference(r, t)) && Blocks(Reference(r, t)) == {r} && Owns(m', t)
  {
    OwnedLive(m, t);
    OwnsFrame(m, m', t);
  }

  lemma {:induction false} BlocksOneMore(t: Tree, u: Tree)
    ensures Blocks(t.(kids := t.kids + [u])) == Blocks(t) + Blocks(u)
  {
    BlocksOne(u);
    BlocksAppend(t.kids, [u]);
  }

  /** cJSON_AddItemReferenceToArray: the list gains an item of its own; the original is left to its owner. */
  method AddItemReferenceToArray(h: Heap, list: Ref, item: Ref, ghost t: Tree, ghost u: Tree) returns (ghost r: Ref)
    requires h.Valid() && Owns(h.store, t) && t.at == list && !t.isRef
    requires Owns(h.store, u) && u.at == item && Blocks(t) !! Blocks(u)
    modifies h
    ensures h.Valid() && Owns(h.store, u)
    ensures r == NULL ==> h.refusals > old(h.refusals) && h.store == old(h.store)
    ensures r != NULL ==>
              && r !in old(h.store) && h.store.Keys == old(h.store).Keys + {r}
              && Owns(h.store, t.(kids := t.kids + [Reference(r, u)]))
              && Blocks(t.(kids := t.kids + [Reference(r, u)])) == Blocks(t) + {r}
              && Same(old(h.store), h.store, old(h.store).Keys - BlocksAll(t.kids) - {list})
  {
    hide Owns, Chain, Blocks, BlocksAll;
    ghost var m := h.store;
    ItemBlocks(m, t);
    ItemBlocks(m, u);
    var ref := CreateReference(h, item, u);
    r := ref;
    if ref != NULL {
      OwnsFrame(m, h.store, t);
      BlocksOneMore(t, Reference(ref, u));
    }
    ghost var m1 := h.store;
    AddItemToArray(h, list, ref, t, Reference(ref, u));
    OwnsFrame(m1, h.store, u);
  }

  /** cJSON_AddItemReferenceToObject: the same, and the new item has the name as a text of its own. */
  method AddItemReferenceToObject(h: Heap, list: Ref, name: seq<Byte>, item: Ref, ghost t: Tree, ghost u: Tree)
    returns (ghost r: Tree)
    requires h.Valid() && Owns(h.store, t) && t.at == list && !t.isRef && NulFree(name)
    requires Owns(h.store, u) && u.at == item && Blocks(t) !! Blocks(u)
    modifies h
    ensures h.Valid() && Owns(h.store, u)
    ensures r.at == NULL ==> h.refusals > old(h.refusals) && h.store == old(h.store)
    ensures r.at != NULL ==>
              && r == Reference(r.at, u).(name := r.name) && r.at !in old(h.store)
              && (if r.name.NoStr? then h.refusals > old(h.refusals) else r.name.bytes == name && r.name.at !in old(h.store))
              && h.store.Keys == old(h.store).Keys + {r.at} + StrBlocks(r.name)
              && Owns(h.store, t.(kids := t.kids + [r]))
              && Same(old(h.store), h.store, old(h.store).Keys - BlocksAll(t.kids) - {list})
  {
    hide Owns, Chain, Blocks, BlocksAll, HoldsItem, HoldsStr, Loose, Apart;
    ghost var m := h.store;
    ItemBlocks(m, t);
    ItemBlocks(m, u);
    var ref := CreateReference(h, item, u);
    r := Reference(ref, u);
    ghost var m1 := h.store;
    if ref != NULL {
      OwnsFrame(m, m1, t);
    }
    ghost var named := AddItemToObject(h, list, name, ref, t, r);
    if ref != NULL {
      r := named;
    }
    OwnsFrame(m1, h.store, u);
  }

  /**
   A list with a reference in it and the original can be deleted in either order: each deletion frees blocks that are
   still live, none twice, and the reference frees no block of the original.
   */
  lemma {:induction false} ReferencesShareNothing(m: Store, t: Tree, u: Tree)
    requires Owns(m, t) && Owns(m, u) && Blocks(t) !! Blocks(u)
    ensures Owns(m - Blocks(t), u) && Owns(m - Blocks(u), t)
    ensures m - Blocks(t) - Blocks(u) == m - Blocks(u) - Blocks(t)
  {
    OwnsFrame(m, m - Blocks(t), u);
    OwnsFrame(m, m - Blocks(u), t);
  }
}
