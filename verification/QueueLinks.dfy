/** The links of the dispatch queue: the queue between its two sentinels, and
    the free list. */
module QueueLinks {
  import opened Chains

  /** What is queued: callback, data and closure; 0 stands for NULL. */
  datatype Entry = Entry(cb: nat, data: nat, closure: nat)

  class Item {
    var entry: Entry
    var next: Item?
    var prev: Item?

    /** An item of a chunk from calloc. */
    constructor ()
      ensures entry == Entry(0, 0, 0) && next == null && prev == null
    {
      entry, next, prev := Entry(0, 0, 0), null, null;
    }
  }

  /** The fields of all items and of the sentinels. */
  datatype Links = Links(next: map<Item?, Item?>, prev: map<Item?, Item?>, entry: map<Item?, Entry>)

  ghost function Chain(head: Item, q: seq<Item>, tail: Item): seq<Item?> {
    [head] + q + [tail]
  }

  /** `q` is linked between the sentinels and `f` is the free list, and every
      item is in exactly one of them. The sentinels end in themselves. */
  ghost predicate Shape(l: Links, head: Item, tail: Item, first: Item?, q: seq<Item>, f: seq<Item>) {
    && Store(l.next, l.prev, Chain(head, q, tail), first, null, f)
    && head in l.prev && l.prev[head] == head && tail in l.next && l.next[tail] == tail
    && l.entry.Keys == l.next.Keys
  }

  ghost function Entries(entry: map<Item?, Entry>, q: seq<Item>): seq<Entry>
    requires forall n :: n in q ==> n in entry
  {
    seq(|q|, i requires 0 <= i < |q| => entry[q[i]])
  }

  function Unlinked(l: Links, e: Item, x: Item, y: Item, first: Item?): Links {
    l.(next := l.next[x := y][e := first], prev := l.prev[y := x])
  }

  function LinkedIn(l: Links, e: Item, x: Item, y: Item, d: Entry): Links {
    Links(l.next[e := y][x := e], l.prev[e := x][y := e], l.entry[e := d])
  }

  lemma LinkedInKeys(l: Links, e: Item, x: Item, y: Item, d: Entry)
    ensures LinkedIn(l, e, x, y, d).entry == l.entry[e := d]
    ensures {e, x} <= l.next.Keys ==> LinkedIn(l, e, x, y, d).next.Keys == l.next.Keys
  {
  }

  lemma UnlinkedKeys(l: Links, e: Item, x: Item, y: Item, first: Item?)
    requires e in l.next && x in l.next
    ensures Unlinked(l, e, x, y, first).next.Keys == l.next.Keys && Unlinked(l, e, x, y, first).entry == l.entry
  {
  }

  lemma ChainAt(head: Item, q: seq<Item>, tail: Item)
    ensures var c := Chain(head, q, tail);
      |c| == |q| + 2 && c[0] == head && c[|q| + 1] == tail && forall i :: 0 <= i < |q| ==> c[i + 1] == q[i]
    ensures forall n :: n in Chain(head, q, tail) <==> n == head || n == tail || n in q
  {
  }

  lemma ChainRemoved(head: Item, q: seq<Item>, tail: Item, i: nat)
    requires i < |q|
    ensures Chain(head, Removed(q, i), tail) == Removed(Chain(head, q, tail), i + 1)
  {
  }

  lemma ChainInserted(head: Item, q: seq<Item>, tail: Item, i: nat, e: Item)
    requires i <= |q|
    ensures Chain(head, Inserted(q, i, e), tail) == Inserted(Chain(head, q, tail), i + 1, e)
  {
  }

  /** Where the node at place `p` is after an insertion or a removal. */
  lemma PlaceInserted(head: Item, q: seq<Item>, tail: Item, i: nat, e: Item, p: nat)
    requires i <= |q| && p <= |q| + 1
    ensures Chain(head, Inserted(q, i, e), tail)[if p <= i then p else p + 1] == Chain(head, q, tail)[p]
  {
    ChainInserted(head, q, tail, i, e);
    InsertedBack(Chain(head, q, tail), i + 1, e);
  }

  lemma PlaceRemoved(head: Item, q: seq<Item>, tail: Item, i: nat, p: nat)
    requires i < |q| && p <= |q| + 1 && p != i + 1
    ensures Chain(head, Removed(q, i), tail)[if p <= i then p else p - 1] == Chain(head, q, tail)[p]
  {
    ChainRemoved(head, q, tail, i);
    RemovedBack(Chain(head, q, tail), i + 1);
  }

  /** Taking item `i` out of the queue puts it on the free list. */
  lemma UnlinkShape(l: Links, head: Item, tail: Item, first: Item?, q: seq<Item>, f: seq<Item>, i: nat, x: Item,
      y: Item)
    requires Shape(l, head, tail, first, q, f) && i < |q|
    requires x == Chain(head, q, tail)[i] && y == Chain(head, q, tail)[i + 2]
    ensures Shape(Unlinked(l, q[i], x, y, first), head, tail, q[i], Removed(q, i), [q[i]] + f)
  {
    hide Store, Removed;
    ChainAt(head, q, tail);
    ChainRemoved(head, q, tail, i);
    StoreRemove(l.next, l.prev, Chain(head, q, tail), first, null, f, i + 1);
    Ends(l, head, tail, first, q, f);
    Inside(l, head, tail, first, q, f, i);
  }

  /** The first free item goes into the queue at index `i`. */
  lemma LinkShape(l: Links, head: Item, tail: Item, first: Item, q: seq<Item>, f: seq<Item>, i: nat, x: Item, y: Item,
      d: Entry)
    requires Shape(l, head, tail, first, q, f) && i <= |q| && f != []
    requires x == Chain(head, q, tail)[i] && y == Chain(head, q, tail)[i + 1]
    ensures first == f[0] && first in l.next && first !in q
    ensures Shape(LinkedIn(l, first, x, y, d), head, tail, l.next[first], Inserted(q, i, first), f[1..])
  {
    hide Store, Inserted;
    ChainAt(head, q, tail);
    ChainInserted(head, q, tail, i, first);
    StoreInsert(l.next, l.prev, Chain(head, q, tail), first, null, f, i + 1);
    Ends(l, head, tail, first, q, f);
    Inside(l, head, tail, first, q, f, i);
  }

  lemma Inside(l: Links, head: Item, tail: Item, first: Item?, q: seq<Item>, f: seq<Item>, i: nat)
    requires Shape(l, head, tail, first, q, f) && i <= |q|
    ensures var c := Chain(head, q, tail); c[i] in l.next && c[i] != tail && c[i + 1] in l.next && c[i + 1] != head
    ensures var c := Chain(head, q, tail); i < |q| ==> c[i + 2] in l.next && c[i + 2] != head && c[i + 1] == q[i]
  {
    var c := Chain(head, q, tail);
    assert forall k :: 0 <= k < |c| ==> c[k] in Members<Item?>(c);
    assert c[0] == head && c[|q| + 1] == tail;
  }

  /** The neighbours of item `i`, as its links give them. */
  lemma Around(l: Links, head: Item, tail: Item, first: Item?, q: seq<Item>, f: seq<Item>, i: nat)
    returns (x: Item, y: Item)
    requires Shape(l, head, tail, first, q, f) && i < |q|
    ensures x == Chain(head, q, tail)[i] && y == Chain(head, q, tail)[i + 2] && x != q[i] && y != q[i] && x != y
    ensures q[i] in l.next && q[i] in l.prev && l.next[q[i]] == y && l.prev[q[i]] == x
  {
    var c := Chain(head, q, tail);
    ChainAt(head, q, tail);
    assert c[i + 1] == q[i];
    x, y := if i == 0 then head else q[i - 1], if i + 1 == |q| then tail else q[i + 1];
    assert c[i] == x && c[i + 2] == y;
  }

  /** The links lead from each place in the chain to the next one and back. */
  lemma Adjacent(l: Links, head: Item, tail: Item, first: Item?, q: seq<Item>, f: seq<Item>, i: nat)
    requires Shape(l, head, tail, first, q, f) && i <= |q|
    ensures var c := Chain(head, q, tail);
      c[i] in l.next && l.next[c[i]] == c[i + 1] && c[i + 1] in l.prev && l.prev[c[i + 1]] == c[i]
    ensures Chain(head, q, tail)[i] != null && Chain(head, q, tail)[i + 1] != null
  {
    ChainAt(head, q, tail);
  }

  /** Different places in the chain hold different nodes. */
  lemma Places(l: Links, head: Item, tail: Item, first: Item?, q: seq<Item>, f: seq<Item>, i: nat)
    requires Shape(l, head, tail, first, q, f) && i <= |q| + 1
    ensures Chain(head, q, tail)[i] == head <==> i == 0
    ensures Chain(head, q, tail)[i] == tail <==> i == |q| + 1
    ensures 0 < i <= |q| ==> Chain(head, q, tail)[i] == q[i - 1]
  {
    ChainAt(head, q, tail);
  }

  lemma SelfLinks(l: Links, head: Item, tail: Item, first: Item?, q: seq<Item>, f: seq<Item>)
    requires Shape(l, head, tail, first, q, f)
    ensures head in l.next && head in l.prev && l.prev[head] == head
    ensures tail in l.next && l.next[tail] == tail
  {
    ChainAt(head, q, tail);
  }

  lemma ShapeEntry(l: Links, head: Item, tail: Item, first: Item?, q: seq<Item>, f: seq<Item>, i: nat, d: Entry)
    requires Shape(l, head, tail, first, q, f) && i < |q|
    ensures Shape(l.(entry := l.entry[q[i] := d]), head, tail, first, q, f)
    ensures (forall n :: n in q ==> n in l.entry) && Entries(l.entry[q[i] := d], q) == Entries(l.entry, q)[i := d]
  {
    hide Store;
    QueuedInLinks(l, head, tail, first, q, f);
    assert q[i] in q;
    DistinctQueue(l, head, tail, first, q, f);
  }

  lemma DistinctQueue(l: Links, head: Item, tail: Item, first: Item?, q: seq<Item>, f: seq<Item>)
    requires Shape(l, head, tail, first, q, f)
    ensures forall i, j :: 0 <= i < j < |q| ==> q[i] != q[j]
  {
    ChainAt(head, q, tail);
    forall i, j | 0 <= i < j < |q|
      ensures q[i] != q[j]
    {
      assert Chain(head, q, tail)[i + 1] == q[i] && Chain(head, q, tail)[j + 1] == q[j];
    }
  }

  lemma ChainItem(head: Item, q: seq<Item>, tail: Item, i: nat)
    requires i < |q|
    ensures Chain(head, q, tail)[i + 1] == q[i]
  {
    ChainAt(head, q, tail);
  }

  lemma ChainNotFree(l: Links, head: Item, tail: Item, first: Item?, q: seq<Item>, f: seq<Item>, p: nat)
    requires Shape(l, head, tail, first, q, f) && p <= |q| + 1
    ensures Chain(head, q, tail)[p] !in f
  {
    var c := Chain(head, q, tail);
    assert c[p] in Members(c);
    assert forall n :: n in f ==> n in Members<Item?>(f);
  }

  /** The tail is never on the free list. */
  lemma TailNotFree(l: Links, head: Item, tail: Item, q: seq<Item>, f: seq<Item>)
    ensures !Shape(l, head, tail, tail, q, f)
  {
    if Shape(l, head, tail, tail, q, f) {
      Ends(l, head, tail, tail, q, f);
    }
  }

  lemma Ends(l: Links, head: Item, tail: Item, first: Item?, q: seq<Item>, f: seq<Item>)
    requires Shape(l, head, tail, first, q, f)
    ensures head != tail && head !in q && tail !in q && head !in f && tail !in f
  {
    var c := Chain(head, q, tail);
    assert c[0] == head && c[|q| + 1] == tail && forall i :: 0 <= i < |q| ==> c[i + 1] == q[i];
    assert head in Members<Item?>(c) && tail in Members<Item?>(c);
  }

  /** A new chunk becomes the free list when that was empty. */
  lemma ChunkShape(l: Links, l': Links, head: Item, tail: Item, q: seq<Item>, k: seq<Item>)
    requires Shape(l, head, tail, null, q, []) && k != []
    requires Strung(l'.next, k, |k| - 1) && NewItems(l, l', k)
    ensures Shape(l', head, tail, k[0], q, k)
    ensures forall n :: n in l.next ==> n in l'.entry && n in l.entry && l'.entry[n] == l.entry[n]
    ensures l'.next.Keys == l.next.Keys + Members(k)
  {
    hide Strung, Store, Chain, Linked, Stack;
    StrungStack(l'.next, k);
    GrownLinks(l, l', k);
    StoreGrow(l.next, l.prev, l'.next, l'.prev, Chain(head, q, tail), null, k);
  }

  lemma GrownLinks(l: Links, l': Links, k: seq<Item>)
    requires NewItems(l, l', k)
    ensures Members<Item?>(k) !! l.next.Keys && null !in Members<Item?>(k)
    ensures l'.next.Keys == l'.prev.Keys == l.next.Keys + Members<Item?>(k)
  {
    assert forall n :: n in Members<Item?>(k) <==> n in Members(k);
  }

  lemma NoneFree(l: Links, head: Item, tail: Item, first: Item?, q: seq<Item>, f: seq<Item>)
    requires Shape(l, head, tail, first, q, f)
    ensures first == null <==> f == []
    ensures l.next.Keys == l.prev.Keys == l.entry.Keys
  {
    if f != [] {
      assert f[0] in l.next;
    }
  }

  lemma EntriesRemoved(entry: map<Item?, Entry>, q: seq<Item>, i: nat)
    requires i < |q| && forall n :: n in q ==> n in entry
    ensures forall n :: n in Removed(q, i) ==> n in entry
    ensures Entries(entry, Removed(q, i)) == Removed(Entries(entry, q), i)
  {
    RemovedFrom(q, i);
    RemovedFrom(Entries(entry, q), i);
    hide Removed;
  }

  lemma EntriesInserted(entry: map<Item?, Entry>, q: seq<Item>, i: nat, e: Item, d: Entry)
    requires i <= |q| && e !in q && forall n :: n in q ==> n in entry
    ensures forall n :: n in Inserted(q, i, e) ==> n in entry[e := d]
    ensures Entries(entry[e := d], Inserted(q, i, e)) == Inserted(Entries(entry, q), i, d)
  {
    InsertedFrom(q, i, e);
    InsertedFrom(Entries(entry, q), i, d);
    hide Inserted;
  }

  // ----- chunks

  /** A queue with nothing in it. */
  lemma EmptyShape(head: Item, tail: Item, d: Entry)
    requires head != tail
    ensures Shape(Links(map[head := tail, tail := tail], map[head := head, tail := head], map[head := d, tail := d]),
                  head, tail, null, [], [])
  {
    ChainAt(head, [], tail);
    assert Chain(head, [], tail) == [head, tail];
  }

  function Adopted(l: Links, n: Item, d: Entry): Links {
    Links(l.next[n := null], l.prev[n := null], l.entry[n := d])
  }

  /** `l` grows to `l'` by the items of `k`, and nothing else changes. */
  ghost predicate NewItems(l: Links, l': Links, k: seq<Item>) {
    && Distinct(k) && Members(k) !! l.next.Keys && l.next.Keys == l.prev.Keys == l.entry.Keys
    && l'.next.Keys == l'.prev.Keys == l'.entry.Keys == l.next.Keys + Members(k)
    && (forall n :: n in l.next ==> l'.next[n] == l.next[n] && l'.prev[n] == l.prev[n] && l'.entry[n] == l.entry[n])
  }

  lemma NoItems(l: Links)
    requires l.next.Keys == l.prev.Keys == l.entry.Keys
    ensures NewItems(l, l, []) && Strung(l.next, [], 0)
  {
    assert Members<Item>([]) == {};
  }

  lemma ItemsDistinct(l: Links, l': Links, k: seq<Item>)
    requires NewItems(l, l', k)
    ensures Distinct(k)
  {
  }

  lemma NewItemsAdd(l: Links, l': Links, k: seq<Item>, n: Item, d: Entry)
    requires NewItems(l, l', k) && n !in l'.next
    ensures NewItems(l, Adopted(l', n, d), k + [n])
  {
    assert Members(k + [n]) == Members(k) + {n};
  }

  lemma NewItemsWrite(l: Links, l': Links, k: seq<Item>, i: nat, j: nat, x: Item?, y: Item?)
    requires NewItems(l, l', k) && i < |k| && j < |k|
    ensures k[i] in l'.next && k[j] in l'.next && k[i] !in l.next && k[j] !in l.next
    ensures NewItems(l, l'.(next := l'.next[k[i] := x], prev := l'.prev[k[j] := y]), k)
  {
    assert k[i] in Members(k) && k[j] in Members(k);
  }

  /** The first `i` items of the chunk lead to their successors. */
  ghost predicate Strung(next: map<Item?, Item?>, k: seq<Item>, i: nat) {
    forall j :: 0 <= j < |k| ==> k[j] in next && next[k[j]] == Strand(k, j, i)
  }

  ghost function Strand(k: seq<Item>, j: nat, i: nat): Item? {
    if j < i then From(k, j + 1, null) else null
  }

  lemma StrungAdd(next: map<Item?, Item?>, k: seq<Item>, n: Item)
    requires Strung(next, k, 0) && n !in next
    ensures Strung(next[n := null], k + [n], 0)
  {
    var k' := k + [n];
    forall j | 0 <= j < |k'|
      ensures k'[j] in next[n := null] && next[n := null][k'[j]] == Strand(k', j, 0)
    {
      assert j < |k| ==> k'[j] == k[j];
    }
  }

  lemma StrungStep(next: map<Item?, Item?>, k: seq<Item>, i: nat)
    requires Distinct(k) && Strung(next, k, i) && i + 1 < |k|
    ensures Strung(next[k[i] := k[i + 1]], k, i + 1)
  {
    forall j | 0 <= j < |k|
      ensures next[k[i] := k[i + 1]][k[j]] == Strand(k, j, i + 1)
    {
    }
  }

  lemma StrungStack(next: map<Item?, Item?>, k: seq<Item>)
    requires Distinct(k) && k != [] && Strung(next, k, |k| - 1)
    ensures Stack(next, k[0], null, k)
  {
    forall i | 0 <= i < |k|
      ensures k[i] in next && next[k[i]] == From(k, i + 1, null)
    {
    }
  }

  lemma QueuedInLinks(l: Links, head: Item, tail: Item, first: Item?, q: seq<Item>, f: seq<Item>)
    requires Shape(l, head, tail, first, q, f)
    ensures forall n :: n in q ==> n in l.entry
  {
    ChainAt(head, q, tail);
  }
}
