/** The links of list.c: the list between its sentinels, the free list, and the
    elements that are in neither. */
module ListLinks {
  import opened Chains

  /** The header in front of an element. */
  class Element {
    var next: Element?
    var prev: Element?

    constructor ()
      ensures next == null && prev == null
    {
      next, prev := null, null;
    }
  }

  datatype Links = Links(next: map<Element?, Element?>, prev: map<Element?, Element?>)

  /** `list` is the list between the sentinels, `free` the free list from `first`
      on, and `loose` the elements that the caller has. `mark` stands for the
      pointer value -1 that free elements have as their `prev`; it is no element. */
  datatype Layout = Layout(
    head: Element, tail: Element, mark: Element, first: Element?,
    list: seq<Element>, free: seq<Element>, loose: set<Element>)

  ghost function Chain(v: Layout): seq<Element?> {
    Between(v.head, v.list, v.tail)
  }

  ghost function Between(head: Element, list: seq<Element>, tail: Element): seq<Element?> {
    [head] + list + [tail]
  }

  ghost predicate Shape(l: Links, v: Layout) {
    && Pool(l.next, l.prev, null, v.mark, Chain(v), v.first, v.free, v.loose)
    && v.head in l.prev && l.prev[v.head] == null && v.tail in l.next && l.next[v.tail] == null
  }

  lemma ChainAt(v: Layout)
    ensures var c := Chain(v);
      && |c| == |v.list| + 2 && c[0] == v.head && c[|v.list| + 1] == v.tail
      && forall i :: 0 <= i < |v.list| ==> c[i + 1] == v.list[i]
    ensures forall e :: e in Chain(v) <==> e == v.head || e == v.tail || e in v.list
  {
  }

  lemma ChainRemoved(v: Layout, i: nat)
    requires i < |v.list|
    ensures Between(v.head, Removed(v.list, i), v.tail) == Removed(Chain(v), i + 1)
  {
  }

  lemma ChainInserted(v: Layout, i: nat, e: Element)
    requires i <= |v.list|
    ensures Between(v.head, Inserted(v.list, i, e), v.tail) == Inserted(Chain(v), i + 1, e)
  {
  }

  /** Everything that was in the chain is still there, except what is removed. */
  lemma StillThere(v: Layout, i: nat, e: Element)
    requires i <= |v.list|
    ensures forall n :: n in Chain(v) ==> n in Between(v.head, Inserted(v.list, i, e), v.tail)
    ensures i < |v.list| ==>
      forall n :: n in Chain(v) && n != v.list[i] ==> n in Between(v.head, Removed(v.list, i), v.tail)
  {
    ChainAt(v);
    forall n | n in v.list
      ensures n in Inserted(v.list, i, e)
      ensures i < |v.list| && n != v.list[i] ==> n in Removed(v.list, i)
    {
      var k :| 0 <= k < |v.list| && v.list[k] == n;
      InsertedBack(v.list, i, e);
      if i < |v.list| {
        RemovedBack(v.list, i);
      }
    }
  }

  function Unlinked(l: Links, e: Element, x: Element, y: Element): Links {
    Links(l.next[x := y][e := null], l.prev[y := x][e := null])
  }

  function LinkedIn(l: Links, e: Element, x: Element, y: Element): Links {
    Links(l.next[e := y][x := e], l.prev[e := x][y := e])
  }

  lemma EmptyShape(head: Element, tail: Element, mark: Element)
    requires head != tail && mark != head && mark != tail
    ensures Shape(Links(map[head := tail, tail := null], map[head := null, tail := head]),
                  Layout(head, tail, mark, null, [], [], {}))
  {
    var v := Layout(head, tail, mark, null, [], [], {});
    assert Chain(v) == [head, tail];
    assert Members<Element?>([head, tail]) == {head, tail};
  }

  /** The links lead from each place in the chain to the next one and back. */
  lemma Adjacent(l: Links, v: Layout, i: nat)
    requires Shape(l, v) && i <= |v.list|
    ensures var c := Chain(v);
      && c[i] in l.next && c[i + 1] in l.next && c[i] in l.prev && c[i + 1] in l.prev
      && l.next[c[i]] == c[i + 1] && l.prev[c[i + 1]] == c[i]
      && c[i] != null && c[i + 1] != null && c[i] != c[i + 1] && c[i] != v.mark
  {
    ChainAt(v);
    assert Chain(v)[i] in Members(Chain(v)) && Chain(v)[i + 1] in Members(Chain(v));
  }

  lemma Places(l: Links, v: Layout, i: nat)
    requires Shape(l, v) && i <= |v.list| + 1
    ensures Chain(v)[i] == v.head <==> i == 0
    ensures Chain(v)[i] == v.tail <==> i == |v.list| + 1
    ensures 0 < i <= |v.list| ==> Chain(v)[i] == v.list[i - 1] && v.list[i - 1] in v.list
  {
    ChainAt(v);
  }

  /** Element `i` leaves the list. */
  lemma RemoveShape(l: Links, v: Layout, i: nat, x: Element, y: Element)
    requires Shape(l, v) && i < |v.list| && x == Chain(v)[i] && y == Chain(v)[i + 2]
    ensures Shape(Unlinked(l, v.list[i], x, y), v.(list := Removed(v.list, i), loose := v.loose + {v.list[i]}))
  {
    hide Pool, Removed, Between;
    ChainAt(v);
    ChainRemoved(v, i);
    Places(l, v, i);
    Places(l, v, i + 1);
    Places(l, v, i + 2);
    PoolRemove(l.next, l.prev, null, v.mark, Chain(v), v.first, v.free, v.loose, i + 1);
  }

  lemma InsertEnds(l: Links, v: Layout, i: nat, x: Element, y: Element, e: Element)
    requires Shape(l, v) && i <= |v.list| && e in v.loose && x == Between(v.head, v.list, v.tail)[i]
    requires y == Between(v.head, v.list, v.tail)[i + 1]
    ensures var m := LinkedIn(l, e, x, y);
      v.head in m.prev && m.prev[v.head] == null && v.tail in m.next && m.next[v.tail] == null
  {
    hide Pool, Between;
    Outer(l, v);
    Places(l, v, i);
    Places(l, v, i + 1);
  }

  /** A loose element goes into the list at index `i`. */
  lemma InsertShape(l: Links, v: Layout, i: nat, x: Element, y: Element, e: Element)
    requires Shape(l, v) && i <= |v.list| && e in v.loose && x == Chain(v)[i] && y == Chain(v)[i + 1]
    ensures Shape(LinkedIn(l, e, x, y), v.(list := Inserted(v.list, i, e), loose := v.loose - {e}))
  {
    hide Pool, Inserted, Between;
    ChainAt(v);
    ChainInserted(v, i, e);
    InsertEnds(l, v, i, x, y, e);
    PoolInsert(l.next, l.prev, null, v.mark, Chain(v), v.first, v.free, v.loose, i + 1, e);
  }

  /** A loose element goes on the free list. */
  lemma FreeShape(l: Links, v: Layout, e: Element)
    requires Shape(l, v) && e in v.loose
    ensures Shape(Links(l.next[e := v.first], l.prev[e := v.mark]),
                  v.(first := e, free := [e] + v.free, loose := v.loose - {e}))
  {
    Outer(l, v);
    hide Pool;
    PoolFree(l.next, l.prev, null, v.mark, Chain(v), v.first, v.free, v.loose, e);
  }

  /** The first free element is used again. */
  lemma ReuseShape(l: Links, v: Layout, e: Element)
    requires Shape(l, v) && v.first == e
    ensures e in l.next && e !in v.loose && v.free != [] && e == v.free[0]
    ensures Shape(Links(l.next[e := null], l.prev[e := null]),
                  v.(first := l.next[e], free := v.free[1..], loose := v.loose + {e}))
  {
    Outer(l, v);
    hide Pool;
    ChainAt(v);
    PoolReuse(l.next, l.prev, null, v.mark, Chain(v), v.first, v.free, v.loose);
    FirstFree(l, v);
  }

  lemma NewShape(l: Links, v: Layout, e: Element)
    requires Shape(l, v) && e !in l.next && e != v.mark
    ensures Shape(Links(l.next[e := null], l.prev[e := null]), v.(loose := v.loose + {e}))
  {
    Outer(l, v);
    hide Pool;
    PoolNew(l.next, l.prev, null, v.mark, Chain(v), v.first, v.free, v.loose, e);
  }

  lemma LooseIn(l: Links, v: Layout, e: Element)
    requires Shape(l, v) && e in v.loose
    ensures e in l.next && e !in Chain(v)
  {
    assert e in Members(Chain(v)) <==> e in Chain(v);
  }

  lemma FirstFree(l: Links, v: Layout)
    requires Shape(l, v) && v.free != []
    ensures v.first == v.free[0]
  {
  }

  lemma Outer(l: Links, v: Layout)
    requires Shape(l, v)
    ensures v.head != v.tail && v.head !in v.list && v.tail !in v.list && Distinct(v.list)
    ensures v.head in l.next && v.tail in l.next && v.head !in v.loose && v.tail !in v.loose
    ensures v.first == null <==> v.free == []
    ensures l.prev.Keys == l.next.Keys && null !in l.next && v.mark !in l.next
  {
    ChainAt(v);
    assert v.head in Members(Chain(v)) && v.tail in Members(Chain(v));
    forall i, j | 0 <= i < j < |v.list|
      ensures v.list[i] != v.list[j]
    {
      assert Chain(v)[i + 1] == v.list[i] && Chain(v)[j + 1] == v.list[j];
    }
    if v.free != [] {
      assert v.free[0] in Members<Element?>(v.free);
    }
  }

  /** The link fields tell where an element is. */
  lemma Whereabouts(l: Links, v: Layout, e: Element)
    requires Shape(l, v) && e in l.next
    ensures e in l.prev && (e in v.list <==> e != v.tail && l.prev[e] != null && l.prev[e] != v.mark)
    ensures e in v.free <==> l.prev[e] == v.mark
    ensures e in v.loose <==> l.prev[e] == null && l.next[e] == null
    ensures e in v.list || e == v.head ==> l.next[e] != null
    ensures e == v.tail ==> l.prev[e] != null && l.prev[e] != v.mark
    ensures e == v.head || e == v.tail || e in v.list || e in v.free || e in v.loose
  {
    ChainAt(v);
    if e in v.list {
      var i :| 0 <= i < |v.list| && v.list[i] == e;
      Adjacent(l, v, i);
      Adjacent(l, v, i + 1);
    }
    Adjacent(l, v, 0);
    Adjacent(l, v, |v.list|);
    assert e in Members(Chain(v)) <==> e in Chain(v);
    assert e in Members<Element?>(v.free) <==> e in v.free;
  }

  // ----- linking an element that is not loose

  /** Two stacks from the same place that agree on the links of the first one, up
      to its last node, begin alike. */
  lemma {:induction false} SameStack(next: map<Element?, Element?>, next': map<Element?, Element?>, first: Element?,
                                     f: seq<Element>, f': seq<Element>, i: nat)
    requires Stack(next, first, null, f) && Stack(next', first, null, f') && i < |f|
    requires forall j :: 0 <= j < i ==> f[j] in next' && next'[f[j]] == next[f[j]]
    ensures i < |f'| && f'[i] == f[i]
  {
    if i > 0 {
      SameStack(next, next', first, f, f', i - 1);
      assert next[f[i - 1]] == From<Element?>(f, i, null);
      assert next'[f'[i - 1]] == From<Element?>(f', i, null);
    }
  }

  /** An element of the free list, linked into the list as well, leaves links
      that are no layout at all. */
  lemma LinkedFree(l: Links, v: Layout, i: nat, x: Element, y: Element, k: nat, v': Layout)
    requires Shape(l, v) && i <= |v.list| && x == Chain(v)[i] && y == Chain(v)[i + 1] && k < |v.free|
    requires v'.mark == v.mark && v'.first == v.first
    ensures !Shape(LinkedIn(l, v.free[k], x, y), v')
  {
    var l' := LinkedIn(l, v.free[k], x, y);
    Adjacent(l, v, i);
    FreeApart(l, v, i);
    if Shape(l', v') {
      SameStack(l.next, l'.next, v.first, v.free, v'.free, k);
      FreeMarked(l', v', k);
    }
  }

  /** Where an element with a next one is, and its next one with it. */
  lemma NextPlace(l: Links, v: Layout, m: Element) returns (listed: bool, p: nat)
    requires Shape(l, v) && m in l.next && l.next[m] != null
    ensures if listed then p <= |v.list| && Chain(v)[p] == m && Chain(v)[p + 1] == l.next[m]
            else p + 1 < |v.free| && v.free[p] == m && v.free[p + 1] == l.next[m]
  {
    Whereabouts(l, v, m);
    ChainAt(v);
    if m in Chain(v) {
      listed := true;
      p :| 0 <= p < |Chain(v)| && Chain(v)[p] == m;
      Adjacent(l, v, if p <= |v.list| then p else |v.list|);
    } else {
      listed := false;
      p :| 0 <= p < |v.free| && v.free[p] == m;
      assert l.next[v.free[p]] == From<Element?>(v.free, p + 1, null);
    }
  }

  /** No two elements have the same next one, and none is its own. */
  lemma OneBefore(l: Links, v: Layout, m: Element, n: Element)
    requires Shape(l, v) && m in l.next && n in l.next && l.next[m] == l.next[n] && l.next[m] != null
    ensures m == n && l.next[m] != m
  {
    var inM, p := NextPlace(l, v, m);
    var inN, q := NextPlace(l, v, n);
    hide Between;
    FreeApart(l, v, if inM then p + 1 else if inN then q + 1 else 0);
    ChainAt(v);
    assert Distinct(Chain(v));
  }

  /** An element of the list, linked in a second time, leaves links that are no
      layout at all either. */
  lemma LinkedTwice(l: Links, v: Layout, i: nat, x: Element, y: Element, k: nat, v': Layout)
    requires Shape(l, v) && i <= |v.list| && x == Chain(v)[i] && y == Chain(v)[i + 1] && k < |v.list|
    ensures !Shape(LinkedIn(l, v.list[k], x, y), v')
  {
    var e, l' := v.list[k], LinkedIn(l, v.list[k], x, y);
    hide Shape, Between;
    Adjacent(l, v, i);
    Adjacent(l, v, k);
    Places(l, v, k + 1);
    var a := Chain(v)[k];
    if Shape(l', v') {
      if x == e || y == e {
        OneBefore(l', v', e, e);
      } else {
        OneBefore(l', v', x, a);
      }
    }
  }

  /** Only a loose element can be linked in. */
  lemma NotLoose(l: Links, v: Layout, i: nat, x: Element, y: Element, e: Element)
    requires Shape(l, v) && i <= |v.list| && x == Chain(v)[i] && y == Chain(v)[i + 1]
    requires e in l.next && e != v.head && e != v.tail && e !in v.loose
    ensures forall v': Layout :: v'.mark == v.mark && v'.first == v.first ==> !Shape(LinkedIn(l, e, x, y), v')
  {
    hide Shape, Between;
    Whereabouts(l, v, e);
    forall v': Layout | v'.mark == v.mark && v'.first == v.first
      ensures !Shape(LinkedIn(l, e, x, y), v')
    {
      if e in v.list {
        var k :| 0 <= k < |v.list| && v.list[k] == e;
        LinkedTwice(l, v, i, x, y, k, v');
      } else {
        var k :| 0 <= k < |v.free| && v.free[k] == e;
        LinkedFree(l, v, i, x, y, k, v');
      }
    }
  }

  lemma FreeMarked(l: Links, v: Layout, i: nat)
    requires Shape(l, v) && i < |v.free|
    ensures v.free[i] in l.prev && l.prev[v.free[i]] == v.mark
  {
    assert v.free[i] in Members<Element?>(v.free);
  }

  lemma FreeApart(l: Links, v: Layout, i: nat)
    requires Shape(l, v) && i <= |v.list| + 1
    ensures forall j :: 0 <= j < |v.free| ==> v.free[j] in l.next && v.free[j] != Chain(v)[i]
    ensures forall j, k :: 0 <= j < k < |v.free| ==> v.free[j] != v.free[k]
  {
    assert Chain(v)[i] in Members(Chain(v));
    assert forall j :: 0 <= j < |v.free| ==> v.free[j] in Members<Element?>(v.free);
  }
}
