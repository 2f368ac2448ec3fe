/** Doubly linked chains and singly linked stacks as facts about the link
    fields. `N` is the type of nodes; `next` and `prev` hold the link fields. */
module Chains {

  ghost predicate Distinct<N>(c: seq<N>) {
    forall i, j :: 0 <= i < j < |c| ==> c[i] != c[j]
  }

  /** The links lead along `c` and back. */
  ghost predicate Linked<N>(next: map<N, N>, prev: map<N, N>, c: seq<N>) {
    && Distinct(c)
    && (forall i :: 0 <= i < |c| - 1 ==> c[i] in next && next[c[i]] == c[i + 1])
    && (forall i :: 0 < i < |c| ==> c[i] in prev && prev[c[i]] == c[i - 1])
  }

  /** The `next` links lead from `first` along `f` to `nil`. */
  ghost predicate Stack<N>(next: map<N, N>, first: N, nil: N, f: seq<N>) {
    && Distinct(f)
    && first == From(f, 0, nil)
    && forall i :: 0 <= i < |f| ==> f[i] in next && next[f[i]] == From(f, i + 1, nil)
  }

  ghost function From<N>(f: seq<N>, i: nat, nil: N): N {
    if i < |f| then f[i] else nil
  }

  ghost function Members<N>(c: seq<N>): set<N> {
    set n | n in c
  }

  function Inserted<N>(c: seq<N>, i: nat, e: N): seq<N>
    requires i <= |c|
  {
    c[..i] + [e] + c[i..]
  }

  function Removed<N>(c: seq<N>, i: nat): seq<N>
    requires i < |c|
  {
    c[..i] + c[i + 1..]
  }

  /** The elements after an insertion or a removal, from those before it. */
  lemma InsertedFrom<N>(c: seq<N>, i: nat, e: N)
    requires i <= |c|
    ensures |Inserted(c, i, e)| == |c| + 1
    ensures forall k :: 0 <= k <= |c| ==> Inserted(c, i, e)[k] == if k < i then c[k] else if k == i then e else c[k - 1]
  {
  }

  lemma RemovedFrom<N>(c: seq<N>, i: nat)
    requires i < |c|
    ensures |Removed(c, i)| == |c| - 1
    ensures forall k :: 0 <= k < |c| - 1 ==> Removed(c, i)[k] == c[if k < i then k else k + 1]
  {
  }

  /** Where the elements before an insertion or a removal are after it. */
  lemma InsertedBack<N>(c: seq<N>, i: nat, e: N)
    requires i <= |c|
    ensures forall k :: 0 <= k < |c| ==> c[k] == Inserted(c, i, e)[if k < i then k else k + 1]
  {
  }

  lemma RemovedBack<N>(c: seq<N>, i: nat)
    requires i < |c|
    ensures forall k :: 0 <= k < |c| && k != i ==> c[k] == Removed(c, i)[if k < i then k else k - 1]
  {
  }

  lemma InsertedMembers<N>(c: seq<N>, i: nat, e: N)
    requires i <= |c|
    ensures Members(Inserted(c, i, e)) == Members(c) + {e}
  {
    assert c == c[..i] + c[i..];
  }

  lemma RemovedMembers<N>(c: seq<N>, i: nat)
    requires i < |c| && Distinct(c)
    ensures Members(Removed(c, i)) == Members(c) - {c[i]}
  {
    RemoveDistinct(c, i);
    assert c == c[..i] + [c[i]] + c[i + 1..];
  }

  ghost predicate Forward<N>(next: map<N, N>, c: seq<N>, k: int)
    requires 0 <= k < |c| - 1
  {
    c[k] in next && next[c[k]] == c[k + 1]
  }

  ghost predicate Backward<N>(prev: map<N, N>, c: seq<N>, k: int)
    requires 0 < k < |c|
  {
    c[k] in prev && prev[c[k]] == c[k - 1]
  }

  lemma InsertDistinct<N>(c: seq<N>, i: nat, e: N)
    requires Distinct(c) && i <= |c| && e !in c
    ensures Distinct(Inserted(c, i, e))
  {
    InsertedFrom(c, i, e);
    hide Inserted;
  }

  lemma InsertForward<N>(next: map<N, N>, prev: map<N, N>, c: seq<N>, i: nat, e: N, k: nat)
    requires Linked(next, prev, c) && 0 < i < |c| && e !in c && k < |c|
    ensures |Inserted(c, i, e)| == |c| + 1 && Forward(next[e := c[i]][c[i - 1] := e], Inserted(c, i, e), k)
  {
    InsertedFrom(c, i, e);
    hide Inserted;
    if k < i - 1 {
      assert c[k] != c[i - 1] && c[k] in c;
    } else if k > i {
      assert c[k - 1] != c[i - 1] && c[k - 1] in c;
    }
  }

  lemma InsertBackward<N>(next: map<N, N>, prev: map<N, N>, c: seq<N>, i: nat, e: N, k: nat)
    requires Linked(next, prev, c) && 0 < i < |c| && e !in c && 0 < k <= |c|
    ensures |Inserted(c, i, e)| == |c| + 1 && Backward(prev[e := c[i - 1]][c[i] := e], Inserted(c, i, e), k)
  {
    InsertedFrom(c, i, e);
    hide Inserted;
    if k < i {
      assert c[k] != c[i] && c[k] in c;
    } else if k > i + 1 {
      assert c[k - 1] != c[i] && c[k - 1] in c;
    }
  }

  /** Linking `e` in front of the node with index `i`. */
  lemma InsertLinked<N>(next: map<N, N>, prev: map<N, N>, c: seq<N>, i: nat, e: N)
    requires Linked(next, prev, c) && 0 < i < |c| && e !in c
    ensures Linked(next[e := c[i]][c[i - 1] := e], prev[e := c[i - 1]][c[i] := e], Inserted(c, i, e))
  {
    hide Inserted, Distinct;
    var c', next', prev' := Inserted(c, i, e), next[e := c[i]][c[i - 1] := e], prev[e := c[i - 1]][c[i] := e];
    InsertDistinct(c, i, e);
    InsertForward(next, prev, c, i, e, 0);
    forall k | 0 <= k < |c'| - 1
      ensures Forward(next', c', k)
    {
      InsertForward(next, prev, c, i, e, k);
    }
    forall k | 0 < k < |c'|
      ensures Backward(prev', c', k)
    {
      InsertBackward(next, prev, c, i, e, k);
    }
    AllLinked(next', prev', c');
  }

  lemma AllLinked<N>(next: map<N, N>, prev: map<N, N>, c: seq<N>)
    requires Distinct(c)
    requires forall k :: 0 <= k < |c| - 1 ==> Forward(next, c, k)
    requires forall k :: 0 < k < |c| ==> Backward(prev, c, k)
    ensures Linked(next, prev, c)
  {
    forall k | 0 <= k < |c| - 1
      ensures c[k] in next && next[c[k]] == c[k + 1]
    {
      assert Forward(next, c, k);
    }
    forall k | 0 < k < |c|
      ensures c[k] in prev && prev[c[k]] == c[k - 1]
    {
      assert Backward(prev, c, k);
    }
  }

  lemma RemoveDistinct<N>(c: seq<N>, i: nat)
    requires Distinct(c) && i < |c|
    ensures Distinct(Removed(c, i)) && c[i] !in Removed(c, i)
  {
    RemovedFrom(c, i);
    hide Removed;
  }

  lemma RemoveForward<N>(next: map<N, N>, prev: map<N, N>, c: seq<N>, i: nat, k: nat)
    requires Linked(next, prev, c) && 0 < i < |c| - 1 && k < |c| - 2
    ensures |Removed(c, i)| == |c| - 1 && Forward(next[c[i - 1] := c[i + 1]], Removed(c, i), k)
  {
    RemovedFrom(c, i);
    hide Removed;
    if k < i - 1 {
      assert c[k] != c[i - 1];
    } else if k >= i {
      assert c[k + 1] != c[i - 1];
    }
  }

  lemma RemoveBackward<N>(next: map<N, N>, prev: map<N, N>, c: seq<N>, i: nat, k: nat)
    requires Linked(next, prev, c) && 0 < i < |c| - 1 && 0 < k < |c| - 1
    ensures |Removed(c, i)| == |c| - 1 && Backward(prev[c[i + 1] := c[i - 1]], Removed(c, i), k)
  {
    RemovedFrom(c, i);
    hide Removed;
    if k < i {
      assert c[k] != c[i + 1];
    } else if k > i {
      assert c[k + 1] != c[i + 1];
    }
  }

  /** Unlinking the node with index `i`. */
  lemma RemoveLinked<N>(next: map<N, N>, prev: map<N, N>, c: seq<N>, i: nat)
    requires Linked(next, prev, c) && 0 < i < |c| - 1
    ensures Linked(next[c[i - 1] := c[i + 1]], prev[c[i + 1] := c[i - 1]], Removed(c, i))
    ensures c[i] !in Removed(c, i)
  {
    hide Removed, Distinct;
    var c', next', prev' := Removed(c, i), next[c[i - 1] := c[i + 1]], prev[c[i + 1] := c[i - 1]];
    RemoveDistinct(c, i);
    RemoveForward(next, prev, c, i, 0);
    forall k | 0 <= k < |c'| - 1
      ensures Forward(next', c', k)
    {
      RemoveForward(next, prev, c, i, k);
    }
    forall k | 0 < k < |c'|
      ensures Backward(prev', c', k)
    {
      RemoveBackward(next, prev, c, i, k);
    }
    AllLinked(next', prev', c');
  }

  /** Writes to nodes off the chain. */
  lemma KeepLinked<N>(next: map<N, N>, prev: map<N, N>, next': map<N, N>, prev': map<N, N>, c: seq<N>)
    requires Linked(next, prev, c)
    requires forall n :: n in Members(c) && n in next ==> n in next' && next'[n] == next[n]
    requires forall n :: n in Members(c) && n in prev ==> n in prev' && prev'[n] == prev[n]
    ensures Linked(next', prev', c)
  {
  }

  lemma KeepStack<N>(next: map<N, N>, next': map<N, N>, first: N, nil: N, f: seq<N>)
    requires Stack(next, first, nil, f)
    requires forall n :: n in Members(f) && n in next ==> n in next' && next'[n] == next[n]
    ensures Stack(next', first, nil, f)
  {
  }

  lemma PushStack<N>(next: map<N, N>, first: N, nil: N, f: seq<N>, e: N)
    requires Stack(next, first, nil, f) && e !in f
    ensures Stack(next[e := first], e, nil, [e] + f)
  {
    var f' := [e] + f;
    forall i | 0 <= i < |f'|
      ensures f'[i] in next[e := first] && next[e := first][f'[i]] == From(f', i + 1, nil)
    {
      assert From(f', i + 1, nil) == From(f, i, nil);
      if i > 0 {
        assert f'[i] == f[i - 1];
      }
    }
  }

  lemma PopStack<N>(next: map<N, N>, first: N, nil: N, f: seq<N>)
    requires Stack(next, first, nil, f) && f != []
    ensures first == f[0] && first in next && Stack(next, next[first], nil, f[1..])
    ensures Members(f) == Members(f[1..]) + {first} && first !in Members(f[1..])
  {
    var f' := f[1..];
    assert first == f[0] && f == [f[0]] + f';
    assert From(f', 0, nil) == From(f, 1, nil);
    forall i | 0 <= i < |f'|
      ensures f'[i] in next && next[f'[i]] == From(f', i + 1, nil)
    {
      assert From(f', i + 1, nil) == From(f, i + 2, nil);
      assert f'[i] == f[i + 1];
    }
  }

  lemma LinkedDistinct<N>(next: map<N, N>, prev: map<N, N>, c: seq<N>)
    requires Linked(next, prev, c)
    ensures Distinct(c)
  {
  }

  lemma Triple<N>(c: seq<N>, i: nat)
    requires Distinct(c) && 0 < i < |c| - 1
    ensures {c[i - 1], c[i], c[i + 1]} <= Members(c) && c[i - 1] != c[i] && c[i] != c[i + 1] && c[i - 1] != c[i + 1]
  {
  }

  // ----- a chain and a free list that share the link fields

  /** Chain `c` and free list `f` split the nodes between them. */
  ghost predicate Store<N>(next: map<N, N>, prev: map<N, N>, c: seq<N>, first: N, nil: N, f: seq<N>) {
    && Linked(next, prev, c) && Stack(next, first, nil, f)
    && Members(c) !! Members(f) && Members(c) + Members(f) == next.Keys == prev.Keys && nil !in next
  }

  /** New nodes become the free list, which was empty. */
  lemma StoreGrow<N>(next: map<N, N>, prev: map<N, N>, next': map<N, N>, prev': map<N, N>, c: seq<N>, nil: N, k: seq<N>)
    requires Store(next, prev, c, nil, nil, []) && k != [] && Stack(next', k[0], nil, k)
    requires Members(k) !! next.Keys && next'.Keys == prev'.Keys == next.Keys + Members(k) && nil !in k
    requires forall n :: n in next ==> next'[n] == next[n] && n in prev && prev'[n] == prev[n]
    ensures Store(next', prev', c, k[0], nil, k)
  {
    hide Linked, Stack;
    KeepLinked(next, prev, next', prev', c);
  }

  /** The node with index `i` leaves the chain for the free list. */
  lemma StoreRemove<N>(next: map<N, N>, prev: map<N, N>, c: seq<N>, first: N, nil: N, f: seq<N>, i: nat)
    requires Store(next, prev, c, first, nil, f) && 0 < i < |c| - 1
    ensures Store(next[c[i - 1] := c[i + 1]][c[i] := first], prev[c[i + 1] := c[i - 1]],
                  Removed(c, i), c[i], nil, [c[i]] + f)
  {
    hide Linked, Stack, Removed, Distinct;
    var x, e, y := c[i - 1], c[i], c[i + 1];
    LinkedDistinct(next, prev, c);
    Triple(c, i);
    RemoveLinked(next, prev, c, i);
    RemovedMembers(c, i);
    KeepLinked(next[x := y], prev[y := x], next[x := y][e := first], prev[y := x], Removed(c, i));
    KeepStack(next, next[x := y], first, nil, f);
    PushStack(next[x := y], first, nil, f, e);
    assert Members([e] + f) == Members(f) + {e};
  }

  /** The first free node joins the chain in front of index `i`. */
  lemma StoreInsert<N>(next: map<N, N>, prev: map<N, N>, c: seq<N>, first: N, nil: N, f: seq<N>, i: nat)
    requires Store(next, prev, c, first, nil, f) && 0 < i < |c| && f != []
    ensures first == f[0] && first in next && first !in c
    ensures Store(next[first := c[i]][c[i - 1] := first], prev[first := c[i - 1]][c[i] := first],
                  Inserted(c, i, first), next[first], nil, f[1..])
  {
    hide Linked, Stack, Inserted;
    var x, y := c[i - 1], c[i];
    PopStack(next, first, nil, f);
    assert {x, y} <= Members(c);
    InsertLinked(next, prev, c, i, first);
    InsertedMembers(c, i, first);
    KeepStack(next, next[first := y][x := first], next[first], nil, f[1..]);
  }

  // ----- a chain, a free list and loose nodes

  /** Loose nodes have no links; free nodes carry `mark` as their `prev`, so the
      links of a node tell where it is. */
  ghost predicate Marked<N>(next: map<N, N>, prev: map<N, N>, nil: N, mark: N, f: set<N>, loose: set<N>) {
    && (forall n :: n in loose ==> n in next && n in prev && next[n] == nil && prev[n] == nil)
    && (forall n :: n in f ==> n in prev && prev[n] == mark)
  }

  ghost predicate Split<N>(c: set<N>, f: set<N>, loose: set<N>, all: set<N>) {
    c !! f && c !! loose && f !! loose && c + f + loose == all
  }

  ghost predicate Pool<N>(next: map<N, N>, prev: map<N, N>, nil: N, mark: N, c: seq<N>, first: N, f: seq<N>,
      loose: set<N>)
  {
    && Linked(next, prev, c) && Stack(next, first, nil, f)
    && Split(Members(c), Members(f), loose, next.Keys) && prev.Keys == next.Keys && nil !in next && mark !in next
    && Marked(next, prev, nil, mark, Members(f), loose)
  }

  lemma PoolRemove<N>(next: map<N, N>, prev: map<N, N>, nil: N, mark: N, c: seq<N>, first: N, f: seq<N>,
      loose: set<N>, i: nat)
    requires Pool(next, prev, nil, mark, c, first, f, loose) && 0 < i < |c| - 1
    ensures Pool(next[c[i - 1] := c[i + 1]][c[i] := nil], prev[c[i + 1] := c[i - 1]][c[i] := nil],
                 nil, mark, Removed(c, i), first, f, loose + {c[i]})
  {
    hide Linked, Stack, Removed, Distinct;
    var x, e, y := c[i - 1], c[i], c[i + 1];
    LinkedDistinct(next, prev, c);
    Triple(c, i);
    RemoveLinked(next, prev, c, i);
    RemovedMembers(c, i);
    var next', prev' := next[x := y][e := nil], prev[y := x][e := nil];
    KeepLinked(next[x := y], prev[y := x], next', prev', Removed(c, i));
    KeepStack(next, next', first, nil, f);
  }

  lemma PoolInsert<N>(next: map<N, N>, prev: map<N, N>, nil: N, mark: N, c: seq<N>, first: N, f: seq<N>,
      loose: set<N>, i: nat, e: N)
    requires Pool(next, prev, nil, mark, c, first, f, loose) && 0 < i < |c| && e in loose
    ensures Pool(next[e := c[i]][c[i - 1] := e], prev[e := c[i - 1]][c[i] := e],
                 nil, mark, Inserted(c, i, e), first, f, loose - {e})
  {
    hide Linked, Stack, Inserted;
    var x, y := c[i - 1], c[i];
    assert {x, y} <= Members(c) && e !in Members(c);
    InsertLinked(next, prev, c, i, e);
    InsertedMembers(c, i, e);
    KeepStack(next, next[e := y][x := e], first, nil, f);
  }

  lemma PoolFree<N>(next: map<N, N>, prev: map<N, N>, nil: N, mark: N, c: seq<N>, first: N, f: seq<N>, loose: set<N>,
      e: N)
    requires Pool(next, prev, nil, mark, c, first, f, loose) && e in loose
    ensures Pool(next[e := first], prev[e := mark], nil, mark, c, e, [e] + f, loose - {e})
  {
    hide Linked, Stack;
    assert e !in Members(c) && e !in Members(f);
    PushStack(next, first, nil, f, e);
    assert Members([e] + f) == Members(f) + {e};
    KeepLinked(next, prev, next[e := first], prev[e := mark], c);
  }

  lemma PoolReuse<N>(next: map<N, N>, prev: map<N, N>, nil: N, mark: N, c: seq<N>, first: N, f: seq<N>, loose: set<N>)
    requires Pool(next, prev, nil, mark, c, first, f, loose) && f != []
    ensures first in next && first !in loose && first !in c
    ensures Pool(next[first := nil], prev[first := nil], nil, mark, c, next[first], f[1..], loose + {first})
  {
    hide Linked, Stack;
    PopStack(next, first, nil, f);
    assert first !in Members(c);
    KeepLinked(next, prev, next[first := nil], prev[first := nil], c);
    KeepStack(next, next[first := nil], next[first], nil, f[1..]);
  }

  lemma PoolNew<N>(next: map<N, N>, prev: map<N, N>, nil: N, mark: N, c: seq<N>, first: N, f: seq<N>, loose: set<N>,
      e: N)
    requires Pool(next, prev, nil, mark, c, first, f, loose) && e !in next && e != nil && e != mark
    ensures Pool(next[e := nil], prev[e := nil], nil, mark, c, first, f, loose + {e})
  {
    hide Linked, Stack;
    KeepLinked(next, prev, next[e := nil], prev[e := nil], c);
    KeepStack(next, next[e := nil], first, nil, f);
  }
}
