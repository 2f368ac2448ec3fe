/** The linked list of list.c with iterators that follow removals. */
module WombatList {
  import opened Chains
  import opened ListLinks

  /** How an insertion at a given position went. */
  datatype InsertResult = Accepted | Rejected | WildPointer

  class ListIterator {
    var current: Element?

    constructor (current: Element?)
      ensures this.current == current
    {
      this.current := current;
    }
  }

  method Sentinels() returns (h: Element, t: Element)
    ensures fresh(h) && fresh(t) && h != t && h.next == t && t.prev == h && h.prev == t.next == null
  {
    h := new Element();
    t := new Element();
    h.next, t.prev := t, h;
  }

  class WList {
    const head: Element
    const tail: Element
    const mark: Element
    var freeList: Element?
    var size: nat
    var iterators: seq<ListIterator>
    ghost var links: Links
    ghost var list: seq<Element>
    ghost var free: seq<Element>
    ghost var loose: set<Element>

    // ----- state

    ghost function View(): Layout
      reads `freeList, `list, `free, `loose
    {
      Layout(head, tail, mark, freeList, list, free, loose)
    }

    ghost predicate Faithful()
      reads `links, links.next.Keys
    {
      forall n :: n in links.next ==> n != null && n in links.prev && n.next == links.next[n] && n.prev == links.prev[n]
    }

    /** The link fields of all elements form the list, the free list and loose elements. */
    ghost predicate Intact()
      reads this, links.next.Keys
    {
      Faithful() && Shape(links, View()) && size == |list|
    }

    /** Every iterator is on a linked element or on a sentinel. */
    ghost predicate Settled()
      reads this, iterators
    {
      Distinct(iterators) && forall it :: it in iterators ==> it.current in Chain(View())
    }

    ghost predicate Valid()
      reads this, links.next.Keys, iterators
    {
      Intact() && Settled()
    }

    // ----- writes

    method WriteNext(n: Element, x: Element?)
      requires Faithful() && n in links.next
      modifies `links, n`next
      ensures Faithful() && links == old(links).(next := old(links).next[n := x])
    {
      n.next := x;
      links := links.(next := links.next[n := x]);
    }

    method WritePrev(n: Element, x: Element?)
      requires Faithful() && n in links.next
      modifies `links, n`prev
      ensures Faithful() && links == old(links).(prev := old(links).prev[n := x])
    {
      n.prev := x;
      links := links.(prev := links.prev[n := x]);
    }

    lemma Fields(n: Element)
      requires Faithful() && n in links.next
      ensures n in links.prev && n.next == links.next[n] && n.prev == links.prev[n]
    {
    }

    constructor ()
      ensures Valid() && list == [] && free == [] && loose == {} && iterators == [] && size == 0
      ensures fresh(links.next.Keys)
    {
      var h, t := Sentinels();
      var m := new Element();
      head, tail, mark := h, t, m;
      freeList, size, iterators := null, 0, [];
      list, free, loose := [], [], {};
      links := Links(map[h := t, t := null], map[h := null, t := h]);
      EmptyShape(h, t, m);
      hide Shape;
    }

    // ----- elements

    method AllocateElement() returns (e: Element)
      requires Valid()
      modifies `links, `freeList, `free, `loose, links.next.Keys
      ensures Valid() && e in loose && e !in old(loose) && loose == old(loose) + {e}
      ensures old(free) != [] ==> free == old(free)[1..] && e == old(free)[0] && links.next.Keys == old(links.next.Keys)
      ensures old(free) == [] ==> free == [] && fresh(e) && links.next.Keys == old(links.next.Keys) + {e}
    {
      hide Shape, Between, Faithful;
      Outer(links, View());
      if freeList != null {
        e := ReuseElement();
      } else {
        e := new Element();
        NewShape(links, View(), e);
        Adopt(e);
        loose := loose + {e};
      }
    }

    method ReuseElement() returns (e: Element)
      requires Valid() && freeList != null
      modifies `links, `freeList, `free, `loose, links.next.Keys
      ensures Valid() && e in loose && e !in old(loose) && loose == old(loose) + {e}
      ensures old(free) != [] && free == old(free)[1..] && e == old(free)[0] && links.next.Keys == old(links.next.Keys)
    {
      hide Shape, Between, Faithful;
      e := freeList;
      ReuseShape(links, View(), e);
      Fields(e);
      freeList := e.next;
      Clear(e);
      free, loose := free[1..], loose + {e};
    }

    method Clear(e: Element)
      requires Faithful() && e in links.next
      modifies `links, e
      ensures Faithful() && links == Links(old(links).next[e := null], old(links).prev[e := null])
    {
      WriteNext(e, null);
      WritePrev(e, null);
    }

    ghost method Adopt(e: Element)
      requires Faithful() && e.next == null && e.prev == null
      modifies `links
      ensures Faithful() && links == Links(old(links).next[e := null], old(links).prev[e := null])
    {
      links := Links(links.next[e := null], links.prev[e := null]);
    }

    /** Only a loose element is freed; one in the list or already free stays as it is. */
    method FreeElement(e: Element)
      requires Valid() && e in links.next && e != tail
      modifies `links, `freeList, `free, `loose, links.next.Keys
      ensures Valid() && links.next.Keys == old(links.next.Keys)
      ensures if e in old(loose) then free == [e] + old(free) && loose == old(loose) - {e}
              else links == old(links) && free == old(free) && loose == old(loose) && freeList == old(freeList)
    {
      hide Shape, Between, Faithful;
      Whereabouts(links, View(), e);
      Fields(e);
      if e.prev != null || e.next != null {
        return;
      }
      FreeShape(links, View(), e);
      WritePrev(e, mark);
      WriteNext(e, freeList);
      freeList := e;
      free, loose := [e] + free, loose - {e};
    }

    method LinkBetween(e: Element, x: Element, y: Element)
      requires Faithful() && e in links.next && x in links.next && y in links.next
      modifies `links, e, x`next, y`prev
      ensures Faithful() && links == LinkedIn(old(links), e, x, y)
    {
      hide Faithful;
      WriteNext(e, y);
      WritePrev(e, x);
      WriteNext(x, e);
      WritePrev(y, e);
    }

    /** insert_before, in front of `y` at index `i`, which tests nothing. The writes
        are the same for every element; a loose one is then in the list, and after
        a freed or a listed one no list and no free list fit the links. */
    method LinkBefore(e: Element, y: Element, ghost i: nat)
      requires Valid() && Linkable(e) && i <= |list| && y == Chain(View())[i + 1]
      modifies `links, `list, `loose, `size, links.next.Keys
      ensures links.next.Keys == old(links.next.Keys) && y.prev == e
      ensures Valid() <==> e in old(loose)
      ensures e in old(loose) ==> list == Inserted(old(list), i, e) && loose == old(loose) - {e}
      ensures e !in old(loose) ==> list == old(list) && loose == old(loose)
      ensures e !in old(loose) ==>
        (forall v: Layout :: v.mark == mark && v.first == freeList ==> !Shape(links, v))
    {
      hide Shape, Between, Faithful, Inserted;
      Adjacent(links, View(), i);
      Fields(y);
      ghost var l0, v0, x := links, View(), y.prev;
      LinkBetween(e, y.prev, y);
      size := size + 1;
      Fields(y);
      if e in loose {
        InsertShape(l0, v0, i, x, y, e);
        InsertedFrom(list, i, e);
        StillThere(v0, i, e);
        list, loose := Inserted(list, i, e), loose - {e};
      } else {
        NotLoose(l0, v0, i, x, y, e);
      }
    }

    /** An element that a caller can have: not one of the sentinels. */
    ghost predicate Linkable(e: Element)
      reads `links
    {
      e in links.next && e != head && e != tail
    }

    method PushBack(e: Element)
      requires Valid() && Linkable(e)
      modifies `links, `list, `loose, `size, links.next.Keys
      ensures links.next.Keys == old(links.next.Keys) && (Valid() <==> e in old(loose))
      ensures e in old(loose) ==> list == old(list) + [e] && loose == old(loose) - {e}
      ensures e !in old(loose) ==> list == old(list) && loose == old(loose)
      ensures e !in old(loose) ==>
        (forall v: Layout :: v.mark == mark && v.first == freeList ==> !Shape(links, v))
    {
      hide Shape, Between, Faithful;
      Places(links, View(), |list| + 1);
      LinkBefore(e, tail, |list|);
    }

    method PushFront(e: Element)
      requires Valid() && Linkable(e)
      modifies `links, `list, `loose, `size, links.next.Keys
      ensures links.next.Keys == old(links.next.Keys) && (Valid() <==> e in old(loose))
      ensures e in old(loose) ==> list == [e] + old(list) && loose == old(loose) - {e}
      ensures e !in old(loose) ==> list == old(list) && loose == old(loose)
      ensures e !in old(loose) ==>
        (forall v: Layout :: v.mark == mark && v.first == freeList ==> !Shape(links, v))
    {
      hide Shape, Between, Faithful;
      Places(links, View(), 0);
      Adjacent(links, View(), 0);
      Fields(head);
      LinkBefore(e, head.next, 0);
    }

    /** list_insert_before. Its test turns away a position that is not in the list
        and an element that has a next one. It lets through a freed position,
        whose `prev` is the pointer value -1, and the last freed element, which
        then is in both lists. */
    method InsertBefore(position: Element, e: Element, ghost i: nat) returns (r: InsertResult)
      requires Valid() && position in links.next && e in links.next && e != tail
      requires i <= |list| && (position in list || position == tail ==> Chain(View())[i + 1] == position)
      modifies `links, `list, `loose, `size, links.next.Keys
      ensures links.next.Keys == old(links.next.Keys)
      ensures r == Rejected <==> old(position.prev) == null || old(e.next) != null
      ensures r == Rejected ==> Valid() && list == old(list) && loose == old(loose) && links == old(links)
      ensures r == WildPointer <==> position in old(free) && old(e.next) == null
      ensures r == Accepted ==> (Valid() <==> e in old(loose))
      ensures r == Accepted && e in old(loose) ==> list == Inserted(old(list), i, e) && loose == old(loose) - {e}
      ensures r == Accepted ==> position.prev == e
      ensures r == Accepted && e !in old(loose) ==> e in old(free) && list == old(list)
      ensures r == Accepted && e !in old(loose) ==>
        (forall v: Layout :: v.mark == mark && v.first == freeList ==> !Shape(links, v))
      ensures Valid() && r != WildPointer <==>
        old(position.prev) == null || old(e.next) != null || (position !in old(free) && e in old(loose))
    {
      hide Shape, Between, Faithful, Inserted;
      Whereabouts(links, View(), position);
      Whereabouts(links, View(), e);
      Fields(position);
      Fields(e);
      if position.prev == null || e.next != null {
        return Rejected;
      }
      if position.prev == mark {
        return WildPointer;
      }
      LinkBefore(e, position, i);
      r := Accepted;
    }

    // ----- removal

    /** Where the iterators on element `i` go when it is removed: to the next
        element, or from the last one to the first, or to the tail. */
    ghost function Successor(i: nat): Element
      requires i < |list|
      reads `list
    {
      if i + 1 < |list| then list[i + 1] else if |list| > 1 then list[0] else tail
    }

    method AdjustIterators(e: Element, ghost i: nat)
      requires Valid() && e in links.next && (if e in list then i < |list| && list[i] == e else e != head && e != tail)
      modifies iterators
      ensures Intact()
      ensures forall it :: it in iterators ==>
        it.current == if e in list && old(it.current) == e then Successor(i) else old(it.current)
    {
      hide Shape, Between, Faithful;
      var next := NextOnRemoval(e, i);
      ChainAt(View());
      var k := 0;
      while k < |iterators|
        invariant 0 <= k <= |iterators|
        invariant forall j :: 0 <= j < k ==>
          iterators[j].current == if old(iterators[j].current) == e then next else old(iterators[j].current)
        invariant forall j :: k <= j < |iterators| ==> iterators[j].current == old(iterators[j].current)
      {
        if iterators[k].current == e {
          iterators[k].current := next;
        }
        k := k + 1;
      }
    }

    method NextOnRemoval(e: Element, ghost i: nat) returns (next: Element?)
      requires Intact() && e in links.next && (e in list ==> i < |list| && list[i] == e)
      ensures e in list ==> next == Successor(i)
    {
      hide Shape, Between, Faithful;
      Fields(e);
      if e in list {
        Places(links, View(), i + 1);
        Places(links, View(), i + 2);
        Adjacent(links, View(), i + 1);
        Adjacent(links, View(), 0);
        Places(links, View(), 0);
        Places(links, View(), 1);
        Fields(head);
      }
      next := e.next;
      if next == tail && size > 1 {
        next := head.next;
      }
    }

    lemma SuccessorThere(i: nat)
      requires Intact() && i < |list|
      ensures Successor(i) in Between(head, Removed(list, i), tail) && Successor(i) != list[i]
    {
      hide Shape;
      Outer(links, View());
      RemovedFrom(list, i);
      assert forall n :: n in Removed(list, i) ==> n in Between(head, Removed(list, i), tail);
    }

    method LinkAround(e: Element, x: Element, y: Element)
      requires Faithful() && e in links.next && x in links.next && y in links.next && x != e && y != e
      modifies `links, e, x`next, y`prev
      ensures Faithful() && links == Unlinked(old(links), e, x, y)
    {
      hide Faithful;
      WriteNext(x, y);
      WritePrev(y, x);
      WriteNext(e, null);
      WritePrev(e, null);
    }

    /** Takes element `i` out of the links. */
    method UnlinkElement(e: Element, ghost i: nat)
      requires Intact() && i < |list| && list[i] == e
      modifies `links, `list, `loose, `size, links.next.Keys
      ensures Intact() && list == Removed(old(list), i) && loose == old(loose) + {e}
      ensures links.next.Keys == old(links.next.Keys)
    {
      hide Shape, Between, Faithful, Removed;
      Places(links, View(), i + 1);
      Adjacent(links, View(), i);
      Adjacent(links, View(), i + 1);
      Fields(e);
      RemoveShape(links, View(), i, e.prev, e.next);
      RemovedFrom(list, i);
      LinkAround(e, e.prev, e.next);
      list, loose := Removed(list, i), loose + {e};
      size := size - 1;
    }

    /** list_remove_element; an element that is not in the list stays where it is. */
    method RemoveElement(e: Element, ghost i: nat)
      requires Valid() && e in links.next && e != head && e != tail && (e in list ==> i < |list| && list[i] == e)
      modifies `links, `list, `loose, `size, links.next.Keys, iterators
      ensures Valid() && links.next.Keys == old(links.next.Keys)
      ensures if e in old(list) then list == Removed(old(list), i) && loose == old(loose) + {e}
              else list == old(list) && loose == old(loose) && links == old(links)
      ensures forall it :: it in iterators ==>
        it.current == if e in old(list) && old(it.current) == e then old(Successor(i)) else old(it.current)
    {
      hide Shape, Between, Faithful, Removed;
      Whereabouts(links, View(), e);
      Fields(e);
      ghost var v := View();
      if e in list {
        StillThere(v, i, e);
        SuccessorThere(i);
      }
      AdjustIterators(e, i);
      if e.prev == null || e.prev == mark {
        return;
      }
      UnlinkElement(e, i);
    }

    method PopFront() returns (e: Element?)
      requires Valid()
      modifies `links, `list, `loose, `size, links.next.Keys, iterators
      ensures Valid() && links.next.Keys == old(links.next.Keys)
      ensures e == null <==> old(list) == []
      ensures e == null ==> list == [] && loose == old(loose)
      ensures e != null ==> old(list) == [e] + list && loose == old(loose) + {e}
      ensures forall it :: it in iterators ==>
        it.current == if e != null && old(it.current) == e then old(Successor(0)) else old(it.current)
    {
      hide Shape, Between, Faithful;
      Adjacent(links, View(), 0);
      Places(links, View(), 0);
      Places(links, View(), 1);
      Fields(head);
      if head.next == tail {
        return null;
      }
      e := head.next;
      ghost var v := View();
      StillThere(v, 0, e);
      SuccessorThere(0);
      Adjacent(links, View(), 1);
      AdjustIterators(e, 0);
      UnlinkElement(e, 0);
    }

    // ----- iterators

    method CreateIterator() returns (it: ListIterator)
      requires Valid()
      modifies `iterators
      ensures Valid() && fresh(it) && iterators == [it] + old(iterators)
      ensures it.current == if list == [] then tail else list[0]
    {
      hide Shape, Between;
      Adjacent(links, View(), 0);
      Places(links, View(), 0);
      Places(links, View(), 1);
      Fields(head);
      ChainAt(View());
      it := new ListIterator(head.next);
      iterators := [it] + iterators;
    }

    /** The links of an iterator at place `p` of the chain. */
    lemma AtPlace(p: nat)
      requires Intact() && p <= |list| + 1
      ensures var c := Chain(View()); |c| == |list| + 2 && c[p] in c && c[p] != null
      ensures var c := Chain(View()); (c[p] == head <==> p == 0) && (c[p] == tail <==> p == |list| + 1)
      ensures 0 < p <= |list| ==> Chain(View())[p] == list[p - 1]
      ensures p <= |list| ==> Chain(View())[p].next == Chain(View())[p + 1]
      ensures p > 0 ==> Chain(View())[p].prev == Chain(View())[p - 1]
      ensures head.next == Chain(View())[1]
    {
      hide Shape, Between, Faithful;
      ChainAt(View());
      Places(links, View(), p);
      Places(links, View(), 0);
      Adjacent(links, View(), 0);
      Fields(head);
      if p <= |list| {
        Adjacent(links, View(), p);
      } else {
        Adjacent(links, View(), |list|);
      }
      if p > 0 {
        Adjacent(links, View(), p - 1);
      }
      Fields(Chain(View())[p]);
    }

    /** The iterator is at place `p`; 0 is the head, `|list| + 1` the tail. */
    ghost predicate Stands(it: ListIterator, p: nat)
      reads `list, it
    {
      p <= |list| + 1 && it.current == Between(head, list, tail)[p]
    }

    /** Place of the element an iterator gives: from a sentinel it goes to the first one. */
    ghost function CurrentPlace(p: nat): nat
      reads `list
    {
      if p == 0 || p == |list| + 1 then 1 else p
    }

    method MoveTo(it: ListIterator, e: Element, ghost p: nat)
      requires Valid() && it in iterators && p <= |list| + 1 && e == Chain(View())[p]
      modifies it
      ensures Valid() && it.current == e
    {
      hide Shape, Between;
      ChainAt(View());
      assert e in Chain(View());
      it.current := e;
    }

    /** getCurrentNode. */
    method CurrentNode(it: ListIterator, ghost p: nat) returns (r: Element?)
      requires Valid() && it in iterators && Stands(it, p)
      modifies it
      ensures Valid()
      ensures if list == [] then r == null && it.current == old(it.current)
              else it.current == r == list[CurrentPlace(p) - 1]
    {
      hide Shape, Between, Faithful;
      AtPlace(p);
      AtPlace(1);
      if it.current == head || it.current == tail {
        if size > 0 {
          MoveTo(it, head.next, 1);
          return it.current;
        }
        return null;
      }
      return it.current;
    }

    /** iterator_next: gives the current element and moves on, up to the tail. */
    method Next(it: ListIterator, ghost p: nat) returns (r: Element?)
      requires Valid() && it in iterators && Stands(it, p)
      modifies it
      ensures Valid()
      ensures if p == |list| + 1 || list == [] then r == null && it.current == tail
              else r == list[CurrentPlace(p) - 1] && it.current == Chain(View())[CurrentPlace(p) + 1]
    {
      hide Shape, Between, Faithful;
      AtPlace(p);
      if it.current != tail {
        ghost var q := if list == [] then p else CurrentPlace(p);
        AtPlace(q);
        AtPlace(q + 1);
        r := CurrentNode(it, p);
        MoveTo(it, it.current.next, q + 1);
      } else {
        r := null;
      }
    }

    /** iterator_next_circ on a list with elements: gives the current element and
        moves on, from the last one to the first. */
    method NextCirc(it: ListIterator, ghost p: nat) returns (r: Element)
      requires Valid() && it in iterators && Stands(it, p) && list != []
      modifies it
      ensures Valid() && r == list[CurrentPlace(p) - 1]
      ensures it.current == list[Around(CurrentPlace(p), |list|)]
    {
      hide Shape, Between, Faithful;
      ghost var q := CurrentPlace(p);
      AtPlace(q);
      AtPlace(q + 1);
      AtPlace(1);
      r := CurrentNode(it, p);
      if it.current.next == tail {
        MoveTo(it, head.next, 1);
      } else {
        MoveTo(it, it.current.next, q + 1);
      }
    }

    /** Calls `NextCirc` `n` times; `k` is the element at which it starts, which
        from a sentinel is the first one. */
    method Circle(it: ListIterator, n: nat, ghost p: nat) returns (visited: seq<Element>, ghost k: nat)
      requires Valid() && it in iterators && Stands(it, p) && list != []
      modifies it
      ensures Valid() && |visited| == n && k == CurrentPlace(p) - 1
      ensures forall j :: 0 <= j < n ==> visited[j] == list[Around(k + j, |list|)]
      ensures n > 0 ==> it.current == list[Around(k + n, |list|)]
      ensures n == |list| ==> Distinct(visited) && Members(visited) == Members(list) && it.current == list[k]
    {
      hide Shape, Between, Faithful, Around;
      visited := [];
      k := CurrentPlace(p) - 1;
      BackAgain(k, |list|);
      ghost var q: nat := p;
      while |visited| < n
        invariant |visited| <= n && Valid() && Stands(it, q)
        invariant CurrentPlace(q) == Around(k + |visited|, |list|) + 1 && (|visited| > 0 ==> 0 < q <= |list|)
        invariant forall j :: 0 <= j < |visited| ==> visited[j] == list[Around(k + j, |list|)]
      {
        var r := NextCirc(it, q);
        AroundStep(k + |visited|, |list|);
        q := Around(CurrentPlace(q), |list|) + 1;
        AtPlace(q);
        visited := visited + [r];
      }
      AtPlace(q);
      if n == |list| {
        Outer(links, View());
        OnceRound(list, visited, k);
      }
    }

    // ----- moving elements with an iterator

    /** iterator_insert_before on a list with elements. */
    method InsertBeforeCurrent(it: ListIterator, e: Element, ghost p: nat)
      requires Valid() && it in iterators && Stands(it, p) && list != []
      requires Linkable(e)
      modifies `links, `list, `loose, `size, links.next.Keys, it
      ensures links.next.Keys == old(links.next.Keys) && (Valid() <==> e in old(loose))
      ensures it.current == old(list)[old(CurrentPlace(p)) - 1]
      ensures e in old(loose) ==> list == Inserted(old(list), old(CurrentPlace(p)) - 1, e) && loose == old(loose) - {e}
      ensures e !in old(loose) ==> list == old(list) && loose == old(loose)
      ensures e !in old(loose) ==>
        (forall v: Layout :: v.mark == mark && v.first == freeList ==> !Shape(links, v))
    {
      hide Shape, Between, Faithful, Inserted;
      AtPlace(CurrentPlace(p));
      var cur := CurrentNode(it, p);
      LinkBefore(e, cur, CurrentPlace(p) - 1);
    }

    /** `e`, element `i` of the list, is neither element `j` nor just before it. */
    ghost predicate Displaced(e: Element, i: nat, j: int)
      reads `list
    {
      e in list && i != j && i + 1 != j
    }

    /** iterator_move_element_before: element `i` goes to just before the
        current one, unless it is that one or is there already; a loose element
        is inserted there. */
    method MoveElementBefore(it: ListIterator, e: Element, ghost p: nat, ghost i: nat)
      requires Valid() && it in iterators && Stands(it, p) && list != []
      requires Linkable(e) && (e in list ==> i < |list| && list[i] == e)
      modifies `links, `list, `loose, `size, links.next.Keys, iterators
      ensures links.next.Keys == old(links.next.Keys) && (Valid() <==> e !in old(free))
      ensures it.current == old(list)[old(CurrentPlace(p)) - 1]
      ensures forall t :: t in iterators && t != it ==>
        t.current == if old(Displaced(e, i, CurrentPlace(p) - 1)) && old(t.current) == e then old(Successor(i))
                     else old(t.current)
      ensures var j := old(CurrentPlace(p)) - 1;
        && (e in old(loose) ==> list == Inserted(old(list), j, e) && loose == old(loose) - {e})
        && (e in old(list) ==> list == Moved(old(list), i, j) && loose == old(loose))
      ensures e in old(free) ==> list == old(list) && loose == old(loose)
      ensures e in old(free) ==>
        (forall v: Layout :: v.mark == mark && v.first == freeList ==> !Shape(links, v))
    {
      hide Shape, Between, Faithful, Inserted, Removed;
      ghost var j := CurrentPlace(p) - 1;
      AtPlace(j + 1);
      AtPlace(j);
      Outer(links, View());
      var cur := CurrentNode(it, p);
      Whereabouts(links, View(), e);
      if e in list {
        AtPlace(i + 1);
      }
      if e != cur && e != cur.prev {
        PlaceBefore(e, cur, i, j);
      }
    }

    /** Takes the element out of the list, if it is in it, and links it before `cur`. */
    method PlaceBefore(e: Element, cur: Element, ghost i: nat, ghost j: nat)
      requires Valid() && j < |list| && list[j] == cur && Linkable(e)
      requires e in list ==> i < |list| && list[i] == e && i != j
      modifies `links, `list, `loose, `size, links.next.Keys, iterators
      ensures links.next.Keys == old(links.next.Keys) && (Valid() <==> e !in old(free))
      ensures forall t :: t in iterators ==>
        t.current == if e in old(list) && old(t.current) == e then old(Successor(i)) else old(t.current)
      ensures e in old(loose) ==> list == Inserted(old(list), j, e) && loose == old(loose) - {e}
      ensures e in old(list) ==>
        list == Inserted(Removed(old(list), i), if i < j then j - 1 else j, e) && loose == old(loose)
      ensures e in old(free) ==> list == old(list) && loose == old(loose)
      ensures e in old(free) ==>
        (forall v: Layout :: v.mark == mark && v.first == freeList ==> !Shape(links, v))
    {
      hide Shape, Between, Faithful, Inserted, Removed;
      Whereabouts(links, View(), e);
      if e in list {
        RemovedIndex(list, i, j);
      }
      ghost var j' := if e in list && i < j then j - 1 else j;
      RemoveElement(e, i);
      AtPlace(j' + 1);
      Fields(e);
      Whereabouts(links, View(), e);
      LinkBefore(e, cur, j');
    }

    lemma LooseKnown(e: Element)
      requires Valid() && e in loose
      ensures Linkable(e)
    {
      LooseIn(links, View(), e);
      ChainAt(View());
    }

    lemma FreedLast(e: Element)
      requires Intact() && free == [e]
      ensures e in links.next && e.next == null && freeList == e
    {
      Fields(e);
      assert links.next[free[0]] == From<Element?>(free, 1, null);
    }

    lemma InChain(e: Element)
      requires Intact() && e in list
      ensures e in links.next && e != head && e != tail
    {
      hide Between;
      Outer(links, View());
      ChainAt(View());
    }
  }

  /** Index `i` on a circle of `n`. */
  function Around(i: nat, n: nat): (r: nat)
    requires n > 0
    ensures r < n
  {
    if i < n then i else Around(i - n, n)
  }

  lemma {:induction false} AroundStep(i: nat, n: nat)
    requires n > 0
    ensures Around(i + 1, n) == Around(Around(i, n) + 1, n)
  {
    if i >= n {
      AroundStep(i - n, n);
    }
  }

  lemma BackAgain(k: nat, n: nat)
    requires k < n
    ensures Around(k, n) == Around(k + n, n) == k
  {
  }

  /** Element `i` of `s` moved to just before element `j`. */
  ghost function Moved<N>(s: seq<N>, i: nat, j: nat): (r: seq<N>)
    requires i < |s| && j < |s|
  {
    if i == j || i + 1 == j then s
    else Inserted(Removed(s, i), if i < j then j - 1 else j, s[i])
  }

  /** Once round the circle meets every element exactly once. */
  lemma OnceRound<N>(s: seq<N>, visited: seq<N>, k: nat)
    requires k < |s| == |visited| && Distinct(s)
    requires forall j :: 0 <= j < |s| ==> visited[j] == s[Around(k + j, |s|)]
    ensures Distinct(visited) && Members(visited) == Members(s)
  {
    forall j | 0 <= j < |s|
      ensures visited[j] == s[if k + j < |s| then k + j else k + j - |s|]
    {
      assert k + j >= |s| ==> Around(k + j, |s|) == Around(k + j - |s|, |s|);
    }
    forall n | n in s
      ensures n in visited
    {
      var i :| 0 <= i < |s| && s[i] == n;
      assert visited[if i >= k then i - k else i + |s| - k] == n;
    }
  }

  /** Moving keeps the elements and brings `i` right in front of `j`. */
  lemma MovedInFront<N>(s: seq<N>, i: nat, j: nat)
    requires i < |s| && j < |s| && i != j
    ensures |Moved(s, i, j)| == |s|
    ensures var at := if i < j then j - 1 else j;
      Moved(s, i, j)[at] == s[i] && Moved(s, i, j)[at + 1] == s[j] && Removed(Moved(s, i, j), at) == Removed(s, i)
  {
    var at, r := if i < j then j - 1 else j, Removed(s, i);
    RemovedFrom(s, i);
    InsertedFrom(r, at, s[i]);
    if i + 1 == j {
      assert Inserted(r, at, s[i]) == s;
    }
    RemoveInserted(r, at, s[i]);
    hide Removed, Inserted;
  }

  lemma RemovedIndex<N>(s: seq<N>, i: nat, j: nat)
    requires i < |s| && j < |s| && i != j
    ensures var k := if i < j then j - 1 else j; k < |Removed(s, i)| && Removed(s, i)[k] == s[j]
  {
  }

  lemma RemoveInserted<N>(r: seq<N>, at: nat, e: N)
    requires at <= |r|
    ensures at < |Inserted(r, at, e)| && Removed(Inserted(r, at, e), at) == r
  {
    var t := Inserted(r, at, e);
    assert t[..at] == r[..at] && t[at + 1..] == r[at..];
  }

  method TwoLoose() returns (l: WList, e: Element, e': Element)
    ensures fresh(l) && fresh(l.links.next.Keys) && l.Valid() && l.list == [] && l.free == []
    ensures e != e' && l.loose == {e, e'}
  {
    hide *;
    l := new WList();
    e := l.AllocateElement();
    e' := l.AllocateElement();
  }

  /** A list of one element with one freed element. */
  method OneFreed() returns (l: WList, position: Element, e: Element)
    ensures fresh(l) && fresh(l.links.next.Keys) && l.Valid() && l.list == [position] && l.free == [e]
  {
    hide *;
    l, position, e := TwoLoose();
    l.LooseKnown(position);
    l.LooseKnown(e);
    l.PushBack(position);
    l.LooseKnown(e);
    l.FreeElement(e);
  }

  /** An element that is freed and then inserted ends up in both lists: it is the
      first free one, and it comes before `position` in the list. */
  method FreedElementInserted() returns (l: WList, position: Element, e: Element)
    ensures fresh(l) && e in l.free && position in l.list && l.freeList == e && position.prev == e
    ensures forall v: Layout :: v.mark == l.mark && v.first == l.freeList ==> !Shape(l.links, v)
  {
    hide Shape, Between, WList.Faithful, WList.Settled;
    l, position, e := OneFreed();
    l.AtPlace(1);
    l.FreedLast(e);
    l.InChain(position);
    Whereabouts(l.links, l.View(), position);
    Whereabouts(l.links, l.View(), e);
    l.Fields(position);
    var r := l.InsertBefore(position, e, 0);
  }
}
