/** The dispatch queue as a single thread sees it: a linked queue with a cursor,
    fed from a free list that grows by chunks. */
module WombatQueue {
  import opened Chains
  import opened Options
  import opened QueueLinks
  import opened QueueSpec

  const WRAP := 0x1_0000_0000

  type U32 = n: nat | n < WRAP

  const MAX_SIZE := 2147483647
  const CHUNK_SIZE := 64

  datatype Status = Ok | Full | Timeout | WouldBlock | End

  /** The test of allocChunk, in 32-bit unsigned arithmetic. */
  predicate Refuses(size: nat, items: nat, maxSize: nat) {
    (size + items) % WRAP > maxSize
  }

  /** The test keeps a chunk within the limit exactly when the sum does not wrap
      around, or the wrapped sum is still above the limit. */
  lemma RefusesExactly(size: U32, items: U32, maxSize: U32)
    ensures (!Refuses(size, items, maxSize) ==> size + items <= maxSize) <==>
      size + items < WRAP || (size + items) % WRAP > maxSize
    ensures size + items < WRAP ==> (Refuses(size, items, maxSize) <==> size + items > maxSize)
  {
  }

  /** By how many items an operation that needs one adds to the queue's chunks. */
  ghost function Growth(free: seq<Item>, sem: nat, chunkSize: nat, maxSize: nat): nat {
    if free == [] && !Refuses(sem, chunkSize, maxSize) then chunkSize else 0
  }

  /** Two sentinels that point to each other and, at the ends, to themselves. */
  method Sentinels() returns (h: Item, t: Item)
    ensures fresh(h) && fresh(t) && h != t && h.next == t.next == t && h.prev == t.prev == h
    ensures h.entry == t.entry
  {
    h := new Item();
    t := new Item();
    h.next, h.prev, t.next, t.prev := t, h, t, h;
  }

  class Queue {
    const head: Item
    const tail: Item
    var firstFree: Item?
    var cursor: Item
    var sem: nat
    var unblocking: bool
    var maxSize: U32
    var chunkSize: U32
    ghost var links: Links
    ghost var queued: seq<Item>
    ghost var free: seq<Item>
    /** Index of the cursor; 0 is the head, `|queued| + 1` the tail. */
    ghost var pos: nat

    // ----- state

    ghost predicate Faithful()
      reads `links, links.next.Keys
    {
      forall n :: n in links.next ==>
        && n != null && n.next == links.next[n]
        && n in links.prev && n.prev == links.prev[n]
        && n in links.entry && n.entry == links.entry[n]
    }

    /** The links of the queue and the free list are in order. */
    ghost predicate Stocked()
      reads this, links.next.Keys
    {
      Faithful() && Shape(links, head, tail, firstFree, queued, free) && chunkSize > 0
    }

    /** The cursor is in the queue or on a sentinel. */
    ghost predicate Placed()
      reads `queued, `pos, `cursor
    {
      pos <= |queued| + 1 && cursor == Chain(head, queued, tail)[pos]
    }

    ghost predicate Intact()
      reads this, links.next.Keys
    {
      Stocked() && Placed()
    }

    /** Between calls there is a token for every item and for the unblock flag. */
    ghost predicate Sound()
      reads this, links.next.Keys
    {
      Stocked() && |queued| + (if unblocking then 1 else 0) <= sem
    }

    ghost predicate Valid()
      reads this, links.next.Keys
    {
      Sound() && Placed()
    }

    ghost function Contents(): (s: seq<Entry>)
      requires Stocked()
      reads this, links.next.Keys
      ensures |s| == |queued|
    {
      QueuedInLinks(links, head, tail, firstFree, queued, free);
      Entries(links.entry, queued)
    }

    /** The queue as its callers see it. */
    ghost function Seen(): Queued<Entry>
      requires Stocked()
      reads this, links.next.Keys
    {
      Queued(Contents(), unblocking)
    }

    /** All chunks together stay within the limit. */
    ghost predicate Bounded()
      reads this
    {
      |queued| + |free| <= maxSize
    }

    /** Every item of every chunk is once in the queue or once on the free list. */
    lemma EachItemOnce(n: Item)
      requires Stocked() && n in links.next && n != head && n != tail
      ensures n in queued <==> n !in free
      ensures forall i, j :: 0 <= i < j < |queued| ==> queued[i] != queued[j]
      ensures forall i, j :: 0 <= i < j < |free| ==> free[i] != free[j]
    {
      ChainAt(head, queued, tail);
      DistinctQueue(links, head, tail, firstFree, queued, free);
      assert n in Members<Item?>(Chain(head, queued, tail)) <==> n in queued;
    }

    // ----- writes

    method WriteNext(n: Item, x: Item?)
      requires Faithful() && n in links.next
      modifies `links, n`next
      ensures Faithful() && links == old(links).(next := old(links).next[n := x])
    {
      n.next := x;
      links := links.(next := links.next[n := x]);
    }

    method WritePrev(n: Item, x: Item?)
      requires Faithful() && n in links.next
      modifies `links, n`prev
      ensures Faithful() && links == old(links).(prev := old(links).prev[n := x])
    {
      n.prev := x;
      links := links.(prev := links.prev[n := x]);
    }

    method WriteEntry(n: Item, d: Entry)
      requires Faithful() && n in links.next
      modifies `links, n`entry
      ensures Faithful() && links == old(links).(entry := old(links).entry[n := d])
    {
      n.entry := d;
      links := links.(entry := links.entry[n := d]);
    }

    /** wombatQueue_allocate: an empty queue without items. */
    constructor ()
      ensures Valid() && queued == [] && free == [] && pos == 0 && sem == 0 && !unblocking
      ensures maxSize == MAX_SIZE && chunkSize == CHUNK_SIZE && fresh(links.next.Keys)
    {
      var h, t := Sentinels();
      head, tail, firstFree, cursor := h, t, null, h;
      sem, unblocking, maxSize, chunkSize := 0, false, MAX_SIZE, CHUNK_SIZE;
      queued, free, pos := [], [], 0;
      links := Links(map[h := t, t := t], map[h := h, t := h], map[h := h.entry, t := t.entry]);
      EmptyShape(h, t, h.entry);
      hide Shape;
    }

    method SetSizes(max: U32, growBy: U32)
      requires Valid()
      modifies `maxSize, `chunkSize
      ensures Valid()
      ensures maxSize == (if max != 0 then max else old(maxSize))
      ensures chunkSize == (if growBy != 0 then growBy else old(chunkSize))
    {
      if max != 0 {
        maxSize := max;
      }
      if growBy != 0 {
        chunkSize := growBy;
      }
    }

    /** wombatQueue_create: sets the sizes and makes the first chunk. */
    method Create(max: U32, initial: U32, growBy: U32) returns (ok: bool)
      requires Valid() && queued == [] && free == [] && sem == 0
      modifies `maxSize, `chunkSize, `links, `firstFree, `free
      ensures Valid()
      ensures maxSize == (if max != 0 then max else old(maxSize))
      ensures chunkSize == (if growBy != 0 then growBy else old(chunkSize))
      ensures var items := if initial == 0 then CHUNK_SIZE else initial;
        Bounded() && (ok <==> items <= maxSize) && |free| == if ok then items else 0
      ensures fresh(links.next.Keys - old(links.next.Keys))
    {
      hide Shape, Refuses, Faithful;
      SetSizes(max, growBy);
      var initialSize: U32 := if initial == 0 then CHUNK_SIZE else initial;
      RefusesExactly(0, initialSize, maxSize);
      AllocChunk(initialSize);
      NoneFree(links, head, tail, firstFree, queued, free);
      ok := firstFree != null;
    }

    method AllocChunk(items: U32)
      requires Faithful() && Shape(links, head, tail, firstFree, queued, free) && free == [] && items > 0
      modifies `links, `firstFree, `free
      ensures Faithful() && Shape(links, head, tail, firstFree, queued, free)
      ensures forall n :: n in old(links.next) ==> n in links.entry && links.entry[n] == old(links.entry)[n]
      ensures fresh(links.next.Keys - old(links.next.Keys))
      ensures if Refuses(sem, items, maxSize) then free == [] && links == old(links) else |free| == items
    {
      hide Faithful, Shape, NewItems, Strung, Refuses;
      NoneFree(links, head, tail, firstFree, queued, free);
      if Refuses(sem, items, maxSize) {
        return;
      }
      ghost var l0 := links;
      var chunk := CallocItems(items);
      firstFree := chunk[0];
      StringItems(l0, chunk);
      free := chunk;
      ChunkShape(l0, links, head, tail, queued, chunk);
    }

    /** Creates the links of a new chunk; the last item's stays null. */
    method StringItems(ghost l0: Links, chunk: seq<Item>)
      requires Faithful() && NewItems(l0, links, chunk) && Strung(links.next, chunk, 0) && |chunk| > 0
      requires Distinct(chunk)
      modifies `links, chunk
      ensures Faithful() && NewItems(l0, links, chunk) && Strung(links.next, chunk, |chunk| - 1)
    {
      hide Faithful, NewItems, Strung;
      var i := 0;
      while i < |chunk| - 1
        invariant 0 <= i < |chunk| && Faithful() && NewItems(l0, links, chunk) && Strung(links.next, chunk, i)
      {
        NewItemsWrite(l0, links, chunk, i, i + 1, chunk[i + 1], chunk[i]);
        StrungStep(links.next, chunk, i);
        WriteNext(chunk[i], chunk[i + 1]);
        WritePrev(chunk[i + 1], chunk[i]);
        i := i + 1;
      }
    }

    ghost method Adopt(n: Item)
      requires Faithful() && n !in links.next && n.next == null && n.prev == null
      modifies `links
      ensures Faithful() && links == Adopted(old(links), n, n.entry)
    {
      links := Adopted(links, n, n.entry);
    }

    method CallocItem(ghost l: Links, ghost chunk: seq<Item>) returns (n: Item)
      requires Faithful() && NewItems(l, links, chunk) && Strung(links.next, chunk, 0)
      modifies `links
      ensures Faithful() && fresh(n) && NewItems(l, links, chunk + [n]) && Strung(links.next, chunk + [n], 0)
    {
      hide NewItems, Strung, Faithful;
      n := new Item();
      NewItemsAdd(l, links, chunk, n, n.entry);
      StrungAdd(links.next, chunk, n);
      Adopt(n);
    }

    method CallocItems(items: nat) returns (chunk: seq<Item>)
      requires Faithful() && links.next.Keys == links.prev.Keys == links.entry.Keys
      modifies `links
      ensures Faithful() && |chunk| == items && fresh(chunk) && Distinct(chunk)
      ensures NewItems(old(links), links, chunk) && Strung(links.next, chunk, 0)
    {
      hide NewItems, Strung, Faithful;
      chunk := [];
      NoItems(links);
      while |chunk| < items
        invariant |chunk| <= items && Faithful() && fresh(chunk)
        invariant NewItems(old(links), links, chunk) && Strung(links.next, chunk, 0)
      {
        var n := CallocItem(old(links), chunk);
        chunk := chunk + [n];
      }
      ItemsDistinct(old(links), links, chunk);
    }

    // ----- building blocks of the operations

    /** Pops a free item, after growing the free list if it is empty; null when the queue is full. */
    method TakeFree() returns (item: Item?)
      requires Sound()
      modifies `links, `firstFree, `free
      ensures Sound() && Contents() == old(Contents()) && item == firstFree
      ensures item == null <==> free == []
      ensures item == null <==> old(free) == [] && Refuses(sem, chunkSize, maxSize)
      ensures item == null ==> links == old(links)
      ensures |free| == |old(free)| + Growth(old(free), sem, chunkSize, maxSize)
      ensures old(Bounded()) && sem + chunkSize < WRAP ==> Bounded()
      ensures fresh(links.next.Keys - old(links.next.Keys))
    {
      hide Faithful, Shape, Refuses;
      NoneFree(links, head, tail, firstFree, queued, free);
      QueuedInLinks(links, head, tail, firstFree, queued, free);
      if firstFree == null {
        if sem + chunkSize < WRAP {
          RefusesExactly(sem, chunkSize, maxSize);
        }
        AllocChunk(chunkSize);
      }
      NoneFree(links, head, tail, firstFree, queued, free);
      item := firstFree;
    }

    method LinkBetween(item: Item, d: Entry, x: Item, y: Item)
      requires Faithful() && item in links.next && x in links.next && y in links.next
      modifies `links, item, x`next, y`prev
      ensures Faithful() && links == LinkedIn(old(links), item, x, y, d)
    {
      hide Faithful;
      WriteEntry(item, d);
      WriteNext(item, y);
      WritePrev(item, x);
      WriteNext(x, item);
      WritePrev(y, item);
    }

    /** Puts the first free item into the queue between neighbours `x` and `y`. */
    method LinkIn(item: Item, d: Entry, x: Item, y: Item, ghost i: nat)
      requires Faithful() && Shape(links, head, tail, firstFree, queued, free) && item == firstFree
      requires i <= |queued| && x == Chain(head, queued, tail)[i] && y == Chain(head, queued, tail)[i + 1]
      modifies `links, `firstFree, `queued, `free, links.next.Keys
      ensures Faithful() && Shape(links, head, tail, firstFree, queued, free)
      ensures old(free) != [] && queued == Inserted(old(queued), i, item) && free == old(free)[1..]
      ensures item !in old(queued) && links.entry == old(links.entry)[item := d]
      ensures links.next.Keys == old(links.next.Keys)
    {
      LinkedInKeys(links, item, x, y, d);
      hide Faithful, Shape, Inserted, Chain, LinkedIn;
      NoneFree(links, head, tail, firstFree, queued, free);
      LinkShape(links, head, tail, item, queued, free, i, x, y, d);
      Inside(links, head, tail, firstFree, queued, free, i);
      NextOf(item);
      firstFree := item.next;
      LinkBetween(item, d, x, y);
      queued, free := Inserted(queued, i, item), free[1..];
    }

    lemma PrevOf(n: Item)
      requires Faithful() && Shape(links, head, tail, firstFree, queued, free) && n in links.prev
      ensures n.prev == links.prev[n]
    {
    }

    lemma NextOf(n: Item)
      requires Faithful() && n in links.next
      ensures n.next == links.next[n] && n in links.prev && n.prev == links.prev[n]
      ensures n in links.entry && n.entry == links.entry[n]
    {
    }

    method LinkAround(item: Item, ghost x: Item, ghost y: Item)
      requires Faithful() && item in links.next && x in links.next && y in links.next
      requires item.prev == x && item.next == y && x != item && y != item
      modifies `links, item`next, x`next, y`prev
      ensures Faithful() && links == Unlinked(old(links), item, x, y, firstFree)
    {
      hide Faithful;
      WriteNext(item.prev, item.next);
      WritePrev(item.next, item.prev);
      WriteNext(item, firstFree);
    }

    /** WQ_REMOVE: unlinks an item and pushes it on the free list. */
    method UnlinkItem(item: Item, ghost i: nat)
      requires Faithful() && Shape(links, head, tail, firstFree, queued, free)
      requires i < |queued| && queued[i] == item
      modifies `links, `firstFree, `queued, `free, links.next.Keys
      ensures Faithful() && Shape(links, head, tail, firstFree, queued, free)
      ensures queued == Removed(old(queued), i) && free == [item] + old(free) && links.entry == old(links.entry)
      ensures links.next.Keys == old(links.next.Keys)
    {
      hide Faithful, Shape, Removed, Chain, Unlinked;
      ghost var x, y := Around(links, head, tail, firstFree, queued, free, i);
      Inside(links, head, tail, firstFree, queued, free, i);
      UnlinkShape(links, head, tail, firstFree, queued, free, i, x, y);
      UnlinkedKeys(links, item, x, y, firstFree);
      NextOf(item);
      LinkAround(item, x, y);
      firstFree := item;
      queued, free := Removed(queued, i), [item] + free;
    }

    /** Queues an entry at index `i`, between `x` and `y`, and posts the semaphore. */
    method Place(item: Item, d: Entry, x: Item, y: Item, ghost i: nat)
      requires Stocked() && item == firstFree && i <= |queued|
      requires x == Chain(head, queued, tail)[i] && y == Chain(head, queued, tail)[i + 1]
      modifies `links, `firstFree, `queued, `free, `pos, `sem, links.next.Keys
      ensures Stocked() && Contents() == Inserted(old(Contents()), i, d) && sem == old(sem) + 1
      ensures pos == (if old(pos) <= i then old(pos) else old(pos) + 1) && (old(Placed()) ==> Placed())
      ensures |queued| == |old(queued)| + 1 && |free| == |old(free)| - 1 && links.next.Keys == old(links.next.Keys)
    {
      hide Faithful, Shape, Inserted, Chain, Entries;
      LinkIn(item, d, x, y, i);
      QueuedInLinks(old(links), head, tail, old(firstFree), old(queued), old(free));
      EntriesInserted(old(links.entry), old(queued), i, item, d);
      InsertedFrom(old(queued), i, item);
      if pos <= |old(queued)| + 1 {
        PlaceInserted(head, old(queued), tail, i, item, pos);
      }
      pos := if pos <= i then pos else pos + 1;
      sem := sem + 1;
    }

    /** Takes the item with index `i` out; a cursor on it is then on the free list. */
    method Take(item: Item, ghost i: nat)
      requires Stocked() && i < |queued| && queued[i] == item
      modifies `links, `firstFree, `queued, `free, `pos, links.next.Keys
      ensures Stocked() && Contents() == Removed(old(Contents()), i)
      ensures pos == if old(pos) <= i then old(pos) else old(pos) - 1
      ensures old(Placed()) ==> (Placed() <==> old(pos) != i + 1) && (cursor in free <==> old(pos) == i + 1)
      ensures |queued| == |old(queued)| - 1 && |free| == |old(free)| + 1 && links.next.Keys == old(links.next.Keys)
    {
      hide Faithful, Shape, Removed, Chain, Entries;
      UnlinkItem(item, i);
      QueuedInLinks(old(links), head, tail, old(firstFree), old(queued), old(free));
      EntriesRemoved(links.entry, old(queued), i);
      RemovedFrom(old(queued), i);
      ghost var p := pos;
      pos := if pos <= i then pos else pos - 1;
      if old(Placed()) {
        if p != i + 1 {
          PlaceRemoved(head, old(queued), tail, i, p);
        } else {
          ChainItem(head, old(queued), tail, i);
        }
        ChainNotFree(links, head, tail, firstFree, queued, free, pos);
      }
    }

    // ----- producing and consuming

    method Enqueue(d: Entry) returns (r: Status)
      requires Sound()
      modifies `links, `firstFree, `queued, `free, `pos, `sem, links.next.Keys
      ensures Sound() && (r == Ok || r == Full) && (old(Placed()) ==> Placed())
      ensures r == Full <==> old(free) == [] && Refuses(old(sem), chunkSize, maxSize)
      ensures r == Ok ==> Contents() == old(Contents()) + [d] && sem == old(sem) + 1
      ensures r == Full ==> Contents() == old(Contents()) && sem == old(sem)
      ensures Seen() == if r == Ok then Enqueued(old(Seen()), d) else old(Seen())
      ensures pos == if r == Ok && old(pos) > |old(queued)| then old(pos) + 1 else old(pos)
      ensures |queued| + |free| == |old(queued)| + |old(free)| + Growth(old(free), old(sem), chunkSize, maxSize)
      ensures old(Bounded()) && old(sem) + chunkSize < WRAP ==> Bounded()
      ensures fresh(links.next.Keys - old(links.next.Keys))
    {
      hide Faithful, Shape, Refuses, Chain;
      var item := TakeFree();
      if item == null {
        return Full;
      }
      Adjacent(links, head, tail, firstFree, queued, free, |queued|);
      Places(links, head, tail, firstFree, queued, free, |queued| + 1);
      PrevOf(tail);
      Place(item, d, tail.prev, tail, |queued|);
      return Ok;
    }

    /** What dispatching one token gives: the first entry, if there is any. */
    method TakeFirst() returns (d: Entry)
      requires Stocked() && queued != []
      modifies `links, `firstFree, `queued, `free, `pos, links.next.Keys
      ensures Stocked() && old(Contents()) == [d] + Contents()
      ensures pos == (if old(pos) == 0 then 0 else old(pos) - 1) && links.next.Keys == old(links.next.Keys)
      ensures old(Placed()) ==> (Placed() <==> old(pos) != 1) && (cursor in free <==> old(pos) == 1)
      ensures |queued| == |old(queued)| - 1 && |free| == |old(free)| + 1
    {
      hide Faithful, Shape, Chain;
      Adjacent(links, head, tail, firstFree, queued, free, 0);
      Places(links, head, tail, firstFree, queued, free, 0);
      Places(links, head, tail, firstFree, queued, free, 1);
      QueuedInLinks(links, head, tail, firstFree, queued, free);
      NextOf(head);
      var first := head.next;
      assert first == queued[0] && first in queued;
      EntryOf(first);
      d := first.entry;
      assert Contents()[0] == d;
      Take(first, 0);
    }

    lemma EntryOf(n: Item)
      requires Faithful() && Shape(links, head, tail, firstFree, queued, free) && n in links.entry
      ensures n.entry == links.entry[n]
    {
    }

    /** Dispatch waits for a token; here one is there. A cursor on the first item
        is left behind when that item goes to the free list. */
    method Dispatch() returns (d: Option<Entry>)
      requires Sound() && sem > 0
      modifies `links, `firstFree, `queued, `free, `pos, `sem, `unblocking, links.next.Keys
      ensures Sound() && sem == old(sem) - 1 && !unblocking && links.next.Keys == old(links.next.Keys)
      ensures (Seen(), d) == Dispatched(old(Seen()))
      ensures d == None <==> old(unblocking) || old(queued) == []
      ensures match d case None => Contents() == old(Contents()) case Some(e) => old(Contents()) == [e] + Contents()
      ensures pos == if d == None || old(pos) == 0 then old(pos) else old(pos) - 1
      ensures old(Placed()) ==> (Placed() <==> d == None || old(pos) != 1)
      ensures |queued| + |free| == |old(queued)| + |old(free)|
    {
      hide Faithful, Shape, Chain;
      sem := sem - 1;
      if unblocking {
        unblocking := false;
        return None;
      }
      Adjacent(links, head, tail, firstFree, queued, free, 0);
      Places(links, head, tail, firstFree, queued, free, 0);
      Places(links, head, tail, firstFree, queued, free, 1);
      NextOf(head);
      if head.next == tail {
        return None;
      }
      var e := TakeFirst();
      return Some(e);
    }

    method TimedDispatch() returns (r: Status, d: Option<Entry>)
      requires Sound()
      modifies `links, `firstFree, `queued, `free, `pos, `sem, `unblocking, links.next.Keys
      ensures Sound() && links.next.Keys == old(links.next.Keys)
      ensures r == Timeout <==> old(sem) == 0
      ensures r == Timeout ==> d == None && sem == 0 && unblocking == old(unblocking)
      ensures r != Timeout ==> r == Ok && sem == old(sem) - 1 && !unblocking
      ensures r != Timeout ==> (d == None <==> old(unblocking) || old(queued) == [])
      ensures if r == Timeout then Seen() == old(Seen()) else (Seen(), d) == Dispatched(old(Seen()))
      ensures match d case None => Contents() == old(Contents()) case Some(e) => old(Contents()) == [e] + Contents()
      ensures pos == if d == None || old(pos) == 0 then old(pos) else old(pos) - 1
      ensures old(Placed()) ==> (Placed() <==> d == None || old(pos) != 1)
      ensures |queued| + |free| == |old(queued)| + |old(free)|
    {
      hide Stocked, Placed;
      if sem == 0 {
        return Timeout, None;
      }
      d := Dispatch();
      r := Ok;
    }

    /** WQ_REMOVE on whatever comes after the head. In an empty queue that is the
        tail, which then is on the free list and the links are no longer a queue. */
    method RemoveNext() returns (d: Entry)
      requires Stocked()
      modifies `links, `firstFree, `queued, `free, `pos, links.next.Keys
      ensures old(queued) != [] ==> Stocked() && old(Contents()) == [d] + Contents()
      ensures old(queued) != [] && old(Placed()) ==> (Placed() <==> old(pos) != 1)
      ensures old(queued) != [] ==> pos == if old(pos) == 0 then 0 else old(pos) - 1
      ensures old(queued) != [] ==> |queued| == |old(queued)| - 1 && |free| == |old(free)| + 1
      ensures old(queued) == [] ==> firstFree == tail && forall q, f :: !Shape(links, head, tail, firstFree, q, f)
      ensures links.next.Keys == old(links.next.Keys)
    {
      hide Faithful, Shape, Chain;
      Adjacent(links, head, tail, firstFree, queued, free, 0);
      Places(links, head, tail, firstFree, queued, free, 0);
      Places(links, head, tail, firstFree, queued, free, 1);
      NextOf(head);
      SelfLinks(links, head, tail, firstFree, queued, free);
      if head.next == tail {
        d := RemoveTail();
      } else {
        d := TakeFirst();
      }
    }

    method RemoveTail() returns (d: Entry)
      requires Stocked() && queued == []
      modifies `links, `firstFree, head`next, tail
      ensures firstFree == tail && forall q, f :: !Shape(links, head, tail, firstFree, q, f)
      ensures links.next.Keys == old(links.next.Keys)
    {
      hide Faithful, Shape, Chain;
      SelfLinks(links, head, tail, firstFree, queued, free);
      Adjacent(links, head, tail, firstFree, queued, free, 0);
      Places(links, head, tail, firstFree, queued, free, 0);
      Places(links, head, tail, firstFree, queued, free, 1);
      NextOf(tail);
      d := tail.entry;
      WriteNext(tail.prev, tail.next);
      NextOf(tail);
      WritePrev(tail.next, tail.prev);
      WriteNext(tail, firstFree);
      firstFree := tail;
      forall q, f
        ensures !Shape(links, head, tail, firstFree, q, f)
      {
        TailNotFree(links, head, tail, q, f);
      }
    }

    /** Poll removes without looking, so it must not find a token in an empty queue. */
    method Poll() returns (r: Status, d: Option<Entry>)
      requires Sound()
      modifies `links, `firstFree, `queued, `free, `pos, `sem, links.next.Keys
      ensures r == WouldBlock <==> old(sem) == 0
      ensures r == WouldBlock ==> d == None && Sound() && Contents() == old(Contents()) && pos == old(pos) && sem == 0
      ensures r != WouldBlock ==> r == Ok && d.Some? && sem == old(sem) - 1
      ensures r != WouldBlock && old(queued) != [] ==> Sound() && old(Contents()) == [d.value] + Contents()
      ensures r != WouldBlock && old(queued) != [] ==> Polled(old(Seen())) == Some((Seen(), d.value))
      ensures r != WouldBlock && old(queued) != [] ==> pos == if old(pos) == 0 then 0 else old(pos) - 1
      ensures r != WouldBlock && old(queued) != [] && old(Placed()) ==> (Placed() <==> old(pos) != 1)
      ensures r != WouldBlock && old(queued) == [] ==> forall q, f :: !Shape(links, head, tail, firstFree, q, f)
      ensures Sound() ==> |queued| + |free| == |old(queued)| + |old(free)|
      ensures links.next.Keys == old(links.next.Keys)
    {
      hide Faithful, Shape, Chain;
      if sem == 0 {
        return WouldBlock, None;
      }
      sem := sem - 1;
      var e := RemoveNext();
      return Ok, Some(e);
    }

    /** Flush hands one item to the callback and returns; like poll it does not look. */
    method Flush() returns (flushed: seq<Entry>)
      requires Sound()
      modifies `links, `firstFree, `queued, `free, `pos, `sem, links.next.Keys
      ensures |flushed| == if old(sem) == 0 then 0 else 1
      ensures old(sem) == 0 ==> Sound() && Contents() == old(Contents()) && pos == old(pos) && sem == 0
      ensures old(sem) > 0 ==> sem == old(sem) - 1
      ensures old(sem) > 0 && old(queued) != [] ==> Sound() && old(Contents()) == flushed + Contents()
      ensures old(sem) > 0 && old(queued) != [] ==> Polled(old(Seen())) == Some((Seen(), flushed[0]))
      ensures old(sem) > 0 && old(queued) != [] ==> pos == if old(pos) == 0 then 0 else old(pos) - 1
      ensures old(sem) > 0 && old(queued) != [] && old(Placed()) ==> (Placed() <==> old(pos) != 1)
      ensures old(sem) > 0 && old(queued) == [] ==> forall q, f :: !Shape(links, head, tail, firstFree, q, f)
      ensures Sound() ==> |queued| + |free| == |old(queued)| + |old(free)|
      ensures links.next.Keys == old(links.next.Keys)
    {
      hide Faithful, Shape, Chain;
      if sem == 0 {
        return [];
      }
      sem := sem - 1;
      var e := RemoveNext();
      return [e];
    }

    method Unblock()
      requires Sound()
      modifies `unblocking, `sem
      ensures Sound() && unblocking && sem == old(sem) + 1 && Seen() == Unblocked(old(Seen()))
    {
      unblocking := true;
      sem := sem + 1;
    }

    // ----- the cursor

    /** The entry at the cursor, if it is on an item. */
    ghost function Current(): Option<Entry>
      requires Intact()
      reads this, links.next.Keys
    {
      if 1 <= pos <= |queued| then Some(Contents()[pos - 1]) else None
    }

    /** What the cursor's links and entry are. */
    lemma AtCursor()
      requires Intact()
      ensures cursor.next != null && cursor.prev != null
      ensures cursor == head <==> pos == 0
      ensures cursor == tail <==> pos == |queued| + 1
      ensures 1 <= pos <= |queued| ==> cursor == queued[pos - 1] && Current() == Some(cursor.entry)
      ensures cursor.next == if pos <= |queued| then Chain(head, queued, tail)[pos + 1] else tail
      ensures cursor.prev == if pos > 0 then Chain(head, queued, tail)[pos - 1] else head
    {
      hide Shape, Chain, Faithful;
      Places(links, head, tail, firstFree, queued, free, pos);
      QueuedInLinks(links, head, tail, firstFree, queued, free);
      SelfLinks(links, head, tail, firstFree, queued, free);
      if pos <= |queued| {
        Adjacent(links, head, tail, firstFree, queued, free, pos);
      }
      if pos > 0 {
        Adjacent(links, head, tail, firstFree, queued, free, pos - 1);
      }
      NextOf(cursor);
    }

    method CurrentEntry() returns (r: Status, d: Option<Entry>)
      requires Valid()
      ensures d == Current() && (r == End <==> d == None) && (r == Ok <==> d.Some?)
    {
      hide Faithful, Shape, Chain;
      AtCursor();
      if cursor == head || cursor == tail {
        return End, None;
      }
      return Ok, Some(cursor.entry);
    }

    method Next() returns (r: Status, d: Option<Entry>)
      requires Valid()
      modifies `cursor, `pos
      ensures Valid() && pos == (if old(pos) < |queued| then old(pos) + 1 else |queued|)
      ensures if old(pos) < |queued| then r == Ok && d == Current() else r == End && d == None
    {
      hide Faithful, Shape, Chain;
      AtCursor();
      StepTo(cursor.next, if pos <= |queued| then pos + 1 else pos);
      AtCursor();
      if cursor == tail {
        StepTo(cursor.prev, |queued|);
        return End, None;
      }
      return Ok, Some(cursor.entry);
    }

    method Prev() returns (r: Status, d: Option<Entry>)
      requires Valid()
      modifies `cursor, `pos
      ensures Valid() && pos == if old(pos) > 1 then old(pos) - 1 else 1
      ensures if old(pos) > 1 then r == Ok && d == Current() else r == End && d == None
    {
      hide Faithful, Shape, Chain;
      AtCursor();
      StepTo(cursor.prev, if pos > 0 then pos - 1 else pos);
      AtCursor();
      if cursor == head {
        StepTo(cursor.next, 1);
        return End, None;
      }
      return Ok, Some(cursor.entry);
    }

    method StepTo(n: Item, ghost p: nat)
      requires Stocked() && p <= |queued| + 1 && n == Chain(head, queued, tail)[p]
      modifies `cursor, `pos
      ensures Intact() && pos == p && cursor == n
    {
      hide Shape, Chain;
      cursor := n;
      pos := p;
    }

    /** Removes the item at the cursor; the cursor moves on to the one after it.
        The semaphore keeps the item's token. */
    method RemoveCurrent() returns (r: Status, d: Option<Entry>)
      requires Valid()
      modifies `links, `firstFree, `queued, `free, `pos, `cursor, links.next.Keys
      ensures Valid() && d == old(Current()) && pos == old(pos) && links.next.Keys == old(links.next.Keys)
      ensures if d == None then r == End && Contents() == old(Contents())
              else r == Ok && Contents() == Removed(old(Contents()), pos - 1)
      ensures |queued| + |free| == |old(queued)| + |old(free)|
    {
      hide Faithful, Shape, Chain, Removed;
      AtCursor();
      if cursor == head || cursor == tail {
        return End, None;
      }
      d := Some(cursor.entry);
      var tmp := cursor;
      StepTo(cursor.next, pos + 1);
      Take(tmp, pos - 2);
      r := Ok;
    }

    /** Inserts after the cursor; from the tail the cursor goes to the head first. */
    method InsertAfter(d: Entry) returns (r: Status)
      requires Valid()
      modifies `links, `firstFree, `queued, `free, `pos, `cursor, `sem, links.next.Keys
      ensures Valid() && (r == Ok || r == Full)
      ensures r == Full <==> old(free) == [] && Refuses(old(sem), chunkSize, maxSize)
      ensures pos == if old(pos) == |old(queued)| + 1 then 0 else old(pos)
      ensures if r == Ok then Contents() == Inserted(old(Contents()), pos, d) && sem == old(sem) + 1
              else Contents() == old(Contents()) && sem == old(sem)
      ensures |queued| + |free| == |old(queued)| + |old(free)| + Growth(old(free), old(sem), chunkSize, maxSize)
      ensures old(Bounded()) && old(sem) + chunkSize < WRAP ==> Bounded()
      ensures fresh(links.next.Keys - old(links.next.Keys))
    {
      hide Faithful, Shape, Chain, Inserted, Refuses;
      WrapToHead();
      var item := TakeFree();
      if item == null {
        return Full;
      }
      AtCursor();
      Place(item, d, cursor, cursor.next, pos);
      return Ok;
    }

    /** A cursor on the tail goes to the head. */
    method WrapToHead()
      requires Valid()
      modifies `cursor, `pos
      ensures Valid() && pos == if old(pos) == |queued| + 1 then 0 else old(pos)
    {
      hide Faithful, Shape, Chain;
      AtCursor();
      if cursor == tail {
        Places(links, head, tail, firstFree, queued, free, 0);
        StepTo(head, 0);
      }
    }

    /** A cursor on the head goes to the tail. */
    method WrapToTail()
      requires Valid()
      modifies `cursor, `pos
      ensures Valid() && pos == if old(pos) == 0 then |queued| + 1 else old(pos)
    {
      hide Faithful, Shape, Chain;
      AtCursor();
      if cursor == head {
        Places(links, head, tail, firstFree, queued, free, |queued| + 1);
        StepTo(tail, |queued| + 1);
      }
    }

    /** Inserts before the cursor; from the head the cursor goes to the tail first. */
    method InsertBefore(d: Entry) returns (r: Status)
      requires Valid()
      modifies `links, `firstFree, `queued, `free, `pos, `cursor, `sem, links.next.Keys
      ensures Valid() && (r == Ok || r == Full)
      ensures r == Full <==> old(free) == [] && Refuses(old(sem), chunkSize, maxSize)
      ensures var p := if old(pos) == 0 then |old(queued)| + 1 else old(pos);
        if r == Ok then pos == p + 1 && Contents() == Inserted(old(Contents()), p - 1, d) && sem == old(sem) + 1
        else pos == p && Contents() == old(Contents()) && sem == old(sem)
      ensures |queued| + |free| == |old(queued)| + |old(free)| + Growth(old(free), old(sem), chunkSize, maxSize)
      ensures old(Bounded()) && old(sem) + chunkSize < WRAP ==> Bounded()
      ensures fresh(links.next.Keys - old(links.next.Keys))
    {
      hide Faithful, Shape, Chain, Inserted, Refuses;
      WrapToTail();
      var item := TakeFree();
      if item == null {
        return Full;
      }
      AtCursor();
      Place(item, d, cursor.prev, cursor, pos - 1);
      return Ok;
    }

    /** Replaces data and closure of the item at the cursor; its callback stays. */
    method Replace(d: Entry) returns (r: Status)
      requires Valid()
      modifies `links, links.next.Keys
      ensures Valid() && links.next.Keys == old(links.next.Keys)
      ensures if old(Current()) == None then r == End && Contents() == old(Contents())
              else r == Ok && Contents() == old(Contents())[pos - 1 := d.(cb := old(Current()).value.cb)]
    {
      hide Faithful, Shape, Chain;
      AtCursor();
      if cursor == head || cursor == tail {
        return End;
      }
      Adjacent(links, head, tail, firstFree, queued, free, pos);
      QueuedInLinks(links, head, tail, firstFree, queued, free);
      ShapeEntry(links, head, tail, firstFree, queued, free, pos - 1, d.(cb := cursor.entry.cb));
      WriteEntry(cursor, d.(cb := cursor.entry.cb));
      r := Ok;
    }

    method Begin()
      requires Sound()
      modifies `cursor, `pos
      ensures Valid() && pos == 0
    {
      Places(links, head, tail, firstFree, queued, free, 0);
      StepTo(head, 0);
    }

    method ToEnd()
      requires Sound()
      modifies `cursor, `pos
      ensures Valid() && pos == |queued| + 1
    {
      Places(links, head, tail, firstFree, queued, free, |queued| + 1);
      StepTo(tail, |queued| + 1);
    }
  }

  /** With a chunk size of 2^32 - 1 the second chunk passes the test, and the
      queue grows beyond its limit. */
  method ExceedsLimit(d: Entry) returns (q: Queue)
    ensures fresh(q) && q.Valid() && q.maxSize == 10 && |q.Contents()| == 12
  {
    hide Queue.Stocked, Queue.Placed, Queue.Contents, Refuses;
    RefusesExactly(1, WRAP - 1, 10);
    q := new Queue();
    var ok := q.Create(10, 1, WRAP - 1);
    var n := 0;
    while n < 12
      invariant 0 <= n <= 12 && fresh(q) && fresh(q.links.next.Keys) && q.Valid()
      invariant q.maxSize == 10 && q.chunkSize == WRAP - 1 && q.sem == n == |q.queued|
      invariant |q.free| == if n <= 1 then 1 - n else WRAP - n
    {
      assert n == 1 ==> !Refuses(n, q.chunkSize, q.maxSize);
      var r := q.Enqueue(d);
      n := n + 1;
    }
  }
}
