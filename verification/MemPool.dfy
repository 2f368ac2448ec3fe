/** The node pool of mempool.c and the elastic buffers of memnode.c. */
module MemPool {
  import opened Chains

  const BLOCK := 256

  /** `newSize` zeros, or the old bytes followed by zeros up to `newSize`; never shorter than before. */
  function Stretched<B>(buffer: seq<B>, zero: B, newSize: nat): (r: seq<B>)
    ensures |r| == (if newSize > |buffer| then newSize else |buffer|) && buffer <= r
    ensures forall i :: |buffer| <= i < |r| ==> r[i] == zero
  {
    if newSize > |buffer| then buffer + seq(newSize - |buffer|, _ => zero) else buffer
  }

  class MemNode {
    var buffer: seq<int>
    var next: MemNode?

    constructor (size: nat)
      ensures |buffer| == size && next == null
      ensures forall i :: 0 <= i < size ==> buffer[i] == 0
    {
      buffer := seq(size, _ => 0);
      next := null;
    }

    /** Grows the buffer to `size`, keeping what is in it; a smaller size changes nothing. */
    method Stretch(size: nat)
      modifies `buffer
      ensures buffer == Stretched(old(buffer), 0, size)
    {
      if |buffer| == 0 {
        buffer := seq(size, _ => 0);
      } else if size > |buffer| {
        buffer := buffer + seq(size - |buffer|, _ => 0);
      }
      assert buffer == Stretched(old(buffer), 0, size);
    }
  }

  class Pool {
    var freeList: MemNode?
    var numFree: nat
    var numTotal: nat
    /** The tracker array: a node for each index below `numTotal`. */
    var slots: seq<MemNode?>
    ghost var next: map<MemNode?, MemNode?>
    ghost var free: seq<MemNode>
    /** Nodes handed out and not returned. */
    ghost var out: set<MemNode>

    ghost predicate Faithful()
      reads `next, next.Keys
    {
      forall n :: n in next ==> n != null && n.next == next[n]
    }

    ghost predicate Valid()
      reads this, next.Keys
    {
      Faithful() && Books(next, freeList, slots, numTotal, free, out) && numFree == |free|
    }

    constructor Empty()
      ensures Valid() && numFree == numTotal == 0 && free == [] && out == {} && next.Keys == {}
    {
      freeList, numFree, numTotal, slots := null, 0, 0, [];
      next, free, out := map[], [], {};
    }

    /** Adds a free node; the tracker grows by a block whenever one is full. */
    method AddNode(size: nat) returns (node: MemNode)
      requires Valid()
      modifies this
      ensures Valid() && fresh(node) && |node.buffer| == size && free == [node] + old(free) && out == old(out)
      ensures numFree == old(numFree) + 1 && numTotal == old(numTotal) + 1 && next.Keys == old(next.Keys) + {node}
      ensures Tracked() == old(Tracked()) + [node]
    {
      hide Books, Faithful;
      node := new MemNode(size);
      GrowTracker();
      Enlist(node);
    }

    /** Allocates the tracker array only every `BLOCK` nodes. */
    method GrowTracker()
      requires Valid()
      modifies `slots
      ensures Valid() && numTotal < |slots| && slots[..numTotal] == old(slots)[..numTotal]
      ensures numTotal == 0 ==> freeList == null
    {
      hide Books, Stretched;
      Room(next, freeList, slots, numTotal, free, out);
      if numTotal % BLOCK == 0 {
        slots := Stretched(slots, null, BLOCK + numTotal);
      }
    }

    method Enlist(node: MemNode)
      requires Valid() && numTotal < |slots| && node !in next && node.next == null
      requires (numTotal == 0 ==> freeList == null)
      modifies this, node`next
      ensures Valid() && free == [node] + old(free) && out == old(out) && next.Keys == old(next.Keys) + {node}
      ensures numFree == old(numFree) + 1 && numTotal == old(numTotal) + 1
      ensures slots[..numTotal] == old(slots)[..old(numTotal)] + [node]
    {
      hide Books;
      BooksAdd(next, freeList, slots, numTotal, free, out, node);
      slots := slots[numTotal := node];
      if numTotal != 0 {
        node.next := freeList;
      }
      next, free := next[node := freeList], [node] + free;
      freeList := node;
      numTotal := numTotal + 1;
      numFree := numFree + 1;
    }

    /** Hands out a node of at least the asked size; one free node always stays. */
    method GetNode(size: nat) returns (node: MemNode)
      requires Valid() && numFree >= 1
      modifies this, next.Keys
      ensures Valid() && numFree == (if old(numFree) == 1 then 1 else old(numFree) - 1)
      ensures node in next && node !in old(out) && out == old(out) + {node} && |node.buffer| >= size
      ensures old(numFree) > 1 ==> Tracked() == old(Tracked()) && node.buffer == Stretched(old(node.buffer), 0, size)
      ensures old(numFree) == 1 ==> fresh(node) && Tracked() == old(Tracked()) + [node]
      ensures fresh(next.Keys - old(next.Keys))
    {
      hide Books, Stretched;
      if 1 == numFree {
        var _ := AddNode(size);
      }
      FirstFree();
      node := freeList;
      HandOut(node);
      node.Stretch(size);
    }

    lemma FirstFree()
      requires Valid() && numFree >= 1
      ensures freeList == free[0] && freeList in next
    {
      PopStack<MemNode?>(next, freeList, null, free);
    }

    method HandOut(node: MemNode)
      requires Valid() && numFree >= 1 && node == freeList
      modifies `freeList, `numFree, `free, `out
      ensures Valid() && node !in old(out) && out == old(out) + {node} && numFree == old(numFree) - 1
      ensures free == old(free)[1..]
    {
      hide Books;
      BooksHandOut(next, node, slots, numTotal, free, out);
      freeList := node.next;
      numFree := numFree - 1;
      free, out := free[1..], out + {node};
    }

    method WriteNext(n: MemNode, x: MemNode?)
      requires Faithful() && n in next
      modifies `next, n`next
      ensures Faithful() && next == old(next)[n := x]
    {
      n.next := x;
      next := next[n := x];
    }

    /** Takes a node back that was handed out. */
    method ReturnNode(node: MemNode)
      requires Valid() && node in out
      modifies this, node
      ensures Valid() && numFree == old(numFree) + 1 && out == old(out) - {node} && free == [node] + old(free)
      ensures Tracked() == old(Tracked()) && next.Keys == old(next.Keys) && node.buffer == old(node.buffer)
    {
      hide Books, Faithful;
      BooksReturn(next, freeList, slots, numTotal, free, out, node);
      WriteNext(node, freeList);
      freeList := node;
      numFree := numFree + 1;
      free, out := [node] + free, out - {node};
    }

    /** Calls back for each tracked node. */
    method Iterate() returns (visited: seq<MemNode?>)
      requires Valid()
      ensures visited == Tracked()
    {
      visited := [];
      var i := 0;
      while i < numTotal
        invariant 0 <= i <= numTotal && visited == slots[..i]
      {
        visited := visited + [slots[i]];
        i := i + 1;
      }
    }

    /** Every tracked node is free or handed out, not both, and tracked once. */
    lemma FreeOrOut(i: nat)
      requires Valid() && i < numTotal
      ensures var n := Tracked()[i]; n != null && (n in free <==> n !in out)
      ensures forall j :: 0 <= j < numTotal && j != i ==> Tracked()[j] != Tracked()[i]
    {
      var n := Tracked()[i];
      assert n in Members(Tracked());
      assert n in Members<MemNode?>(free) <==> n in free;
    }

    /** All nodes of the pool, oldest first. */
    ghost function Tracked(): seq<MemNode?>
      requires Valid()
      reads this, next.Keys
    {
      slots[..numTotal]
    }
  }

  /** Free and handed-out nodes split the tracked ones. */
  ghost predicate Books(next: map<MemNode?, MemNode?>, first: MemNode?, slots: seq<MemNode?>, total: nat,
      free: seq<MemNode>, out: set<MemNode>)
  {
    && Stack(next, first, null, free) && null !in next && total <= |slots| && |slots| % BLOCK == 0
    && Distinct(slots[..total]) && Members(slots[..total]) == next.Keys == Members<MemNode?>(free) + out
    && Members(free) !! out
  }

  /** There is room for another node once a full tracker has been stretched. */
  lemma Room(next: map<MemNode?, MemNode?>, first: MemNode?, slots: seq<MemNode?>, total: nat, free: seq<MemNode>,
      out: set<MemNode>)
    requires Books(next, first, slots, total, free, out)
    ensures total <= |slots| && (total % BLOCK != 0 ==> total < |slots|) && (total == 0 ==> first == null)
    ensures var slots' := Stretched(slots, null, BLOCK + total);
      total % BLOCK == 0 ==>
        Books(next, first, slots', total, free, out) && total < |slots'| && slots'[..total] == slots[..total]
  {
    NoneTracked(next, first, slots, total, free, out);
    Blocks(total, |slots|);
    hide Stack, Distinct;
    var slots' := Stretched(slots, null, BLOCK + total);
    hide Stretched;
    assert slots'[..total] == slots[..total];
  }

  lemma NoneTracked(next: map<MemNode?, MemNode?>, first: MemNode?, slots: seq<MemNode?>, total: nat,
      free: seq<MemNode>, out: set<MemNode>)
    requires Books(next, first, slots, total, free, out)
    ensures total == 0 ==> first == null
  {
    if free != [] {
      assert free[0] in Members<MemNode?>(free);
    }
  }

  lemma Blocks(total: nat, size: nat)
    requires total <= size && size % BLOCK == 0
    ensures total % BLOCK != 0 ==> total < size
    ensures total % BLOCK == 0 ==> (BLOCK + total) % BLOCK == 0
  {
  }

  lemma BooksAdd(next: map<MemNode?, MemNode?>, first: MemNode?, slots: seq<MemNode?>, total: nat, free: seq<MemNode>,
      out: set<MemNode>, node: MemNode)
    requires Books(next, first, slots, total, free, out) && total < |slots| && node !in next
    ensures Books(next[node := first], node, slots[total := node], total + 1, [node] + free, out)
    ensures slots[total := node][..total + 1] == slots[..total] + [node]
  {
    var tracked := slots[..total];
    assert slots[total := node][..total + 1] == tracked + [node];
    assert node !in Members(tracked) && node !in Members<MemNode?>(free);
    assert Members(tracked + [node]) == Members(tracked) + {node};
    assert Members<MemNode?>([node] + free) == Members<MemNode?>(free) + {node};
    PushStack<MemNode?>(next, first, null, free, node);
  }

  lemma BooksHandOut(next: map<MemNode?, MemNode?>, first: MemNode, slots: seq<MemNode?>, total: nat,
      free: seq<MemNode>, out: set<MemNode>)
    requires Books(next, first, slots, total, free, out) && free != []
    ensures first == free[0] && first !in out && first in next
    ensures Books(next, next[first], slots, total, free[1..], out + {first})
  {
    PopStack<MemNode?>(next, first, null, free);
  }

  lemma BooksReturn(next: map<MemNode?, MemNode?>, first: MemNode?, slots: seq<MemNode?>, total: nat,
      free: seq<MemNode>, out: set<MemNode>, node: MemNode)
    requires Books(next, first, slots, total, free, out) && node in out
    ensures node in next && Books(next[node := first], node, slots, total, [node] + free, out - {node})
  {
    assert node !in Members<MemNode?>(free);
    assert Members<MemNode?>([node] + free) == Members<MemNode?>(free) + {node};
    PushStack<MemNode?>(next, first, null, free, node);
  }

  /** A pool of `poolSize` nodes; pools of fewer than two nodes are refused. */
  method Create(poolSize: nat, nodeSize: nat) returns (pool: Pool?)
    ensures pool == null <==> poolSize < 2
    ensures pool != null ==>
      && fresh(pool) && pool.Valid() && fresh(pool.next.Keys)
      && pool.numFree == pool.numTotal == poolSize && pool.out == {}
      && forall n :: n in pool.free ==> |n.buffer| == nodeSize
  {
    if poolSize < 2 {
      return null;
    }
    pool := new Pool.Empty();
    var i := 0;
    while i < poolSize
      invariant 0 <= i <= poolSize && fresh(pool) && pool.Valid() && fresh(pool.next.Keys)
      invariant pool.numFree == pool.numTotal == i && pool.out == {}
      invariant forall n :: n in pool.free ==> |n.buffer| == nodeSize
    {
      var _ := pool.AddNode(nodeSize);
      i := i + 1;
    }
  }
}
