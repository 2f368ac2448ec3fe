/** Searching and walking a red-black tree. Every position in the tree is an
    index into the ascending sequence of its elements. */
module RbSearch {
  import opened Sides
  import opened RbNodes
  import opened RbShape
  import opened RbFixup
  import opened RbMemory
  import opened RbTree
  import opened KeyOrder

  /** A search tree in ascending order with the red-black colour conditions. */
  ghost predicate Sound<K(!new)>(t: Tree<K>)
    reads t, t.mem.cell.Keys
  {
    && t.Valid() && t.path.Top? && RedBlack(t.focus)
    && Ordering(t.cmp) && Ascending(t.cmp, t.keys, t.Contents())
  }

  // ----- the mark as a range of indices

  function First<K>(z: Path<K>): nat {
    |Before(z)|
  }

  function Size<K>(t: Shape<K>): nat {
    |InOrder(t)|
  }

  function Down<K>(z: Path<K>, t: Shape<K>, d: Side): Path<K>
    requires t.Fork?
  {
    Frame(d, t.n, t.c, Kid(t, d.Opp()), z)
  }

  /** Index of the marked node. */
  function Index<K>(z: Path<K>, t: Shape<K>): nat
    requires t.Fork?
  {
    First(z) + Size(t.l)
  }

  lemma Indices<K>(z: Path<K>, t: Shape<K>)
    requires t.Fork?
    ensures First(Down(z, t, Left)) == First(z) && First(Down(z, t, Left)) + Size(t.l) == Index(z, t)
    ensures First(Down(z, t, Right)) == Index(z, t) + 1
    ensures Index(z, t) + 1 + Size(t.r) == First(z) + Size(t) <= |InOrder(Plug(z, t))|
    ensures Plug(Down(z, t, Left), t.l) == Plug(z, t) == Plug(Down(z, t, Right), t.r)
    ensures InOrder(Plug(z, t))[Index(z, t)] == t.n
  {
    InOrderPlug(z, t);
    var s, i := InOrder(Plug(z, t)), Index(z, t);
    Regroup(Before(z), InOrder(t.l), [t.n], InOrder(t.r), After(z));
    assert s == Before(z) + InOrder(t.l) + ([t.n] + InOrder(t.r) + After(z));
  }

  lemma Range<K>(z: Path<K>, t: Shape<K>)
    ensures First(z) + Size(t) + |After(z)| == |InOrder(Plug(z, t))|
  {
    InOrderPlug(z, t);
  }

  /** Moving the mark down in a valid tree. */
  lemma DownAt<K>(m: Mem<K>, z: Path<K>, t: Shape<K>, d: Side)
    requires At(m, z, t) && t.Fork?
    ensures At(m, Down(z, t, d), Kid(t, d))
  {
    Up(m, Down(z, t, d), Kid(t, d));
  }

  // ----- finding

  /** A search for `k` has come to the marked position. */
  ghost predicate Searching<K(!new)>(t: Tree<K>, k: K, z: Path<K>, x: Shape<K>)
    reads t
  {
    && At(t.mem, z, x) && Plug(z, x) == t.focus && t.path.Top?
    && Between(t.cmp, t.keys, t.Contents(), k, First(z), First(z) + Size(x))
  }

  lemma StartSearch<K(!new)>(t: Tree<K>, k: K)
    requires Sound(t)
    ensures Searching(t, k, Top, t.focus) && t.root == Root(t.focus)
  {
    Seen(t.mem, t.path, t.focus);
    Range(t.path, t.focus);
  }

  /** What one comparison tells. */
  lemma Compare<K(!new)>(t: Tree<K>, k: K, z: Path<K>, x: Shape<K>)
    requires Sound(t) && Searching(t, k, z, x) && x.Fork?
    ensures x.n.left == Root(x.l) && x.n.right == Root(x.r)
    ensures t.cmp(k, x.n.key) < 0 ==> Searching(t, k, Down(z, x, Left), x.l)
    ensures t.cmp(k, x.n.key) > 0 ==> Searching(t, k, Down(z, x, Right), x.r)
    ensures var i := Index(z, x);
      && i < |t.Contents()| && t.Contents()[i] == x.n
      && (t.cmp(k, x.n.key) == 0 ==> Between(t.cmp, t.keys, t.Contents(), k, i, i + 1))
  {
    hide At, Ordering, Ascending, Between, RedBlack, InOrder, Before, After;
    Seen(t.mem, z, x);
    Indices(z, x);
    Narrow(t.cmp, t.keys, t.Contents(), k, First(z), First(z) + Size(x), Index(z, x));
    DownAt(t.mem, z, x, Left);
    DownAt(t.mem, z, x, Right);
  }

  method Find<K(!new)>(t: Tree<K>, k: K) returns (r: Node?<K>, ghost i: nat)
    requires Sound(t)
    ensures r != null ==> i < |t.Contents()| && t.Contents()[i] == r && t.cmp(k, r.key) == 0
    ensures r != null ==> Between(t.cmp, t.keys, t.Contents(), k, i, i + 1)
    ensures r == null ==> Between(t.cmp, t.keys, t.Contents(), k, i, i)
    ensures r != null ==> r in t.Contents()
    ensures r == null ==> forall n :: n in t.Contents() ==> n in t.keys && t.cmp(k, t.keys[n]) != 0
  {
    hide At, RedBlack, Ordering, Ascending, Between;
    ghost var z, x := Path<K>.Top, t.focus;
    r := t.root;
    StartSearch(t, k);
    while r != null
      invariant Sound(t) && Searching(t, k, z, x) && r == Root(x)
      decreases x
    {
      Compare(t, k, z, x);
      var comp := t.cmp(k, r.key);
      if comp < 0 {
        r := r.left;
        z, x := Down(z, x, Left), x.l;
      } else if comp > 0 {
        r := r.right;
        z, x := Down(z, x, Right), x.r;
      } else {
        return r, Index(z, x);
      }
    }
    i := First(z);
    Nowhere(t.cmp, t.keys, t.Contents(), k, i);
  }

  /** The least element that is not below `k`. */
  method NFind<K(!new)>(t: Tree<K>, k: K) returns (r: Node?<K>, ghost i: nat)
    requires Sound(t)
    ensures i <= |t.Contents()| && (r == null <==> i == |t.Contents()|)
    ensures r != null ==> t.Contents()[i] == r && t.cmp(r.key, k) >= 0
    ensures forall j :: 0 <= j < i ==> t.Contents()[j] in t.keys && t.cmp(t.keys[t.Contents()[j]], k) < 0
    ensures r != null ==> r in t.Contents() && r in t.keys
    ensures forall n :: n in t.Contents() ==>
      n in t.keys && (t.cmp(t.keys[n], k) >= 0 ==> r != null && t.cmp(t.keys[r], t.keys[n]) <= 0)
  {
    hide At, RedBlack, Ordering, Ascending;
    ghost var z, x := Path<K>.Top, t.focus;
    var tmp := t.root;
    r, i := null, |t.Contents()|;
    StartSearch(t, k);
    Range(z, x);
    while tmp != null
      invariant Sound(t) && Searching(t, k, z, x) && tmp == Root(x)
      invariant i == First(z) + Size(x) <= |t.Contents()| && (r == null <==> i == |t.Contents()|)
      invariant r != null ==> t.Contents()[i] == r && t.cmp(k, r.key) < 0
      decreases x
    {
      Compare(t, k, z, x);
      Indices(z, x);
      var comp := t.cmp(k, tmp.key);
      if comp < 0 {
        r, i := tmp, Index(z, x);
        tmp := tmp.left;
        z, x := Down(z, x, Left), x.l;
      } else if comp > 0 {
        tmp := tmp.right;
        z, x := Down(z, x, Right), x.r;
      } else {
        Sign(t.cmp, k, tmp.key);
        LeastFrom(t.cmp, t.keys, t.Contents(), k, Index(z, x));
        return tmp, Index(z, x);
      }
    }
    if r != null {
      Sign(t.cmp, k, r.key);
    }
    LeastFrom(t.cmp, t.keys, t.Contents(), k, i);
  }

  // ----- walking

  /** The position of the element with index `i`. */
  lemma {:induction false} Locate<K>(m: Mem<K>, z: Path<K>, x: Shape<K>, i: nat) returns (z': Path<K>, x': Shape<K>)
    requires At(m, z, x) && First(z) <= i < First(z) + Size(x)
    ensures At(m, z', x') && Plug(z', x') == Plug(z, x) && x'.Fork? && Index(z', x') == i
    decreases x
  {
    hide At;
    Indices(z, x);
    if i < Index(z, x) {
      DownAt(m, z, x, Left);
      z', x' := Locate(m, Down(z, x, Left), x.l, i);
    } else if i > Index(z, x) {
      DownAt(m, z, x, Right);
      z', x' := Locate(m, Down(z, x, Right), x.r, i);
    } else {
      z', x' := z, x;
    }
  }

  /** The mark is at a subtree of the tree `t`. */
  ghost predicate Marks<K(!new)>(t: Tree<K>, z: Path<K>, x: Shape<K>)
    reads t, t.mem.cell.Keys
  {
    t.Valid() && t.path.Top? && At(t.mem, z, x) && Plug(z, x) == t.focus
  }

  /** What the fields of the marked node and its parent say in a tree. */
  lemma Fields<K(!new)>(t: Tree<K>, z: Path<K>, x: Shape<K>)
    requires Marks(t, z, x)
    ensures z.Top? ==> t.root == Root(x)
    ensures x.Fork? ==>
      && x.n in t.mem.cell && x.n.left == Root(x.l) && x.n.right == Root(x.r) && x.n.parent == Parent(z)
      && Marks(t, Down(z, x, Left), x.l) && Marks(t, Down(z, x, Right), x.r)
      && Index(z, x) < |t.Contents()| && t.Contents()[Index(z, x)] == x.n
    ensures z.Frame? && x.Fork? ==> (z.n.left == x.n <==> z.d.Left?) && (z.n.right == x.n <==> z.d.Right?)
    ensures z.Frame? ==> z.n in t.mem.cell && Marks(t, z.up, Mk(z.d, x, z.n, z.c, z.sib))
    ensures First(z) + Size(x) <= |t.Contents()| && (z.Top? ==> First(z) == 0 && Size(x) == |t.Contents()|)
  {
    hide At, InOrder;
    Seen(t.mem, z, x);
    Range(z, x);
    if x.Fork? {
      Indices(z, x);
      DownAt(t.mem, z, x, Left);
      DownAt(t.mem, z, x, Right);
    }
    if z.Frame? {
      Up(t.mem, z, x);
    }
  }

  /** How the index range changes when the mark moves to the parent. */
  lemma Climb<K>(z: Path<K>, x: Shape<K>)
    requires z.Frame?
    ensures var y := Mk(z.d, x, z.n, z.c, z.sib);
      && (z.d.Left? ==> First(z.up) == First(z) && Index(z.up, y) == First(z) + Size(x))
      && (z.d.Right? ==> First(z.up) + Size(y) == First(z) + Size(x) && Index(z.up, y) + 1 == First(z))
  {
  }

  /** The outermost element on one side: the minimum for `Left`. */
  method MinMax<K(!new)>(t: Tree<K>, d: Side) returns (r: Node?<K>)
    requires t.Valid() && t.path.Top?
    ensures r == null <==> t.Contents() == []
    ensures r != null ==> r == t.Contents()[if d.Left? then 0 else |t.Contents()| - 1]
  {
    hide At, Before;
    ghost var z, x := Path<K>.Top, t.focus;
    Fields(t, z, x);
    var tmp := t.root;
    r := null;
    while tmp != null
      invariant Marks(t, z, x) && tmp == Root(x)
      invariant if d.Left? then First(z) == 0 else First(z) + Size(x) == |t.Contents()|
      invariant r == null ==> Size(x) == |t.Contents()|
      invariant r != null ==> 0 <= (if d.Left? then Size(x) else First(z) - 1) < |t.Contents()|
      invariant r != null ==> r == t.Contents()[if d.Left? then Size(x) else First(z) - 1]
      decreases x
    {
      Fields(t, z, x);
      Indices(z, x);
      r := tmp;
      tmp := tmp.Kid(d);
      z, x := Down(z, x, d), Kid(x, d);
    }
  }

  /** The outermost element of the marked subtree on one side. */
  method Outermost<K(!new)>(ghost t: Tree<K>, n: Node<K>, d: Side, ghost z0: Path<K>, ghost x0: Shape<K>)
    returns (r: Node<K>)
    requires Marks(t, z0, x0) && x0.Fork? && n == x0.n
    ensures Size(x0) > 0 && First(z0) + Size(x0) <= |t.Contents()|
    ensures r == t.Contents()[if d.Left? then First(z0) else First(z0) + Size(x0) - 1]
  {
    hide At, Before;
    ghost var z, x := z0, x0;
    r := n;
    Fields(t, z, x);
    while r.Kid(d) != null
      invariant Marks(t, z, x) && x.Fork? && r == x.n && r in t.mem.cell
      invariant r.left == Root(x.l) && r.right == Root(x.r)
      invariant if d.Left? then First(z) == First(z0) else First(z) + Size(x) == First(z0) + Size(x0)
      decreases x
    {
      Fields(t, z, x);
      Indices(z, x);
      r := r.Kid(d);
      z, x := Down(z, x, d), Kid(x, d);
      Fields(t, z, x);
    }
    Fields(t, z, x);
    Fields(t, z0, x0);
    Indices(z, x);
  }

  /** The first ancestor reached from its other side, after climbing from the `d` side. */
  method FirstTurn<K(!new)>(ghost t: Tree<K>, n: Node<K>, d: Side, ghost z0: Path<K>, ghost x0: Shape<K>)
    returns (r: Node?<K>)
    requires Marks(t, z0, x0) && x0.Fork? && n == x0.n
    ensures First(z0) + Size(x0) <= |t.Contents()|
    ensures d.Right? ==> var j := First(z0) + Size(x0); r == if j < |t.Contents()| then t.Contents()[j] else null
    ensures d.Left? ==> r == if First(z0) > 0 then t.Contents()[First(z0) - 1] else null
  {
    hide At, Before, InOrder;
    ghost var z, x := z0, x0;
    r := n;
    Fields(t, z, x);
    while r.parent != null && r == r.parent.Kid(d)
      invariant Marks(t, z, x) && x.Fork? && r == x.n && r in t.mem.cell && r.parent == Parent(z)
      invariant z.Frame? ==> z.n in t.mem.cell && (z.n.Kid(d) == r <==> z.d == d)
      invariant if d.Right? then First(z) + Size(x) == First(z0) + Size(x0) else First(z) == First(z0)
      decreases z
    {
      Fields(t, z, x);
      Climb(z, x);
      r := r.parent;
      z, x := z.up, Mk(z.d, x, z.n, z.c, z.sib);
      Fields(t, z, x);
    }
    Fields(t, z, x);
    Fields(t, z0, x0);
    if z.Frame? {
      Climb(z, x);
      Fields(t, z.up, Mk(z.d, x, z.n, z.c, z.sib));
    }
    r := r.parent;
  }

  /** The element next to `elm` on one side: the successor for `Right`. */
  method Neighbor<K(!new)>(ghost t: Tree<K>, elm: Node<K>, d: Side, ghost i: nat) returns (r: Node?<K>)
    requires t.Valid() && t.path.Top? && i < |t.Contents()| && t.Contents()[i] == elm
    ensures d.Right? ==> r == if i + 1 < |t.Contents()| then t.Contents()[i + 1] else null
    ensures d.Left? ==> r == if i > 0 then t.Contents()[i - 1] else null
  {
    hide At, Before;
    Fields(t, Top, t.focus);
    ghost var z, x := Locate(t.mem, Top, t.focus, i);
    Fields(t, z, x);
    Indices(z, x);
    if elm.Kid(d) != null {
      r := Outermost(t, elm.Kid(d), d.Opp(), Down(z, x, d), Kid(x, d));
    } else {
      r := FirstTurn(t, elm, d, z, x);
    }
  }

  /** Visiting every element: the minimum, then successors. */
  method Walk<K(!new)>(t: Tree<K>) returns (visited: seq<Node<K>>)
    requires t.Valid() && t.path.Top?
    ensures visited == t.Contents()
  {
    visited := [];
    var x := MinMax(t, Left);
    while x != null
      invariant t.Valid() && t.path.Top? && |visited| <= |t.Contents()|
      invariant visited == t.Contents()[..|visited|]
      invariant x == if |visited| < |t.Contents()| then t.Contents()[|visited|] else null
      decreases |t.Contents()| - |visited|
    {
      hide At, InOrder;
      var next := Neighbor(t, x, Right, |visited|);
      visited := visited + [x];
      x := next;
    }
  }
}
