/** Insertion into and removal from a red-black tree. */
module RbUpdate {
  import opened Sides
  import opened RbNodes
  import opened RbShape
  import opened RbFixup
  import opened RbMemory
  import opened RbTree
  import opened KeyOrder
  import opened RbSearch

  lemma {:induction false} InOrderNodes<K>(x: Shape<K>, n: Node<K>)
    ensures n in Nodes(x) <==> n in InOrder(x)
  {
    if x.Fork? {
      InOrderNodes(x.l, n);
      InOrderNodes(x.r, n);
    }
  }

  lemma AttachContents<K>(z: Path<K>, e: Node<K>)
    ensures First(z) <= |InOrder(Plug(z, Leaf))|
    ensures var s, i := InOrder(Plug(z, Leaf)), First(z);
      InOrder(Plug(z, Fork(Leaf, e, Red, Leaf))) == s[..i] + [e] + s[i..]
  {
    InOrderPlug(z, Leaf);
    InOrderPlug(z, Fork(Leaf, e, Red, Leaf));
    assert InOrder(Plug(z, Leaf)) == Before(z) + After(z);
    assert InOrder(Fork(Leaf, e, Red, Leaf)) == [e];
  }

  lemma AttachColor<K>(z: Path<K>, e: Node<K>)
    requires RedBlack(Plug(z, Leaf))
    ensures InsertSite(z, Fork(Leaf, e, Red, Leaf))
  {
    RedBlackPlug(z, Leaf);
  }

  lemma EndSearch<K(!new)>(t: Tree<K>, k: K, z: Path<K>)
    requires Searching(t, k, z, Leaf)
    ensures Between(t.cmp, t.keys, t.Contents(), k, First(z), First(z))
  {
  }

  /** Attaches `elm` where the search ended and repairs the colours. */
  method InsertAt<K(!new)>(t: Tree<K>, elm: Node<K>, parent: Node?<K>, left: bool, ghost z: Path<K>)
    requires Sound(t) && Searching(t, elm.key, z, Leaf)
    requires parent == Parent(z) && (z.Frame? ==> (left <==> z.d.Left?))
    modifies t, t.mem.cell.Keys`left, t.mem.cell.Keys`right, t.mem.cell.Keys`parent, t.mem.cell.Keys`color
    modifies elm`left, elm`right, elm`parent, elm`color
    ensures Sound(t) && First(z) <= |old(t.Contents())| && elm !in old(t.Contents())
    ensures t.Contents() == old(t.Contents())[..First(z)] + [elm] + old(t.Contents())[First(z)..]
    ensures t.mem.cell.Keys == old(t.mem.cell.Keys) + {elm}
    ensures t.keys == old(t.keys)[elm := elm.key]
  {
    hide At, RedBlack, Ordering, Ascending, Between, InOrder, Before, After, InsertSite;
    TreeNodes(t, elm);
    EndSearch(t, elm.key, z);
    AscendingInsert(t.cmp, t.keys, t.Contents(), elm, elm.key, First(z));
    AttachContents(z, elm);
    AttachColor(z, elm);
    t.path, t.focus := z, Leaf;
    t.Attach(elm, parent, left);
    t.InsertColor(elm);
  }

  lemma TreeNodes<K(!new)>(t: Tree<K>, n: Node<K>)
    requires t.Valid() && t.path.Top?
    ensures n in t.mem.cell <==> n in t.Contents()
  {
    InOrderNodes(t.focus, n);
  }

  /** Inserts `elm` unless an equal element is present, which is then returned. */
  method Insert<K(!new)>(t: Tree<K>, elm: Node<K>) returns (dup: Node?<K>, ghost i: nat)
    requires Sound(t)
    modifies t, t.mem.cell.Keys`left, t.mem.cell.Keys`right, t.mem.cell.Keys`parent, t.mem.cell.Keys`color
    modifies elm`left, elm`right, elm`parent, elm`color
    ensures Sound(t)
    ensures dup != null ==> i < |old(t.Contents())| && old(t.Contents())[i] == dup && t.cmp(elm.key, dup.key) == 0
    ensures dup != null ==> t.mem == old(t.mem) && t.Contents() == old(t.Contents()) && t.keys == old(t.keys)
    ensures dup == null ==> i <= |old(t.Contents())| && elm !in old(t.Contents())
    ensures dup == null ==> t.Contents() == old(t.Contents())[..i] + [elm] + old(t.Contents())[i..]
    ensures dup == null ==> t.mem.cell.Keys == old(t.mem.cell.Keys) + {elm} && t.keys == old(t.keys)[elm := elm.key]
  {
    hide At, RedBlack, Ordering, Ascending, Between, InOrder, Before, After;
    ghost var s := t.Contents();
    ghost var z, x := Path<K>.Top, t.focus;
    var tmp, parent, comp := t.root, null, 0;
    StartSearch(t, elm.key);
    while tmp != null
      invariant Sound(t) && Searching(t, elm.key, z, x) && tmp == Root(x)
      invariant parent == Parent(z) && (z.Frame? ==> (comp < 0 <==> z.d.Left?))
      modifies {}
      decreases x
    {
      Compare(t, elm.key, z, x);
      parent := tmp;
      comp := t.cmp(elm.key, parent.key);
      if comp < 0 {
        tmp := tmp.left;
        z, x := Down(z, x, Left), x.l;
      } else if comp > 0 {
        tmp := tmp.right;
        z, x := Down(z, x, Right), x.r;
      } else {
        return tmp, Index(z, x);
      }
    }
    dup, i := null, First(z);
    InsertAt(t, elm, parent, comp < 0, z);
  }

  // ----- removal

  /** Taking out a node with at most one child: if it was black, every path
      through that child has one black node too few. */
  lemma SpliceColor<K>(z: Path<K>, x: Shape<K>, d: Side)
    requires x.Fork? && Kid(x, d.Opp()).Leaf? && RedBlack(Plug(z, x))
    ensures x.c.Black? ==> RemoveSite(z, Kid(x, d))
    ensures x.c.Red? ==> RedBlack(Plug(z, Kid(x, d)))
  {
    RedBlackPlug(z, x);
    RedBlackPlug(z, Kid(x, d));
  }

  lemma CutOut<T>(a: seq<T>, n: T, b: seq<T>)
    ensures var s := a + [n] + b; s[..|a|] + s[|a| + 1..] == a + b
  {
    var s := a + [n] + b;
    assert s[..|a|] == a && s[|a| + 1..] == b;
  }

  /** The contents split at the marked node. */
  lemma SplitContents<K>(z: Path<K>, x: Shape<K>)
    requires x.Fork?
    ensures InOrder(Plug(z, x)) == (Before(z) + InOrder(x.l)) + [x.n] + (InOrder(x.r) + After(z))
  {
    InOrderPlug(z, x);
    Regroup([], Before(z), InOrder(x.l), [x.n] + InOrder(x.r), After(z));
  }

  lemma SpliceContents<K>(z: Path<K>, x: Shape<K>, d: Side)
    requires x.Fork? && Kid(x, d.Opp()).Leaf?
    ensures var s, i := InOrder(Plug(z, x)), Index(z, x);
      i < |s| && InOrder(Plug(z, Kid(x, d))) == s[..i] + s[i + 1..]
  {
    hide InOrder, Plug, Before, After, Kid;
    SplitContents(z, x);
    CutOut(Before(z) + InOrder(x.l), x.n, InOrder(x.r) + After(z));
    InOrderPlug(z, Kid(x, d));
    OneSide(x, d);
    Rebracket(Before(z), InOrder(x.l), InOrder(x.r), After(z));
  }

  lemma Rebracket<T>(a: seq<T>, b: seq<T>, c: seq<T>, d: seq<T>)
    ensures a + b + (c + d) == a + (b + c) + d
  {
  }

  lemma OneSide<K>(x: Shape<K>, d: Side)
    requires x.Fork? && Kid(x, d.Opp()).Leaf?
    ensures InOrder(Kid(x, d)) == InOrder(x.l) + InOrder(x.r)
  {
  }

  // The successor of a node with two children is the leftmost node on its right.

  /** The same path with the node `o` of its frame at the join renamed to `y`. */
  lemma {:induction false} RenameColor<K>(inner: Path<K>, outer: Path<K>, y: Node<K>, h: int)
    requires outer.Frame?
    ensures BalancedPath(Append(inner, outer.(n := y)), h) <==> BalancedPath(Append(inner, outer), h)
    ensures ColoredPath(Append(inner, outer.(n := y))) <==> ColoredPath(Append(inner, outer))
    ensures Append(inner, outer).Frame? && Append(inner, outer.(n := y)).Frame?
    ensures Append(inner, outer).c == Append(inner, outer.(n := y)).c
  {
    if inner.Frame? {
      RenameColor(inner.up, outer, y, h + Count(inner.c));
    }
  }

  lemma SuccessorFirst<K>(inner: Path<K>, y: Node<K>, c: Color, k: Shape<K>)
    requires Before(inner) == []
    ensures InOrder(Plug(inner, Fork(Leaf, y, c, k))) == [y] + InOrder(Plug(inner, k))
  {
    assert InOrder(Fork(Leaf, y, c, k)) == [y] + InOrder(k);
    hide InOrder, Plug, Before, After;
    InOrderPlug(inner, Fork(Leaf, y, c, k));
    InOrderPlug(inner, k);
    assert ([y] + InOrder(k)) + After(inner) == [y] + (InOrder(k) + After(inner));
  }

  lemma SuccessorContents<K>(z: Path<K>, x: Shape<K>, inner: Path<K>, y: Node<K>, c: Color, k: Shape<K>)
    requires x.Fork? && x.r == Plug(inner, Fork(Leaf, y, c, k)) && Before(inner) == []
    ensures var s, i := InOrder(Plug(z, x)), Index(z, x);
      i < |s| && InOrder(Plug(z, Fork(x.l, y, x.c, Plug(inner, k)))) == s[..i] + s[i + 1..]
  {
    hide InOrder, Before, After, Plug;
    var a, rest := Before(z) + InOrder(x.l), InOrder(Plug(inner, k));
    SuccessorFirst(inner, y, c, k);
    SplitContents(z, x);
    CutOut(a, x.n, InOrder(x.r) + After(z));
    SplitContents(z, Fork(x.l, y, x.c, Plug(inner, k)));
    assert a + [y] + (rest + After(z)) == a + ([y] + rest + After(z));
  }

  lemma SuccessorColor<K>(inner: Path<K>, outer: Path<K>, y: Node<K>, c: Color, k: Shape<K>)
    requires outer.Frame? && RedBlack(Plug(Append(inner, outer), Fork(Leaf, y, c, k)))
    ensures c.Black? ==> RemoveSite(Append(inner, outer.(n := y)), k)
    ensures c.Red? ==> RedBlack(Plug(Append(inner, outer.(n := y)), k))
  {
    hide Append, Plug, RedBlack, RemoveSite, BalancedPath, ColoredPath, Kid;
    var x := Fork(Leaf, y, c, k);
    KidRight(x);
    SpliceColor(Append(inner, outer), x, Right);
    RenameColor(inner, outer, y, Height(k));
    RenameColor(inner, outer, y, Height(k) + 1);
    SameColors(Append(inner, outer), Append(inner, outer.(n := y)), k);
  }

  lemma KidRight<K>(x: Shape<K>)
    requires x.Fork?
    ensures Kid(x, Right) == x.r && Kid(x, Right.Opp()) == x.l
  {
  }

  /** The nodes of a path do not matter for its colours. */
  lemma SameColors<K>(z: Path<K>, z': Path<K>, k: Shape<K>)
    requires BalancedPath(z, Height(k)) <==> BalancedPath(z', Height(k))
    requires BalancedPath(z, Height(k) + 1) <==> BalancedPath(z', Height(k) + 1)
    requires (ColoredPath(z) <==> ColoredPath(z')) && (z.Top? <==> z'.Top?) && (z.Frame? && z'.Frame? ==> z.c == z'.c)
    ensures RemoveSite(z, k) <==> RemoveSite(z', k)
    ensures RedBlack(Plug(z, k)) <==> RedBlack(Plug(z', k))
  {
    RedBlackPlug(z, k);
    RedBlackPlug(z', k);
  }

  /** Only at the join itself is the parent the node of the frame there. */
  lemma JoinParent<K>(m: Mem<K>, inner: Path<K>, outer: Path<K>, k: Shape<K>)
    requires At(m, Append(inner, outer), k) && outer.Frame?
    ensures Parent(Append(inner, outer)) == outer.n <==> inner.Top?
    ensures k.Fork? ==> k.n != outer.n
  {
    AppendNodes(inner, outer);
    if inner.Frame? {
      AppendNodes(inner.up, outer);
    }
  }

  lemma {:induction false} AppendNodes<K>(inner: Path<K>, outer: Path<K>)
    ensures PathNodes(outer) <= PathNodes(Append(inner, outer))
  {
    if inner.Frame? {
      AppendNodes(inner.up, outer);
    }
  }

  /** Puts `y` in the place of `o`, which is above the mark. */
  method PutInPlace<K(!new)>(t: Tree<K>, o: Node<K>, y: Node<K>, ghost inner: Path<K>, ghost outer: Path<K>)
    requires t.Valid() && outer.Frame? && outer.d.Right? && outer.n == o && t.path == Append(inner, outer)
    requires y !in t.mem.cell
    modifies t, t.mem.cell.Keys`left, t.mem.cell.Keys`right, t.mem.cell.Keys`parent
    modifies y`left, y`right, y`parent, y`color
    ensures t.Valid() && t.path == Append(inner, outer.(n := y)) && t.focus == old(t.focus)
    ensures t.mem.cell.Keys == old(t.mem.cell.Keys) - {o} + {y} && t.keys == old(t.keys)[y := y.key]
  {
    hide At, Tree.Faithful, Plug, InOrder;
    ghost var k := t.focus;
    Refocus(t.mem, inner, outer, k);
    t.path, t.focus := outer, Plug(inner, k);
    t.GoUp();
    t.Replace(o, y);
    t.GoDown(Right);
    Refocus(t.mem, inner, t.path, k);
    t.path, t.focus := Append(inner, t.path), k;
  }

  /** Takes the successor `y` of the marked node out and puts it in that node's place. */
  method RemoveSuccessor<K(!new)>(t: Tree<K>, o: Node<K>, y: Node<K>, ghost inner: Path<K>, ghost outer: Path<K>)
    returns (child: Node?<K>, parent: Node?<K>, color: Color)
    requires t.Valid() && outer.Frame? && outer.d.Right? && outer.n == o && t.path == Append(inner, outer)
    requires t.focus.Fork? && t.focus.n == y && t.focus.l.Leaf?
    modifies t, t.mem.cell.Keys`left, t.mem.cell.Keys`right, t.mem.cell.Keys`parent, t.mem.cell.Keys`color
    ensures t.Valid() && t.path == Append(inner, outer.(n := y)) && t.focus == old(t.focus.r)
    ensures child == Root(t.focus) && parent == Parent(t.path) && color == old(t.focus.c)
    ensures t.mem.cell.Keys == old(t.mem.cell.Keys) - {o} && t.keys == old(t.keys)
  {
    hide At, Tree.Faithful, Plug, InOrder;
    ghost var k := t.focus.r;
    Seen(t.mem, t.path, t.focus);
    t.Entry(y);
    assert t.keys[y := y.key] == t.keys;
    child, parent, color := y.right, y.parent, y.color;
    JoinParent(t.mem, inner, outer, t.focus);
    t.Splice(y, child, parent, Right);
    if parent == o {
      parent := y;
    }
    PutInPlace(t, o, y, inner, outer);
  }

  /** What unlinking leaves behind at the mark: all elements but the one that
      had index `i`, with the colours still to be repaired if a black node went. */
  ghost predicate Unlinked<K(!new)>(t: Tree<K>, s: seq<Node<K>>, i: nat, child: Node?<K>, parent: Node?<K>,
      color: Color)
    requires i < |s|
    reads t, t.mem.cell.Keys
  {
    && t.Valid() && t.Contents() == s[..i] + s[i + 1..]
    && child == Root(t.focus) && parent == Parent(t.path)
    && (color.Black? ==> RemoveSite(t.path, t.focus))
    && (color.Red? ==> RedBlack(Plug(t.path, t.focus)))
  }

  /** Goes to the right and then left as far as possible. */
  method FindSuccessor<K(!new)>(t: Tree<K>, elm: Node<K>) returns (y: Node<K>, ghost inner: Path<K>)
    requires t.Valid() && t.focus.Fork? && t.focus.n == elm && t.focus.r.Fork?
    modifies t`path, t`focus
    ensures t.Valid() && t.path == Append(inner, Down(old(t.path), old(t.focus), Right)) && Before(inner) == []
    ensures Plug(inner, t.focus) == old(t.focus).r && t.focus.Fork? && t.focus.n == y && t.focus.l.Leaf?
  {
    hide At, Tree.Faithful, InOrder;
    ghost var x := t.focus;
    Seen(t.mem, t.path, t.focus);
    t.Entry(elm);
    t.GoDown(Right);
    ghost var outer := t.path;
    inner := Top;
    y := elm.right;
    Seen(t.mem, t.path, t.focus);
    t.Entry(y);
    while y.left != null
      invariant t.Valid() && t.path == Append(inner, outer) && Before(inner) == []
      invariant Plug(inner, t.focus) == x.r && t.focus.Fork? && t.focus.n == y
      invariant y in t.mem.cell && y.left == Root(t.focus.l)
      decreases t.focus
    {
      y := y.left;
      inner := Down(inner, t.focus, Left);
      t.GoDown(Left);
      Seen(t.mem, t.path, t.focus);
      t.Entry(y);
    }
  }

  /** Unlinks the marked node when it has two children. */
  method UnlinkInner<K(!new)>(t: Tree<K>, elm: Node<K>) returns (child: Node?<K>, parent: Node?<K>, color: Color)
    requires t.Valid() && t.focus.Fork? && t.focus.n == elm && t.focus.r.Fork? && RedBlack(Plug(t.path, t.focus))
    modifies t, t.mem.cell.Keys`left, t.mem.cell.Keys`right, t.mem.cell.Keys`parent, t.mem.cell.Keys`color
    ensures Index(old(t.path), old(t.focus)) < |old(t.Contents())|
    ensures Unlinked(t, old(t.Contents()), Index(old(t.path), old(t.focus)), child, parent, color)
    ensures t.mem.cell.Keys == old(t.mem.cell.Keys) - {elm} && t.keys == old(t.keys)
  {
    hide At, Tree.Faithful, InOrder, RedBlack, RemoveSite;
    ghost var z, x := t.path, t.focus;
    ghost var outer := Down(z, x, Right);
    var y, inner := FindSuccessor(t, elm);
    ghost var c, k := t.focus.c, t.focus.r;
    PlugAppend(inner, outer, t.focus);
    SuccessorContents(z, x, inner, y, c, k);
    SuccessorColor(inner, outer, y, c, k);
    child, parent, color := RemoveSuccessor(t, elm, y, inner, outer);
    PlugAppend(inner, t.path, k);
    PlugAppend(inner, outer.(n := y), k);
  }

  /** Unlinks the marked node. */
  method Unlink<K(!new)>(t: Tree<K>, elm: Node<K>) returns (child: Node?<K>, parent: Node?<K>, color: Color)
    requires t.Valid() && t.focus.Fork? && t.focus.n == elm && RedBlack(Plug(t.path, t.focus))
    modifies t, t.mem.cell.Keys`left, t.mem.cell.Keys`right, t.mem.cell.Keys`parent, t.mem.cell.Keys`color
    ensures Index(old(t.path), old(t.focus)) < |old(t.Contents())|
    ensures Unlinked(t, old(t.Contents()), Index(old(t.path), old(t.focus)), child, parent, color)
    ensures t.mem.cell.Keys == old(t.mem.cell.Keys) - {elm} && t.keys == old(t.keys)
  {
    hide At, Tree.Faithful, InOrder, RedBlack, RemoveSite;
    Seen(t.mem, t.path, t.focus);
    t.Entry(elm);
    if elm.left == null {
      SpliceColor(t.path, t.focus, Right);
      SpliceContents(t.path, t.focus, Right);
      child, parent, color := elm.right, elm.parent, elm.color;
      t.Splice(elm, child, parent, Right);
    } else if elm.right == null {
      SpliceColor(t.path, t.focus, Left);
      SpliceContents(t.path, t.focus, Left);
      child, parent, color := elm.left, elm.parent, elm.color;
      t.Splice(elm, child, parent, Left);
    } else {
      child, parent, color := UnlinkInner(t, elm);
    }
  }

  /** Removes `elm`, the element with index `i`. */
  method Remove<K(!new)>(t: Tree<K>, elm: Node<K>, ghost i: nat) returns (removed: Node<K>)
    requires Sound(t) && i < |t.Contents()| && t.Contents()[i] == elm
    modifies t, t.mem.cell.Keys`left, t.mem.cell.Keys`right, t.mem.cell.Keys`parent, t.mem.cell.Keys`color
    ensures Sound(t) && removed == elm
    ensures t.Contents() == old(t.Contents())[..i] + old(t.Contents())[i + 1..]
    ensures t.mem.cell.Keys == old(t.mem.cell.Keys) - {elm} && t.keys == old(t.keys)
  {
    hide At, Tree.Faithful, InOrder, RedBlack, RemoveSite, Ascending, Ordering;
    AscendingRemove(t.cmp, t.keys, t.Contents(), i);
    Fields(t, Top, t.focus);
    ghost var z, x := Locate(t.mem, Top, t.focus, i);
    Fields(t, z, x);
    t.path, t.focus := z, x;
    var child, parent, color := Unlink(t, elm);
    if color.Black? {
      t.RemoveColor(parent, child);
    } else {
      t.GoTop();
    }
    removed := elm;
  }
}
