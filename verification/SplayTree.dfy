/** The splay tree macros on objects. */
module SplayTree {
  import opened Sides
  import opened KeyOrder
  import opened SplayShape
  import opened SplayMemory

  // ----- where the search is

  /** Index of the first element of the subtree under search. */
  function First<K>(p: Split<K>): nat {
    |Order(Right, p.low)|
  }

  /** Index of its root. */
  function Index<K>(p: Split<K>): nat
    requires p.t.Fork?
  {
    First(p) + |InOrder(p.t.l)|
  }

  ghost predicate Searching<K>(cmp: (K, K) -> int, keys: map<SplayNode<K>, K>, k: K, p: Split<K>) {
    Between(cmp, keys, p.Contents(), k, First(p), First(p) + |InOrder(p.t)|)
  }

  /** The element at index `i` is equal to `k` or next to where `k` belongs. */
  ghost predicate Near<K>(cmp: (K, K) -> int, keys: map<SplayNode<K>, K>, s: seq<SplayNode<K>>, k: K, i: nat) {
    && i < |s| && s[i] in keys
    && var c := cmp(k, keys[s[i]]);
      && (c == 0 ==> Between(cmp, keys, s, k, i, i + 1))
      && (c < 0 ==> Between(cmp, keys, s, k, i, i))
      && (c > 0 ==> Between(cmp, keys, s, k, i + 1, i + 1))
  }

  predicate Towards(d: Side, c: int) {
    if d.Left? then c < 0 else c > 0
  }

  lemma IndexContents<K>(p: Split<K>)
    requires p.t.Fork?
    ensures Index(p) < |p.Contents()| && p.Contents()[Index(p)] == p.t.n
    ensures Index(p) + 1 + |InOrder(p.t.r)| == First(p) + |InOrder(p.t)| <= |p.Contents()|
  {
    var a := Order(Right, p.low);
    assert p.Contents() == (a + InOrder(p.t.l)) + [p.t.n] + (InOrder(p.t.r) + Order(Left, p.high));
  }

  lemma LinkIndex<K>(p: Split<K>, d: Side)
    requires p.t.Fork?
    ensures First(p.Link(d)) == if d.Left? then First(p) else Index(p) + 1
  {
  }

  /** Comparing with the root tells which child to go on with, and where `k`
      belongs if there is none. */
  lemma Compare<K(!new)>(cmp: (K, K) -> int, keys: map<SplayNode<K>, K>, k: K, p: Split<K>, d: Side)
    requires Ordering(cmp) && Ascending(cmp, keys, p.Contents()) && p.t.Fork? && Searching(cmp, keys, k, p)
    ensures p.t.n in keys
    ensures Towards(d, cmp(k, keys[p.t.n])) ==>
      p.Link(d).Contents() == p.Contents() && Searching(cmp, keys, k, p.Link(d))
    ensures cmp(k, keys[p.t.n]) == 0 || (Towards(d, cmp(k, keys[p.t.n])) && p.t.Kid(d).Leaf?) ==>
      Near(cmp, keys, p.Contents(), k, Index(p))
  {
    hide Ordering, Ascending;
    IndexContents(p);
    InKeys(cmp, keys, p.Contents(), Index(p));
    Narrow(cmp, keys, p.Contents(), k, First(p), First(p) + |InOrder(p.t)|, Index(p));
    p.LinkContents(d);
    LinkIndex(p, d);
  }

  lemma InKeys<K>(cmp: (K, K) -> int, keys: map<SplayNode<K>, K>, s: seq<SplayNode<K>>, i: nat)
    requires Ascending(cmp, keys, s) && i < |s|
    ensures s[i] in keys
  {
  }

  lemma StartSearching<K>(cmp: (K, K) -> int, keys: map<SplayNode<K>, K>, k: K, t: Shape<K>)
    ensures var p := Split(Nil, t, Nil); p.Contents() == InOrder(t) && Searching(cmp, keys, k, p)
  {
    var p, s := Split(Nil, t, Nil), InOrder(t);
    hide InOrder;
    assert Order(Right, p.low) == [] && Order(Left, p.high) == [];
    assert [] + s + [] == s;
  }

  lemma RaiseSearching<K>(cmp: (K, K) -> int, keys: map<SplayNode<K>, K>, k: K, p: Split<K>, d: Side)
    requires p.t.Fork? && p.t.Kid(d).Fork? && Searching(cmp, keys, k, p)
    ensures p.Raise(d).Contents() == p.Contents() && Searching(cmp, keys, k, p.Raise(d))
  {
    p.RaiseContents(d);
    assert |p.Raise(d).Contents()| == |p.Contents()|;
  }

  lemma JoinedNear<K>(cmp: (K, K) -> int, keys: map<SplayNode<K>, K>, k: K, p: Split<K>)
    requires p.t.Fork? && Near(cmp, keys, p.Contents(), k, Index(p))
    ensures InOrder(p.Joined()) == p.Contents()
    ensures Near(cmp, keys, InOrder(p.Joined()), k, |InOrder(p.Joined().l)|)
  {
    p.JoinedContents();
    CloseOrder(Right, p.low, p.t.l);
  }

  /** The fields of the nodes of `s` hold what `s` and `keys` say. */
  ghost predicate Stored<K>(s: Store<K>, keys: map<SplayNode<K>, K>)
    reads s.Keys
  {
    forall n :: n in s ==> n.left == s[n].left && n.right == s[n].right && (n in keys ==> n.key == keys[n])
  }

  class SplayHead<K(!new)> {
    const cmp: (K, K) -> int
    var root: SplayNode?<K>
    ghost var cell: Store<K>
    ghost var keys: map<SplayNode<K>, K>
    ghost var shape: Shape<K>

    constructor (cmp: (K, K) -> int)
      requires Ordering(cmp)
      ensures this.cmp == cmp && Sound() && Contents() == [] && cell.Keys == {}
    {
      this.cmp := cmp;
      root := null;
      cell, keys, shape := map[], map[], Leaf;
    }

    ghost predicate Faithful()
      reads `cell, `keys, cell.Keys
    {
      Stored(cell, keys)
    }

    /** A search tree in ascending order. */
    ghost predicate Sound()
      reads this, cell.Keys
    {
      && Faithful() && Tree(cell, shape) && root == Root(shape)
      && Ordering(cmp) && Ascending(cmp, keys, Contents())
    }

    ghost function Contents(): seq<SplayNode<K>>
      reads `shape
    {
      InOrder(shape)
    }

    /** A splay is under way: the parts are `p`, hanging from `dummy`. */
    ghost predicate Splaying(dummy: SplayNode<K>, p: Split<K>)
      reads `root, `cell, `keys, cell.Keys
    {
      Faithful() && Open(cell, dummy, p) && p.t.Fork? && root == p.t.n
    }

    lemma Entry(n: SplayNode<K>)
      requires Faithful() && n in cell
      ensures cell[n] == Cell(n.left, n.right) && (n in keys ==> keys[n] == n.key)
    {
    }

    method Write(n: SplayNode<K>, d: Side, k: SplayNode?<K>)
      requires Faithful() && n in cell
      modifies `cell, n`left, n`right
      ensures Faithful() && cell == SetKid(old(cell), n, d, k)
    {
      if d.Left? {
        n.left := k;
      } else {
        n.right := k;
      }
      cell := SetKid(cell, n, d, k);
    }

    /** A node of the caller comes in. */
    method Enter(n: SplayNode<K>, l: SplayNode?<K>, r: SplayNode?<K>)
      requires Faithful() && n !in cell
      modifies `cell, `keys, n`left, n`right
      ensures Faithful() && cell == old(cell)[n := Cell(l, r)] && keys == old(keys)[n := n.key]
    {
      n.left, n.right := l, r;
      cell, keys := cell[n := Cell(l, r)], keys[n := n.key];
    }

    /** Rotation: the `d` child of the root becomes the root. */
    method RaiseRoot(d: Side, tmp: SplayNode<K>, ghost dummy: SplayNode<K>, ghost p: Split<K>)
      requires Splaying(dummy, p) && p.t.Kid(d).Fork? && tmp == p.t.Kid(d).n
      modifies `root, `cell, cell.Keys`left, cell.Keys`right
      ensures Splaying(dummy, p.Raise(d)) && cell.Keys == old(cell.Keys)
    {
      hide Open, Faithful;
      OpenKeys(cell, dummy, p);
      RaiseOpen(cell, dummy, p, d);
      Entry(tmp);
      var x := root;
      Write(x, d, tmp.Kid(d.Opp()));
      Write(tmp, d.Opp(), x);
      root := tmp;
    }

    /** The root goes to the end of a spine and its `d` child becomes the root. */
    method LinkRoot(d: Side, last: SplayNode<K>, ghost dummy: SplayNode<K>, ghost p: Split<K>)
      requires Splaying(dummy, p) && p.t.Kid(d).Fork? && last == LastOf(dummy, p, d)
      modifies `root, `cell, cell.Keys`left, cell.Keys`right
      ensures Splaying(dummy, p.Link(d)) && cell.Keys == old(cell.Keys)
      ensures LastOf(dummy, p.Link(d), d) == old(root) && LastOf(dummy, p.Link(d), d.Opp()) == LastOf(dummy, p, d.Opp())
    {
      hide Open, Faithful;
      OpenKeys(cell, dummy, p);
      LinkOpen(cell, dummy, p, d);
      Write(last, d, root);
      OpenKeys(cell, dummy, p.Link(d));
      Entry(root);
      root := root.Kid(d);
    }

    method Assemble(dummy: SplayNode<K>, left: SplayNode<K>, right: SplayNode<K>, ghost p: Split<K>)
      requires Splaying(dummy, p) && left == LastOf(dummy, p, Right) && right == LastOf(dummy, p, Left)
      modifies `root, `cell, `shape, cell.Keys`left, cell.Keys`right
      ensures Faithful() && Tree(cell, shape) && shape == p.Joined() && root == shape.n
      ensures cell.Keys == old(cell.Keys) - {dummy}
    {
      hide Open, Faithful;
      OpenKeys(cell, dummy, p);
      JoinTree(cell, dummy, p);
      WriteEnds(dummy, left, right, p);
      Entry(dummy);
      Write(root, Left, dummy.right);
      Entry(dummy);
      Write(root, Right, dummy.left);
      Forget(dummy);
      shape := p.Joined();
    }

    method WriteEnds(ghost dummy: SplayNode<K>, left: SplayNode<K>, right: SplayNode<K>, ghost p: Split<K>)
      requires Splaying(dummy, p) && left == LastOf(dummy, p, Right) && right == LastOf(dummy, p, Left)
      requires LastOf(dummy, p, Left) in cell && LastOf(dummy, p, Right) in cell
      modifies `cell, cell.Keys`left, cell.Keys`right
      ensures Faithful() && cell == EndsStore(old(cell), dummy, p)
    {
      hide Open, Faithful;
      OpenKeys(cell, dummy, p);
      Entry(root);
      Write(left, Right, root.left);
      Entry(root);
      Write(right, Left, root.right);
    }

    /** The two spines hang from a node of their own, which is empty at first. */
    method StartSplay() returns (dummy: SplayNode<K>)
      requires Faithful() && Tree(cell, shape) && root == Root(shape) != null
      modifies `cell
      ensures fresh(dummy) && Splaying(dummy, Split(Nil, shape, Nil)) && cell.Keys == old(cell.Keys) + {dummy}
    {
      hide Open, Tree;
      dummy := new SplayNode<K>(root.key);
      StartOpen(cell, shape, dummy);
      cell := cell[dummy := Cell(null, null)];
    }

    ghost method TakeIn(s: Store<K>)
      requires Faithful() && Stored(s, keys)
      modifies `cell
      ensures Faithful() && cell == old(cell) + s
    {
      cell := cell + s;
    }

    ghost method Forget(n: SplayNode<K>)
      requires Faithful()
      modifies `cell
      ensures Faithful() && cell == old(cell) - {n}
    {
      cell := cell - {n};
    }

    /** One pass of the splay loop towards side `d`; it stops when there is
        nothing left on that side. */
    method SplayStep(k: K, d: Side, last: SplayNode<K>, ghost dummy: SplayNode<K>, ghost p: Split<K>)
      returns (stop: bool, end: SplayNode<K>, ghost q: Split<K>)
      requires Splaying(dummy, p) && last == LastOf(dummy, p, d)
      requires Ordering(cmp) && Ascending(cmp, keys, p.Contents()) && Searching(cmp, keys, k, p)
      requires p.t.n in keys && Towards(d, cmp(k, keys[p.t.n]))
      modifies `root, `cell, cell.Keys`left, cell.Keys`right
      ensures Splaying(dummy, q) && cell.Keys == old(cell.Keys)
      ensures q.Contents() == p.Contents() && Searching(cmp, keys, k, q)
      ensures stop ==> Near(cmp, keys, q.Contents(), k, Index(q))
      ensures end == LastOf(dummy, q, d) && LastOf(dummy, q, d.Opp()) == LastOf(dummy, p, d.Opp())
      ensures !stop ==> |InOrder(q.t)| < |InOrder(p.t)|
    {
      hide Open, Faithful, Ordering, Ascending, Near, Searching;
      q := p;
      OpenKeys(cell, dummy, q);
      Entry(root);
      Compare(cmp, keys, k, q, d);
      var tmp := root.Kid(d);
      if tmp == null {
        return true, last, q;
      }
      assert q.t.Kid(d).Fork?;
      if Towards(d, cmp(k, tmp.key)) {
        RaiseSearching(cmp, keys, k, q, d);
        RaiseRoot(d, tmp, dummy, q);
        q := q.Raise(d);
        OpenKeys(cell, dummy, q);
        Entry(root);
        Compare(cmp, keys, k, q, d);
        if root.Kid(d) == null {
          return true, last, q;
        }
      }
      stop, end := false, root;
      LinkRoot(d, last, dummy, q);
      q := q.Link(d);
    }

    /** Brings the element equal to `k`, or else a neighbour of where `k`
        belongs, to the root. */
    method Splay(k: K)
      requires Sound() && root != null
      modifies this, cell.Keys`left, cell.Keys`right
      ensures Sound() && root != null && Contents() == old(Contents())
      ensures cell.Keys == old(cell.Keys) && keys == old(keys)
      ensures Near(cmp, keys, Contents(), k, |InOrder(shape.l)|)
    {
      hide Open, Tree, Ordering, Ascending, Near, Between, InOrder, Stored;
      var dummy := StartSplay();
      ghost var p := Split(Nil, shape, Nil);
      StartSearching(cmp, keys, k, shape);
      var left, right := dummy, dummy;
      var stop := false;
      while !stop
        invariant Splaying(dummy, p) && cell.Keys == old(cell.Keys) + {dummy}
        invariant p.Contents() == old(Contents()) && Searching(cmp, keys, k, p)
        invariant left == LastOf(dummy, p, Right) && right == LastOf(dummy, p, Left)
        invariant stop ==> Near(cmp, keys, p.Contents(), k, Index(p))
        modifies `root, `cell, cell.Keys`left, cell.Keys`right
        decreases if stop then 0 else 1 + |InOrder(p.t)|
      {
        OpenKeys(cell, dummy, p);
        Entry(root);
        Compare(cmp, keys, k, p, Left);
        var comp := cmp(k, root.key);
        if comp == 0 {
          stop := true;
        } else {
          ghost var q;
          if comp < 0 {
            stop, right, q := SplayStep(k, Left, right, dummy, p);
          } else {
            stop, left, q := SplayStep(k, Right, left, dummy, p);
          }
          p := q;
        }
      }
      JoinedNear(cmp, keys, k, p);
      Assemble(dummy, left, right, p);
    }

    method Find(k: K) returns (r: SplayNode?<K>)
      requires Sound()
      modifies this, cell.Keys`left, cell.Keys`right
      ensures Sound() && Contents() == old(Contents()) && cell.Keys == old(cell.Keys) && keys == old(keys)
      ensures r != null ==> r in Contents() && cmp(k, r.key) == 0
      ensures r == null ==> forall n :: n in Contents() ==> n in keys && cmp(k, keys[n]) != 0
    {
      if root == null {
        return null;
      }
      hide Tree, Ordering, Ascending;
      Splay(k);
      RootNear(k);
      if cmp(k, root.key) == 0 {
        return root;
      }
      Sign(cmp, k, root.key);
      NearNowhere(cmp, keys, Contents(), k, |InOrder(shape.l)|);
      return null;
    }

    /** The root is the element the splay was for. */
    lemma RootNear(k: K)
      requires Sound() && root != null && Near(cmp, keys, Contents(), k, |InOrder(shape.l)|)
      ensures shape.Fork? && root == shape.n == Contents()[|InOrder(shape.l)|] && root in cell && root in keys
      ensures keys[root] == root.key && root in Contents()
      ensures root.left == Root(shape.l) && root.right == Root(shape.r)
    {
    }

    /** Inserts `elm` unless an equal element is present, which is then returned. */
    method Insert(elm: SplayNode<K>) returns (dup: SplayNode?<K>, ghost i: nat)
      requires Sound()
      modifies this, cell.Keys`left, cell.Keys`right, elm`left, elm`right
      ensures Sound()
      ensures dup != null ==> Contents() == old(Contents()) && i < |Contents()| && Contents()[i] == dup
      ensures dup != null ==> cmp(elm.key, dup.key) == 0 && cell.Keys == old(cell.Keys) && keys == old(keys)
      ensures dup == null ==> i <= |old(Contents())| && elm !in old(Contents())
      ensures dup == null ==> Contents() == old(Contents())[..i] + [elm] + old(Contents())[i..]
      ensures dup == null ==> cell.Keys == old(cell.Keys) + {elm} && keys == old(keys)[elm := elm.key]
    {
      hide Tree, Ordering, Ascending, Between;
      if root == null {
        SingleTree(cmp, keys, elm, elm.key);
        NoNodes();
        Enter(elm, null, null);
        shape := Fork(Leaf, elm, Leaf);
        root := elm;
        return null, 0;
      }
      Splay(elm.key);
      RootNear(elm.key);
      var comp := cmp(elm.key, root.key);
      i := |InOrder(shape.l)|;
      if comp == 0 {
        return root, i;
      }
      if comp < 0 {
        Graft(elm, Left, i);
      } else {
        i := i + 1;
        Graft(elm, Right, i);
      }
      dup := null;
    }

    /** `elm` becomes the root, with the old root below it. */
    method Graft(elm: SplayNode<K>, d: Side, ghost i: nat)
      requires Sound() && root != null && i == |InOrder(shape.l)| + (if d.Left? then 0 else 1)
      requires Between(cmp, keys, Contents(), elm.key, i, i)
      modifies this, cell.Keys`left, cell.Keys`right, elm`left, elm`right
      ensures Sound() && i <= |old(Contents())| && elm !in old(Contents())
      ensures Contents() == old(Contents())[..i] + [elm] + old(Contents())[i..]
      ensures cell.Keys == old(cell.Keys) + {elm} && keys == old(keys)[elm := elm.key]
    {
      hide Tree, Ordering, Ascending, Between, InOrder, Stored;
      ghost var t := shape;
      KeysSeen(elm);
      AscendingInsert(cmp, keys, Contents(), elm, elm.key, i);
      TreeNodes(cell, shape, elm);
      GraftTree(cell, shape, elm, d);
      GraftContents(shape, elm, d);
      TreeSeen(cell, shape);
      Entry(root);
      Enter(elm, if d.Left? then root.left else root, if d.Left? then root else root.right);
      Write(root, d, null);
      shape := Grafted(t, elm, d);
      root := elm;
    }

    /** Removes the element equal to `elm`, if there is one. */
    method Remove(elm: SplayNode<K>) returns (r: SplayNode?<K>, ghost i: nat)
      requires Sound()
      modifies this, cell.Keys`left, cell.Keys`right
      ensures Sound()
      ensures keys == old(keys)
      ensures r == null ==> Contents() == old(Contents()) && cell.Keys == old(cell.Keys)
      ensures r == null ==> forall n :: n in Contents() ==> n in keys && cmp(elm.key, keys[n]) != 0
      ensures r != null ==> r == elm && i < |old(Contents())| && cmp(elm.key, old(Contents())[i].key) == 0
      ensures r != null ==> Contents() == old(Contents())[..i] + old(Contents())[i + 1..]
      ensures r != null ==> cell.Keys == old(cell.Keys) - {old(Contents())[i]}
    {
      hide Tree, Ordering, Ascending, Between;
      i := 0;
      if root == null {
        return null, 0;
      }
      Splay(elm.key);
      RootNear(elm.key);
      i := |InOrder(shape.l)|;
      if cmp(elm.key, root.key) != 0 {
        Sign(cmp, elm.key, root.key);
        NearNowhere(cmp, keys, Contents(), elm.key, i);
        return null, i;
      }
      DropRoot(elm.key);
      r := elm;
    }

    /** Takes the root out after a splay for `k` has brought it there. */
    method DropRoot(k: K)
      requires Sound() && root != null && Near(cmp, keys, Contents(), k, |InOrder(shape.l)|) && cmp(k, root.key) == 0
      modifies this, cell.Keys`left, cell.Keys`right
      ensures Sound() && |InOrder(old(shape.l))| < |old(Contents())|
      ensures var i := |InOrder(old(shape.l))|; Contents() == old(Contents())[..i] + old(Contents())[i + 1..]
      ensures cell.Keys == old(cell.Keys) - {old(root)} && keys == old(keys)
    {
      hide Tree, Ordering, Ascending, Between, InOrder, Part;
      RootNear(k);
      PartsApart(cell, shape);
      AscendingRemove(cmp, keys, Contents(), |InOrder(shape.l)|);
      CutRoot(shape);
      if root.left == null {
        TakeRight();
      } else {
        JoinLeft(k);
      }
    }

    /** The right subtree becomes the tree. */
    method TakeRight()
      requires Sound() && shape.Fork? && Ascending(cmp, keys, InOrder(shape.r))
      modifies `root, `cell, `shape
      ensures Sound() && shape == old(shape.r) && cell.Keys == Part(old(cell), old(shape.r)).Keys
    {
      hide Ordering, Ascending;
      PartTree(cell, shape, Right);
      TreeSeen(cell, shape);
      Entry(root);
      root := root.right;
      cell := Part(cell, shape.r);
      shape := shape.r;
    }

    /** Only the left subtree stays. */
    method KeepLeft()
      requires Sound() && shape.Fork? && Ascending(cmp, keys, InOrder(shape.l) + InOrder(shape.r))
      modifies `root, `cell, `shape
      ensures Sound() && shape == old(shape.l) && cell == Part(old(cell), old(shape.l))
    {
      hide Tree, Ordering, Ascending, InOrder, Stored, Part;
      PartTree(cell, shape, Left);
      PartStored(cell, keys, shape.l);
      TreeSeen(cell, shape);
      Entry(root);
      AscendingPrefix(cmp, keys, InOrder(shape.l), InOrder(shape.r));
      root := root.left;
      cell, shape := Part(cell, shape.l), shape.l;
    }

    /** The left subtree is splayed to its greatest element, which takes over
        the right subtree. */
    method JoinLeft(k: K)
      requires Sound() && shape.Fork? && shape.l.Fork?
      requires Between(cmp, keys, Contents(), k, |InOrder(shape.l)|, |InOrder(shape.l)| + 1)
      requires Ascending(cmp, keys, InOrder(shape.l) + InOrder(shape.r))
      modifies this, cell.Keys`left, cell.Keys`right
      ensures Sound() && Contents() == old(InOrder(shape.l)) + old(InOrder(shape.r))
      ensures cell.Keys == old(cell.Keys) - {old(shape.n)} && keys == old(keys)
    {
      hide Tree, Ordering, Ascending, Between, InOrder, Stored, Part;
      ghost var t := shape;
      ghost var aside := Part(cell, t.r);
      PartTree(cell, shape, Right);
      PartStored(cell, keys, t.r);
      PartsApart(cell, shape);
      TreeSeen(cell, shape);
      Entry(root);
      var tmp := root.right;
      KeepLeft();
      Splay(k);
      RootNear(k);
      GreatestAtRoot(cmp, keys, k, t, shape);
      AdoptContents(shape.l, shape.n, t.r);
      AdoptRight(tmp, aside, t.r);
    }

    /** The root, which has no right subtree, takes over the tree in `aside`. */
    method AdoptRight(tmp: SplayNode?<K>, ghost aside: Store<K>, ghost r: Shape<K>)
      requires Sound() && shape.Fork? && shape.r.Leaf? && tmp == Root(r) && Tree(aside, r) && aside.Keys !! cell.Keys
      requires Stored(aside, keys)
      requires Ascending(cmp, keys, InOrder(Fork(shape.l, shape.n, r)))
      modifies `cell, `shape, cell.Keys`left, cell.Keys`right
      ensures Sound() && shape == Fork(old(shape.l), old(shape.n), r) && cell.Keys == old(cell.Keys) + aside.Keys
    {
      hide Tree, Ordering, Ascending, Stored;
      AdoptTree(cell, shape, aside, r);
      Write(root, Right, tmp);
      TakeIn(aside);
      shape := shape.(r := r);
    }

    lemma NoNodes()
      requires Sound() && root == null
      ensures cell == map[] && shape.Leaf?
    {
    }

    lemma KeysSeen(n: SplayNode<K>)
      requires Sound()
      ensures n in Contents() ==> n in keys && keys[n] == n.key
    {
      TreeNodes(cell, shape, n);
    }
  }

  lemma {:induction false} InOrderNodes<K>(t: Shape<K>, n: SplayNode<K>)
    ensures n in Nodes(t) <==> n in InOrder(t)
  {
    if t.Fork? {
      InOrderNodes(t.l, n);
      InOrderNodes(t.r, n);
    }
  }

  lemma TreeNodes<K>(s: Store<K>, t: Shape<K>, n: SplayNode<K>)
    requires Tree(s, t)
    ensures n in s <==> n in InOrder(t)
  {
    InOrderNodes(t, n);
  }

  lemma TreeSeen<K>(s: Store<K>, t: Shape<K>)
    requires Tree(s, t)
    ensures t.Fork? ==> t.n in s && s[t.n] == Cell(Root(t.l), Root(t.r))
  {
  }

  lemma SingleTree<K(!new)>(cmp: (K, K) -> int, keys: map<SplayNode<K>, K>, e: SplayNode<K>, k: K)
    ensures var t := Fork(Leaf, e, Leaf);
      && Tree(map[][e := Cell(null, null)], t) && InOrder(t) == [e]
      && Ascending(cmp, keys[e := k], InOrder(t))
  {
    assert Distinct<K>(Leaf) && Nodes<K>(Leaf) == {};
  }

  /** The contents without the root. */
  lemma CutRoot<K>(t: Shape<K>)
    requires t.Fork?
    ensures var i := |InOrder(t.l)|;
      i < |InOrder(t)| && InOrder(t)[..i] + InOrder(t)[i + 1..] == InOrder(t.l) + InOrder(t.r)
    ensures t.l.Leaf? ==> InOrder(t.l) + InOrder(t.r) == InOrder(t.r)
  {
    var i, s := |InOrder(t.l)|, InOrder(t);
    assert s[..i] == InOrder(t.l) && s[i + 1..] == InOrder(t.r);
  }

  lemma PartStored<K>(s: Store<K>, keys: map<SplayNode<K>, K>, t: Shape<K>)
    requires Stored(s, keys)
    ensures Stored(Part(s, t), keys)
  {
  }

  lemma PartsApart<K>(s: Store<K>, t: Shape<K>)
    requires Tree(s, t) && t.Fork?
    ensures Part(s, t.l).Keys !! Part(s, t.r).Keys && Part(s, t.l).Keys + Part(s, t.r).Keys == s.Keys - {t.n}
    ensures t.l.Leaf? ==> Part(s, t.l).Keys == {}
  {
  }

  lemma AscendingPrefix<K>(cmp: (K, K) -> int, keys: map<SplayNode<K>, K>, a: seq<SplayNode<K>>, b: seq<SplayNode<K>>)
    requires Ascending(cmp, keys, a + b)
    ensures Ascending(cmp, keys, a)
  {
    assert forall i :: 0 <= i < |a| ==> (a + b)[i] == a[i];
  }

  /** Among elements that are all below `k`, the one next to `k` is the last. */
  lemma LastBelow<K(!new)>(cmp: (K, K) -> int, keys: map<SplayNode<K>, K>, s: seq<SplayNode<K>>, k: K, i: nat)
    requires Ordering(cmp) && Near(cmp, keys, s, k, i)
    requires forall j :: 0 <= j < |s| ==> s[j] in keys && cmp(keys[s[j]], k) < 0
    ensures i + 1 == |s|
  {
    Sign(cmp, keys[s[i]], k);
    Sign(cmp, keys[s[|s| - 1]], k);
  }

  lemma GreatestAtRoot<K(!new)>(cmp: (K, K) -> int, keys: map<SplayNode<K>, K>, k: K, t: Shape<K>, u: Shape<K>)
    requires t.Fork? && u.Fork? && InOrder(u) == InOrder(t.l) && Ordering(cmp)
    requires Between(cmp, keys, InOrder(t), k, |InOrder(t.l)|, |InOrder(t.l)| + 1)
    requires Near(cmp, keys, InOrder(u), k, |InOrder(u.l)|)
    ensures u.r.Leaf?
  {
    hide Ordering, Near, Between, InOrder;
    LeftBelow(cmp, keys, k, t);
    LastBelow(cmp, keys, InOrder(u), k, |InOrder(u.l)|);
    NoRight(u);
  }

  lemma NoRight<K>(t: Shape<K>)
    requires t.Fork? && |InOrder(t.l)| == |InOrder(t)| - 1
    ensures t.r.Leaf?
  {
  }

  lemma LeftBelow<K(!new)>(cmp: (K, K) -> int, keys: map<SplayNode<K>, K>, k: K, t: Shape<K>)
    requires t.Fork? && Between(cmp, keys, InOrder(t), k, |InOrder(t.l)|, |InOrder(t.l)| + 1)
    ensures forall j :: 0 <= j < |InOrder(t.l)| ==> InOrder(t.l)[j] in keys && cmp(keys[InOrder(t.l)[j]], k) < 0
  {
    forall j | 0 <= j < |InOrder(t.l)|
      ensures InOrder(t.l)[j] in keys && cmp(keys[InOrder(t.l)[j]], k) < 0
    {
      assert InOrder(t)[j] == InOrder(t.l)[j];
    }
  }

  lemma AdoptContents<K>(l: Shape<K>, n: SplayNode<K>, r: Shape<K>)
    ensures InOrder(Fork(l, n, r)) == InOrder(Fork(l, n, Leaf)) + InOrder(r)
  {
    assert InOrder(Fork(l, n, Leaf)) == InOrder(l) + [n];
  }

  lemma GraftContents<K>(t: Shape<K>, e: SplayNode<K>, d: Side)
    requires t.Fork?
    ensures var i := |InOrder(t.l)| + (if d.Left? then 0 else 1);
      i <= |InOrder(t)| && InOrder(Grafted(t, e, d)) == InOrder(t)[..i] + [e] + InOrder(t)[i..]
  {
    GraftOrder(t, e, d);
    SplitAround(InOrder(t.l), t.n, InOrder(t.r));
  }

  lemma GraftOrder<K>(t: Shape<K>, e: SplayNode<K>, d: Side)
    requires t.Fork?
    ensures InOrder(t) == InOrder(t.l) + [t.n] + InOrder(t.r)
    ensures d.Left? ==> InOrder(Grafted(t, e, d)) == InOrder(t.l) + [e] + ([t.n] + InOrder(t.r))
    ensures d.Right? ==> InOrder(Grafted(t, e, d)) == (InOrder(t.l) + [t.n]) + [e] + InOrder(t.r)
  {
    var w := Mk(d, Leaf, t.n, t.Kid(d.Opp()));
    assert d.Left? ==> InOrder(w) == [t.n] + InOrder(t.r);
    assert d.Right? ==> InOrder(w) == InOrder(t.l) + [t.n];
  }

  lemma SplitAround<T>(a: seq<T>, n: T, b: seq<T>)
    ensures var s, i := a + [n] + b, |a|;
      s[..i] == a && s[i..] == [n] + b && s[..i + 1] == a + [n] && s[i + 1..] == b
  {
  }

  lemma NearNowhere<K(!new)>(cmp: (K, K) -> int, keys: map<SplayNode<K>, K>, s: seq<SplayNode<K>>, k: K, i: nat)
    requires Ordering(cmp) && Near(cmp, keys, s, k, i) && cmp(k, keys[s[i]]) != 0
    ensures forall n :: n in s ==> n in keys && cmp(k, keys[n]) != 0
  {
    Nowhere(cmp, keys, s, k, if cmp(k, keys[s[i]]) < 0 then i else i + 1);
  }
}
