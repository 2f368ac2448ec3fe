/** The red-black tree macros on objects: the tree head, the writes to entry
    fields, rotations, and the two colour repair loops. */
module RbTree {
  import opened Sides
  import opened RbNodes
  import opened RbShape
  import opened RbFixup
  import opened RbMemory

  class Tree<K(!new)> {
    const cmp: (K, K) -> int
    var root: Node?<K>
    ghost var mem: Mem<K>
    ghost var path: Path<K>
    ghost var focus: Shape<K>
    ghost var keys: map<Node<K>, K>

    constructor (cmp: (K, K) -> int)
      ensures this.cmp == cmp && Valid() && path.Top? && focus.Leaf? && mem.cell.Keys == {} && keys == map[]
    {
      this.cmp := cmp;
      root := null;
      mem, path, focus := Mem(null, map[]), Top, Leaf;
      keys := map[];
    }

    /** The fields of the node objects are those recorded in `mem`, and their
        keys are still those they had when they were inserted. */
    ghost predicate Faithful()
      reads `root, `mem, `keys, mem.cell.Keys
    {
      && root == mem.root
      && forall n :: n in mem.cell ==>
        n.left == mem.cell[n].left && n.right == mem.cell[n].right &&
        n.parent == mem.cell[n].parent && n.color == mem.cell[n].color &&
        n in keys && n.key == keys[n]
    }

    /** The node objects form the tree `Plug(path, focus)`; the mark is ghost. */
    ghost predicate Valid()
      reads this, mem.cell.Keys
    {
      Faithful() && At(mem, path, focus)
    }

    /** The elements in order. */
    ghost function Contents(): seq<Node<K>>
      reads this
    {
      InOrder(Plug(path, focus))
    }

    lemma Entry(n: Node<K>)
      requires Faithful() && n in mem.cell
      ensures mem.cell[n] == Cell(n.left, n.right, n.parent, n.color)
      ensures n in keys && keys[n] == n.key
    {
    }

    /** The marked node and its parent hold what the mark says. */
    lemma Around()
      requires Valid()
      ensures focus.Fork? ==> focus.n in mem.cell && focus.n.parent == Parent(path)
      ensures path.Frame? ==> path.n in mem.cell && path.n.color == path.c
      ensures path.Top? ==> root == Root(focus)
    {
      hide At;
      Seen(mem, path, focus);
    }

    // ----- writes

    method WriteLeft(n: Node<K>, k: Node?<K>)
      requires Faithful() && n in mem.cell
      modifies `mem, n`left
      ensures Faithful() && mem == old(mem).SetKid(n, Left, k)
    {
      n.left := k;
      mem := mem.SetKid(n, Left, k);
    }

    method WriteRight(n: Node<K>, k: Node?<K>)
      requires Faithful() && n in mem.cell
      modifies `mem, n`right
      ensures Faithful() && mem == old(mem).SetKid(n, Right, k)
    {
      n.right := k;
      mem := mem.SetKid(n, Right, k);
    }

    /** Guarded write: nothing happens for a null node. */
    method WriteParent(n: Node?<K>, p: Node?<K>)
      requires Faithful() && (n != null ==> n in mem.cell)
      modifies `mem, (if n == null then {} else {n})`parent
      ensures Faithful() && mem == old(mem).SetParent(n, p)
    {
      if n != null {
        n.parent := p;
      }
      mem := mem.SetParent(n, p);
    }

    method WriteColor(n: Node<K>, c: Color)
      requires Faithful() && n in mem.cell
      modifies `mem, n`color
      ensures Faithful() && mem == old(mem).SetColor(n, c)
    {
      n.color := c;
      mem := mem.SetColor(n, c);
    }

    /** Fills in the entry of a node that is not in the tree yet. */
    method Enter(n: Node<K>, left: Node?<K>, right: Node?<K>, parent: Node?<K>, color: Color)
      requires Faithful() && n !in mem.cell
      modifies `mem, `keys, n`left, n`right, n`parent, n`color
      ensures Faithful() && mem == old(mem).(cell := old(mem).cell[n := Cell(left, right, parent, color)])
      ensures keys == old(keys)[n := n.key]
    {
      n.left, n.right, n.parent, n.color := left, right, parent, color;
      Record(n);
    }

    ghost method Record(n: Node<K>)
      requires Faithful() && n !in mem.cell
      modifies `mem, `keys
      ensures Faithful() && mem == old(mem).(cell := old(mem).cell[n := Cell(n.left, n.right, n.parent, n.color)])
      ensures keys == old(keys)[n := n.key]
    {
      mem := mem.(cell := mem.cell[n := Cell(n.left, n.right, n.parent, n.color)]);
      keys := keys[n := n.key];
    }

    /** Forgets the entry of a node that nothing points to any more. */
    ghost method Leave(n: Node<K>)
      requires Faithful()
      modifies `mem
      ensures Faithful() && mem == old(mem).(cell := old(mem).cell - {n})
    {
      mem := mem.(cell := mem.cell - {n});
    }

    method WriteRoot(r: Node?<K>)
      requires Faithful()
      modifies `root, `mem
      ensures Faithful() && mem == old(mem).(root := r)
    {
      root := r;
      mem := mem.(root := r);
    }

    /** `p`'s child `o` becomes `n`; without a parent the root does. */
    method Relink(p: Node?<K>, o: Node<K>, n: Node?<K>)
      requires Faithful() && (p != null ==> p in mem.cell)
      modifies `root, `mem, `path, `focus, mem.cell.Keys`left, mem.cell.Keys`right
      ensures Faithful() && mem == old(mem).Relink(p, o, n)
      ensures path == old(path) && focus == old(focus)
    {
      if p != null {
        if o == p.left {
          WriteLeft(p, n);
        } else {
          WriteRight(p, n);
        }
      } else {
        WriteRoot(n);
      }
    }

    /** `k` becomes the `d` child of `n`. */
    method Link(n: Node<K>, d: Side, k: Node?<K>)
      requires Faithful() && n in mem.cell && (k != null ==> k in mem.cell)
      modifies `mem, n`left, n`right, (if k == null then {} else {k})`parent
      ensures Faithful() && mem == old(mem).SetKid(n, d, k).SetParent(k, n)
    {
      if d.Left? {
        WriteLeft(n, k);
      } else {
        WriteRight(n, k);
      }
      WriteParent(k, n);
    }

    /** `elm` becomes a child of `parent`, or the root. */
    method Hang(elm: Node<K>, parent: Node?<K>, left: bool)
      requires Faithful() && (parent != null ==> parent in mem.cell)
      modifies `root, `mem, (if parent == null then {} else {parent})`left
      modifies (if parent == null then {} else {parent})`right
      ensures Faithful()
      ensures mem == if parent == null then old(mem).(root := elm)
                     else old(mem).SetKid(parent, if left then Left else Right, elm)
    {
      hide Faithful;
      if parent != null {
        if left {
          WriteLeft(parent, elm);
        } else {
          WriteRight(parent, elm);
        }
      } else {
        WriteRoot(elm);
      }
    }

    method WriteParents(l: Node?<K>, r: Node?<K>, p: Node<K>)
      requires Faithful() && (l != null ==> l in mem.cell) && (r != null ==> r in mem.cell)
      modifies `mem, mem.cell.Keys`parent
      ensures Faithful() && mem == old(mem).SetParent(l, p).SetParent(r, p)
    {
      hide Faithful;
      WriteParent(l, p);
      WriteParent(r, p);
    }

    /** `y` takes over the entry of `o` and all pointers to it. */
    method MoveEntry(o: Node<K>, y: Node<K>)
      requires Faithful() && o in mem.cell && y !in mem.cell
      requires mem.cell[o].parent != null ==> mem.cell[o].parent in mem.cell
      requires mem.cell[o].left != null ==> mem.cell[o].left in mem.cell
      requires mem.cell[o].right != null ==> mem.cell[o].right in mem.cell
      modifies this, mem.cell.Keys`left, mem.cell.Keys`right, mem.cell.Keys`parent
      modifies y`left, y`right, y`parent, y`color
      ensures Faithful() && path == old(path) && focus == old(focus) && keys == old(keys)[y := y.key]
      ensures mem == ReplaceMem(old(mem), o, y)
    {
      hide Faithful;
      Entry(o);
      var left, right, parent := o.left, o.right, o.parent;
      Enter(y, left, right, parent, o.color);
      Relink(parent, o, y);
      WriteParents(left, right, y);
      Leave(o);
    }

    /** First half of a rotation: `x` takes over the inner subtree `b` of `y`. */
    method Lower(x: Node<K>, d: Side, b: Node?<K>, y: Node<K>, p: Node?<K>)
      requires Faithful() && x in mem.cell && y in mem.cell && (b != null ==> b in mem.cell)
      modifies `mem, mem.cell.Keys`left, mem.cell.Keys`right, mem.cell.Keys`parent
      ensures Faithful() && mem == old(mem).SetKid(x, d.Opp(), b).SetParent(b, x).SetParent(y, p)
    {
      hide Faithful;
      Link(x, d.Opp(), b);
      WriteParent(y, p);
    }

    /** Second half: `y` takes the place of `x`, which becomes its child. */
    method Raise(x: Node<K>, d: Side, y: Node<K>, p: Node?<K>)
      requires Faithful() && x in mem.cell && y in mem.cell && (p != null ==> p in mem.cell)
      modifies `root, `mem, `path, `focus, mem.cell.Keys`left, mem.cell.Keys`right, mem.cell.Keys`parent
      ensures Faithful() && mem == old(mem).Relink(p, x, y).SetKid(y, d, x).SetParent(x, y)
      ensures path == old(path) && focus == old(focus)
    {
      hide Faithful;
      Relink(p, x, y);
      Link(y, d, x);
    }

    method RotateLeft(x: Node<K>) returns (y: Node<K>)
      requires Faithful() && CanRotateMem(mem, Left, x)
      modifies `root, `mem, `path, `focus, mem.cell.Keys`left, mem.cell.Keys`right, mem.cell.Keys`parent
      ensures Faithful() && y == old(x.right) && mem == RotateMem(old(mem), Left, x)
      ensures path == old(path) && focus == old(focus)
    {
      hide Faithful;
      Entry(x);
      y := x.right;
      Entry(y);
      var b, p := y.left, x.parent;
      Lower(x, Left, b, y, p);
      Raise(x, Left, y, p);
    }

    method RotateRight(x: Node<K>) returns (y: Node<K>)
      requires Faithful() && CanRotateMem(mem, Right, x)
      modifies `root, `mem, `path, `focus, mem.cell.Keys`left, mem.cell.Keys`right, mem.cell.Keys`parent
      ensures Faithful() && y == old(x.left) && mem == RotateMem(old(mem), Right, x)
      ensures path == old(path) && focus == old(focus)
    {
      hide Faithful;
      Entry(x);
      y := x.left;
      Entry(y);
      var b, p := y.right, x.parent;
      Lower(x, Right, b, y, p);
      Raise(x, Right, y, p);
    }

    // ----- moving the mark

    ghost method GoUp()
      requires Valid() && path.Frame?
      modifies `path, `focus
      ensures Valid() && Plug(path, focus) == old(Plug(path, focus))
      ensures path == old(path.up) && focus == Mk(old(path.d), old(focus), old(path.n), old(path.c), old(path.sib))
    {
      hide At;
      Up(mem, path, focus);
      path, focus := path.up, Mk(path.d, focus, path.n, path.c, path.sib);
    }

    ghost method GoDown(d: Side)
      requires Valid() && focus.Fork?
      modifies `path, `focus
      ensures Valid() && Plug(path, focus) == old(Plug(path, focus))
      ensures path == Frame(d, old(focus.n), old(focus.c), Kid(old(focus), d.Opp()), old(path))
      ensures focus == Kid(old(focus), d)
    {
      hide At;
      Up(mem, Frame(d, focus.n, focus.c, Kid(focus, d.Opp()), path), Kid(focus, d));
      path, focus := Frame(d, focus.n, focus.c, Kid(focus, d.Opp()), path), Kid(focus, d);
    }

    // ----- operations at the mark

    method SetColor(n: Node<K>, c: Color)
      requires Valid() && focus.Fork? && n == focus.n
      modifies `root, `mem, `path, `focus, mem.cell.Keys`color
      ensures Valid() && path == old(path) && focus == Paint(old(focus), c)
      ensures Contents() == old(Contents()) && mem.cell.Keys == old(mem.cell.Keys)
    {
      hide At, Faithful;
      PaintAt(mem, path, focus, c);
      WriteColor(n, c);
      focus := Paint(focus, c);
    }

    /** Colours the `d` child of the marked node. */
    method SetKidColor(ghost d: Side, n: Node<K>, c: Color)
      requires Valid() && focus.Fork? && Kid(focus, d).Fork? && n == Kid(focus, d).n
      modifies `root, `mem, `path, `focus, mem.cell.Keys`color
      ensures Valid() && path == old(path)
      ensures focus == Mk(d, Paint(Kid(old(focus), d), c), old(focus.n), old(focus.c), Kid(old(focus), d.Opp()))
      ensures Contents() == old(Contents()) && mem.cell.Keys == old(mem.cell.Keys)
    {
      hide Valid;
      GoDown(d);
      SetColor(n, c);
      GoUp();
    }

    method Rotate(d: Side, x: Node<K>)
      requires Valid() && CanRotate(d, focus) && x == focus.n
      modifies `root, `mem, `path, `focus, mem.cell.Keys`left, mem.cell.Keys`right, mem.cell.Keys`parent
      ensures Valid() && path == old(path) && focus == RbFixup.Rotate(d, old(focus))
      ensures Contents() == old(Contents()) && mem.cell.Keys == old(mem.cell.Keys)
    {
      hide At, Faithful;
      RotateAt(mem, path, d, focus);
      if d.Left? {
        var _ := RotateLeft(x);
      } else {
        var _ := RotateRight(x);
      }
      focus := RbFixup.Rotate(d, focus);
    }

    // ----- nodes coming and going at the mark

    /** Hangs `elm` as a red leaf at the marked empty position. */
    method Attach(elm: Node<K>, parent: Node?<K>, left: bool)
      requires Valid() && focus.Leaf? && elm !in mem.cell && parent == Parent(path)
      requires path.Frame? ==> (left <==> path.d.Left?)
      modifies this, mem.cell.Keys`left, mem.cell.Keys`right, elm`left, elm`right, elm`parent, elm`color
      ensures Valid() && path == old(path) && focus == Fork(Leaf, elm, Red, Leaf) && keys == old(keys)[elm := elm.key]
      ensures mem.cell.Keys == old(mem.cell.Keys) + {elm}
    {
      hide At, Faithful;
      AttachAt(mem, path, elm);
      Enter(elm, null, null, parent, Red);
      Hang(elm, parent, left);
      focus := Fork(Leaf, elm, Red, Leaf);
    }

    method Unhook(elm: Node<K>, child: Node?<K>, parent: Node?<K>)
      requires Faithful() && elm in mem.cell && mem.cell[elm].parent == parent
      requires (child != null ==> child in mem.cell) && (parent != null ==> parent in mem.cell)
      modifies `root, `mem, `path, `focus, mem.cell.Keys`left, mem.cell.Keys`right, mem.cell.Keys`parent
      ensures Faithful() && mem == SpliceMem(old(mem), elm, child) && mem.cell.Keys == old(mem.cell.Keys) - {elm}
      ensures path == old(path) && focus == old(focus)
    {
      hide Faithful;
      WriteParent(child, parent);
      Relink(parent, elm, child);
      Leave(elm);
    }

    /** Takes the marked node, which has no other child than `child`, out of the tree. */
    method Splice(elm: Node<K>, child: Node?<K>, parent: Node?<K>, ghost d: Side)
      requires Valid() && focus.Fork? && elm == focus.n && Kid(focus, d.Opp()).Leaf?
      requires child == Root(Kid(focus, d)) && parent == Parent(path)
      modifies `root, `mem, `path, `focus, mem.cell.Keys`left, mem.cell.Keys`right, mem.cell.Keys`parent
      ensures Valid() && path == old(path) && focus == Kid(old(focus), d)
      ensures mem.cell.Keys == old(mem.cell.Keys) - {elm}
    {
      hide At, Faithful, SpliceMem;
      SpliceAt(mem, path, d, Kid(focus, d), elm, focus.c);
      Unhook(elm, child, parent);
      focus := Kid(focus, d);
    }

    /** Puts `y`, which is not in the tree, in the place of the marked node. */
    method Replace(o: Node<K>, y: Node<K>)
      requires Valid() && focus.Fork? && o == focus.n && y !in mem.cell
      modifies this, mem.cell.Keys`left, mem.cell.Keys`right, mem.cell.Keys`parent
      modifies y`left, y`right, y`parent, y`color
      ensures Valid() && path == old(path) && focus == old(focus).(n := y) && keys == old(keys)[y := y.key]
      ensures mem.cell.Keys == old(mem.cell.Keys) - {o} + {y}
    {
      hide At, Faithful;
      ReplaceAt(mem, path, focus, y);
      MoveEntry(o, y);
      focus := focus.(n := y);
    }

    // ----- colour repair after an insertion

    /** Red parent, red uncle: recolours the two and the grandparent, which
        becomes the marked node. */
    method RecolorUp(parent: Node<K>, gparent: Node<K>, uncle: Node<K>)
      requires Valid() && InsertSite(path, focus) && ParentRed(path) && IsRed(path.up.sib)
      requires parent == path.n && gparent == path.up.n && uncle == path.up.sib.n
      modifies `root, `mem, `path, `focus, mem.cell.Keys`color
      ensures Valid() && InsertSite(path, focus) && focus.n == gparent && path == old(path.up.up)
      ensures Contents() == old(Contents()) && mem.cell.Keys == old(mem.cell.Keys)
    {
      hide Valid;
      ghost var z, t, d := path, focus, path.up.d;
      InsertRecolor(z, t);
      GoUp();
      GoUp();
      SetKidColor(d.Opp(), uncle, Black);
      SetKidColor(d, parent, Black);
      SetColor(gparent, Red);
      assert focus == Mk(d, Mk(z.d, t, z.n, Black, z.sib), z.up.n, Red, Paint(z.up.sib, Black));
    }

    /** Inner grandchild: the parent is rotated down and becomes the marked node. */
    method TurnInner(d: Side, elm: Node<K>, parent: Node<K>)
      requires Valid() && InsertSite(path, focus) && ParentRed(path)
      requires elm == focus.n && parent == path.n && d == path.up.d && path.d == d.Opp()
      modifies `root, `mem, `path, `focus, mem.cell.Keys`left, mem.cell.Keys`right, mem.cell.Keys`parent
      ensures Valid() && InsertSite(path, focus) && ParentRed(path)
      ensures focus.n == parent && path.n == elm && path.d == d && path.up == old(path.up)
      ensures Contents() == old(Contents()) && mem.cell.Keys == old(mem.cell.Keys)
    {
      hide Valid;
      InsertInner(path, focus);
      GoUp();
      Rotate(d, parent);
      GoDown(d);
    }

    /** Outer grandchild: the grandparent is rotated down, the parent turns black. */
    method TurnOuter(d: Side, parent: Node<K>, gparent: Node<K>)
      requires Valid() && InsertSite(path, focus) && ParentRed(path) && !IsRed(path.up.sib)
      requires parent == path.n && gparent == path.up.n && d == path.up.d == path.d
      modifies `root, `mem, `path, `focus, mem.cell.Keys`left, mem.cell.Keys`right, mem.cell.Keys`parent
      modifies mem.cell.Keys`color
      ensures Valid() && InsertSite(path, focus)
      ensures focus == old(focus) && path.Frame? && path.n == parent && path.c.Black? && path.up == old(path.up.up)
      ensures Contents() == old(Contents()) && mem.cell.Keys == old(mem.cell.Keys)
    {
      hide Valid;
      ghost var z, t := path, focus;
      InsertOuter(z, t);
      GoUp();
      SetColor(parent, Black);
      GoUp();
      SetColor(gparent, Red);
      assert focus == Mk(d, Mk(d, t, z.n, Black, z.sib), z.up.n, Red, z.up.sib);
      Rotate(d.Opp(), gparent);
      GoDown(d);
    }

    /** One pass of the repair loop. */
    method InsertStep(elm: Node<K>, parent: Node<K>) returns (e: Node<K>)
      requires Valid() && InsertSite(path, focus) && ParentRed(path)
      requires elm == focus.n && parent == path.n
      modifies `root, `mem, `path, `focus, mem.cell.Keys`left, mem.cell.Keys`right, mem.cell.Keys`parent
      modifies mem.cell.Keys`color
      ensures Valid() && InsertSite(path, focus) && e == focus.n && Depth(path) < Depth(old(path))
      ensures Contents() == old(Contents()) && mem.cell.Keys == old(mem.cell.Keys)
    {
      hide At;
      Seen(mem, path, focus);
      Up(mem, path, focus);
      Seen(mem, path.up, Mk(path.d, focus, path.n, path.c, path.sib));
      var gparent := parent.parent;
      var d := if parent == gparent.left then Left else Right;
      var uncle := gparent.Kid(d.Opp());
      if uncle != null && uncle.color.Red? {
        RecolorUp(parent, gparent, uncle);
        e := gparent;
      } else if parent.Kid(d.Opp()) == elm {
        TurnInner(d, elm, parent);
        TurnOuter(d, elm, gparent);
        e := parent;
      } else {
        TurnOuter(d, parent, gparent);
        e := elm;
      }
    }

    ghost method GoTop()
      requires Valid()
      modifies `path, `focus
      ensures Valid() && path.Top? && focus == old(Plug(path, focus))
    {
      while path.Frame?
        invariant Valid() && Plug(path, focus) == old(Plug(path, focus))
        decreases path
      {
        GoUp();
      }
    }

    /** Repairs the colours after `elm` was attached as a red leaf. */
    method InsertColor(elm: Node<K>)
      requires Valid() && InsertSite(path, focus) && elm == focus.n
      modifies `root, `mem, `path, `focus, mem.cell.Keys`left, mem.cell.Keys`right, mem.cell.Keys`parent
      modifies mem.cell.Keys`color
      ensures Valid() && path.Top? && RedBlack(focus)
      ensures Contents() == old(Contents()) && mem.cell.Keys == old(mem.cell.Keys)
    {
      hide At, Faithful, InOrder;
      var e := elm;
      Around();
      while e.parent != null && e.parent.color.Red?
        invariant Valid() && InsertSite(path, focus) && e == focus.n
        invariant e in mem.cell && e.parent == Parent(path)
        invariant path.Frame? ==> path.n in mem.cell && path.n.color == path.c
        invariant Contents() == old(Contents()) && mem.cell.Keys == old(mem.cell.Keys)
        decreases Depth(path)
      {
        e := InsertStep(e, e.parent);
        Around();
      }
      InsertDone(path, focus);
      GoTop();
      Around();
      SetColor(root, Black);
    }

    // ----- colour repair after a removal

    /** Red sibling: it is rotated up and the near nephew becomes the sibling. */
    method TurnRedSibling(d: Side, parent: Node<K>, sib: Node<K>)
      requires Valid() && RemoveSite(path, focus) && path.Frame? && IsRed(path.sib)
      requires parent == path.n && sib == path.sib.n && d == path.d
      modifies `root, `mem, `path, `focus, mem.cell.Keys`left, mem.cell.Keys`right, mem.cell.Keys`parent
      modifies mem.cell.Keys`color
      ensures Valid() && RemoveSite(path, focus) && focus == old(focus) && Depth(path) == Depth(old(path)) + 1
      ensures path.Frame? && path.n == parent && path.d == d && path.c.Red? && path.sib.Fork? && path.sib.c.Black?
      ensures Contents() == old(Contents()) && mem.cell.Keys == old(mem.cell.Keys)
    {
      hide Valid;
      ghost var z, t := path, focus;
      RemoveRedSibling(z, t);
      GoUp();
      SetKidColor(d.Opp(), sib, Black);
      SetColor(parent, Red);
      assert focus == Mk(d, t, z.n, Red, Paint(z.sib, Black));
      Rotate(d, parent);
      GoDown(d);
      GoDown(d);
    }

    /** Black sibling with black children: it turns red, the parent is marked. */
    method MoveDeficitUp(ghost d: Side, sib: Node<K>)
      requires Valid() && RemoveSite(path, focus) && path.Frame? && !IsRed(focus)
      requires path.sib.Fork? && path.sib.c.Black? && !IsRed(path.sib.l) && !IsRed(path.sib.r)
      requires sib == path.sib.n && d == path.d
      modifies `root, `mem, `path, `focus, mem.cell.Keys`color
      ensures Valid() && RemoveSite(path, focus)
      ensures focus.Fork? && focus.n == old(path.n) && focus.c == old(path.c) && path == old(path.up)
      ensures Contents() == old(Contents()) && mem.cell.Keys == old(mem.cell.Keys)
    {
      hide Valid;
      ghost var z, t := path, focus;
      RemoveBlackNephews(z, t);
      GoUp();
      SetKidColor(d.Opp(), sib, Red);
      assert focus == Mk(d, t, z.n, z.c, Paint(z.sib, Red));
    }

    /** Only the near nephew is red: it is rotated up to be the sibling. */
    method TurnNear(d: Side, sib: Node<K>, near: Node<K>)
      requires Valid() && RemoveSite(path, focus) && path.Frame? && path.sib.Fork? && path.sib.c.Black?
      requires d == path.d && IsRed(Kid(path.sib, d)) && !IsRed(Kid(path.sib, d.Opp()))
      requires sib == path.sib.n && near == Kid(path.sib, d).n
      modifies `root, `mem, `path, `focus, mem.cell.Keys`left, mem.cell.Keys`right, mem.cell.Keys`parent
      modifies mem.cell.Keys`color
      ensures Valid() && RemoveSite(path, focus) && focus == old(focus)
      ensures path.Frame? && path == old(path).(sib := path.sib)
      ensures path.sib.Fork? && path.sib.c.Black? && IsRed(Kid(path.sib, d.Opp()))
      ensures Contents() == old(Contents()) && mem.cell.Keys == old(mem.cell.Keys)
    {
      hide Valid;
      ghost var z, t := path, focus;
      RemoveNearNephew(z, t);
      GoUp();
      GoDown(d.Opp());
      SetKidColor(d, near, Black);
      SetColor(sib, Red);
      assert focus == Mk(d, Paint(Kid(z.sib, d), Black), z.sib.n, Red, Kid(z.sib, d.Opp()));
      Rotate(d.Opp(), sib);
      GoUp();
      GoDown(d);
    }

    /** The far nephew is red: the parent is rotated down, which makes up the deficit. */
    method TurnFar(d: Side, parent: Node<K>, sib: Node<K>, far: Node<K>)
      requires Valid() && RemoveSite(path, focus) && path.Frame? && !IsRed(focus)
      requires path.sib.Fork? && path.sib.c.Black? && d == path.d && IsRed(Kid(path.sib, d.Opp()))
      requires parent == path.n && sib == path.sib.n && far == Kid(path.sib, d.Opp()).n
      modifies `root, `mem, `path, `focus, mem.cell.Keys`left, mem.cell.Keys`right, mem.cell.Keys`parent
      modifies mem.cell.Keys`color
      ensures Valid() && path.Top? && focus.Fork? && RedBlack(focus)
      ensures Contents() == old(Contents()) && mem.cell.Keys == old(mem.cell.Keys)
    {
      hide At, Faithful, RemoveSite, RedBlack, InOrder;
      ghost var z, t := path, focus;
      Seen(mem, path, focus);
      Entry(parent);
      RemoveFarNephew(z, t);
      GoUp();
      SetKidColor(d.Opp(), sib, parent.color);
      SetColor(parent, Black);
      GoDown(d.Opp());
      SetKidColor(d.Opp(), far, Black);
      GoUp();
      assert focus == Mk(d, t, z.n, Black, Mk(d, Kid(z.sib, d), z.sib.n, z.c, Paint(Kid(z.sib, d.Opp()), Black)));
      Rotate(d, parent);
      PlugFork(path, focus);
      GoTop();
    }

    /** The second half of a pass, with a black sibling. */
    method RemoveBlackSibling(d: Side, parent: Node<K>) returns (done: bool)
      requires Valid() && RemoveSite(path, focus) && path.Frame? && !IsRed(focus) && !IsRed(path.sib)
      requires parent == path.n && d == path.d
      modifies `root, `mem, `path, `focus, mem.cell.Keys`left, mem.cell.Keys`right, mem.cell.Keys`parent
      modifies mem.cell.Keys`color
      ensures Valid() && Contents() == old(Contents()) && mem.cell.Keys == old(mem.cell.Keys)
      ensures done ==> path.Top? && focus.Fork? && RedBlack(focus)
      ensures !done ==> RemoveSite(path, focus) && path == old(path.up)
      ensures !done ==> focus.Fork? && focus.n == parent && focus.c == old(path.c)
    {
      hide At;
      RemoveBlackNephews(path, focus);
      Seen(mem, path, focus);
      SeenSibling(mem, path, focus);
      var sib := parent.Kid(d.Opp());
      if (sib.left == null || sib.left.color.Black?) && (sib.right == null || sib.right.color.Black?) {
        MoveDeficitUp(d, sib);
        return false;
      }
      var far := sib.Kid(d.Opp());
      if far == null || far.color.Black? {
        TurnNear(d, sib, sib.Kid(d));
        Seen(mem, path, focus);
        SeenSibling(mem, path, focus);
        sib := parent.Kid(d.Opp());
      }
      TurnFar(d, parent, sib, sib.Kid(d.Opp()));
      return true;
    }

    /** One pass of the repair loop. */
    method RemoveStep(elm: Node?<K>, parent: Node<K>) returns (done: bool)
      requires Valid() && RemoveSite(path, focus) && path.Frame? && !IsRed(focus)
      requires parent == path.n && elm == Root(focus)
      modifies `root, `mem, `path, `focus, mem.cell.Keys`left, mem.cell.Keys`right, mem.cell.Keys`parent
      modifies mem.cell.Keys`color
      ensures Valid() && Contents() == old(Contents()) && mem.cell.Keys == old(mem.cell.Keys)
      ensures done ==> path.Top? && focus.Fork? && RedBlack(focus)
      ensures !done ==> RemoveSite(path, focus) && focus.Fork? && focus.n == parent
      ensures !done ==> IsRed(focus) || Depth(path) < Depth(old(path))
    {
      hide At;
      RemoveSibling(path, focus);
      Seen(mem, path, focus);
      var d := if parent.left == elm then Left else Right;
      var sib := parent.Kid(d.Opp());
      if sib.color.Red? {
        TurnRedSibling(d, parent, sib);
      }
      done := RemoveBlackSibling(d, parent);
    }

    method FinishRemove(elm: Node?<K>, ghost done: bool)
      requires Valid() && elm == Root(focus)
      requires if done then path.Top? && RedBlack(focus) else RemoveSite(path, focus) && (IsRed(focus) || path.Top?)
      modifies `root, `mem, `path, `focus, mem.cell.Keys`color
      ensures Valid() && path.Top? && RedBlack(focus)
      ensures Contents() == old(Contents()) && mem.cell.Keys == old(mem.cell.Keys)
    {
      hide At, Faithful;
      if !done {
        RemoveDone(path, focus);
      }
      if elm != null {
        SetColor(elm, Black);
      }
      GoTop();
    }

    /** Repairs the colours after a black node was taken out from above `elm`. */
    method RemoveColor(parent: Node?<K>, elm: Node?<K>)
      requires Valid() && RemoveSite(path, focus) && parent == Parent(path) && elm == Root(focus)
      modifies `root, `mem, `path, `focus, mem.cell.Keys`left, mem.cell.Keys`right, mem.cell.Keys`parent
      modifies mem.cell.Keys`color
      ensures Valid() && path.Top? && RedBlack(focus)
      ensures Contents() == old(Contents()) && mem.cell.Keys == old(mem.cell.Keys)
    {
      hide At, RemoveSite, RedBlack;
      var e, p := elm, parent;
      var done := false;
      Seen(mem, path, focus);
      RootSeen(mem, path, focus);
      while (e == null || e.color.Black?) && e != root
        invariant Valid() && RemoveSite(path, focus) && p == Parent(path) && e == Root(focus)
        invariant Contents() == old(Contents()) && mem.cell.Keys == old(mem.cell.Keys)
        invariant root == e <==> path.Top?
        invariant e != null ==> e.color == focus.c && e in mem.cell
        decreases if IsRed(focus) then 0 else 1 + Depth(path)
      {
        done := RemoveStep(e, p);
        Seen(mem, path, focus);
        RootSeen(mem, path, focus);
        if done {
          e := root;
          break;
        }
        e, p := p, p.parent;
      }
      FinishRemove(e, done);
    }
  }
}
