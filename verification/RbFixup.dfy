/** What the two colour repair loops keep: each lemma is one step of a loop, on
    the tree with the loop's current position marked. */
module RbFixup {
  import opened Sides
  import opened RbNodes
  import opened RbShape

  function Kid<K>(t: Shape<K>, d: Side): Shape<K>
    requires t.Fork?
  {
    if d.Left? then t.l else t.r
  }

  /** Rotates towards `d`: the child on the other side rises. */
  function Rotate<K>(d: Side, t: Shape<K>): Shape<K>
    requires t.Fork? && Kid(t, d.Opp()).Fork?
  {
    var y := Kid(t, d.Opp());
    Mk(d, Mk(d, Kid(t, d), t.n, t.c, Kid(y, d)), y.n, y.c, Kid(y, d.Opp()))
  }

  lemma InOrderRotate<K>(d: Side, t: Shape<K>)
    requires t.Fork? && Kid(t, d.Opp()).Fork?
    ensures InOrder(Rotate(d, t)) == InOrder(t)
  {
    var y := Kid(t, d.Opp());
    if d.Left? {
      Regroup([], InOrder(t.l) + [t.n], InOrder(y.l), [y.n], InOrder(y.r));
      assert InOrder(Rotate(d, t)) == InOrder(Fork(t.l, t.n, t.c, y.l)) + [y.n] + InOrder(y.r);
    } else {
      Regroup([], InOrder(y.l) + [y.n], InOrder(y.r), [t.n], InOrder(t.r));
      assert InOrder(Rotate(d, t)) == InOrder(y.l) + [y.n] + InOrder(Fork(y.r, t.n, t.c, t.r));
    }
  }

  /** The colour conditions of a node, whichever side its children are on. */
  lemma OfMk<K>(d: Side, a: Shape<K>, n: Node<K>, c: Color, b: Shape<K>)
    ensures Balanced(Mk(d, a, n, c, b)) <==> Balanced(a) && Balanced(b) && Height(a) == Height(b)
    ensures Height(a) == Height(b) ==> Height(Mk(d, a, n, c, b)) == Height(a) + Count(c)
    ensures NoRedRed(Mk(d, a, n, c, b)) <==> NoRedRed(a) && NoRedRed(b) && (c.Red? ==> !IsRed(a) && !IsRed(b))
  {
  }

  // ----- after an insertion

  /** The only possible fault is that the marked red node hangs under a red
      node or is the root. */
  predicate InsertSite<K>(z: Path<K>, t: Shape<K>) {
    IsRed(t) && Balanced(t) && NoRedRed(t) && BalancedPath(z, Height(t)) && ColoredPath(z)
  }

  /** Parent and uncle are red: both turn black and the fault moves two levels up. */
  lemma InsertRecolor<K>(z: Path<K>, t: Shape<K>)
    requires InsertSite(z, t) && ParentRed(z) && IsRed(z.up.sib)
    ensures InsertSite(z.up.up,
      Mk(z.up.d, Mk(z.d, t, z.n, Black, z.sib), z.up.n, Red, Paint(z.up.sib, Black)))
  {
    assert BalancedPath(z.up, Height(t)) && ColoredPath(z.up);
    OfMk(z.d, t, z.n, Black, z.sib);
    OfMk(z.up.d, Mk(z.d, t, z.n, Black, z.sib), z.up.n, Red, Paint(z.up.sib, Black));
  }

  /** The marked node is an inner grandchild: a rotation at its parent makes the
      parent the marked node, now an outer grandchild. */
  lemma InsertInner<K>(z: Path<K>, t: Shape<K>)
    requires InsertSite(z, t) && ParentRed(z) && z.d == z.up.d.Opp()
    ensures var d := z.up.d;
      && Mk(z.d, t, z.n, z.c, z.sib) == Mk(d, z.sib, z.n, Red, t)
      && Rotate(d, Mk(d, z.sib, z.n, Red, t)) == Mk(d, Mk(d, z.sib, z.n, Red, Kid(t, d)), t.n, Red, Kid(t, d.Opp()))
      && InsertSite(Frame(d, t.n, Red, Kid(t, d.Opp()), z.up), Mk(d, z.sib, z.n, Red, Kid(t, d)))
  {
  }

  /** The marked node is an outer grandchild with a black uncle: recolouring and
      one rotation at the grandparent repair the tree. */
  lemma InsertOuter<K>(z: Path<K>, t: Shape<K>)
    requires InsertSite(z, t) && ParentRed(z) && z.d == z.up.d && !IsRed(z.up.sib)
    ensures var g := z.up;
      && Rotate(g.d.Opp(), Mk(g.d, Mk(z.d, t, z.n, Black, z.sib), g.n, Red, g.sib))
         == Mk(z.d, t, z.n, Black, Mk(z.d, z.sib, g.n, Red, g.sib))
      && InsertSite(Frame(z.d, z.n, Black, Mk(z.d, z.sib, g.n, Red, g.sib), g.up), t)
  {
    var g := z.up;
    assert BalancedPath(g, Height(t)) && ColoredPath(g);
    OfMk(z.d, z.sib, g.n, Red, g.sib);
  }

  lemma InsertDone<K>(z: Path<K>, t: Shape<K>)
    requires InsertSite(z, t) && !ParentRed(z)
    ensures Plug(z, t).Fork? && RedBlack(Paint(Plug(z, t), Black))
  {
    RedBlackPlug(z, t);
    PlugFork(z, t);
  }

  // ----- after a removal

  /** Every path through the marked subtree has one black node too few, and the
      marked node may be red under a red parent. */
  predicate RemoveSite<K>(z: Path<K>, t: Shape<K>) {
    Balanced(t) && NoRedRed(Paint(t, Black)) && BalancedPath(z, Height(t) + 1) && ColoredPath(z)
  }

  lemma RemoveSibling<K>(z: Path<K>, t: Shape<K>)
    requires RemoveSite(z, t) && z.Frame?
    ensures z.sib.Fork?
  {
  }

  /** The sibling is red: after a rotation the new sibling is black. */
  lemma RemoveRedSibling<K>(z: Path<K>, t: Shape<K>)
    requires RemoveSite(z, t) && z.Frame? && IsRed(z.sib)
    ensures z.c.Black?
    ensures var near, far := Kid(z.sib, z.d), Kid(z.sib, z.d.Opp());
      && Rotate(z.d, Mk(z.d, t, z.n, Red, Paint(z.sib, Black)))
         == Mk(z.d, Mk(z.d, t, z.n, Red, near), z.sib.n, Black, far)
      && RemoveSite(Frame(z.d, z.n, Red, near, Frame(z.d, z.sib.n, Black, far, z.up)), t)
      && near.Fork? && near.c.Black?
  {
  }

  /** The sibling and both its children are black: the sibling turns red and the
      deficit moves one level up. */
  lemma RemoveBlackNephews<K>(z: Path<K>, t: Shape<K>)
    requires RemoveSite(z, t) && z.Frame? && !IsRed(t) && !IsRed(z.sib)
    ensures z.sib.Fork?
    ensures !IsRed(z.sib.l) && !IsRed(z.sib.r) ==>
      RemoveSite(z.up, Mk(z.d, t, z.n, z.c, Paint(z.sib, Red)))
  {
  }

  /** Of the black sibling's children only the one nearer to the marked position
      is red: a rotation at the sibling makes the far one red instead. */
  lemma RemoveNearNephew<K>(z: Path<K>, t: Shape<K>)
    requires RemoveSite(z, t) && z.Frame? && z.sib.Fork? && z.sib.c.Black?
    requires IsRed(Kid(z.sib, z.d)) && !IsRed(Kid(z.sib, z.d.Opp()))
    ensures var near, far := Kid(z.sib, z.d), Kid(z.sib, z.d.Opp());
      var sib := Mk(z.d, Kid(near, z.d), near.n, Black, Mk(z.d, Kid(near, z.d.Opp()), z.sib.n, Red, far));
      && Rotate(z.d.Opp(), Mk(z.d, Paint(near, Black), z.sib.n, Red, far)) == sib
      && RemoveSite(z.(sib := sib), t)
  {
    var near, far := Kid(z.sib, z.d), Kid(z.sib, z.d.Opp());
    OfMk(z.d, near, z.sib.n, Black, far);
    OfMk(z.d, Kid(near, z.d), near.n, Red, Kid(near, z.d.Opp()));
    OfMk(z.d, Kid(near, z.d.Opp()), z.sib.n, Red, far);
    OfMk(z.d, Kid(near, z.d), near.n, Black, Mk(z.d, Kid(near, z.d.Opp()), z.sib.n, Red, far));
  }

  /** The far child of the black sibling is red: recolouring and one rotation
      make up the deficit. */
  lemma RemoveFarNephew<K>(z: Path<K>, t: Shape<K>)
    requires RemoveSite(z, t) && z.Frame? && !IsRed(t) && z.sib.Fork? && z.sib.c.Black?
    requires IsRed(Kid(z.sib, z.d.Opp()))
    ensures var near, far := Kid(z.sib, z.d), Kid(z.sib, z.d.Opp());
      && Rotate(z.d, Mk(z.d, t, z.n, Black, Mk(z.d, near, z.sib.n, z.c, Paint(far, Black))))
         == Mk(z.d, Mk(z.d, t, z.n, Black, near), z.sib.n, z.c, Paint(far, Black))
      && RedBlack(Plug(z.up, Mk(z.d, Mk(z.d, t, z.n, Black, near), z.sib.n, z.c, Paint(far, Black))))
  {
    var near, far := Kid(z.sib, z.d), Kid(z.sib, z.d.Opp());
    OfMk(z.d, near, z.sib.n, Black, far);
    OfMk(z.d, t, z.n, Black, near);
    OfMk(z.d, Mk(z.d, t, z.n, Black, near), z.sib.n, z.c, Paint(far, Black));
    RedBlackPlug(z.up, Mk(z.d, Mk(z.d, t, z.n, Black, near), z.sib.n, z.c, Paint(far, Black)));
  }

  lemma RemoveDone<K>(z: Path<K>, t: Shape<K>)
    requires RemoveSite(z, t) && (IsRed(t) || z.Top?)
    ensures RedBlack(Plug(z, Paint(t, Black)))
  {
    RedBlackPlug(z, Paint(t, Black));
  }
}
