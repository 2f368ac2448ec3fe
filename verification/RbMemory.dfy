/** The pointers of a red-black tree as a value: what every entry field of every
    node holds, when those fields represent a marked tree, and how each pointer
    update of the tree macros changes the tree they represent. */
module RbMemory {
  import opened Sides
  import opened RbNodes
  import opened RbShape
  import opened RbFixup

  datatype Cell<K> = Cell(left: Node?<K>, right: Node?<K>, parent: Node?<K>, color: Color) {
    function Kid(d: Side): Node?<K> {
      if d.Left? then left else right
    }

    function WithKid(d: Side, k: Node?<K>): Cell<K> {
      if d.Left? then this.(left := k) else this.(right := k)
    }
  }

  datatype Mem<K> = Mem(root: Node?<K>, cell: map<Node<K>, Cell<K>>) {
    function SetKid(n: Node<K>, d: Side, k: Node?<K>): Mem<K>
      requires n in cell
    {
      this.(cell := cell[n := cell[n].WithKid(d, k)])
    }

    function SetParent(n: Node?<K>, p: Node?<K>): Mem<K>
      requires n != null ==> n in cell
    {
      if n == null then this else this.(cell := cell[n := cell[n].(parent := p)])
    }

    function SetColor(n: Node<K>, c: Color): Mem<K>
      requires n in cell
    {
      this.(cell := cell[n := cell[n].(color := c)])
    }

    /** The child of `p` (or the root, if `p` is null) that was `o` becomes `n`. */
    function Relink(p: Node?<K>, o: Node<K>, n: Node?<K>): Mem<K>
      requires p != null ==> p in cell
    {
      if p == null then this.(root := n)
      else if cell[p].left == o then SetKid(p, Left, n)
      else SetKid(p, Right, n)
    }
  }

  function Nodes<K>(t: Shape<K>): set<Node<K>> {
    match t
    case Leaf => {}
    case Fork(l, n, c, r) => Nodes(l) + {n} + Nodes(r)
  }

  function PathNodes<K>(z: Path<K>): set<Node<K>> {
    match z
    case Top => {}
    case Frame(d, n, c, sib, up) => Nodes(sib) + {n} + PathNodes(up)
  }

  predicate Distinct<K>(t: Shape<K>) {
    match t
    case Leaf => true
    case Fork(l, n, c, r) => Distinct(l) && Distinct(r) && n !in Nodes(l) && n !in Nodes(r) && Nodes(l) !! Nodes(r)
  }

  predicate PathDistinct<K>(z: Path<K>) {
    match z
    case Top => true
    case Frame(d, n, c, sib, up) =>
      && Distinct(sib) && PathDistinct(up)
      && n !in Nodes(sib) && n !in PathNodes(up) && Nodes(sib) !! PathNodes(up)
  }

  function Root<K>(t: Shape<K>): Node?<K> {
    if t.Leaf? then null else t.n
  }

  function Parent<K>(z: Path<K>): Node?<K> {
    if z.Top? then null else z.n
  }

  /** The cell of a node whose `d` child is `kid` and whose other child is `sib`. */
  function MkCell<K>(d: Side, kid: Node?<K>, sib: Node?<K>, p: Node?<K>, c: Color): Cell<K> {
    if d.Left? then Cell(kid, sib, p, c) else Cell(sib, kid, p, c)
  }

  predicate Holds<K>(s: map<Node<K>, Cell<K>>, t: Shape<K>, p: Node?<K>) {
    match t
    case Leaf => true
    case Fork(l, n, c, r) =>
      && n in s && s[n] == Cell(Root(l), Root(r), p, c)
      && Holds(s, l, n) && Holds(s, r, n)
  }

  predicate HoldsPath<K>(m: Mem<K>, z: Path<K>, hole: Node?<K>) {
    match z
    case Top => m.root == hole
    case Frame(d, n, c, sib, up) =>
      && n in m.cell && m.cell[n] == MkCell(d, hole, Root(sib), Parent(up), c)
      && Holds(m.cell, sib, n) && HoldsPath(m, up, n)
  }

  /** The memory holds exactly the tree `Plug(z, t)`: every left, right and
      parent pointer and every colour is right, and no node occurs twice. */
  predicate At<K>(m: Mem<K>, z: Path<K>, t: Shape<K>) {
    && Holds(m.cell, t, Parent(z)) && HoldsPath(m, z, Root(t))
    && Distinct(t) && PathDistinct(z) && Nodes(t) !! PathNodes(z)
    && m.cell.Keys == Nodes(t) + PathNodes(z)
  }

  /** What the fields of the marked node and its parent say. */
  lemma Seen<K>(m: Mem<K>, z: Path<K>, t: Shape<K>)
    requires At(m, z, t)
    ensures t.Fork? ==> t.n in m.cell && m.cell[t.n] == Cell(Root(t.l), Root(t.r), Parent(z), t.c)
    ensures z.Frame? ==> z.n in m.cell && m.cell[z.n] == MkCell(z.d, Root(t), Root(z.sib), Parent(z.up), z.c)
    ensures z.Top? ==> m.root == Root(t)
    ensures z.Frame? && t.Fork? ==>
      (m.cell[z.n].left == t.n <==> z.d.Left?) && (m.cell[z.n].right == t.n <==> z.d.Right?)
    ensures z.Frame? && z.sib.Fork? ==>
      z.sib.n in m.cell && m.cell[z.sib.n] == Cell(Root(z.sib.l), Root(z.sib.r), z.n, z.sib.c)
    ensures z.Frame? && z.sib.Fork? ==> (m.cell[z.n].left == Root(t) <==> z.d.Left?)
  {
    assert t.Fork? ==> t.n in Nodes(t);
    if z.Frame? && z.sib.Fork? {
      assert Holds(m.cell, z.sib, z.n);
      assert z.sib.n in Nodes(z.sib);
    }
  }

  /** What the fields of the sibling's children say. */
  lemma SeenSibling<K>(m: Mem<K>, z: Path<K>, t: Shape<K>)
    requires At(m, z, t) && z.Frame? && z.sib.Fork?
    ensures z.sib.l.Fork? ==> z.sib.l.n in m.cell && m.cell[z.sib.l.n].color == z.sib.l.c
    ensures z.sib.r.Fork? ==> z.sib.r.n in m.cell && m.cell[z.sib.r.n].color == z.sib.r.c
  {
    assert Holds(m.cell, z.sib, z.n);
    assert Holds(m.cell, z.sib.l, z.sib.n) && Holds(m.cell, z.sib.r, z.sib.n);
  }

  lemma {:induction false} RootInPath<K>(m: Mem<K>, z: Path<K>, hole: Node?<K>)
    requires HoldsPath(m, z, hole) && z.Frame?
    ensures m.root != null && m.root in PathNodes(z)
  {
    if z.up.Frame? {
      RootInPath(m, z.up, z.n);
    }
  }

  lemma RootSeen<K>(m: Mem<K>, z: Path<K>, t: Shape<K>)
    requires At(m, z, t)
    ensures m.root == Root(t) <==> z.Top?
  {
    if z.Frame? {
      RootInPath(m, z, Root(t));
      assert t.Fork? ==> t.n in Nodes(t);
    }
  }

  // ----- frame

  lemma {:induction false} Keep<K>(s: map<Node<K>, Cell<K>>, s': map<Node<K>, Cell<K>>, t: Shape<K>, p: Node?<K>)
    requires Holds(s, t, p)
    requires forall n :: n in Nodes(t) && n in s ==> n in s' && s'[n] == s[n]
    ensures Holds(s', t, p)
  {
    if t.Fork? {
      Keep(s, s', t.l, t.n);
      Keep(s, s', t.r, t.n);
    }
  }

  lemma {:induction false} KeepPath<K>(m: Mem<K>, m': Mem<K>, z: Path<K>, hole: Node?<K>)
    requires HoldsPath(m, z, hole) && m'.root == m.root
    requires forall n :: n in PathNodes(z) && n in m.cell ==> n in m'.cell && m'.cell[n] == m.cell[n]
    ensures HoldsPath(m', z, hole)
  {
    if z.Frame? {
      Keep(m.cell, m'.cell, z.sib, z.n);
      KeepPath(m, m', z.up, z.n);
    }
  }

  // ----- moving the mark

  lemma Up<K>(m: Mem<K>, z: Path<K>, t: Shape<K>)
    requires z.Frame?
    ensures At(m, z, t) <==> At(m, z.up, Mk(z.d, t, z.n, z.c, z.sib))
  {
  }

  lemma {:induction false} Refocus<K>(m: Mem<K>, inner: Path<K>, outer: Path<K>, t: Shape<K>)
    ensures At(m, Append(inner, outer), t) <==> At(m, outer, Plug(inner, t))
    decreases inner
  {
    if inner.Frame? {
      Up(m, Append(inner, outer), t);
      Refocus(m, inner.up, outer, Mk(inner.d, t, inner.n, inner.c, inner.sib));
    }
  }

  // ----- pointer updates

  lemma RelinkPath<K>(m: Mem<K>, z: Path<K>, o: Node<K>, n: Node?<K>)
    requires HoldsPath(m, z, o) && PathDistinct(z) && o !in PathNodes(z)
    ensures Parent(z) != null ==> Parent(z) in m.cell
    ensures HoldsPath(m.Relink(Parent(z), o, n), z, n)
  {
    var m' := m.Relink(Parent(z), o, n);
    if z.Frame? {
      assert z.sib.Fork? ==> z.sib.n in Nodes(z.sib);
      Keep(m.cell, m'.cell, z.sib, z.n);
      KeepPath(m, m', z.up, z.n);
    }
  }

  predicate CanRotateMem<K>(m: Mem<K>, d: Side, x: Node<K>) {
    && x in m.cell && m.cell[x].Kid(d.Opp()) != null && m.cell[x].Kid(d.Opp()) in m.cell
    && (var b := m.cell[m.cell[x].Kid(d.Opp())].Kid(d); b != null ==> b in m.cell)
    && (m.cell[x].parent != null ==> m.cell[x].parent in m.cell)
  }

  /** The updates of a rotation at `x` towards `d`, in the macro's order. */
  function RotateMem<K>(m: Mem<K>, d: Side, x: Node<K>): Mem<K>
    requires CanRotateMem(m, d, x)
  {
    var y := m.cell[x].Kid(d.Opp());
    var p := m.cell[x].parent;
    var b := m.cell[y].Kid(d);
    m.SetKid(x, d.Opp(), b).SetParent(b, x).SetParent(y, p).Relink(p, x, y).SetKid(y, d, x).SetParent(x, y)
  }

  predicate CanRotate<K>(d: Side, t: Shape<K>) {
    t.Fork? && Kid(t, d.Opp()).Fork?
  }

  lemma RotateDefined<K>(m: Mem<K>, z: Path<K>, d: Side, t: Shape<K>)
    requires At(m, z, t) && CanRotate(d, t)
    ensures var y := Kid(t, d.Opp()); var b := Kid(y, d);
      && t.n in m.cell && y.n in m.cell && (b.Fork? ==> b.n in m.cell)
      && m.cell[t.n] == MkCell(d, Root(Kid(t, d)), y.n, Parent(z), t.c)
      && m.cell[y.n] == MkCell(d, Root(b), Root(Kid(y, d.Opp())), t.n, y.c)
      && (Parent(z) != null ==> Parent(z) in m.cell)
    ensures CanRotateMem(m, d, t.n)
  {
    var y := Kid(t, d.Opp());
    assert Holds(m.cell, y, t.n);
    assert Holds(m.cell, Kid(y, d), y.n);
  }

  /** The net effect of a rotation on the cells. */
  lemma RotateCells<K>(m: Mem<K>, d: Side, x: Node<K>, y: Node<K>, b: Node?<K>, p: Node?<K>)
    requires CanRotateMem(m, d, x)
    requires y == m.cell[x].Kid(d.Opp()) && b == m.cell[y].Kid(d) && p == m.cell[x].parent
    requires x != y && b != x && b != y && p != x && p != y && (p != null ==> p != b)
    ensures var m' := RotateMem(m, d, x); var r := m.Relink(p, x, y);
      && m'.cell.Keys == m.cell.Keys && m'.root == r.root
      && m'.cell[x] == m.cell[x].WithKid(d.Opp(), b).(parent := y)
      && m'.cell[y] == m.cell[y].WithKid(d, x).(parent := p)
      && (b != null ==> m'.cell[b] == m.cell[b].(parent := x))
      && forall n :: n in m.cell && n != x && n != y && n != b ==> m'.cell[n] == r.cell[n]
  {
    RotateTriple(m, d, x, y, b, p);
    forall n | n in m.cell && n != x && n != y && n != b
      ensures RotateMem(m, d, x).cell[n] == m.Relink(p, x, y).cell[n]
    {
      RotateOther(m, d, x, y, b, p, n);
    }
  }

  lemma RotateTriple<K>(m: Mem<K>, d: Side, x: Node<K>, y: Node<K>, b: Node?<K>, p: Node?<K>)
    requires CanRotateMem(m, d, x)
    requires y == m.cell[x].Kid(d.Opp()) && b == m.cell[y].Kid(d) && p == m.cell[x].parent
    requires x != y && b != x && b != y && p != x && p != y && (p != null ==> p != b)
    ensures var m' := RotateMem(m, d, x);
      && m'.cell.Keys == m.cell.Keys && m'.root == m.Relink(p, x, y).root
      && m'.cell[x] == m.cell[x].WithKid(d.Opp(), b).(parent := y)
      && m'.cell[y] == m.cell[y].WithKid(d, x).(parent := p)
      && (b != null ==> m'.cell[b] == m.cell[b].(parent := x))
  {
  }

  lemma RotateOther<K>(m: Mem<K>, d: Side, x: Node<K>, y: Node<K>, b: Node?<K>, p: Node?<K>, n: Node<K>)
    requires CanRotateMem(m, d, x)
    requires y == m.cell[x].Kid(d.Opp()) && b == m.cell[y].Kid(d) && p == m.cell[x].parent
    requires x != y && b != x && b != y && p != x && p != y && (p != null ==> p != b)
    requires n in m.cell && n != x && n != y && n != b
    ensures n in RotateMem(m, d, x).cell && RotateMem(m, d, x).cell[n] == m.Relink(p, x, y).cell[n]
  {
  }

  lemma RotateSets<K>(d: Side, t: Shape<K>)
    requires CanRotate(d, t) && Distinct(t)
    ensures Distinct(Rotate(d, t)) && Nodes(Rotate(d, t)) == Nodes(t)
  {
    assert Distinct(Kid(t, d.Opp()));
  }

  lemma RotateInside<K>(s: map<Node<K>, Cell<K>>, s': map<Node<K>, Cell<K>>, d: Side, t: Shape<K>, p: Node?<K>)
    requires Holds(s, t, p) && CanRotate(d, t) && Distinct(t) && s'.Keys == s.Keys
    requires var y := Kid(t, d.Opp()); var a, b, e := Kid(t, d), Kid(y, d), Kid(y, d.Opp());
      && t.n in s && y.n in s && (b.Fork? ==> b.n in s)
      && s'[t.n] == MkCell(d, Root(a), Root(b), y.n, t.c)
      && s'[y.n] == MkCell(d, t.n, Root(e), p, y.c)
      && (b.Fork? ==> s'[b.n] == s[b.n].(parent := t.n))
      && forall n :: n in s && n in Nodes(t) && n != t.n && n != y.n && n != Root(b) ==> s'[n] == s[n]
    ensures Holds(s', Rotate(d, t), p)
  {
    var y := Kid(t, d.Opp());
    var a, b, e := Kid(t, d), Kid(y, d), Kid(y, d.Opp());
    assert Distinct(y) && Holds(s, y, t.n);
    assert Distinct(b) && Holds(s, b, y.n);
    Keep(s, s', a, t.n);
    Keep(s, s', e, y.n);
    if b.Fork? {
      Keep(s, s', b.l, b.n);
      Keep(s, s', b.r, b.n);
    }
    assert Holds(s', b, t.n);
    assert Holds(s', Mk(d, a, t.n, t.c, b), y.n);
  }

  /** The three nodes a rotation writes are different and lie in the marked subtree. */
  lemma RotateNodes<K>(d: Side, t: Shape<K>)
    requires CanRotate(d, t) && Distinct(t)
    ensures var y := Kid(t, d.Opp()); var b := Kid(y, d);
      && y.n != t.n && Root(b) != t.n && Root(b) != y.n
      && t.n in Nodes(t) && y.n in Nodes(t) && (b.Fork? ==> b.n in Nodes(t))
  {
    var y := Kid(t, d.Opp());
    assert Distinct(y);
    assert Kid(y, d).Fork? ==> Kid(y, d).n in Nodes(Kid(y, d));
  }

  lemma RotatePath<K>(m: Mem<K>, z: Path<K>, d: Side, t: Shape<K>)
    requires At(m, z, t) && CanRotate(d, t)
    ensures CanRotateMem(m, d, t.n) && HoldsPath(RotateMem(m, d, t.n), z, Kid(t, d.Opp()).n)
  {
    var y := Kid(t, d.Opp());
    RotateDefined(m, z, d, t);
    RotateNodes(d, t);
    assert Parent(z) != null ==> Parent(z) in PathNodes(z);
    RotateCells(m, d, t.n, y.n, Root(Kid(y, d)), Parent(z));
    hide RotateMem;
    RelinkPath(m, z, t.n, y.n);
    KeepPath(m.Relink(Parent(z), t.n, y.n), RotateMem(m, d, t.n), z, y.n);
  }

  lemma RotateHolds<K>(m: Mem<K>, z: Path<K>, d: Side, t: Shape<K>)
    requires At(m, z, t) && CanRotate(d, t)
    ensures CanRotateMem(m, d, t.n) && RotateMem(m, d, t.n).cell.Keys == m.cell.Keys
    ensures Holds(RotateMem(m, d, t.n).cell, Rotate(d, t), Parent(z))
  {
    var y := Kid(t, d.Opp());
    RotateDefined(m, z, d, t);
    RotateNodes(d, t);
    assert Parent(z) != null ==> Parent(z) in PathNodes(z);
    RotateCells(m, d, t.n, y.n, Root(Kid(y, d)), Parent(z));
    var r := m.Relink(Parent(z), t.n, y.n);
    assert forall n :: n in m.cell && n in Nodes(t) ==> n != Parent(z) && r.cell[n] == m.cell[n];
    RotateInside(m.cell, RotateMem(m, d, t.n).cell, d, t, Parent(z));
  }

  /** A rotation keeps every pointer right and the elements in their order. */
  lemma RotateAt<K>(m: Mem<K>, z: Path<K>, d: Side, t: Shape<K>)
    requires At(m, z, t) && CanRotate(d, t)
    ensures CanRotateMem(m, d, t.n) && At(RotateMem(m, d, t.n), z, Rotate(d, t))
    ensures RotateMem(m, d, t.n).cell.Keys == m.cell.Keys
    ensures InOrder(Plug(z, Rotate(d, t))) == InOrder(Plug(z, t))
  {
    InOrderRotate(d, t);
    InOrderPlug(z, t);
    InOrderPlug(z, Rotate(d, t));
    RotatePath(m, z, d, t);
    RotateHolds(m, z, d, t);
    RotateSets(d, t);
  }

  lemma PaintAt<K>(m: Mem<K>, z: Path<K>, t: Shape<K>, c: Color)
    requires At(m, z, t) && t.Fork?
    ensures t.n in m.cell && At(m.SetColor(t.n, c), z, Paint(t, c))
    ensures m.SetColor(t.n, c).cell.Keys == m.cell.Keys
    ensures InOrder(Plug(z, Paint(t, c))) == InOrder(Plug(z, t))
  {
    hide Plug, Before, After, PathDistinct;
    InOrderPlug(z, t);
    InOrderPlug(z, Paint(t, c));
    var m' := m.SetColor(t.n, c);
    Keep(m.cell, m'.cell, t.l, t.n);
    Keep(m.cell, m'.cell, t.r, t.n);
    KeepPath(m, m', z, t.n);
  }

  /** The updates that hang a new red node `e` at an empty position. */
  function AttachMem<K>(m: Mem<K>, z: Path<K>, e: Node<K>): Mem<K>
    requires z.Frame? ==> z.n in m.cell
  {
    var m1 := m.(cell := m.cell[e := Cell(null, null, Parent(z), Red)]);
    if z.Top? then m1.(root := e) else m1.SetKid(z.n, z.d, e)
  }

  lemma AttachAt<K>(m: Mem<K>, z: Path<K>, e: Node<K>)
    requires At(m, z, Leaf) && e !in m.cell
    ensures z.Frame? ==> z.n in m.cell
    ensures At(AttachMem(m, z, e), z, Fork(Leaf, e, Red, Leaf))
  {
    var m' := AttachMem(m, z, e);
    if z.Frame? {
      Keep(m.cell, m'.cell, z.sib, z.n);
      KeepPath(m, m', z.up, z.n);
    }
    assert Holds(m'.cell, Fork(Leaf, e, Red, Leaf), Parent(z));
  }

  /** The updates that take `n`, with at most the child `k`, out of the tree. */
  function SpliceMem<K>(m: Mem<K>, n: Node<K>, k: Node?<K>): Mem<K>
    requires n in m.cell && (k != null ==> k in m.cell)
    requires m.cell[n].parent != null ==> m.cell[n].parent in m.cell
  {
    var p := m.cell[n].parent;
    var m2 := m.SetParent(k, p).Relink(p, n, k);
    m2.(cell := m2.cell - {n})
  }

  lemma SpliceCells<K>(m: Mem<K>, n: Node<K>, k: Node?<K>, p: Node?<K>)
    requires n in m.cell && (k != null ==> k in m.cell) && p == m.cell[n].parent && (p != null ==> p in m.cell)
    requires k != n && p != n && (p != null ==> p != k)
    ensures var m' := SpliceMem(m, n, k); var r := m.Relink(p, n, k);
      && m'.cell.Keys == m.cell.Keys - {n} && m'.root == r.root
      && (k != null ==> m'.cell[k] == m.cell[k].(parent := p))
      && forall q :: q in m'.cell && q != k ==> m'.cell[q] == r.cell[q]
  {
  }

  lemma SpliceDefined<K>(m: Mem<K>, z: Path<K>, d: Side, k: Shape<K>, n: Node<K>, c: Color)
    requires At(m, z, Mk(d, k, n, c, Leaf))
    ensures n in m.cell && m.cell[n] == MkCell(d, Root(k), null, Parent(z), c)
    ensures (Parent(z) != null ==> Parent(z) in m.cell && Parent(z) in PathNodes(z))
    ensures (k.Fork? ==> k.n in m.cell && k.n in Nodes(k))
    ensures Holds(m.cell, k, n) && Distinct(k) && n !in Nodes(k) && n !in PathNodes(z) && Nodes(k) !! PathNodes(z)
    ensures m.cell.Keys - {n} == Nodes(k) + PathNodes(z)
  {
  }

  lemma SpliceAt<K>(m: Mem<K>, z: Path<K>, d: Side, k: Shape<K>, n: Node<K>, c: Color)
    requires At(m, z, Mk(d, k, n, c, Leaf))
    ensures n in m.cell && m.cell[n] == MkCell(d, Root(k), null, Parent(z), c)
    ensures (Parent(z) != null ==> Parent(z) in m.cell) && (k.Fork? ==> k.n in m.cell)
    ensures At(SpliceMem(m, n, Root(k)), z, k)
  {
    SpliceDefined(m, z, d, k, n, c);
    SpliceCells(m, n, Root(k), Parent(z));
    RelinkPath(m, z, n, Root(k));
    var r, m' := m.Relink(Parent(z), n, Root(k)), SpliceMem(m, n, Root(k));
    KeepPath(r, m', z, Root(k));
    assert forall q :: q in Nodes(k) ==> q != Parent(z);
    Reparent(m.cell, m'.cell, k, n, Parent(z));
  }

  /** A subtree stays in place when only its root gets a new parent. */
  lemma Reparent<K>(s: map<Node<K>, Cell<K>>, s': map<Node<K>, Cell<K>>, k: Shape<K>, p: Node?<K>, q: Node?<K>)
    requires Holds(s, k, p) && Distinct(k)
    requires k.Fork? ==> k.n in s && k.n in s' && s'[k.n] == s[k.n].(parent := q)
    requires forall n :: n in Nodes(k) && n in s && n != Root(k) ==> n in s' && s'[n] == s[n]
    ensures Holds(s', k, q)
  {
    if k.Fork? {
      Keep(s, s', k.l, k.n);
      Keep(s, s', k.r, k.n);
    }
  }

  /** The updates that put `y` in the place of `o`. */
  function ReplaceMem<K>(m: Mem<K>, o: Node<K>, y: Node<K>): Mem<K>
    requires o in m.cell && y !in m.cell
    requires m.cell[o].parent != null ==> m.cell[o].parent in m.cell
    requires m.cell[o].left != null ==> m.cell[o].left in m.cell
    requires m.cell[o].right != null ==> m.cell[o].right in m.cell
  {
    var m1 := m.(cell := m.cell[y := m.cell[o]]);
    var m2 := m1.Relink(m.cell[o].parent, o, y).SetParent(m.cell[o].left, y).SetParent(m.cell[o].right, y);
    m2.(cell := m2.cell - {o})
  }

  lemma ReplaceCells<K>(m: Mem<K>, o: Node<K>, y: Node<K>, c: Cell<K>)
    requires o in m.cell && y !in m.cell && c == m.cell[o]
    requires c.parent != null ==> c.parent in m.cell && c.parent != c.left && c.parent != c.right
    requires c.left != null ==> c.left in m.cell && c.left != c.right
    requires c.right != null ==> c.right in m.cell
    requires c.parent != o && c.left != o && c.right != o
    ensures var m' := ReplaceMem(m, o, y); var r := m.Relink(c.parent, o, y);
      && m'.cell.Keys == m.cell.Keys - {o} + {y} && m'.root == r.root && m'.cell[y] == c
      && (c.left != null ==> m'.cell[c.left] == m.cell[c.left].(parent := y))
      && (c.right != null ==> m'.cell[c.right] == m.cell[c.right].(parent := y))
      && forall q :: q in m'.cell && q != y && q != c.left && q != c.right ==> m'.cell[q] == r.cell[q]
  {
  }

  lemma ReplaceDefined<K>(m: Mem<K>, z: Path<K>, t: Shape<K>)
    requires At(m, z, t) && t.Fork?
    ensures t.n in m.cell && m.cell[t.n] == Cell(Root(t.l), Root(t.r), Parent(z), t.c)
    ensures Parent(z) != null ==> Parent(z) in m.cell && Parent(z) in PathNodes(z)
    ensures t.l.Fork? ==> t.l.n in m.cell && t.l.n in Nodes(t.l)
    ensures t.r.Fork? ==> t.r.n in m.cell && t.r.n in Nodes(t.r)
    ensures Holds(m.cell, t.l, t.n) && Holds(m.cell, t.r, t.n)
    ensures t.n !in Nodes(t.l) && t.n !in Nodes(t.r) && t.n !in PathNodes(z)
    ensures Nodes(t.l) !! PathNodes(z) && Nodes(t.r) !! PathNodes(z) && Nodes(t.l) !! Nodes(t.r)
    ensures Distinct(t.l) && Distinct(t.r) && m.cell.Keys == Nodes(t.l) + Nodes(t.r) + {t.n} + PathNodes(z)
  {
  }

  lemma ReplacePath<K>(m: Mem<K>, z: Path<K>, t: Shape<K>, y: Node<K>)
    requires At(m, z, t) && t.Fork? && y !in m.cell
    ensures t.n in m.cell && m.cell[t.n] == Cell(Root(t.l), Root(t.r), Parent(z), t.c)
    ensures Parent(z) != null ==> Parent(z) in m.cell
    ensures (t.l.Fork? ==> t.l.n in m.cell) && (t.r.Fork? ==> t.r.n in m.cell)
    ensures HoldsPath(ReplaceMem(m, t.n, y), z, y)
  {
    ReplaceDefined(m, z, t);
    ReplaceCells(m, t.n, y, m.cell[t.n]);
    RelinkPath(m, z, t.n, y);
    KeepPath(m.Relink(Parent(z), t.n, y), ReplaceMem(m, t.n, y), z, y);
  }

  lemma ReplaceHolds<K>(m: Mem<K>, z: Path<K>, t: Shape<K>, y: Node<K>)
    requires At(m, z, t) && t.Fork? && y !in m.cell
    ensures t.n in m.cell && m.cell[t.n] == Cell(Root(t.l), Root(t.r), Parent(z), t.c)
    ensures Parent(z) != null ==> Parent(z) in m.cell
    ensures (t.l.Fork? ==> t.l.n in m.cell) && (t.r.Fork? ==> t.r.n in m.cell)
    ensures Holds(ReplaceMem(m, t.n, y).cell, t.(n := y), Parent(z))
    ensures ReplaceMem(m, t.n, y).cell.Keys == m.cell.Keys - {t.n} + {y}
  {
    ReplaceDefined(m, z, t);
    ReplaceCells(m, t.n, y, m.cell[t.n]);
    var m' := ReplaceMem(m, t.n, y);
    assert forall q :: q in Nodes(t.l) || q in Nodes(t.r) ==> q != Parent(z);
    Reparent(m.cell, m'.cell, t.l, t.n, y);
    Reparent(m.cell, m'.cell, t.r, t.n, y);
  }

  lemma ReplaceAt<K>(m: Mem<K>, z: Path<K>, t: Shape<K>, y: Node<K>)
    requires At(m, z, t) && t.Fork? && y !in m.cell
    ensures t.n in m.cell && m.cell[t.n] == Cell(Root(t.l), Root(t.r), Parent(z), t.c)
    ensures Parent(z) != null ==> Parent(z) in m.cell
    ensures (t.l.Fork? ==> t.l.n in m.cell) && (t.r.Fork? ==> t.r.n in m.cell)
    ensures At(ReplaceMem(m, t.n, y), z, t.(n := y))
  {
    ReplaceHolds(m, z, t, y);
    ReplacePath(m, z, t, y);
    var k := Nodes(t.l) + Nodes(t.r) + PathNodes(z);
    assert m.cell.Keys == k + {t.n} && t.n !in k && y !in k;
    assert m.cell.Keys - {t.n} + {y} == Nodes(t.(n := y)) + PathNodes(z);
  }
}
