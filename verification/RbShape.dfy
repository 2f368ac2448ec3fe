/** Red-black trees as values. A `Shape` is a whole subtree, a `Path` is what
    surrounds a subtree inside its tree, innermost ancestor first, so that a
    shape together with a path is a tree with one position marked. The two
    mirror images of every situation are one, parameterised by a `Side`. */
module RbShape {
  import opened Sides
  import opened RbNodes

  datatype Shape<K> = Leaf | Fork(l: Shape<K>, n: Node<K>, c: Color, r: Shape<K>)

  /** `Frame(d, n, c, sib, up)`: the marked subtree is the `d` child of `n`. */
  datatype Path<K> = Top | Frame(d: Side, n: Node<K>, c: Color, sib: Shape<K>, up: Path<K>)

  function Mk<K>(d: Side, kid: Shape<K>, n: Node<K>, c: Color, sib: Shape<K>): Shape<K> {
    if d.Left? then Fork(kid, n, c, sib) else Fork(sib, n, c, kid)
  }

  function Plug<K>(z: Path<K>, t: Shape<K>): Shape<K>
    decreases z
  {
    match z
    case Top => t
    case Frame(d, n, c, sib, up) => Plug(up, Mk(d, t, n, c, sib))
  }

  function Append<K>(inner: Path<K>, outer: Path<K>): Path<K> {
    match inner
    case Top => outer
    case Frame(d, n, c, sib, up) => Frame(d, n, c, sib, Append(up, outer))
  }

  function Depth<K>(z: Path<K>): nat {
    if z.Top? then 0 else 1 + Depth(z.up)
  }

  function InOrder<K>(t: Shape<K>): seq<Node<K>> {
    match t
    case Leaf => []
    case Fork(l, n, c, r) => InOrder(l) + [n] + InOrder(r)
  }

  /** The elements that come before the marked position. */
  function Before<K>(z: Path<K>): seq<Node<K>> {
    match z
    case Top => []
    case Frame(d, n, c, sib, up) => if d.Left? then Before(up) else Before(up) + InOrder(sib) + [n]
  }

  /** The elements that come after the marked position. */
  function After<K>(z: Path<K>): seq<Node<K>> {
    match z
    case Top => []
    case Frame(d, n, c, sib, up) => if d.Left? then [n] + InOrder(sib) + After(up) else After(up)
  }

  // ----- colour conditions

  predicate IsRed<K>(t: Shape<K>) {
    t.Fork? && t.c.Red?
  }

  function Paint<K>(t: Shape<K>, c: Color): Shape<K> {
    match t
    case Leaf => Leaf
    case Fork(l, n, _, r) => Fork(l, n, c, r)
  }

  function Count(c: Color): nat {
    if c.Black? then 1 else 0
  }

  /** Black nodes on the leftmost path. */
  function Height<K>(t: Shape<K>): nat {
    match t
    case Leaf => 0
    case Fork(l, n, c, r) => Height(l) + Count(c)
  }

  predicate Balanced<K>(t: Shape<K>) {
    match t
    case Leaf => true
    case Fork(l, n, c, r) => Balanced(l) && Balanced(r) && Height(l) == Height(r)
  }

  /** No red node has a red child. */
  predicate NoRedRed<K>(t: Shape<K>) {
    match t
    case Leaf => true
    case Fork(l, n, c, r) => NoRedRed(l) && NoRedRed(r) && (c.Red? ==> !IsRed(l) && !IsRed(r))
  }

  predicate RedBlack<K>(t: Shape<K>) {
    Balanced(t) && NoRedRed(t) && !IsRed(t)
  }

  // ----- the same conditions for what surrounds a marked position

  /** Balanced, provided the marked subtree is and has `h` black nodes per path. */
  predicate BalancedPath<K>(z: Path<K>, h: int) {
    match z
    case Top => true
    case Frame(d, n, c, sib, up) => Balanced(sib) && Height(sib) == h && BalancedPath(up, h + Count(c))
  }

  predicate ParentRed<K>(z: Path<K>) {
    z.Frame? && z.c.Red?
  }

  /** No red node has a red child, leaving out the marked subtree; the root is black. */
  predicate ColoredPath<K>(z: Path<K>) {
    match z
    case Top => true
    case Frame(d, n, c, sib, up) =>
      && NoRedRed(sib)
      && (c.Red? ==> !IsRed(sib) && up.Frame? && !ParentRed(up))
      && ColoredPath(up)
  }

  // ----- plugging

  lemma {:induction false} InOrderPlug<K>(z: Path<K>, t: Shape<K>)
    ensures InOrder(Plug(z, t)) == Before(z) + InOrder(t) + After(z)
    decreases z
  {
    match z
    case Top =>
    case Frame(d, n, c, sib, up) =>
      InOrderPlug(up, Mk(d, t, n, c, sib));
      if d.Left? {
        Regroup(Before(up), InOrder(t), [n], InOrder(sib), After(up));
      } else {
        Regroup(Before(up), InOrder(sib), [n], InOrder(t), After(up));
      }
  }

  /** Concatenation is associative. */
  lemma Regroup<T>(a: seq<T>, b: seq<T>, c: seq<T>, d: seq<T>, e: seq<T>)
    ensures a + (b + c + d) + e == a + b + (c + d + e)
    ensures a + (b + c + d) + e == (a + b + c) + d + e
  {
  }

  lemma {:induction false} RedBlackPlug<K>(z: Path<K>, t: Shape<K>)
    ensures Balanced(Plug(z, t)) <==> Balanced(t) && BalancedPath(z, Height(t))
    ensures RedBlack(Plug(z, t)) <==>
      && Balanced(t) && BalancedPath(z, Height(t))
      && NoRedRed(t) && ColoredPath(z) && !(IsRed(t) && (z.Top? || z.c.Red?))
    decreases z
  {
    match z
    case Top =>
    case Frame(d, n, c, sib, up) => RedBlackPlug(up, Mk(d, t, n, c, sib));
  }

  lemma {:induction false} PlugFork<K>(z: Path<K>, t: Shape<K>)
    ensures Plug(z, t).Leaf? <==> z.Top? && t.Leaf?
    decreases z
  {
    if z.Frame? {
      PlugFork(z.up, Mk(z.d, t, z.n, z.c, z.sib));
    }
  }

  lemma {:induction false} PlugAppend<K>(inner: Path<K>, outer: Path<K>, t: Shape<K>)
    ensures Plug(Append(inner, outer), t) == Plug(outer, Plug(inner, t))
    decreases inner
  {
    match inner
    case Top =>
    case Frame(d, n, c, sib, up) => PlugAppend(up, outer, Mk(d, t, n, c, sib));
  }
}
