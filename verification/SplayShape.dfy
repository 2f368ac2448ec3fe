/** Splay trees as values. While a splay is under way the tree is split in three:
    the part below the key, the part above it, each open at one end, and the
    subtree in which the search goes on. */
module SplayShape {
  import opened Sides

  class SplayNode<K> {
    var key: K
    var left: SplayNode?<K>
    var right: SplayNode?<K>

    constructor (key: K)
      ensures this.key == key && left == null && right == null
    {
      this.key := key;
      left, right := null, null;
    }

    function Kid(d: Side): SplayNode?<K>
      reads this
    {
      if d.Left? then left else right
    }
  }

  datatype Shape<K> = Leaf | Fork(l: Shape<K>, n: SplayNode<K>, r: Shape<K>) {
    function Kid(d: Side): Shape<K>
      requires Fork?
    {
      if d.Left? then l else r
    }
  }

  function Mk<K>(d: Side, kid: Shape<K>, n: SplayNode<K>, other: Shape<K>): Shape<K> {
    if d.Left? then Fork(kid, n, other) else Fork(other, n, kid)
  }

  function Root<K>(t: Shape<K>): SplayNode?<K> {
    if t.Leaf? then null else t.n
  }

  function InOrder<K>(t: Shape<K>): seq<SplayNode<K>> {
    match t
    case Leaf => []
    case Fork(l, n, r) => InOrder(l) + [n] + InOrder(r)
  }

  /** A tree open at its outermost position on one side: the last node of the
      spine has no child there yet. */
  datatype Spine<K> = Nil | Snoc(init: Spine<K>, other: Shape<K>, n: SplayNode<K>)

  /** Fills the open position of a spine with `t`. */
  function Close<K>(d: Side, sp: Spine<K>, t: Shape<K>): Shape<K>
    decreases sp
  {
    match sp
    case Nil => t
    case Snoc(init, other, n) => Close(d, init, Mk(d, t, n, other))
  }

  function Order<K>(d: Side, sp: Spine<K>): seq<SplayNode<K>> {
    match sp
    case Nil => []
    case Snoc(init, other, n) =>
      if d.Left? then [n] + InOrder(other) + Order(d, init) else Order(d, init) + InOrder(other) + [n]
  }

  lemma {:induction false} CloseOrder<K>(d: Side, sp: Spine<K>, t: Shape<K>)
    ensures InOrder(Close(d, sp, t)) == if d.Left? then InOrder(t) + Order(d, sp) else Order(d, sp) + InOrder(t)
    decreases sp
  {
    if sp.Snoc? {
      var m := Mk(d, t, sp.n, sp.other);
      CloseOrder(d, sp.init, m);
      if d.Left? {
        assert InOrder(m) + Order(d, sp.init) == InOrder(t) + Order(d, sp);
      } else {
        assert Order(d, sp.init) + InOrder(m) == Order(d, sp) + InOrder(t);
      }
    }
  }

  lemma Regroup<T>(a: seq<T>, b: seq<T>, c: seq<T>, d: seq<T>, e: seq<T>)
    ensures (a + b) + c + (d + e) == a + (b + c + d) + e
  {
  }

  /** `low` is open on the right, `high` on the left, and the search is in `t`. */
  datatype Split<K> = Split(low: Spine<K>, t: Shape<K>, high: Spine<K>) {
    function Spine(d: Side): Spine<K> {
      if d.Left? then high else low
    }

    function Contents(): seq<SplayNode<K>> {
      Order(Right, low) + InOrder(t) + Order(Left, high)
    }

    /** The tree that assembling the parts around the root of `t` gives. */
    function Joined(): Shape<K>
      requires t.Fork?
    {
      Fork(Close(Right, low, t.l), t.n, Close(Left, high, t.r))
    }

    /** The root of `t` and its subtree away from `d` go to a spine. */
    function Link(d: Side): Split<K>
      requires t.Fork?
    {
      if d.Left? then Split(low, t.l, Snoc(high, t.r, t.n)) else Split(Snoc(low, t.l, t.n), t.r, high)
    }

    /** The `d` child of the root of `t` rises. */
    function Raise(d: Side): Split<K>
      requires t.Fork? && t.Kid(d).Fork?
    {
      var y := t.Kid(d);
      this.(t := Mk(d, y.Kid(d), y.n, Mk(d, y.Kid(d.Opp()), t.n, t.Kid(d.Opp()))))
    }

    lemma JoinedContents()
      requires t.Fork?
      ensures InOrder(Joined()) == Contents()
    {
      hide Close, Order;
      CloseOrder(Right, low, t.l);
      CloseOrder(Left, high, t.r);
      Regroup(Order(Right, low), InOrder(t.l), [t.n], InOrder(t.r), Order(Left, high));
    }

    lemma LinkContents(d: Side)
      requires t.Fork?
      ensures Link(d).Contents() == Contents()
    {
      var a, b := Order(Right, low), Order(Left, high);
      if d.Left? {
        assert a + InOrder(t.l) + ([t.n] + InOrder(t.r) + b) == a + (InOrder(t.l) + [t.n] + InOrder(t.r)) + b;
      } else {
        assert (a + InOrder(t.l) + [t.n]) + InOrder(t.r) + b == a + (InOrder(t.l) + [t.n] + InOrder(t.r)) + b;
      }
    }

    lemma RaiseContents(d: Side)
      requires t.Fork? && t.Kid(d).Fork?
      ensures Raise(d).Contents() == Contents()
    {
      var y := t.Kid(d);
      var a, b, c := InOrder(y.l), InOrder(y.r), InOrder(t.Kid(d.Opp()));
      if d.Left? {
        assert InOrder(Fork(y.r, t.n, t.r)) == b + [t.n] + c;
        assert a + [y.n] + (b + [t.n] + c) == (a + [y.n] + b) + [t.n] + c;
        assert InOrder(y) == a + [y.n] + b;
        assert Raise(d).t == Fork(y.l, y.n, Fork(y.r, t.n, t.r));
      } else {
        assert InOrder(Fork(t.l, t.n, y.l)) == c + [t.n] + a;
        assert (c + [t.n] + a) + [y.n] + b == c + [t.n] + (a + [y.n] + b);
        assert InOrder(y) == a + [y.n] + b;
        assert Raise(d).t == Fork(Fork(t.l, t.n, y.l), y.n, y.r);
      }
    }
  }
}
