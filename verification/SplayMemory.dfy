/** The pointers of a splay tree as a value, at rest and during a splay, and
    what each pointer update of a splay does to the tree they represent. */
module SplayMemory {
  import opened Sides
  import opened SplayShape

  datatype Cell<K> = Cell(left: SplayNode?<K>, right: SplayNode?<K>) {
    function Kid(d: Side): SplayNode?<K> {
      if d.Left? then left else right
    }

    function WithKid(d: Side, k: SplayNode?<K>): Cell<K> {
      if d.Left? then this.(left := k) else this.(right := k)
    }
  }

  type Store<K> = map<SplayNode<K>, Cell<K>>

  function Nodes<K>(t: Shape<K>): set<SplayNode<K>> {
    if t.Leaf? then {} else Nodes(t.l) + {t.n} + Nodes(t.r)
  }

  predicate Distinct<K>(t: Shape<K>) {
    t.Leaf? ||
    (Distinct(t.l) && Distinct(t.r) && t.n !in Nodes(t.l) && t.n !in Nodes(t.r) && Nodes(t.l) !! Nodes(t.r))
  }

  predicate Holds<K>(s: Store<K>, t: Shape<K>) {
    t.Leaf? ||
    (t.n in s && s[t.n] == Cell(Root(t.l), Root(t.r)) && Holds(s, t.l) && Holds(s, t.r))
  }

  /** A whole tree and nothing else. */
  predicate Tree<K>(s: Store<K>, t: Shape<K>) {
    Holds(s, t) && Distinct(t) && s.Keys == Nodes(t)
  }

  // ----- spines hang from a dummy node

  function Last<K>(dummy: SplayNode<K>, sp: Spine<K>): SplayNode<K> {
    if sp.Nil? then dummy else sp.n
  }

  function SpineNodes<K>(sp: Spine<K>): set<SplayNode<K>> {
    if sp.Nil? then {} else SpineNodes(sp.init) + Nodes(sp.other) + {sp.n}
  }

  predicate SpineDistinct<K>(sp: Spine<K>) {
    sp.Nil? ||
    (&& SpineDistinct(sp.init) && Distinct(sp.other) && sp.n !in Nodes(sp.other)
     && sp.n !in SpineNodes(sp.init) && Nodes(sp.other) !! SpineNodes(sp.init))
  }

  /** Nothing is said about where the last node points on the open side. */
  predicate HoldsSpine<K>(s: Store<K>, dummy: SplayNode<K>, d: Side, sp: Spine<K>) {
    sp.Nil? ||
    (&& sp.n in s && Last(dummy, sp.init) in s
     && s[Last(dummy, sp.init)].Kid(d) == sp.n
     && s[sp.n].Kid(d.Opp()) == Root(sp.other)
     && Holds(s, sp.other) && HoldsSpine(s, dummy, d, sp.init))
  }

  predicate Open<K>(s: Store<K>, dummy: SplayNode<K>, p: Split<K>) {
    && Holds(s, p.t) && HoldsSpine(s, dummy, Right, p.low) && HoldsSpine(s, dummy, Left, p.high)
    && Distinct(p.t) && SpineDistinct(p.low) && SpineDistinct(p.high)
    && Nodes(p.t) !! SpineNodes(p.low) && Nodes(p.t) !! SpineNodes(p.high)
    && SpineNodes(p.low) !! SpineNodes(p.high)
    && dummy !in Nodes(p.t) && dummy !in SpineNodes(p.low) && dummy !in SpineNodes(p.high)
    && s.Keys == Nodes(p.t) + SpineNodes(p.low) + SpineNodes(p.high) + {dummy}
  }

  lemma {:induction false} Keep<K>(s: Store<K>, s': Store<K>, t: Shape<K>)
    requires Holds(s, t) && forall n :: n in Nodes(t) && n in s ==> n in s' && s'[n] == s[n]
    ensures Holds(s', t)
  {
    if t.Fork? {
      Keep(s, s', t.l);
      Keep(s, s', t.r);
    }
  }

  /** A spine stays when its nodes keep their cells; the last node and the dummy
      may change where the spine does not look. */
  lemma {:induction false} KeepSpine<K>(s: Store<K>, s': Store<K>, dummy: SplayNode<K>, d: Side, sp: Spine<K>)
    requires HoldsSpine(s, dummy, d, sp) && SpineDistinct(sp) && dummy !in SpineNodes(sp)
    requires forall n :: n in SpineNodes(sp) && n in s && n != Last(dummy, sp) ==> n in s' && s'[n] == s[n]
    requires sp.Snoc? && sp.n in s ==> sp.n in s' && s'[sp.n].Kid(d.Opp()) == s[sp.n].Kid(d.Opp())
    requires sp.Snoc? && dummy in s ==> dummy in s' && s'[dummy].Kid(d) == s[dummy].Kid(d)
    ensures HoldsSpine(s', dummy, d, sp)
  {
    if sp.Snoc? {
      Keep(s, s', sp.other);
      assert sp.init.Snoc? ==> sp.init.n in SpineNodes(sp.init);
      KeepSpine(s, s', dummy, d, sp.init);
    }
  }

  /** Closing a spine whose last node points to `t`. */
  lemma {:induction false} CloseHolds<K>(s: Store<K>, dummy: SplayNode<K>, d: Side, sp: Spine<K>, t: Shape<K>)
    requires HoldsSpine(s, dummy, d, sp) && Holds(s, t)
    requires Last(dummy, sp) in s && s[Last(dummy, sp)].Kid(d) == Root(t)
    ensures dummy in s && Holds(s, Close(d, sp, t)) && s[dummy].Kid(d) == Root(Close(d, sp, t))
    decreases sp
  {
    if sp.Snoc? {
      CloseHolds(s, dummy, d, sp.init, Mk(d, t, sp.n, sp.other));
    }
  }

  lemma {:induction false} CloseNodes<K>(d: Side, sp: Spine<K>, t: Shape<K>)
    requires SpineDistinct(sp) && Distinct(t) && SpineNodes(sp) !! Nodes(t)
    ensures Distinct(Close(d, sp, t)) && Nodes(Close(d, sp, t)) == SpineNodes(sp) + Nodes(t)
    decreases sp
  {
    if sp.Snoc? {
      CloseNodes(d, sp.init, Mk(d, t, sp.n, sp.other));
    }
  }

  // ----- the steps of a splay

  function SetKid<K>(s: Store<K>, n: SplayNode<K>, d: Side, k: SplayNode?<K>): Store<K>
    requires n in s
  {
    s[n := s[n].WithKid(d, k)]
  }

  function LastOf<K>(dummy: SplayNode<K>, p: Split<K>, d: Side): SplayNode<K> {
    Last(dummy, p.Spine(d))
  }

  lemma OpenKeys<K>(s: Store<K>, dummy: SplayNode<K>, p: Split<K>)
    requires Open(s, dummy, p)
    ensures dummy in s && LastOf(dummy, p, Left) in s && LastOf(dummy, p, Right) in s
    ensures p.t.Fork? ==> p.t.n in s && s[p.t.n] == Cell(Root(p.t.l), Root(p.t.r))
    ensures p.t.Fork? ==> p.t.n != dummy && p.t.n != LastOf(dummy, p, Left) && p.t.n != LastOf(dummy, p, Right)
    ensures forall d: Side :: p.t.Fork? && p.t.Kid(d).Fork? ==>
      p.t.Kid(d).n in s && s[p.t.Kid(d).n] == Cell(Root(p.t.Kid(d).l), Root(p.t.Kid(d).r))
  {
    assert p.low.Snoc? ==> p.low.n in SpineNodes(p.low);
    assert p.high.Snoc? ==> p.high.n in SpineNodes(p.high);
    if p.t.Fork? {
      assert Holds(s, p.t.l) && Holds(s, p.t.r);
    }
  }

  /** The stores written by a rotation. */
  function RaiseStore<K>(s: Store<K>, x: SplayNode<K>, y: SplayNode<K>, d: Side, b: SplayNode?<K>): Store<K>
    requires x in s && y in s
  {
    SetKid(SetKid(s, x, d, b), y, d.Opp(), x)
  }

  lemma RaiseHolds<K>(s: Store<K>, t: Shape<K>, d: Side)
    requires Holds(s, t) && Distinct(t) && t.Fork? && t.Kid(d).Fork?
    ensures t.n in s && t.Kid(d).n in s
    ensures var y := t.Kid(d);
      var t' := Mk(d, y.Kid(d), y.n, Mk(d, y.Kid(d.Opp()), t.n, t.Kid(d.Opp())));
      && Holds(RaiseStore(s, t.n, y.n, d, Root(y.Kid(d.Opp()))), t')
      && Distinct(t') && Nodes(t') == Nodes(t)
  {
    var y := t.Kid(d);
    assert Distinct(y) && Holds(s, y);
    var s' := RaiseStore(s, t.n, y.n, d, Root(y.Kid(d.Opp())));
    Keep(s, s', y.l);
    Keep(s, s', y.r);
    Keep(s, s', t.Kid(d.Opp()));
    var w := Mk(d, y.Kid(d.Opp()), t.n, t.Kid(d.Opp()));
    assert Holds(s', w) && Distinct(w);
  }

  /** The rotation: the `d` child of the root rises. */
  lemma RaiseOpen<K>(s: Store<K>, dummy: SplayNode<K>, p: Split<K>, d: Side)
    requires Open(s, dummy, p) && p.t.Fork? && p.t.Kid(d).Fork?
    ensures p.t.n in s && p.t.Kid(d).n in s
    ensures Open(RaiseStore(s, p.t.n, p.t.Kid(d).n, d, Root(p.t.Kid(d).Kid(d.Opp()))), dummy, p.Raise(d))
  {
    hide Holds, Distinct, HoldsSpine, SpineDistinct;
    RaiseHolds(s, p.t, d);
    var y := p.t.Kid(d);
    var s' := RaiseStore(s, p.t.n, y.n, d, Root(y.Kid(d.Opp())));
    assert {p.t.n, y.n} <= Nodes(p.t);
    RaiseSpine(s, s', dummy, Right, p.low, Nodes(p.t));
    RaiseSpine(s, s', dummy, Left, p.high, Nodes(p.t));
  }

  /** A spine stays when only nodes of another part are written. */
  lemma RaiseSpine<K>(s: Store<K>, s': Store<K>, dummy: SplayNode<K>, d: Side, sp: Spine<K>, part: set<SplayNode<K>>)
    requires HoldsSpine(s, dummy, d, sp) && SpineDistinct(sp) && dummy !in SpineNodes(sp)
    requires SpineNodes(sp) !! part && dummy !in part && s'.Keys == s.Keys
    requires forall n :: n in s && n !in part ==> s'[n] == s[n]
    ensures HoldsSpine(s', dummy, d, sp)
  {
    assert sp.Snoc? ==> sp.n in SpineNodes(sp);
    KeepSpine(s, s', dummy, d, sp);
  }

  /** Both spines stay when the open end of one of them is written. */
  lemma LinkSpines<K>(s: Store<K>, dummy: SplayNode<K>, p: Split<K>, d: Side, k: SplayNode?<K>)
    requires Open(s, dummy, p) && LastOf(dummy, p, d) in s
    ensures var s' := SetKid(s, LastOf(dummy, p, d), d, k);
      HoldsSpine(s', dummy, Right, p.low) && HoldsSpine(s', dummy, Left, p.high)
  {
    hide Holds, Distinct;
    var s' := SetKid(s, LastOf(dummy, p, d), d, k);
    assert p.low.Snoc? ==> p.low.n in SpineNodes(p.low);
    assert p.high.Snoc? ==> p.high.n in SpineNodes(p.high);
    KeepSpine(s, s', dummy, Right, p.low);
    KeepSpine(s, s', dummy, Left, p.high);
  }

  /** The subtree under search stays when the open end of a spine is written. */
  lemma LinkTree<K>(s: Store<K>, dummy: SplayNode<K>, p: Split<K>, d: Side, k: SplayNode?<K>)
    requires Open(s, dummy, p) && LastOf(dummy, p, d) in s
    ensures Holds(SetKid(s, LastOf(dummy, p, d), d, k), p.t)
  {
    hide Distinct, HoldsSpine, SpineDistinct;
    assert p.low.Snoc? ==> p.low.n in SpineNodes(p.low);
    assert p.high.Snoc? ==> p.high.n in SpineNodes(p.high);
    Keep(s, SetKid(s, LastOf(dummy, p, d), d, k), p.t);
  }

  /** The root goes to the end of the spine that is open on side `d`. */
  lemma LinkOpen<K>(s: Store<K>, dummy: SplayNode<K>, p: Split<K>, d: Side)
    requires Open(s, dummy, p) && p.t.Fork?
    ensures LastOf(dummy, p, d) in s
    ensures Open(SetKid(s, LastOf(dummy, p, d), d, p.t.n), dummy, p.Link(d))
    ensures LastOf(dummy, p.Link(d), d) == p.t.n && LastOf(dummy, p.Link(d), d.Opp()) == LastOf(dummy, p, d.Opp())
  {
    OpenKeys(s, dummy, p);
    LinkSpines(s, dummy, p, d, p.t.n);
    LinkTree(s, dummy, p, d, p.t.n);
  }

  lemma StartOpen<K>(s: Store<K>, t: Shape<K>, dummy: SplayNode<K>)
    requires Tree(s, t) && dummy !in s
    ensures Open(s[dummy := Cell(null, null)], dummy, Split(Nil, t, Nil))
  {
    Keep(s, s[dummy := Cell(null, null)], t);
  }

  /** The four writes that put the parts together again. */
  function JoinStore<K>(s: Store<K>, dummy: SplayNode<K>, p: Split<K>): Store<K>
    requires p.t.Fork? && p.t.n in s && dummy in s
    requires LastOf(dummy, p, Left) in s && LastOf(dummy, p, Right) in s
  {
    var s2 := EndsStore(s, dummy, p);
    SetKid(SetKid(s2, p.t.n, Left, s2[dummy].right), p.t.n, Right, s2[dummy].left)
  }

  function EndsStore<K>(s: Store<K>, dummy: SplayNode<K>, p: Split<K>): Store<K>
    requires p.t.Fork? && LastOf(dummy, p, Left) in s && LastOf(dummy, p, Right) in s
  {
    SetKid(SetKid(s, LastOf(dummy, p, Right), Right, Root(p.t.l)), LastOf(dummy, p, Left), Left, Root(p.t.r))
  }

  lemma EndsOpen<K>(s: Store<K>, dummy: SplayNode<K>, p: Split<K>, d: Side, k: SplayNode?<K>)
    requires Open(s, dummy, p)
    ensures LastOf(dummy, p, d) in s && Open(SetKid(s, LastOf(dummy, p, d), d, k), dummy, p)
  {
    OpenKeys(s, dummy, p);
    LinkSpines(s, dummy, p, d, k);
    LinkTree(s, dummy, p, d, k);
  }

  /** After both open ends are written, the dummy points to the two outer trees. */
  lemma EndsClosed<K>(s: Store<K>, dummy: SplayNode<K>, p: Split<K>)
    requires Open(s, dummy, p) && p.t.Fork?
    ensures LastOf(dummy, p, Left) in s && LastOf(dummy, p, Right) in s && dummy in s
    ensures var s2 := EndsStore(s, dummy, p);
      && s2.Keys == s.Keys
      && Holds(s2, p.Joined().l) && Root(p.Joined().l) == s2[dummy].right
      && Holds(s2, p.Joined().r) && Root(p.Joined().r) == s2[dummy].left
  {
    OpenKeys(s, dummy, p);
    EndsOpen(s, dummy, p, Right, Root(p.t.l));
    var s1 := SetKid(s, LastOf(dummy, p, Right), Right, Root(p.t.l));
    EndsOpen(s1, dummy, p, Left, Root(p.t.r));
    var s2 := EndsStore(s, dummy, p);
    EndsApart(dummy, p);
    CloseHolds(s2, dummy, Right, p.low, p.t.l);
    CloseHolds(s2, dummy, Left, p.high, p.t.r);
  }

  lemma EndsApart<K>(dummy: SplayNode<K>, p: Split<K>)
    requires SpineNodes(p.low) !! SpineNodes(p.high) && dummy !in SpineNodes(p.low) && dummy !in SpineNodes(p.high)
    ensures LastOf(dummy, p, Left) == LastOf(dummy, p, Right) ==> LastOf(dummy, p, Left) == dummy
  {
    assert p.low.Snoc? ==> p.low.n in SpineNodes(p.low);
    assert p.high.Snoc? ==> p.high.n in SpineNodes(p.high);
  }

  lemma JoinNodes<K>(s: Store<K>, dummy: SplayNode<K>, p: Split<K>)
    requires Open(s, dummy, p) && p.t.Fork?
    ensures Distinct(p.Joined()) && Nodes(p.Joined()) == s.Keys - {dummy}
  {
    hide Holds, HoldsSpine;
    CloseNodes(Right, p.low, p.t.l);
    CloseNodes(Left, p.high, p.t.r);
  }

  /** Assembling gives the joined tree; the dummy is no part of it. */
  lemma JoinTree<K>(s: Store<K>, dummy: SplayNode<K>, p: Split<K>)
    requires Open(s, dummy, p) && p.t.Fork?
    ensures p.t.n in s && dummy in s && LastOf(dummy, p, Left) in s && LastOf(dummy, p, Right) in s
    ensures Tree(JoinStore(s, dummy, p) - {dummy}, p.Joined())
    ensures Nodes(p.Joined()) == s.Keys - {dummy}
  {
    hide Open, EndsStore, Holds, Distinct, Close, Tree;
    OpenKeys(s, dummy, p);
    EndsClosed(s, dummy, p);
    JoinNodes(s, dummy, p);
    TreeOf(EndsStore(s, dummy, p), dummy, p.Joined().l, p.t.n, p.Joined().r);
  }

  lemma TreeOf<K>(s: Store<K>, dummy: SplayNode<K>, l: Shape<K>, n: SplayNode<K>, r: Shape<K>)
    requires Holds(s, l) && Holds(s, r) && n in s && Distinct(Fork(l, n, r)) && Nodes(Fork(l, n, r)) == s.Keys - {dummy}
    ensures Tree(SetKid(SetKid(s, n, Left, Root(l)), n, Right, Root(r)) - {dummy}, Fork(l, n, r))
  {
    var s1 := SetKid(SetKid(s, n, Left, Root(l)), n, Right, Root(r));
    SetBoth(s, n, Root(l), Root(r));
    hide SetKid;
    Keep(s, s1 - {dummy}, l);
    Keep(s, s1 - {dummy}, r);
  }

  lemma SetBoth<K>(s: Store<K>, n: SplayNode<K>, l: SplayNode?<K>, r: SplayNode?<K>)
    requires n in s
    ensures var s' := SetKid(SetKid(s, n, Left, l), n, Right, r);
      s'.Keys == s.Keys && s'[n] == Cell(l, r) && forall m :: m in s && m != n ==> s'[m] == s[m]
  {
  }

  // ----- inserting and removing at the root

  /** `e` becomes the root; the old root keeps only its subtree away from `d`. */
  function Grafted<K>(t: Shape<K>, e: SplayNode<K>, d: Side): Shape<K>
    requires t.Fork?
  {
    Mk(d, t.Kid(d), e, Mk(d, Leaf, t.n, t.Kid(d.Opp())))
  }

  lemma GraftTree<K>(s: Store<K>, t: Shape<K>, e: SplayNode<K>, d: Side)
    requires Tree(s, t) && t.Fork? && e !in s
    ensures t.n in s
    ensures Tree(SetKid(s[e := Cell(null, null).WithKid(d, Root(t.Kid(d))).WithKid(d.Opp(), t.n)], t.n, d, null),
                 Grafted(t, e, d))
  {
    var s' := SetKid(s[e := Cell(null, null).WithKid(d, Root(t.Kid(d))).WithKid(d.Opp(), t.n)], t.n, d, null);
    Keep(s, s', t.l);
    Keep(s, s', t.r);
    var w := Mk(d, Leaf, t.n, t.Kid(d.Opp()));
    assert Distinct<K>(Leaf) && Nodes<K>(Leaf) == {};
    assert Holds(s', w) && Distinct(w);
  }

  /** The cells of one subtree. */
  function Part<K>(s: Store<K>, t: Shape<K>): Store<K> {
    map n | n in s && n in Nodes(t) :: s[n]
  }

  lemma PartTree<K>(s: Store<K>, t: Shape<K>, d: Side)
    requires Tree(s, t) && t.Fork?
    ensures Tree(Part(s, t.Kid(d)), t.Kid(d))
  {
    Keep(s, Part(s, t.Kid(d)), t.Kid(d));
  }

  /** A tree without right subtree takes over the tree `r`. */
  lemma AdoptTree<K>(s: Store<K>, t: Shape<K>, s2: Store<K>, r: Shape<K>)
    requires Tree(s, t) && t.Fork? && t.r.Leaf? && Tree(s2, r) && s.Keys !! s2.Keys
    ensures t.n in s && Tree(SetKid(s, t.n, Right, Root(r)) + s2, t.(r := r))
  {
    var s' := SetKid(s, t.n, Right, Root(r)) + s2;
    Keep(s, s', t.l);
    Keep(s2, s', r);
  }
}
