/** What the colour conditions mean for whole search paths: the same number of
    black nodes on each of them, and a height of at most 2 lg (n + 1). */
module RbHeight {
  import opened Sides
  import opened RbNodes
  import opened RbShape
  import opened RbFixup
  import opened Powers

  /** Following `dirs` from the root ends exactly at a leaf position. */
  predicate LeadsToLeaf<K>(x: Shape<K>, dirs: seq<Side>) {
    if x.Leaf? then dirs == [] else dirs != [] && LeadsToLeaf(Kid(x, dirs[0]), dirs[1..])
  }

  function BlacksOn<K>(x: Shape<K>, dirs: seq<Side>): nat
    requires LeadsToLeaf(x, dirs)
  {
    if x.Leaf? then 0 else Count(x.c) + BlacksOn(Kid(x, dirs[0]), dirs[1..])
  }

  function LeftEdge<K>(x: Shape<K>): (dirs: seq<Side>)
    ensures LeadsToLeaf(x, dirs) && BlacksOn(x, dirs) == Height(x)
  {
    if x.Leaf? then [] else [Left] + LeftEdge(x.l)
  }

  ghost predicate EvenPaths<K>(x: Shape<K>) {
    forall dirs :: LeadsToLeaf(x, dirs) ==> BlacksOn(x, dirs) == Height(x)
  }

  lemma {:induction false} BalancedPaths<K>(x: Shape<K>, dirs: seq<Side>)
    requires Balanced(x) && LeadsToLeaf(x, dirs)
    ensures BlacksOn(x, dirs) == Height(x)
  {
    if x.Fork? {
      BalancedPaths(Kid(x, dirs[0]), dirs[1..]);
    }
  }

  /** Balanced means: all search paths have equally many black nodes. */
  lemma {:induction false} BlackCount<K>(x: Shape<K>)
    ensures Balanced(x) <==> EvenPaths(x)
  {
    if Balanced(x) {
      forall dirs | LeadsToLeaf(x, dirs)
        ensures BlacksOn(x, dirs) == Height(x)
      {
        BalancedPaths(x, dirs);
      }
    } else if EvenPaths(x) {
      OnSide(x, Left);
      OnSide(x, Right);
      BlackCount(x.l);
      BlackCount(x.r);
    }
  }

  /** If all paths of a tree agree, so do all paths of its child. */
  lemma OnSide<K>(x: Shape<K>, d: Side)
    requires x.Fork? && EvenPaths(x)
    ensures Height(Kid(x, d)) == Height(x.l) && EvenPaths(Kid(x, d))
  {
    forall dirs | LeadsToLeaf(Kid(x, d), dirs)
      ensures BlacksOn(Kid(x, d), dirs) == Height(x.l)
    {
      var long := [d] + dirs;
      assert long[1..] == dirs;
      assert LeadsToLeaf(x, long);
    }
    var edge := LeftEdge(Kid(x, d));
    assert BlacksOn(Kid(x, d), edge) == Height(x.l);
  }

  /** The number of nodes on the longest search path. */
  function Tall<K>(x: Shape<K>): nat {
    if x.Leaf? then 0 else 1 + if Tall(x.l) > Tall(x.r) then Tall(x.l) else Tall(x.r)
  }

  lemma {:induction false} TallIsLongest<K>(x: Shape<K>, dirs: seq<Side>)
    requires LeadsToLeaf(x, dirs)
    ensures |dirs| <= Tall(x)
  {
    if x.Fork? {
      TallIsLongest(Kid(x, dirs[0]), dirs[1..]);
    }
  }

  lemma SquareMono(a: nat, b: nat)
    requires a <= b
    ensures a * a <= b * b
  {
    assert a * a <= a * b <= b * b;
  }

  /** At most every other node on a path is red. */
  lemma {:induction false} TallBound<K>(x: Shape<K>)
    requires Balanced(x) && NoRedRed(x)
    ensures Tall(x) <= 2 * Height(x) + if IsRed(x) then 1 else 0
  {
    if x.Fork? {
      TallBound(x.l);
      TallBound(x.r);
    }
  }

  /** The black nodes alone make a full tree. */
  lemma {:induction false} SizeBound<K>(x: Shape<K>)
    requires Balanced(x)
    ensures |InOrder(x)| + 1 >= Pow2(Height(x))
  {
    if x.Fork? {
      SizeBound(x.l);
      SizeBound(x.r);
    }
  }

  /** Height at most 2 lg (n + 1): two to the height is at most (n + 1) squared. */
  lemma HeightBound<K>(x: Shape<K>)
    requires RedBlack(x)
    ensures Pow2(Tall(x)) <= (|InOrder(x)| + 1) * (|InOrder(x)| + 1)
    ensures forall dirs :: LeadsToLeaf(x, dirs) ==> |dirs| <= Tall(x)
  {
    var h, n := Height(x), |InOrder(x)| + 1;
    TallBound(x);
    SizeBound(x);
    Pow2Mono(Tall(x), h + h);
    Pow2Add(h, h);
    SquareMono(Pow2(h), n);
    forall dirs | LeadsToLeaf(x, dirs)
      ensures |dirs| <= Tall(x)
    {
      TallIsLongest(x, dirs);
    }
  }
}
