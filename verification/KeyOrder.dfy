/** Comparison functions and sequences of elements in ascending key order. The
    elements are of any type; `keys` says which key each of them has. */
module KeyOrder {

  /** A comparison function is a total preorder: the sign tells the order. */
  ghost predicate Ordering<K(!new)>(cmp: (K, K) -> int) {
    && (forall a, b :: cmp(a, b) <= 0 <==> cmp(b, a) >= 0)
    && (forall a, b, c :: cmp(a, b) <= 0 && cmp(b, c) <= 0 ==> cmp(a, c) <= 0)
  }

  /** The elements of `s` have keys, in strictly ascending order. */
  ghost predicate Ascending<N, K>(cmp: (K, K) -> int, keys: map<N, K>, s: seq<N>) {
    && (forall i :: 0 <= i < |s| ==> s[i] in keys)
    && (forall i, j :: 0 <= i < j < |s| ==> cmp(keys[s[i]], keys[s[j]]) < 0)
  }

  /** `lo..hi` is where elements equal to `k` can be. */
  ghost predicate Between<N, K>(cmp: (K, K) -> int, keys: map<N, K>, s: seq<N>, k: K, lo: int, hi: int) {
    && 0 <= lo <= hi <= |s|
    && (forall i :: 0 <= i < lo ==> s[i] in keys && cmp(keys[s[i]], k) < 0)
    && (forall i :: hi <= i < |s| ==> s[i] in keys && cmp(k, keys[s[i]]) < 0)
  }

  lemma Narrow<N, K(!new)>(cmp: (K, K) -> int, keys: map<N, K>, s: seq<N>, k: K, lo: int, hi: int, i: int)
    requires Ordering(cmp) && Ascending(cmp, keys, s) && Between(cmp, keys, s, k, lo, hi) && lo <= i < hi
    ensures cmp(k, keys[s[i]]) < 0 ==> Between(cmp, keys, s, k, lo, i)
    ensures cmp(k, keys[s[i]]) > 0 ==> Between(cmp, keys, s, k, i + 1, hi)
    ensures cmp(k, keys[s[i]]) == 0 ==> Between(cmp, keys, s, k, i, i + 1)
  {
    forall j | i < j < |s| && cmp(k, keys[s[i]]) <= 0
      ensures cmp(k, keys[s[j]]) < 0
    {
      assert cmp(keys[s[i]], keys[s[j]]) < 0;
    }
    forall j | 0 <= j < i && cmp(k, keys[s[i]]) >= 0
      ensures cmp(keys[s[j]], k) < 0
    {
      assert cmp(keys[s[j]], keys[s[i]]) < 0;
    }
  }

  lemma Sign<K(!new)>(cmp: (K, K) -> int, a: K, b: K)
    requires Ordering(cmp)
    ensures cmp(a, b) <= 0 <==> cmp(b, a) >= 0
  {
  }

  lemma AscendingInsert<N, K(!new)>(cmp: (K, K) -> int, keys: map<N, K>, s: seq<N>, e: N, k: K, i: nat)
    requires Ordering(cmp) && Ascending(cmp, keys, s) && Between(cmp, keys, s, k, i, i)
    requires e in s ==> keys[e] == k
    ensures e !in s && Ascending(cmp, keys[e := k], s[..i] + [e] + s[i..])
  {
    hide Ordering, Ascending, Between;
    AllKeys(cmp, keys, s);
    NotAmong(cmp, keys, s, e, k, i);
    var s', keys' := s[..i] + [e] + s[i..], keys[e := k];
    forall j, l | 0 <= j < l < |s'|
      ensures s'[j] in keys' && s'[l] in keys' && cmp(keys'[s'[j]], keys'[s'[l]]) < 0
    {
      InsertPair(cmp, keys, s, k, i, j, l);
      InsertedKey(keys, s, e, k, i, j);
      InsertedKey(keys, s, e, k, i, l);
    }
    AscendingFrom(cmp, keys', s');
  }

  /** Element and key at index `j` of a sequence that has got `e` at index `i`. */
  lemma InsertedKey<N, K>(keys: map<N, K>, s: seq<N>, e: N, k: K, i: nat, j: nat)
    requires i <= |s| && j <= |s| && e !in s && forall n :: n in s ==> n in keys
    ensures var n := (s[..i] + [e] + s[i..])[j];
      && n in keys[e := k]
      && keys[e := k][n] == if j < i then keys[s[j]] else if j == i then k else keys[s[j - 1]]
  {
    var n := (s[..i] + [e] + s[i..])[j];
    assert n == if j < i then s[j] else if j == i then e else s[j - 1];
  }

  lemma NotAmong<N, K(!new)>(cmp: (K, K) -> int, keys: map<N, K>, s: seq<N>, e: N, k: K, i: nat)
    requires Ordering(cmp) && Between(cmp, keys, s, k, i, i) && (e in s ==> e in keys && keys[e] == k)
    ensures e !in s && i <= |s|
  {
    assert cmp(k, k) == 0;
  }

  lemma AllKeys<N, K>(cmp: (K, K) -> int, keys: map<N, K>, s: seq<N>)
    requires Ascending(cmp, keys, s)
    ensures forall n :: n in s ==> n in keys
  {
  }

  lemma AscendingFrom<N, K>(cmp: (K, K) -> int, keys: map<N, K>, s: seq<N>)
    requires forall n :: n in s ==> n in keys
    requires forall j, l :: 0 <= j < l < |s| ==> cmp(keys[s[j]], keys[s[l]]) < 0
    ensures Ascending(cmp, keys, s)
  {
  }

  /** Two places in a sequence that has got `k` at index `i`. */
  lemma InsertPair<N, K>(cmp: (K, K) -> int, keys: map<N, K>, s: seq<N>, k: K, i: nat, j: nat, l: nat)
    requires Ascending(cmp, keys, s) && Between(cmp, keys, s, k, i, i) && j < l <= |s|
    ensures j < i && l < i ==> cmp(keys[s[j]], keys[s[l]]) < 0
    ensures j < i && l == i ==> cmp(keys[s[j]], k) < 0
    ensures j < i && l > i ==> cmp(keys[s[j]], keys[s[l - 1]]) < 0
    ensures j == i ==> cmp(k, keys[s[l - 1]]) < 0
    ensures j > i ==> cmp(keys[s[j - 1]], keys[s[l - 1]]) < 0
  {
  }

  lemma AscendingRemove<N, K>(cmp: (K, K) -> int, keys: map<N, K>, s: seq<N>, i: nat)
    requires i < |s| && Ascending(cmp, keys, s)
    ensures Ascending(cmp, keys, s[..i] + s[i + 1..])
  {
    var s' := s[..i] + s[i + 1..];
    assert forall j :: 0 <= j < |s'| ==> s'[j] == if j < i then s[j] else s[j + 1];
  }

  /** A search that ended between two elements: none of them is equal to `k`. */
  lemma Nowhere<N, K(!new)>(cmp: (K, K) -> int, keys: map<N, K>, s: seq<N>, k: K, i: nat)
    requires Ordering(cmp) && Between(cmp, keys, s, k, i, i)
    ensures forall n :: n in s ==> n in keys && cmp(k, keys[n]) != 0
  {
  }

  /** With all below `i` below `k`, element `i` is the least that is not below `k`. */
  lemma LeastFrom<N, K(!new)>(cmp: (K, K) -> int, keys: map<N, K>, s: seq<N>, k: K, i: nat)
    requires Ordering(cmp) && Ascending(cmp, keys, s) && i <= |s|
    requires forall j :: 0 <= j < i ==> cmp(keys[s[j]], k) < 0
    ensures forall n :: n in s ==> n in keys && (cmp(keys[n], k) >= 0 ==> i < |s| && cmp(keys[s[i]], keys[n]) <= 0)
  {
    forall n | n in s
      ensures n in keys && (cmp(keys[n], k) >= 0 ==> i < |s| && cmp(keys[s[i]], keys[n]) <= 0)
    {
      var j :| 0 <= j < |s| && s[j] == n;
      if i < j {
        assert cmp(keys[s[i]], keys[s[j]]) < 0;
      }
    }
  }
}
