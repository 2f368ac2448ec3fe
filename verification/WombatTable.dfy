/** The chained hash table of wtable.c, for any hash function. */
module WombatTable {
  import opened Chains
  import opened Options
  import opened Powers
  import opened TableRows

  class Table<D(0)> {
    const hash: string -> nat
    const buckets: array<Bucket?<D>>
    var count: nat
    ghost var rows: seq<Row<D>>
    ghost var next: map<Bucket?<D>, Bucket?<D>>
    ghost var data: map<Bucket?<D>, D>
    /** The bindings that the table stands for. */
    ghost var bindings: map<string, D>

    ghost predicate Faithful()
      reads `next, `data, next.Keys
    {
      && data.Keys == next.Keys
      && forall b :: b in next ==> b != null && b.next == next[b] && b.data == data[b]
    }

    ghost predicate Valid()
      reads this, buckets, next.Keys
    {
      && Faithful() && Chained(next, buckets[..], rows) && Rows(hash, rows)
      && Represents(hash, rows, data, bindings) && count == Total(rows) == |bindings|
    }

    /** An empty table with `size` buckets. */
    constructor (hash: string -> nat, size: nat)
      requires size > 0
      ensures Valid() && bindings == map[] && count == 0 && this.hash == hash && buckets.Length == size
      ensures fresh(buckets) && next.Keys == {}
    {
      this.hash := hash;
      buckets := new Bucket?<D>[size](_ => null);
      count := 0;
      next, data, bindings := map[], map[], map[];
      rows := seq(size, _ => []);
      new;
      EmptyTotal(rows);
    }

    /** The bucket of a key in its chain, or null. `j` is its position. */
    method Search(key: string) returns (b: Bucket?<D>, ghost j: nat)
      requires Valid()
      ensures var row := rows[Slot(hash, |rows|, key)];
        && j == Position(row, key) && (b == null <==> j == |row|) && (j < |row| ==> b == row[j])
        && (b != null ==> b in row && b.key == key) && (b == null ==> forall n :: n in row ==> n.key != key)
    {
      ghost var row := rows[Slot(hash, |rows|, key)];
      b := buckets[Slot(hash, buckets.Length, key)];
      j := 0;
      while b != null
        invariant j <= |row| && b == From<Bucket?<D>>(row, j, null)
        invariant forall i :: 0 <= i < j ==> row[i].key != key
        decreases |row| - j
      {
        if key == b.key {
          return;
        }
        b := b.next;
        j := j + 1;
      }
    }

    method Lookup(key: string) returns (r: Option<D>)
      requires Valid()
      ensures r == if key in bindings then Some(bindings[key]) else None
    {
      assert Represented(rows[Slot(hash, |rows|, key)], data, bindings, key);
      var b, _ := Search(key);
      r := if b == null then None else Some(b.data);
    }

    /** Returns 1 for a new key and 0 when the data of a key is replaced. */
    method Insert(key: string, d: D) returns (r: int)
      requires Valid()
      modifies this, buckets, next.Keys
      ensures Valid() && bindings == old(bindings)[key := d]
      ensures r == if key in old(bindings) then 0 else 1
      ensures count == old(count) + r && fresh(next.Keys - old(next.Keys))
    {
      hide Rows, Represents, Chained, Represented;
      Sizes();
      BoundIff(key);
      var b, j := Search(key);
      if b != null {
        Replace(b, d, j);
        return 0;
      }
      Push(key, d);
      return 1;
    }

    lemma Sizes()
      requires Valid()
      ensures |rows| == buckets.Length > 0
    {
    }

    lemma BoundIff(key: string)
      requires Valid()
      ensures |rows| == buckets.Length > 0 && (key in bindings <==> Has(rows[Slot(hash, |rows|, key)], key))
    {
      assert Represented(rows[Slot(hash, |rows|, key)], data, bindings, key);
    }

    method Replace(b: Bucket<D>, d: D, ghost j: nat)
      requires Valid() && |rows| > 0
      requires var row := rows[Slot(hash, |rows|, b.key)]; Has(row, b.key) && j == Position(row, b.key) && row[j] == b
      modifies `data, `bindings, next.Keys
      ensures Valid() && b.key in old(bindings) && bindings == old(bindings)[b.key := d]
    {
      hide Rows, Represents, Chained, Represented, Position;
      UpdateRepresents(hash, rows, data, bindings, b, d);
      ChainedIn(next, buckets[..], rows, Slot(hash, |rows|, b.key), j);
      b.data := d;
      data := data[b := d];
      assert bindings[b.key := d].Keys == bindings.Keys;
      bindings := bindings[b.key := d];
    }

    method Push(key: string, d: D)
      requires Valid() && key !in bindings
      modifies this, buckets
      ensures Valid() && bindings == old(bindings)[key := d] && count == old(count) + 1
      ensures fresh(next.Keys - old(next.Keys))
    {
      hide Rows, Represents, Chained, Represented, Total, Slot, Faithful;
      Sizes();
      var h := Slot(hash, buckets.Length, key);
      var b := new Bucket(key, d, buckets[h]);
      NotYet(b);
      InsertRepresents(hash, rows, data, bindings, b, d);
      ChainedPush(next, buckets[..], rows, h, b);
      TotalUpdate(rows, h, [b] + rows[h]);
      assert bindings[key := d].Keys == bindings.Keys + {key};
      LinkFirst(b, h);
      bindings := bindings[key := d];
      count := count + 1;
    }

    lemma NotYet(b: Bucket<D>)
      requires Faithful()
      ensures b in data <==> b in next
    {
    }

    method LinkFirst(b: Bucket<D>, h: nat)
      requires Faithful() && h < buckets.Length == |rows| && b !in next && b.next == buckets[h]
      modifies `next, `data, `rows, buckets
      ensures Faithful() && next == old(next)[b := old(buckets[h])] && data == old(data)[b := b.data]
      ensures rows == old(rows)[h := [b] + old(rows)[h]] && buckets[..] == old(buckets[..])[h := b]
    {
      next, data := next[b := buckets[h]], data[b := b.data];
      rows := rows[h := [b] + rows[h]];
      buckets[h] := b;
    }

    /** Follows row `h` to the bucket with `key`, keeping the one before it. */
    method Walk(key: string, h: nat) returns (b0: Bucket?<D>, b: Bucket?<D>, ghost j: nat)
      requires Valid() && h < buckets.Length
      ensures j <= |rows[h]| && b == From<Bucket?<D>>(rows[h], j, null)
      ensures b0 == if j == 0 then null else rows[h][j - 1]
      ensures forall i :: 0 <= i < j ==> rows[h][i].key != key
      ensures b != null ==> b.key == key
    {
      hide Rows, Represents, Chained, Represented, Total;
      j := 0;
      b0, b := null, buckets[h];
      FirstIn(h);
      while b != null && key != b.key
        invariant Valid() && j <= |rows[h]| && b == From<Bucket?<D>>(rows[h], j, null)
        invariant b0 == if j == 0 then null else rows[h][j - 1]
        invariant forall i :: 0 <= i < j ==> rows[h][i].key != key
        modifies {}
        decreases |rows[h]| - j
      {
        ChainedIn(next, buckets[..], rows, h, j);
        b0 := b;
        b := b.next;
        j := j + 1;
      }
    }

    method Remove(key: string) returns (r: Option<D>)
      requires Valid()
      modifies this, buckets, next.Keys
      ensures Valid() && bindings == old(bindings) - {key}
      ensures r == if key in old(bindings) then Some(old(bindings)[key]) else None
      ensures count == old(count) - (if key in old(bindings) then 1 else 0) && next.Keys == old(next.Keys)
    {
      hide Rows, Represents, Chained, Represented, Total;
      BoundIff(key);
      var h := Slot(hash, buckets.Length, key);
      var b0, b, j := Walk(key, h);
      if b == null {
        return None;
      }
      r := Unlink(b0, b, h, j);
    }

    lemma FirstIn(h: nat)
      requires Valid() && h < buckets.Length
      ensures |rows| == buckets.Length && buckets[h] == From<Bucket?<D>>(rows[h], 0, null)
    {
      assert Stack(next, buckets[..][h], null, rows[h]);
    }

    method Unlink(b0: Bucket?<D>, b: Bucket<D>, h: nat, ghost j: nat) returns (r: Option<D>)
      requires Valid() && h < buckets.Length == |rows| && j < |rows[h]| && rows[h][j] == b
      requires b0 == if j == 0 then null else rows[h][j - 1]
      modifies this, buckets, next.Keys
      ensures Valid() && b.key in old(bindings) && bindings == old(bindings) - {b.key} && count == old(count) - 1
      ensures r == Some(old(bindings)[b.key]) && next.Keys == old(next.Keys)
    {
      hide Rows, Represents, Chained, Represented, Total, Removed, Faithful;
      BoundAt(h, j);
      TotalUpdate(rows, h, Removed(rows[h], j));
      RemovedFrom(rows[h], j);
      RemoveRepresents(hash, rows, data, bindings, h, j);
      assert (bindings - {b.key}).Keys == bindings.Keys - {b.key};
      r := Some(b.data);
      Bypass(b0, b, h, j);
      bindings := bindings - {b.key};
      count := count - 1;
    }

    method Bypass(b0: Bucket?<D>, b: Bucket<D>, h: nat, ghost j: nat)
      requires Faithful() && Chained(next, buckets[..], rows) && Rows(hash, rows)
      requires h < buckets.Length == |rows| && j < |rows[h]| && rows[h][j] == b
      requires b0 == if j == 0 then null else rows[h][j - 1]
      modifies `next, `rows, buckets, next.Keys
      ensures Faithful() && rows == old(rows)[h := Removed(old(rows)[h], j)] && Chained(next, buckets[..], rows)
      ensures next.Keys == old(next.Keys)
    {
      hide Rows, Chained, Removed;
      ChainedIn(next, buckets[..], rows, h, j);
      if b0 != null {
        ChainedUnlink(hash, next, buckets[..], rows, h, j);
        ChainedIn(next, buckets[..], rows, h, j - 1);
        b0.next := b.next;
        next := next[b0 := b.next];
      } else {
        ChainedPop(next, buckets[..], rows, h);
        buckets[h] := b.next;
        assert buckets[..] == old(buckets[..])[h := b.next];
      }
      rows := rows[h := Removed(rows[h], j)];
    }

    lemma BoundAt(h: nat, j: nat)
      requires Valid() && h < |rows| && j < |rows[h]|
      ensures var b := rows[h][j];
        && b.key in bindings && bindings[b.key] == b.data
        && b in next && Slot(hash, |rows|, b.key) == h
    {
      var b := rows[h][j];
      assert RowKeys(hash, |rows|, h, rows[h]);
      assert Represented(rows[h], data, bindings, b.key);
      PositionUnique(rows[h], j);
      ChainedIn(next, buckets[..], rows, h, j);
    }

    method GetCount() returns (n: nat)
      requires Valid()
      ensures n == |bindings|
    {
      n := count;
    }

    /** Frees every chain, counting down bucket by bucket. */
    method Clear()
      requires Valid()
      modifies this, buckets
      ensures Valid() && bindings == map[] && count == 0 && next.Keys == {}
    {
      hide Rows, Represents, Chained;
      Sizes();
      ghost var was := buckets[..];
      var i := 0;
      assert rows[0..] == rows;
      while i < buckets.Length
        invariant 0 <= i <= buckets.Length && rows == old(rows) && next == old(next) && count == Total(rows[i..])
        invariant forall h :: 0 <= h < i ==> buckets[h] == null
        invariant forall h :: i <= h < buckets.Length ==> buckets[h] == was[h]
        modifies `count, buckets
      {
        CountDown(i, was);
        assert rows[i..][1..] == rows[i + 1..];
        buckets[i] := null;
        i := i + 1;
      }
      ClearedRows(buckets.Length);
    }

    method CountDown(i: nat, ghost was: seq<Bucket?<D>>)
      requires i < buckets.Length == |rows| == |was| && Faithful() && Chained(next, was, rows)
      requires buckets[i] == was[i] && count >= |rows[i]|
      modifies `count
      ensures count == old(count) - |rows[i]|
    {
      assert Stack(next, was[i], null, rows[i]);
      hide Chained;
      var b := buckets[i];
      ghost var j := 0;
      while b != null
        invariant Faithful() && j <= |rows[i]| && b == From<Bucket?<D>>(rows[i], j, null) && count == old(count) - j
        decreases |rows[i]| - j
      {
        ChainedIn(next, was, rows, i, j);
        b := b.next;
        count := count - 1;
        j := j + 1;
      }
    }

    ghost method ClearedRows(size: nat)
      requires size == buckets.Length > 0 && count == 0 && forall h :: 0 <= h < size ==> buckets[h] == null
      modifies `rows, `next, `data, `bindings
      ensures Valid() && bindings == map[] && next.Keys == {}
    {
      next, data, bindings := map[], map[], map[];
      rows := seq(size, _ => []);
      EmptyTotal(rows);
    }

    /** Calls back for every bucket, in table order; `visited` are the calls' arguments. */
    method ForEach() returns (visited: seq<(string, D)>)
      requires Valid()
      ensures forall n :: 0 <= n < |visited| ==> visited[n].0 in bindings && bindings[visited[n].0] == visited[n].1
      ensures forall n, n' :: 0 <= n < n' < |visited| ==> visited[n].0 != visited[n'].0
      ensures forall key :: key in bindings ==> exists n :: 0 <= n < |visited| && visited[n].0 == key
    {
      hide Rows, Represents, Chained, Position;
      Sizes();
      visited := [];
      var i := 0;
      while i < buckets.Length
        invariant 0 <= i <= buckets.Length && Valid() && Swept(hash, rows, bindings, visited, i, 0)
      {
        FirstIn(i);
        var b := buckets[i];
        ghost var j := 0;
        while b != null
          invariant Valid() && j <= |rows[i]| && b == From<Bucket?<D>>(rows[i], j, null)
          invariant Swept(hash, rows, bindings, visited, i, j)
          decreases |rows[i]| - j
        {
          ChainedIn(next, buckets[..], rows, i, j);
          BoundAt(i, j);
          SweepOne(hash, rows, bindings, visited, i, j);
          visited := visited + [(b.key, b.data)];
          b := b.next;
          j := j + 1;
        }
        SweepRow(hash, rows, bindings, data, visited, i);
        i := i + 1;
      }
      SweptAll(hash, rows, bindings, visited);
    }
  }

  // ----- runs

  /** A call of the table. */
  datatype Call<D> = Put(key: string, d: D) | Get(key: string) | Drop(key: string) | Empty | Size

  /** What a call returns: a number, or data if there is any. */
  datatype Reply<D> = Number(n: int) | Data(d: Option<D>) | Nothing

  /** What the call does to a map. */
  function After<D>(m: map<string, D>, call: Call<D>): map<string, D> {
    match call
    case Put(key, d) => m[key := d]
    case Get(_) => m
    case Drop(key) => m - {key}
    case Empty => map[]
    case Size => m
  }

  /** What the call returns of a map. */
  function Answer<D>(m: map<string, D>, call: Call<D>): Reply<D> {
    match call
    case Put(key, _) => Number(if key in m then 0 else 1)
    case Get(key) => Data(if key in m then Some(m[key]) else None)
    case Drop(key) => Data(if key in m then Some(m[key]) else None)
    case Empty => Nothing
    case Size => Number(|m|)
  }

  function AfterAll<D>(m: map<string, D>, calls: seq<Call<D>>): map<string, D> {
    if calls == [] then m else After(AfterAll(m, calls[..|calls| - 1]), calls[|calls| - 1])
  }

  method Perform<D(0)>(t: Table<D>, call: Call<D>) returns (r: Reply<D>)
    requires t.Valid()
    modifies t, t.buckets, t.next.Keys
    ensures t.Valid() && t.bindings == After(old(t.bindings), call) && r == Answer(old(t.bindings), call)
    ensures fresh(t.next.Keys - old(t.next.Keys))
  {
    hide Table.Valid;
    match call
    case Put(key, d) =>
      var n := t.Insert(key, d);
      r := Number(n);
    case Get(key) =>
      var d := t.Lookup(key);
      r := Data(d);
    case Drop(key) =>
      var d := t.Remove(key);
      r := Data(d);
    case Empty =>
      t.Clear();
      r := Nothing;
    case Size =>
      var n := t.GetCount();
      r := Number(n);
  }

  /** Over any run of calls, with any hash function and any number of buckets, a
      new table answers as a map does. */
  method RunCalls<D(0)>(hash: string -> nat, size: nat, calls: seq<Call<D>>)
    returns (t: Table<D>, replies: seq<Reply<D>>)
    requires size > 0
    ensures fresh(t) && t.Valid() && t.bindings == AfterAll(map[], calls) && |replies| == |calls|
    ensures forall k :: 0 <= k < |calls| ==> replies[k] == Answer(AfterAll(map[], calls[..k]), calls[k])
  {
    hide Table.Valid, After, Answer, Answered, AfterAll;
    t := new Table<D>(hash, size);
    replies := [];
    NoCalls(calls);
    while |replies| < |calls|
      invariant |replies| <= |calls| && t.Valid() && fresh(t) && fresh(t.buckets) && fresh(t.next.Keys)
      invariant t.bindings == AfterAll(map[], calls[..|replies|]) && Answered(calls, replies)
    {
      NextCall(calls, replies);
      var r := Perform(t, calls[|replies|]);
      replies := replies + [r];
    }
    AllAnswered(calls, replies);
  }

  /** So far the calls have been answered as by a map. */
  ghost predicate Answered<D>(calls: seq<Call<D>>, replies: seq<Reply<D>>) {
    && |replies| <= |calls|
    && forall k :: 0 <= k < |replies| ==> replies[k] == Answer(AfterAll(map[], calls[..k]), calls[k])
  }

  lemma NoCalls<D>(calls: seq<Call<D>>)
    ensures Answered(calls, []) && AfterAll(map[], calls[..0]) == map[]
  {
  }

  lemma NextCall<D>(calls: seq<Call<D>>, replies: seq<Reply<D>>)
    requires Answered(calls, replies) && |replies| < |calls|
    ensures var n := |replies|; var m := AfterAll(map[], calls[..n]);
      && AfterAll(map[], calls[..n + 1]) == After(m, calls[n])
      && Answered(calls, replies + [Answer(m, calls[n])])
  {
    hide After, Answer;
    var n := |replies|;
    assert calls[..n + 1][..n] == calls[..n];
  }

  lemma AllAnswered<D>(calls: seq<Call<D>>, replies: seq<Reply<D>>)
    requires Answered(calls, replies) && |replies| == |calls|
    ensures forall k :: 0 <= k < |calls| ==> replies[k] == Answer(AfterAll(map[], calls[..k]), calls[k])
    ensures calls[..|replies|] == calls
  {
  }

  // ----- sweeping over all bindings

  /** The sweep has come to position `j` of row `i`. */
  ghost predicate Passed<D>(hash: string -> nat, rows: seq<Row<D>>, key: string, i: nat, j: nat)
    requires |rows| > 0
  {
    var h := Slot(hash, |rows|, key); h < i || (h == i && Position(rows[h], key) < j)
  }

  ghost predicate Called<D>(visited: seq<(string, D)>, key: string) {
    exists n :: 0 <= n < |visited| && visited[n].0 == key
  }

  ghost predicate Swept<D>(hash: string -> nat, rows: seq<Row<D>>, m: map<string, D>, visited: seq<(string, D)>,
      i: nat, j: nat)
    requires |rows| > 0
  {
    && (forall n :: 0 <= n < |visited| ==> visited[n].0 in m && m[visited[n].0] == visited[n].1)
    && (forall n, n' :: 0 <= n < n' < |visited| ==> visited[n].0 != visited[n'].0)
    && (forall key :: key in m ==> (Called(visited, key) <==> Passed(hash, rows, key, i, j)))
  }

  lemma SweepOne<D>(hash: string -> nat, rows: seq<Row<D>>, m: map<string, D>, visited: seq<(string, D)>, i: nat,
      j: nat)
    requires Rows(hash, rows) && i < |rows| && j < |rows[i]| && rows[i][j].key in m
    requires Swept(hash, rows, m, visited, i, j)
    ensures var key := rows[i][j].key; Swept(hash, rows, m, visited + [(key, m[key])], i, j + 1)
  {
    var b := rows[i][j];
    var visited' := visited + [(b.key, m[b.key])];
    assert RowKeys(hash, |rows|, i, rows[i]);
    PositionUnique(rows[i], j);
    assert !Called(visited, b.key);
    forall key | key in m
      ensures Called(visited', key) <==> Passed(hash, rows, key, i, j + 1)
    {
      assert Called(visited, key) <==> Passed(hash, rows, key, i, j);
      assert forall n :: 0 <= n < |visited| ==> visited'[n] == visited[n];
      assert visited'[|visited|].0 == b.key;
    }
  }

  lemma SweepRow<D>(hash: string -> nat, rows: seq<Row<D>>, m: map<string, D>, data: map<Bucket?<D>, D>,
      visited: seq<(string, D)>, i: nat)
    requires i < |rows| && Represents(hash, rows, data, m) && Swept(hash, rows, m, visited, i, |rows[i]|)
    ensures Swept(hash, rows, m, visited, i + 1, 0)
  {
    forall key | key in m
      ensures Called(visited, key) <==> Passed(hash, rows, key, i + 1, 0)
    {
      assert Represented(rows[Slot(hash, |rows|, key)], data, m, key);
      assert Called(visited, key) <==> Passed(hash, rows, key, i, |rows[i]|);
    }
  }

  lemma SweptAll<D>(hash: string -> nat, rows: seq<Row<D>>, m: map<string, D>, visited: seq<(string, D)>)
    requires |rows| > 0 && Swept(hash, rows, m, visited, |rows|, 0)
    ensures forall key :: key in m ==> Called(visited, key)
  {
    forall key | key in m
      ensures Called(visited, key)
    {
      assert Passed(hash, rows, key, |rows|, 0);
    }
  }

  // ----- sizing

  /** What the search is for: ten times the asked size, in words of `width` bits. */
  function Wanted(size: nat, width: nat): (n: nat)
    ensures n < Pow2(width)
  {
    10 * size % Pow2(width)
  }

  /** Number of bits for a table of about `size` entries: the smallest power of
      two, from 2 on, that reaches what is wanted. When none in the word does,
      the search has no end, and `found` is false. */
  method TableBits(size: nat, width: nat) returns (found: bool, bits: nat, tsize: nat)
    requires width >= 2
    ensures 1 <= bits < width && tsize == Pow2(bits)
    ensures found <==> tsize >= Wanted(size, width)
    ensures found <==> Wanted(size, width) <= Pow2(width - 1)
    ensures forall n :: 1 <= n < bits ==> Pow2(n) < Wanted(size, width)
    ensures found && tsize >= 10 * size <==> 10 * size <= Pow2(width - 1)
  {
    var want := Wanted(size, width);
    bits, tsize := 1, Pow2(1);
    while tsize < want && bits < width - 1
      invariant 1 <= bits < width && tsize == Pow2(bits)
      invariant forall n :: 1 <= n < bits ==> Pow2(n) < want
      decreases width - bits
    {
      bits := bits + 1;
      tsize := Pow2(bits);
    }
    found := tsize >= want;
    Pow2Mono(bits, width - 1);
    WantedExact(size, width);
  }

  lemma WantedExact(size: nat, width: nat)
    requires width >= 1
    ensures 10 * size <= Pow2(width - 1) ==> Wanted(size, width) == 10 * size
  {
    assert Pow2(width) == 2 * Pow2(width - 1);
    if 10 * size <= Pow2(width - 1) {
      SmallMod(10 * size, Pow2(width));
    }
  }

  lemma SmallMod(x: nat, m: nat)
    requires x < m
    ensures x % m == x
  {
  }

  /** The search ends exactly when some power of two in the word is large enough. */
  lemma SearchEnds(size: nat, width: nat)
    requires width >= 2
    ensures (exists bits :: 1 <= bits < width && Pow2(bits) >= Wanted(size, width)) <==>
      Wanted(size, width) <= Pow2(width - 1)
  {
    forall bits | 1 <= bits < width
      ensures Pow2(bits) <= Pow2(width - 1)
    {
      Pow2Mono(bits, width - 1);
    }
    assert Wanted(size, width) <= Pow2(width - 1) ==> Pow2(width - 1) >= Wanted(size, width);
  }

  /** A search without end: a size just above a tenth of half the word. */
  lemma EndlessSearch(bits: nat)
    requires 1 <= bits < 32
    ensures Pow2(bits) < Wanted(214748365, 32)
  {
    Pow2Mono(bits, 31);
    Pow2Of32();
  }

  /** A table that is too small: ten times half the word is 0 in it. */
  lemma WantedVanishes(width: nat)
    requires width >= 1
    ensures Wanted(Pow2(width - 1), width) == 0
  {
    assert 10 * Pow2(width - 1) == 5 * Pow2(width);
    MultipleMod(5, Pow2(width));
  }

  lemma MultipleMod(k: nat, m: nat)
    requires m > 0
    ensures k * m % m == 0
  {
    var q, r := k * m / m, k * m % m;
    assert m * (k - q) == r;
    AtLeastOnce(m, k - q);
  }

  lemma AtLeastOnce(m: int, d: int)
    requires m > 0
    ensures d >= 1 ==> m * d >= m
    ensures d <= -1 ==> m * d <= -m
  {
    if d >= 1 {
      assert m * (d - 1) >= 0;
    } else if d <= -1 {
      assert m * (-d - 1) >= 0;
    }
  }

  lemma {:induction false} EmptyTotal<D>(rows: seq<Row<D>>)
    requires forall h :: 0 <= h < |rows| ==> rows[h] == []
    ensures Total(rows) == 0
  {
    if rows != [] {
      EmptyTotal(rows[1..]);
    }
  }
}
