/** The bucket chains of the hash table as sequences. A chain holds the bindings
    of the keys whose masked hash is its index. */
module TableRows {
  import opened Chains

  class Bucket<D> {
    const key: string
    var data: D
    var next: Bucket?<D>

    constructor (key: string, data: D, next: Bucket?<D>)
      ensures this.key == key && this.data == data && this.next == next
    {
      this.key, this.data, this.next := key, data, next;
    }
  }

  type Row<D> = seq<Bucket<D>>

  /** Where a key belongs: any hash function, masked to the table's size. */
  function Slot(hash: string -> nat, size: nat, key: string): (h: nat)
    requires size > 0
    ensures h < size
  {
    hash(key) % size
  }

  /** Row `h` holds only keys of slot `h`, each once. */
  ghost predicate RowKeys<D>(hash: string -> nat, size: nat, h: nat, row: Row<D>)
    requires size > 0
  {
    && (forall j :: 0 <= j < |row| ==> Slot(hash, size, row[j].key) == h)
    && (forall i, j :: 0 <= i < j < |row| ==> row[i].key != row[j].key)
  }

  ghost predicate Rows<D>(hash: string -> nat, rows: seq<Row<D>>) {
    |rows| > 0 && forall h :: 0 <= h < |rows| ==> RowKeys(hash, |rows|, h, rows[h])
  }

  /** Position of a key in a row, or the row's length. */
  ghost function Position<D>(row: Row<D>, key: string): (j: nat)
    ensures j <= |row| && (j < |row| ==> row[j].key == key)
    ensures forall i :: 0 <= i < j ==> row[i].key != key
  {
    if row == [] || row[0].key == key then 0 else
      assert forall i :: 0 < i < |row| ==> row[i] == row[1..][i - 1];
      Position(row[1..], key) + 1
  }

  ghost predicate Has<D>(row: Row<D>, key: string) {
    Position(row, key) < |row|
  }

  lemma HasAt<D>(row: Row<D>, j: nat)
    requires j < |row|
    ensures Has(row, row[j].key)
  {
  }

  /** The rows bind exactly what `m` does. */
  ghost predicate Represents<D>(hash: string -> nat, rows: seq<Row<D>>, data: map<Bucket?<D>, D>, m: map<string, D>)
    requires |rows| > 0
  {
    forall key :: Represented(rows[Slot(hash, |rows|, key)], data, m, key)
  }

  ghost predicate Represented<D>(row: Row<D>, data: map<Bucket?<D>, D>, m: map<string, D>, key: string) {
    && (key in m <==> Has(row, key))
    && (key in m ==> var b := row[Position(row, key)]; b in data && data[b] == m[key])
  }

  // ----- what the operations do to the rows

  lemma {:induction false} PositionUnique<D>(row: Row<D>, j: nat)
    requires j < |row| && forall i, k :: 0 <= i < k < |row| ==> row[i].key != row[k].key
    ensures Position(row, row[j].key) == j
  {
    HasAt(row, j);
  }

  lemma HasPushed<D>(row: Row<D>, b: Bucket<D>, key: string)
    ensures Position([b] + row, key) == if b.key == key then 0 else Position(row, key) + 1
  {
    assert ([b] + row)[1..] == row;
  }

  lemma RowPush<D>(hash: string -> nat, size: nat, h: nat, row: Row<D>, b: Bucket<D>)
    requires size > 0 && RowKeys(hash, size, h, row) && !Has(row, b.key) && Slot(hash, size, b.key) == h
    ensures RowKeys(hash, size, h, [b] + row)
  {
    assert forall j :: 0 < j < |[b] + row| ==> ([b] + row)[j] == row[j - 1];
  }

  lemma RowRemove<D>(hash: string -> nat, size: nat, h: nat, row: Row<D>, j: nat)
    requires size > 0 && RowKeys(hash, size, h, row) && j < |row|
    ensures RowKeys(hash, size, h, Removed(row, j))
  {
    RemovedFrom(row, j);
  }

  lemma InsertRepresents<D>(hash: string -> nat, rows: seq<Row<D>>, data: map<Bucket?<D>, D>, m: map<string, D>,
      b: Bucket<D>, d: D)
    requires Rows(hash, rows) && Represents(hash, rows, data, m) && b.key !in m && b !in data
    ensures var h := Slot(hash, |rows|, b.key); var rows' := rows[h := [b] + rows[h]];
      Rows(hash, rows') && Represents(hash, rows', data[b := d], m[b.key := d])
  {
    var h := Slot(hash, |rows|, b.key);
    var rows' := rows[h := [b] + rows[h]];
    assert Represented(rows[h], data, m, b.key);
    RowPush(hash, |rows|, h, rows[h], b);
    forall key
      ensures Represented(rows'[Slot(hash, |rows'|, key)], data[b := d], m[b.key := d], key)
    {
      assert Represented(rows[Slot(hash, |rows|, key)], data, m, key);
      HasPushed(rows[h], b, key);
    }
  }

  lemma UpdateRepresents<D>(hash: string -> nat, rows: seq<Row<D>>, data: map<Bucket?<D>, D>, m: map<string, D>,
      b: Bucket<D>, d: D)
    requires Rows(hash, rows) && Represents(hash, rows, data, m)
    requires var row := rows[Slot(hash, |rows|, b.key)]; Has(row, b.key) && row[Position(row, b.key)] == b
    ensures b.key in m && Represents(hash, rows, data[b := d], m[b.key := d])
  {
    assert Represented(rows[Slot(hash, |rows|, b.key)], data, m, b.key);
    forall key
      ensures Represented(rows[Slot(hash, |rows|, key)], data[b := d], m[b.key := d], key)
    {
      assert Represented(rows[Slot(hash, |rows|, key)], data, m, key);
    }
  }

  lemma HasRemoved<D>(row: Row<D>, j: nat, key: string)
    requires j < |row| && forall i, k :: 0 <= i < k < |row| ==> row[i].key != row[k].key
    ensures Has(Removed(row, j), key) <==> Has(row, key) && key != row[j].key
    ensures Has(Removed(row, j), key) ==> Removed(row, j)[Position(Removed(row, j), key)] == row[Position(row, key)]
  {
    var row', p, p' := Removed(row, j), Position(row, key), Position(Removed(row, j), key);
    RemovedDistinct(row, j);
    hide Removed, Position;
    if p < |row| && p != j {
      RemovedOne(row, j, p);
      PositionUnique(row', if p < j then p else p - 1);
    } else {
      RemovedFrom(row, j);
    }
    PositionUnique(row, j);
  }

  lemma RemovedOne<D>(row: Row<D>, j: nat, p: nat)
    requires j < |row| && p < |row| && p != j
    ensures var q := if p < j then p else p - 1; q < |Removed(row, j)| && Removed(row, j)[q] == row[p]
  {
  }

  lemma RemovedDistinct<D>(row: Row<D>, j: nat)
    requires j < |row| && forall i, k :: 0 <= i < k < |row| ==> row[i].key != row[k].key
    ensures |Removed(row, j)| == |row| - 1
    ensures forall i, k :: 0 <= i < k < |row| - 1 ==> Removed(row, j)[i].key != Removed(row, j)[k].key
  {
    RemovedFrom(row, j);
  }

  lemma RemoveRepresents<D>(hash: string -> nat, rows: seq<Row<D>>, data: map<Bucket?<D>, D>, m: map<string, D>,
      h: nat, j: nat)
    requires Rows(hash, rows) && Represents(hash, rows, data, m) && h < |rows| && j < |rows[h]|
    ensures var rows' := rows[h := Removed(rows[h], j)];
      Rows(hash, rows') && Represents(hash, rows', data, m - {rows[h][j].key})
  {
    var b := rows[h][j];
    var rows' := rows[h := Removed(rows[h], j)];
    RowRemove(hash, |rows|, h, rows[h], j);
    assert RowKeys(hash, |rows|, h, rows[h]);
    forall key
      ensures Represented(rows'[Slot(hash, |rows'|, key)], data, m - {b.key}, key)
    {
      assert Represented(rows[Slot(hash, |rows|, key)], data, m, key);
      if Slot(hash, |rows|, key) == h {
        HasRemoved(rows[h], j, key);
      }
    }
  }

  // ----- chains of buckets

  ghost predicate Chained<D>(next: map<Bucket?<D>, Bucket?<D>>, firsts: seq<Bucket?<D>>, rows: seq<Row<D>>) {
    |firsts| == |rows| && forall h :: 0 <= h < |rows| ==> Stack(next, firsts[h], null, rows[h])
  }

  lemma ChainedIn<D>(next: map<Bucket?<D>, Bucket?<D>>, firsts: seq<Bucket?<D>>, rows: seq<Row<D>>, h: nat, j: nat)
    requires Chained(next, firsts, rows) && h < |rows| && j < |rows[h]|
    ensures rows[h][j] in next && next[rows[h][j]] == From<Bucket?<D>>(rows[h], j + 1, null)
  {
    assert Stack(next, firsts[h], null, rows[h]);
  }

  lemma ChainedPush<D>(next: map<Bucket?<D>, Bucket?<D>>, firsts: seq<Bucket?<D>>, rows: seq<Row<D>>, h: nat,
      b: Bucket<D>)
    requires Chained(next, firsts, rows) && h < |rows| && b !in next
    ensures Chained(next[b := firsts[h]], firsts[h := b], rows[h := [b] + rows[h]])
  {
    PushStack(next, firsts[h], null, rows[h], b);
    hide Stack;
    forall i | 0 <= i < |rows| && i != h
      ensures Stack(next[b := firsts[h]], firsts[i], null, rows[i])
    {
      KeepStack(next, next[b := firsts[h]], firsts[i], null, rows[i]);
    }
  }

  /** Unlinking a bucket that is not the first of its row. */
  lemma UnlinkStack<D>(next: map<Bucket?<D>, Bucket?<D>>, first: Bucket?<D>, row: Row<D>, j: nat)
    requires Stack(next, first, null, row) && 0 < j < |row|
    ensures row[j] in next && Stack(next[row[j - 1] := next[row[j]]], first, null, Removed(row, j))
  {
    var row', next' := Removed(row, j), next[row[j - 1] := next[row[j]]];
    RemovedFrom(row, j);
    forall i | 0 <= i < |row'|
      ensures row'[i] in next' && next'[row'[i]] == From(row', i + 1, null)
    {
      assert row'[i] == row[if i < j then i else i + 1];
      assert i != j - 1 ==> row'[i] != row[j - 1];
    }
  }

  lemma ChainedUnlink<D>(hash: string -> nat, next: map<Bucket?<D>, Bucket?<D>>, firsts: seq<Bucket?<D>>,
      rows: seq<Row<D>>, h: nat, j: nat)
    requires Rows(hash, rows) && Chained(next, firsts, rows) && h < |rows| && 0 < j < |rows[h]|
    ensures rows[h][j] in next
    ensures Chained(next[rows[h][j - 1] := next[rows[h][j]]], firsts, rows[h := Removed(rows[h], j)])
  {
    var next' := next[rows[h][j - 1] := next[rows[h][j]]];
    UnlinkStack(next, firsts[h], rows[h], j);
    hide Stack;
    forall i | 0 <= i < |rows| && i != h
      ensures Stack(next', firsts[i], null, rows[i])
    {
      OtherRow(hash, rows, h, j - 1, i);
      KeepStack(next, next', firsts[i], null, rows[i]);
    }
  }

  /** A bucket is in one row only, as its key has one slot. */
  lemma OtherRow<D>(hash: string -> nat, rows: seq<Row<D>>, h: nat, j: nat, i: nat)
    requires Rows(hash, rows) && h < |rows| && j < |rows[h]| && i < |rows| && i != h
    ensures rows[h][j] !in Members<Bucket?<D>>(rows[i])
  {
    assert RowKeys(hash, |rows|, h, rows[h]) && RowKeys(hash, |rows|, i, rows[i]);
  }

  lemma ChainedPop<D>(next: map<Bucket?<D>, Bucket?<D>>, firsts: seq<Bucket?<D>>, rows: seq<Row<D>>, h: nat)
    requires Chained(next, firsts, rows) && h < |rows| && rows[h] != []
    ensures firsts[h] == rows[h][0] && firsts[h] in next
    ensures Chained(next, firsts[h := next[firsts[h]]], rows[h := Removed(rows[h], 0)])
  {
    PopStack(next, firsts[h], null, rows[h]);
    assert Removed(rows[h], 0) == rows[h][1..];
  }

  // ----- counting

  function Total<D>(rows: seq<Row<D>>): nat {
    if rows == [] then 0 else |rows[0]| + Total(rows[1..])
  }

  lemma {:induction false} TotalUpdate<D>(rows: seq<Row<D>>, h: nat, row: Row<D>)
    requires h < |rows|
    ensures Total(rows[h := row]) == Total(rows) - |rows[h]| + |row|
  {
    if h > 0 {
      assert rows[h := row][1..] == rows[1..][h - 1 := row];
      TotalUpdate(rows[1..], h - 1, row);
    }
  }
}
