/** The timer heap: timers in a red-black tree ordered by deadline and, for
    equal deadlines, by address. All methods run under the heap lock. */
module TimerHeap {
  import opened RbNodes
  import opened RbTree
  import opened RbSearch
  import opened RbUpdate
  import opened RbShape
  import opened KeyOrder
  import opened Sides
  import opened TimerOps

  datatype TimerKey = TimerKey(deadline: int, address: nat)

  type Timer = Node<TimerKey>

  function TimerCmp(a: TimerKey, b: TimerKey): int {
    if a.deadline < b.deadline then -1
    else if a.deadline > b.deadline then 1
    else if a.address < b.address then -1
    else if a.address > b.address then 1
    else 0
  }

  /** The comparison is a total order; only a timer itself compares equal to it. */
  lemma TimerOrdering()
    ensures Ordering(TimerCmp)
    ensures forall a, b :: TimerCmp(a, b) == 0 <==> a == b
    ensures forall a, b :: TimerCmp(a, b) < 0 <==>
      a.deadline < b.deadline || (a.deadline == b.deadline && a.address < b.address)
  {
  }

  /** The timers of `s` with their deadlines. */
  ghost function Table(keys: map<Timer, TimerKey>, s: seq<Timer>): Timers<Timer>
    requires forall n :: n in s ==> n in keys
  {
    map n | n in s :: keys[n].deadline
  }

  /** `book` tells which timer lives at which address. */
  ghost predicate Booked(book: map<nat, Timer>, keys: map<Timer, TimerKey>, s: seq<Timer>) {
    forall n :: n in s ==> n in keys && keys[n].address in book && book[keys[n].address] == n
  }

  lemma TableInsert(
    book: map<nat, Timer>, keys: map<Timer, TimerKey>, s: seq<Timer>, e: Timer, k: TimerKey, i: nat)
    requires Booked(book, keys, s) && e !in s && i <= |s| && k.address in book && book[k.address] == e
    ensures var s' := s[..i] + [e] + s[i..];
      Booked(book, keys[e := k], s') && Table(keys[e := k], s') == Table(keys, s)[e := k.deadline]
  {
    var s' := s[..i] + [e] + s[i..];
    assert s == s[..i] + s[i..];
    assert forall n :: n in s' <==> n in s || n == e;
  }

  lemma AscendingDistinct(keys: map<Timer, TimerKey>, s: seq<Timer>, i: nat)
    requires i < |s| && Ascending(TimerCmp, keys, s)
    ensures forall j :: 0 <= j < |s| && j != i ==> s[j] != s[i]
  {
    forall j | 0 <= j < |s| && j != i
      ensures s[j] != s[i]
    {
      assert if j < i then TimerCmp(keys[s[j]], keys[s[i]]) < 0 else TimerCmp(keys[s[i]], keys[s[j]]) < 0;
    }
  }

  lemma WithoutIndex(s: seq<Timer>, i: nat)
    requires i < |s| && forall j :: 0 <= j < |s| && j != i ==> s[j] != s[i]
    ensures forall n :: n in s[..i] + s[i + 1..] <==> n in s && n != s[i]
  {
    var s' := s[..i] + s[i + 1..];
    assert forall j :: 0 <= j < |s'| ==> s'[j] == s[if j < i then j else j + 1];
    assert forall j :: 0 <= j < |s| && j != i ==> s[j] == s'[if j < i then j else j - 1];
  }

  lemma TableWithout(book: map<nat, Timer>, keys: map<Timer, TimerKey>, s: seq<Timer>, s': seq<Timer>, e: Timer)
    requires Booked(book, keys, s) && forall n :: n in s' <==> n in s && n != e
    ensures Booked(book, keys, s') && Table(keys, s') == Table(keys, s) - {e}
  {
  }

  lemma TableRemove(book: map<nat, Timer>, keys: map<Timer, TimerKey>, s: seq<Timer>, i: nat)
    requires i < |s| && Ascending(TimerCmp, keys, s) && Booked(book, keys, s)
    ensures var s' := s[..i] + s[i + 1..];
      Booked(book, keys, s') && Table(keys, s') == Table(keys, s) - {s[i]} && s[i] !in s'
  {
    AscendingDistinct(keys, s, i);
    WithoutIndex(s, i);
    TableWithout(book, keys, s, s[..i] + s[i + 1..], s[i]);
  }

  /** Taking a timer's address out of the book, when the timer is not among `s`. */
  lemma BookedWithout(book: map<nat, Timer>, keys: map<Timer, TimerKey>, s: seq<Timer>, a: nat)
    requires Booked(book, keys, s) && a in book && book[a] !in s
    ensures Booked(book - {a}, keys, s)
  {
  }

  // ----- timers by their addresses

  ghost predicate Injective(book: map<nat, Timer>) {
    forall a, b :: a in book && b in book && book[a] == book[b] ==> a == b
  }

  ghost function ByAddress(book: map<nat, Timer>, pending: Timers<Timer>): Timers<nat> {
    map a | a in book && book[a] in pending :: pending[book[a]]
  }

  lemma ByAddressCreate(book: map<nat, Timer>, pending: Timers<Timer>, a: nat, e: Timer, d: int)
    requires a !in book && e !in pending && e !in book.Values
    ensures ByAddress(book[a := e], pending[e := d]) == ByAddress(book, pending)[a := d]
  {
    assert forall b :: b in book ==> book[b] in book.Values;
  }

  lemma ByAddressReset(book: map<nat, Timer>, pending: Timers<Timer>, a: nat, d: int)
    requires Injective(book) && a in book
    ensures ByAddress(book, (pending - {book[a]})[book[a] := d]) == (ByAddress(book, pending) - {a})[a := d]
  {
  }

  lemma ByAddressRemove(book: map<nat, Timer>, pending: Timers<Timer>, a: nat)
    requires Injective(book) && a in book
    ensures ByAddress(book, pending - {book[a]}) == ByAddress(book, pending) - {a}
    ensures ByAddress(book - {a}, pending - {book[a]}) == ByAddress(book, pending) - {a}
  {
  }

  lemma ByAddressMin(book: map<nat, Timer>, pending: Timers<Timer>, a: nat)
    requires a in book && IsMin(pending, book[a])
    ensures IsMin(ByAddress(book, pending), a) && ByAddress(book, pending)[a] == pending[book[a]]
  {
  }

  lemma FirstIsMin(keys: map<Timer, TimerKey>, s: seq<Timer>)
    requires s != [] && Ascending(TimerCmp, keys, s)
    ensures IsMin(Table(keys, s), s[0])
  {
    forall n | n in s
      ensures keys[s[0]].deadline <= keys[n].deadline
    {
      var j :| 0 <= j < |s| && s[j] == n;
      assert j > 0 ==> TimerCmp(keys[s[0]], keys[s[j]]) < 0;
    }
  }

  /** A timer in the tree still has the key it was inserted with. */
  lemma KeyOf(t: Tree<TimerKey>, n: Timer)
    requires Sound(t) && n in t.Contents()
    ensures n in t.mem.cell && n in t.keys && t.keys[n] == n.key
  {
    hide RedBlack, Ordering, Ascending;
    TreeNodes(t, n);
    t.Entry(n);
  }

  lemma Parts(t: Tree<TimerKey>)
    requires Sound(t)
    ensures t.Valid() && t.path.Top? && Ascending(t.cmp, t.keys, t.Contents())
  {
  }

  lemma DupKey(t: Tree<TimerKey>, dup: Timer, s: seq<Timer>, i: nat)
    requires Sound(t) && t.Contents() == s && i < |s| && s[i] == dup
    ensures dup in s && dup in t.keys && t.keys[dup] == dup.key
  {
    assert dup in s;
    KeyOf(t, dup);
  }

  class TimerHeap {
    const tree: Tree<TimerKey>
    const capacity: nat
    /** Unread wake-up bytes in the socket pair. */
    var bytes: nat
    /** Which live timer is at which address. */
    var book: map<nat, Timer>

    constructor (capacity: nat)
      requires capacity > 0
      ensures Ready() && Pending() == map[] && bytes == 0 && this.capacity == capacity && book == map[] && fresh(tree)
    {
      TimerOrdering();
      tree := new Tree(TimerCmp);
      this.capacity := capacity;
      bytes := 0;
      book := map[];
    }

    ghost predicate Valid()
      reads this, tree, tree.mem.cell.Keys
    {
      && Sound(tree) && tree.cmp == TimerCmp && bytes <= capacity && capacity > 0
      && Booked(book, tree.keys, tree.Contents())
    }

    ghost function Pending(): Timers<Timer>
      requires Valid()
      reads this, tree, tree.mem.cell.Keys
    {
      Table(tree.keys, tree.Contents())
    }

    /** The timer object at its address is `ele`. */
    ghost predicate Known(ele: Timer)
      reads `book, ele`key
    {
      ele.key.address in book && book[ele.key.address] == ele
    }

    /** A byte has been written, if it had to be and there was room for it. */
    ghost predicate Written(must: bool, before: nat)
      reads `bytes
    {
      bytes == if must && before < capacity then before + 1 else before
    }

    /** Writes one byte; a full pair already has something to wake the reader. */
    method Kick()
      requires bytes <= capacity
      modifies `bytes
      ensures Written(true, old(bytes))
    {
      if bytes < capacity {
        bytes := bytes + 1;
      }
    }

    /** Does a timer due at `deadline` become the earliest? */
    method Earliest(deadline: int) returns (kick: bool)
      requires Valid()
      ensures kick <==> Kicks(Pending(), deadline)
    {
      hide Sound, Booked, TimerCmp;
      Parts(tree);
      var next := MinMax(tree, Left);
      if next == null {
        return true;
      }
      assert next in tree.Contents();
      KeyOf(tree, next);
      FirstIsMin(tree.keys, tree.Contents());
      kick := !(deadline > next.key.deadline);
    }

    /** Only the timer itself has its key. */
    lemma SameKey(ele: Timer)
      requires Valid() && Known(ele)
      ensures forall n :: n in tree.Contents() ==> n in tree.keys
      ensures forall n :: n in tree.Contents() && tree.cmp(ele.key, tree.keys[n]) == 0 ==> n == ele
    {
      hide Sound;
      TimerOrdering();
    }

    /** _addTimer. */
    method AddTimer(ele: Timer)
      requires Valid() && Known(ele) && ele !in tree.Contents()
      modifies `bytes, tree, tree.mem.cell.Keys`left, tree.mem.cell.Keys`right, tree.mem.cell.Keys`parent
      modifies tree.mem.cell.Keys`color, ele`left, ele`right, ele`parent, ele`color
      ensures Valid() && tree.mem.cell.Keys == old(tree.mem.cell.Keys) + {ele}
      ensures Pending() == old(Pending())[ele := ele.key.deadline]
      ensures Written(old(Kicks(Pending(), ele.key.deadline)), old(bytes))
    {
      hide Sound, Booked, TimerCmp, Table, Tree.Contents, Kicks;
      SameKey(ele);
      var kickPipe := Earliest(ele.key.deadline);
      var dup, i := Insert(tree, ele);
      if dup != null {
        DupKey(tree, dup, old(tree.Contents()), i);
      }
      TableInsert(book, old(tree.keys), old(tree.Contents()), ele, ele.key, i);
      if kickPipe {
        Kick();
      }
    }

    /** A timer in the tree is found under its key. */
    lemma NotFound(ele: Timer, i: int)
      requires Valid() && Between(tree.cmp, tree.keys, tree.Contents(), ele.key, i, i)
      ensures ele !in tree.Contents() && ele !in tree.mem.cell && Pending() - {ele} == Pending()
    {
      hide Sound, Booked;
      Parts(tree);
      TreeNodes(tree, ele);
      assert TimerCmp(ele.key, ele.key) == 0;
      if ele in tree.Contents() {
        KeyOf(tree, ele);
      }
    }

    /** _removeTimer: looks the timer up by its key and takes it out when it is there. */
    method RemoveTimer(ele: Timer)
      requires Valid() && Known(ele)
      modifies tree, tree.mem.cell.Keys`left, tree.mem.cell.Keys`right, tree.mem.cell.Keys`parent
      modifies tree.mem.cell.Keys`color
      ensures Valid() && tree.mem.cell.Keys == old(tree.mem.cell.Keys) - {ele}
      ensures Pending() == old(Pending()) - {ele} && ele !in tree.Contents()
    {
      hide Sound, Booked, TimerCmp, Table, Tree.Contents;
      SameKey(ele);
      Parts(tree);
      var r, i := Find(tree, ele.key);
      if r == null {
        NotFound(ele, i);
      } else {
        DupKey(tree, r, tree.Contents(), i);
        TableRemove(book, tree.keys, tree.Contents(), i);
        var _ := Remove(tree, ele, i);
      }
    }

    /** createTimer, at an address no live timer has. */
    method CreateTimer(address: nat, deadline: int) returns (ele: Timer)
      requires Valid() && address !in book
      modifies `bytes, `book, tree, tree.mem.cell.Keys`left, tree.mem.cell.Keys`right, tree.mem.cell.Keys`parent
      modifies tree.mem.cell.Keys`color
      ensures Valid() && fresh(ele) && Known(ele) && book == old(book)[address := ele]
      ensures tree.mem.cell.Keys == old(tree.mem.cell.Keys) + {ele}
      ensures Pending() == Apply(old(Pending()), Create(ele, deadline))
      ensures Written(old(Kicks(Pending(), deadline)), old(bytes))
    {
      hide Sound, TimerCmp, Table, Kicks;
      ele := new Node(TimerKey(deadline, address));
      book := book[address := ele];
      AddTimer(ele);
    }

    /** resetTimer: out of the tree, a new deadline, and in again. */
    method ResetTimer(ele: Timer, deadline: int)
      requires Valid() && Known(ele)
      modifies `bytes, tree, tree.mem.cell.Keys`left, tree.mem.cell.Keys`right, tree.mem.cell.Keys`parent
      modifies tree.mem.cell.Keys`color, ele
      ensures Valid() && ele.key == TimerKey(deadline, old(ele.key.address))
      ensures tree.mem.cell.Keys == old(tree.mem.cell.Keys) + {ele}
      ensures Pending() == Apply(old(Pending()), Reset(ele, deadline))
      ensures Written(old(MustWrite(Pending(), Reset(ele, deadline))), old(bytes))
    {
      hide Sound, Booked, TimerCmp, Table, Kicks;
      RemoveTimer(ele);
      ele.key := ele.key.(deadline := deadline);
      AddTimer(ele);
    }

    /** destroyTimer: out of the tree, and the address is free for another timer. */
    method DestroyTimer(ele: Timer)
      requires Valid() && Known(ele)
      modifies `book, tree, tree.mem.cell.Keys`left, tree.mem.cell.Keys`right, tree.mem.cell.Keys`parent
      modifies tree.mem.cell.Keys`color
      ensures Valid() && tree.mem.cell.Keys == old(tree.mem.cell.Keys) - {ele}
      ensures Pending() == Apply(old(Pending()), Destroy(ele)) && book == old(book) - {ele.key.address}
      ensures Written(old(MustWrite(Pending(), Destroy(ele))), old(bytes))
    {
      hide Sound, Booked, TimerCmp, Table;
      RemoveTimer(ele);
      BookedWithout(book, tree.keys, tree.Contents(), ele.key.address);
      book := book - {ele.key.address};
    }

    // ----- dispatching

    /** Every timer in the book is at its address. */
    ghost predicate BookTrue()
      reads `book, book.Values
    {
      forall a :: a in book ==> book[a].key.address == a
    }

    /** The pending timers by their addresses. */
    ghost function Schedule(): Timers<nat>
      requires Valid()
      reads this, tree, tree.mem.cell.Keys
    {
      ByAddress(book, Pending())
    }

    lemma InBook(a: nat)
      requires BookTrue() && a in book
      ensures Known(book[a]) && Injective(book)
    {
    }

    lemma TreeInBook()
      requires Valid()
      ensures tree.mem.cell.Keys <= book.Values
    {
      hide Ascending, RedBlack, Ordering;
      forall n | n in tree.mem.cell.Keys
        ensures n in book.Values
      {
        TreeNodes(tree, n);
        assert tree.keys[n].address in book;
      }
    }

    /** What holds between the operations of a callback. */
    ghost predicate Ready()
      reads this, tree, tree.mem.cell.Keys, book.Values
    {
      Valid() && BookTrue()
    }

    method RunOp(op: Op<nat>)
      requires Ready() && Legal(book.Keys, op)
      modifies `bytes, `book, tree, book.Values
      ensures Ready() && Schedule() == Apply(old(Schedule()), op) && book.Keys == LiveAfter(old(book.Keys), op)
      ensures fresh(book.Values - old(book.Values))
    {
      hide Sound, Booked, TimerCmp, Table, Kicks, ByAddress, Injective;
      TreeInBook();
      match op
      case Create(a, deadline) =>
        PendingBooked();
        var ele := CreateTimer(a, deadline);
        ByAddressCreate(old(book), old(Pending()), a, ele, deadline);
      case Reset(a, deadline) =>
        InBook(a);
        ByAddressReset(book, Pending(), a, deadline);
        ResetTimer(book[a], deadline);
      case Destroy(a) =>
        InBook(a);
        ByAddressRemove(book, Pending(), a);
        DestroyTimer(book[a]);
    }

    /** The operations of one callback. */
    method RunCallback(ops: seq<Op<nat>>)
      requires Ready() && LegalAll(book.Keys, ops)
      modifies `bytes, `book, tree, book.Values
      ensures Ready() && Schedule() == ApplyAll(old(Schedule()), ops)
      ensures book.Keys == LiveAfterAll(old(book.Keys), ops) && fresh(book.Values - old(book.Values))
    {
      hide Valid, BookTrue, Apply, Legal, LiveAfter;
      var k := 0;
      while k < |ops|
        invariant 0 <= k <= |ops| && Ready() && fresh(book.Values - old(book.Values))
        invariant ApplyAll(Schedule(), ops[k..]) == ApplyAll(old(Schedule()), ops)
        invariant LegalAll(book.Keys, ops[k..])
        invariant LiveAfterAll(book.Keys, ops[k..]) == LiveAfterAll(old(book.Keys), ops)
      {
        RunOp(ops[k]);
        assert ops[k..][1..] == ops[k + 1..];
        k := k + 1;
      }
    }

    /** RB_MIN: the timer due first. */
    method FirstTimer() returns (ele: Node?<TimerKey>)
      requires Valid()
      ensures Valid() && (ele == null <==> Pending() == map[]) && Schedule() == old(Schedule())
      ensures ele != null ==> IsFirst(ele)
    {
      hide Sound, Booked, TimerCmp;
      Parts(tree);
      ele := MinMax(tree, Left);
      if ele != null {
        DupKey(tree, ele, tree.Contents(), 0);
        FirstIsMin(tree.keys, tree.Contents());
      }
    }

    ghost predicate IsFirst(ele: Timer)
      requires Valid()
      reads this, tree, tree.mem.cell.Keys, ele
    {
      && tree.Contents() != [] && tree.Contents()[0] == ele
      && IsMin(Pending(), ele) && ele.key.deadline == Pending()[ele]
    }

    /** RB_REMOVE of the earliest timer. */
    method RemoveFirst(ele: Timer) returns (ghost a: nat)
      requires Ready() && IsFirst(ele)
      modifies tree, book.Values
      ensures Ready() && ele.key == old(ele.key) && a == ele.key.address && Schedule() == old(Schedule()) - {a}
      ensures IsMin(old(Schedule()), a) && old(Schedule())[a] == ele.key.deadline
    {
      hide Sound, Booked, TimerCmp, Table, Tree.Contents, ByAddress, Injective;
      Parts(tree);
      TreeInBook();
      a := FirstAddress(ele);
      InBook(a);
      ByAddressMin(book, Pending(), a);
      ByAddressRemove(book, Pending(), a);
      TableRemove(book, tree.keys, tree.Contents(), 0);
      var _ := Remove(tree, ele, 0);
    }

    lemma PendingBooked()
      requires Valid()
      ensures Pending().Keys <= book.Values
    {
      hide Sound;
      forall n | n in Pending().Keys
        ensures n in book.Values
      {
        assert tree.keys[n].address in book;
      }
    }

    lemma NoneLeft(ele: Node?<TimerKey>, now: int)
      requires Valid() && (ele == null <==> Pending() == map[])
      requires ele != null ==> IsFirst(ele) && ele.key.deadline > now
      ensures NoneDue(Schedule(), now)
    {
      hide Sound, Booked;
    }

    lemma FirstAddress(ele: Timer) returns (a: nat)
      requires Valid() && IsFirst(ele)
      ensures a == ele.key.address && a in book && book[a] == ele
    {
      hide Sound;
      a := ele.key.address;
      assert ele in tree.Contents();
      KeyOf(tree, ele);
    }

    /** Takes the earliest timer out of the tree and runs its callback. */
    method FireFirst(ele: Timer, ops: seq<Op<nat>>) returns (fired: (nat, int))
      requires Ready() && IsFirst(ele) && LegalAll(book.Keys, ops)
      modifies `bytes, `book, tree, book.Values
      ensures Ready() && fired.1 == old(ele.key.deadline)
      ensures IsMin(old(Schedule()), fired.0) && old(Schedule())[fired.0] == fired.1
      ensures Schedule() == ApplyAll(old(Schedule()) - {fired.0}, ops)
      ensures book.Keys == LiveAfterAll(old(book.Keys), ops) && fresh(book.Values - old(book.Values))
    {
      hide Valid, BookTrue, Schedule, IsFirst, IsMin, ApplyAll, LegalAll, LiveAfterAll;
      fired := (ele.key.address, ele.key.deadline);
      ghost var a := RemoveFirst(ele);
      RunCallback(ops);
    }

    /** One dispatch pass: fires all expired timers, looking up the earliest one again after each callback. */
    method Dispatch(now: int, script: seq<seq<Op<nat>>>) returns (fired: seq<(nat, int)>)
      requires Ready() && ScriptLater(script, now) && LegalScript(book.Keys, script)
      modifies `bytes, `book, tree, book.Values
      ensures Ready() && Pass(old(Schedule()), now, script, fired, Schedule())
      ensures book.Keys == LiveAfterCalls(old(book.Keys), script, |fired|) && fresh(book.Values - old(book.Values))
    {
      hide Valid, BookTrue, Schedule, IsFirst, Pending;
      hide Fires, ApplyAll, Due, LegalScript, LegalAll, LiveAfterAll, ScriptLater, AddsLater, NoneDue;
      fired := [];
      FiresNone(Schedule(), now, script);
      ghost var s0 := Schedule();
      assert script[0..] == script;
      var ele := FirstTimer();
      while ele != null && ele.key.deadline <= now
        invariant Ready() && Valid() && fresh(book.Values - old(book.Values))
        invariant ele == null <==> Pending() == map[]
        invariant ele != null ==> IsFirst(ele)
        invariant Fires(s0, now, script, fired, Schedule())
        invariant |fired| <= |script| ==> LegalScript(book.Keys, script[|fired|..])
        invariant book.Keys == LiveAfterCalls(old(book.Keys), script, |fired|)
        decreases Due(Schedule(), now)
      {
        var ops := Nth(script, |fired|);
        NextLegal(book.Keys, script, |fired|);
        NextLater(script, |fired|, now);
        ghost var schedule := Schedule();
        var f := FireFirst(ele, ops);
        FireOne(s0, now, script, fired, schedule, f.0);
        FireShrinks(schedule, f.0, ops, now);
        fired := fired + [f];
        ele := FirstTimer();
      }
      NoneLeft(ele, now);
    }
  }
}
