/** What the operations on a timer heap do to the set of pending timers, and
    what one dispatch pass fires. `T` is the timer's identity. */
module TimerOps {

  /** The timers in the tree with their deadlines. */
  type Timers<!T(==)> = map<T, int>

  datatype Op<T> = Create(id: T, deadline: int) | Reset(id: T, deadline: int) | Destroy(id: T)

  /** Adding a timer kicks the pipe unless the earliest timer is earlier still. */
  predicate Kicks<T(==)>(timers: Timers<T>, deadline: int) {
    forall i :: i in timers ==> deadline <= timers[i]
  }

  function Apply<T(==)>(timers: Timers<T>, op: Op<T>): Timers<T> {
    match op
    case Create(id, deadline) => timers[id := deadline]
    case Reset(id, deadline) => (timers - {id})[id := deadline]
    case Destroy(id) => timers - {id}
  }

  predicate MustWrite<T(==)>(timers: Timers<T>, op: Op<T>) {
    match op
    case Create(_, deadline) => Kicks(timers, deadline)
    case Reset(id, deadline) => Kicks(timers - {id}, deadline)
    case Destroy(_) => false
  }

  /** A created timer is a new object. */
  predicate Allowed<T(==)>(timers: Timers<T>, op: Op<T>) {
    op.Create? ==> op.id !in timers
  }

  predicate IsMin<T(==)>(timers: Timers<T>, id: T) {
    id in timers && forall i :: i in timers ==> timers[id] <= timers[i]
  }

  // ----- a dispatch pass

  /** One callback's operations in order. */
  ghost function ApplyAll<T>(timers: Timers<T>, ops: seq<Op<T>>): Timers<T>
    decreases |ops|
  {
    if ops == [] then timers else ApplyAll(Apply(timers, ops[0]), ops[1..])
  }

  /** A created timer is at an address where none lives; other operations are on live ones. */
  ghost predicate Legal<T>(live: set<T>, op: Op<T>) {
    if op.Create? then op.id !in live else op.id in live
  }

  ghost function LiveAfter<T>(live: set<T>, op: Op<T>): set<T> {
    match op
    case Create(id, _) => live + {id}
    case Reset(_, _) => live
    case Destroy(id) => live - {id}
  }

  ghost predicate LegalAll<T>(live: set<T>, ops: seq<Op<T>>)
    decreases |ops|
  {
    ops == [] || (Legal(live, ops[0]) && LegalAll(LiveAfter(live, ops[0]), ops[1..]))
  }

  ghost function LiveAfterAll<T>(live: set<T>, ops: seq<Op<T>>): set<T>
    decreases |ops|
  {
    if ops == [] then live else LiveAfterAll(LiveAfter(live, ops[0]), ops[1..])
  }

  /** Each callback of the script finds live what it uses. */
  ghost predicate LegalScript<T>(live: set<T>, script: seq<seq<Op<T>>>)
    decreases |script|
  {
    script == [] || (LegalAll(live, script[0]) && LegalScript(LiveAfterAll(live, script[0]), script[1..]))
  }

  ghost predicate NoneDue<T>(timers: Timers<T>, now: int) {
    forall i :: i in timers ==> timers[i] > now
  }

  /** What the next callback does; a callback without a script does nothing. */
  function Next<T>(script: seq<seq<Op<T>>>): seq<Op<T>> {
    if script == [] then [] else script[0]
  }

  function Later<T>(script: seq<seq<Op<T>>>): seq<seq<Op<T>>> {
    if script == [] then [] else script[1..]
  }

  /** Firings at time `now` from `timers` to `timers'`: each fired timer is the
      earliest there is, is due, and is out of the tree when its callback runs.
      Firings carry their deadlines. */
  ghost predicate Fires<T>(timers: Timers<T>, now: int, script: seq<seq<Op<T>>>, fired: seq<(T, int)>,
      timers': Timers<T>)
    decreases |fired|
  {
    if fired == [] then timers' == timers
    else
      var (id, deadline) := fired[0];
      && IsMin(timers, id) && timers[id] == deadline <= now
      && Fires(ApplyAll(timers - {id}, Next(script)), now, Later(script), fired[1..], timers')
  }

  /** A whole pass goes on until no timer is due. */
  ghost predicate Pass<T>(timers: Timers<T>, now: int, script: seq<seq<Op<T>>>, fired: seq<(T, int)>,
      timers': Timers<T>)
  {
    Fires(timers, now, script, fired, timers') && NoneDue(timers', now)
  }

  function Nth<T>(script: seq<seq<Op<T>>>, k: nat): seq<Op<T>> {
    if k < |script| then script[k] else []
  }

  /** What is live after `n` callbacks. */
  ghost function LiveAfterCalls<T>(live: set<T>, script: seq<seq<Op<T>>>, n: nat): set<T> {
    if n == 0 then live else LiveAfterAll(LiveAfterCalls(live, script, n - 1), Nth(script, n - 1))
  }

  lemma FiresNone<T>(timers: Timers<T>, now: int, script: seq<seq<Op<T>>>)
    ensures Fires(timers, now, script, [], timers)
  {
  }

  lemma {:induction false} FireOne<T>(
    timers: Timers<T>, now: int, script: seq<seq<Op<T>>>, fired: seq<(T, int)>, timers': Timers<T>, id: T)
    requires Fires(timers, now, script, fired, timers') && IsMin(timers', id) && timers'[id] <= now
    ensures Fires(timers, now, script, fired + [(id, timers'[id])], ApplyAll(timers' - {id}, Nth(script, |fired|)))
    decreases |fired|
  {
    if fired == [] {
      assert ([] + [(id, timers'[id])])[1..] == [];
    } else {
      FireOne(ApplyAll(timers - {fired[0].0}, Next(script)), now, Later(script), fired[1..], timers', id);
      assert (fired + [(id, timers'[id])])[1..] == fired[1..] + [(id, timers'[id])];
      assert Nth(Later(script), |fired| - 1) == Nth(script, |fired|);
    }
  }

  /** A callback that does nothing can be left out of the end of the script. */
  lemma {:induction false} FiresPad<T>(
    timers: Timers<T>, now: int, script: seq<seq<Op<T>>>, fired: seq<(T, int)>, timers': Timers<T>)
    requires Fires(timers, now, script, fired, timers')
    ensures Fires(timers, now, script + [[]], fired, timers')
    decreases |fired|
  {
    if fired != [] {
      if script == [] {
        assert script + [[]] == [[]] && (script + [[]])[1..] == script;
      } else {
        FiresPad(ApplyAll(timers - {fired[0].0}, Next(script)), now, Later(script), fired[1..], timers');
        assert (script + [[]])[1..] == script[1..] + [[]];
      }
    }
  }

  lemma {:induction false} ApplyAllMore<T>(timers: Timers<T>, ops: seq<Op<T>>, op: Op<T>)
    ensures ApplyAll(timers, ops + [op]) == Apply(ApplyAll(timers, ops), op)
    decreases |ops|
  {
    if ops == [] {
      assert ([] + [op])[1..] == [];
    } else {
      ApplyAllMore(Apply(timers, ops[0]), ops[1..], op);
      assert (ops + [op])[1..] == ops[1..] + [op];
    }
  }

  /** The script with one more operation of its last callback. */
  function OneMore<T>(script: seq<seq<Op<T>>>, op: Op<T>): seq<seq<Op<T>>>
    requires script != []
  {
    script[|script| - 1 := script[|script| - 1] + [op]]
  }

  lemma {:induction false} FiresMore<T>(
    timers: Timers<T>, now: int, script: seq<seq<Op<T>>>, fired: seq<(T, int)>, timers': Timers<T>, op: Op<T>)
    requires Fires(timers, now, script, fired, timers') && |script| == |fired| > 0
    ensures Fires(timers, now, OneMore(script, op), fired, Apply(timers', op))
    decreases |fired|
  {
    hide Apply, IsMin;
    var rest := timers - {fired[0].0};
    if |fired| == 1 {
      ApplyAllMore(rest, script[0], op);
    } else {
      FiresMore(ApplyAll(rest, script[0]), now, script[1..], fired[1..], timers', op);
      assert OneMore(script, op)[1..] == OneMore(script[1..], op) && OneMore(script, op)[0] == script[0];
    }
  }

  /** A callback that adds timers adds them for later than `now`. */
  ghost predicate AddsLater<T>(ops: seq<Op<T>>, now: int) {
    forall k :: 0 <= k < |ops| ==> !ops[k].Destroy? ==> ops[k].deadline > now
  }

  ghost predicate ScriptLater<T>(script: seq<seq<Op<T>>>, now: int) {
    forall j :: 0 <= j < |script| ==> AddsLater(script[j], now)
  }

  /** Everything in `b` was already in `a` or comes after `now`. */
  ghost predicate NothingSooner<T>(a: Timers<T>, b: Timers<T>, now: int) {
    forall i :: i in b && b[i] <= now ==> i in a && a[i] == b[i]
  }

  lemma {:induction false} ApplyAllSooner<T>(timers: Timers<T>, ops: seq<Op<T>>, now: int)
    requires AddsLater(ops, now)
    ensures NothingSooner(timers, ApplyAll(timers, ops), now)
    decreases |ops|
  {
    if ops != [] {
      ApplyAllSooner(Apply(timers, ops[0]), ops[1..], now);
    }
  }

  ghost function Due<T>(timers: Timers<T>, now: int): set<T> {
    set i | i in timers && timers[i] <= now
  }

  /** Each firing leaves fewer timers due, so a pass ends. */
  lemma FireShrinks<T>(timers: Timers<T>, id: T, ops: seq<Op<T>>, now: int)
    requires id in timers && timers[id] <= now && AddsLater(ops, now)
    ensures Due(ApplyAll(timers - {id}, ops), now) < Due(timers, now)
  {
    ApplyAllSooner(timers - {id}, ops, now);
    assert id in Due(timers, now) && id !in Due(ApplyAll(timers - {id}, ops), now);
  }

  /** Timers fire in deadline order, none early, and none is left due. */
  lemma {:induction false} FiredInOrder<T>(
    timers: Timers<T>, now: int, script: seq<seq<Op<T>>>, fired: seq<(T, int)>, timers': Timers<T>)
    requires Pass(timers, now, script, fired, timers') && ScriptLater(script, now)
    ensures forall i, j :: 0 <= i < j < |fired| ==> fired[i].1 <= fired[j].1
    ensures fired != [] ==> forall t :: t in timers ==> fired[0].1 <= timers[t]
    ensures forall i :: 0 <= i < |fired| ==>
      fired[i].1 <= now && fired[i].0 in timers && timers[fired[i].0] == fired[i].1
    ensures NoneDue(timers', now)
    decreases |fired|
  {
    if fired != [] {
      var rest := ApplyAll(timers - {fired[0].0}, Next(script));
      ApplyAllSooner(timers - {fired[0].0}, Next(script), now);
      FiredInOrder(rest, now, Later(script), fired[1..], timers');
      forall i | 1 <= i < |fired|
        ensures fired[0].1 <= fired[i].1 && fired[i].0 in timers && timers[fired[i].0] == fired[i].1
      {
        assert fired[1..][i - 1] == fired[i];
      }
      forall i, j | 0 < i < j < |fired|
        ensures fired[i].1 <= fired[j].1
      {
        assert fired[1..][i - 1] == fired[i] && fired[1..][j - 1] == fired[j];
      }
    }
  }

  /** No callback of the script touches timer `t`. */
  ghost predicate Spares<T>(script: seq<seq<Op<T>>>, t: T) {
    forall j, k :: 0 <= j < |script| && 0 <= k < |script[j]| ==> script[j][k].id != t
  }

  lemma {:induction false} ApplyAllSpares<T>(timers: Timers<T>, ops: seq<Op<T>>, t: T)
    requires forall k :: 0 <= k < |ops| ==> ops[k].id != t
    ensures t in ApplyAll(timers, ops) <==> t in timers
    ensures t in timers ==> ApplyAll(timers, ops)[t] == timers[t]
    decreases |ops|
  {
    if ops != [] {
      ApplyAllSpares(Apply(timers, ops[0]), ops[1..], t);
    }
  }

  /** How often `t` fires. */
  function Firings<T(==)>(fired: seq<(T, int)>, t: T): nat {
    if fired == [] then 0 else (if fired[0].0 == t then 1 else 0) + Firings(fired[1..], t)
  }

  /** A timer no callback touches fires exactly once if it was due, and otherwise stays as it was. */
  lemma {:induction false} FiresOnce<T>(
    timers: Timers<T>, now: int, script: seq<seq<Op<T>>>, fired: seq<(T, int)>, timers': Timers<T>, t: T)
    requires Pass(timers, now, script, fired, timers') && Spares(script, t)
    ensures Firings(fired, t) == if t in timers && timers[t] <= now then 1 else 0
    ensures t in timers' <==> t in timers && timers[t] > now
    ensures t in timers' ==> timers'[t] == timers[t]
    decreases |fired|
  {
    if fired != [] {
      var ops := Next(script);
      assert forall k :: 0 <= k < |ops| ==> ops[k].id != t by {
        if script != [] {
          assert ops == script[0];
        }
      }
      var left := timers - {fired[0].0};
      ApplyAllSpares(left, ops, t);
      assert Spares(Later(script), t);
      FiresOnce(ApplyAll(left, ops), now, Later(script), fired[1..], timers', t);
    }
  }

  /** The next callback of a legal script, and what is left of the script after it. */
  lemma NextLegal<T>(live: set<T>, script: seq<seq<Op<T>>>, k: nat)
    requires k <= |script| ==> LegalScript(live, script[k..])
    ensures LegalAll(live, Nth(script, k))
    ensures k + 1 <= |script| ==> LegalScript(LiveAfterAll(live, Nth(script, k)), script[k + 1..])
  {
    if k < |script| {
      assert script[k..][0] == script[k] && script[k..][1..] == script[k + 1..];
    }
  }

  lemma NextLater<T>(script: seq<seq<Op<T>>>, k: nat, now: int)
    requires ScriptLater(script, now)
    ensures AddsLater(Nth(script, k), now)
  {
  }
}
