/** The timer heap as a protocol between its dispatch thread and any number of
    threads that create, reset and destroy timers. The dispatcher sleeps in
    select() without the heap lock; a byte in the socket pair wakes it. */
module TimerWakeup {
  import opened TimerOps
  import opened Options

  /** A thread using the heap; `Write` is the wake-up write still to be done. */
  datatype User = Idle | Lock(op: Op<nat>) | Body(op: Op<nat>) | Write | Unlock

  /** The dispatch thread. `timeout` is how long select() is to wait; it was
      computed from the clock reading `since`, under the lock, while select()
      itself starts later, at `entered`. `id` is the timer whose callback runs. */
  datatype Dispatcher =
    | First
    | Choose
    | Release(timeout: Option<int>, since: int)
    | Enter(timeout: Option<int>, since: int)
    | Select(timeout: Option<int>, since: int, entered: int)
    | Retake(readable: bool)
    | Drain
    | Scan
    | Fire(now: int)
    | Callback(now: int, id: nat)
    | CallbackBody(now: int, id: nat, op: Op<nat>)
    | CallbackWrite(now: int, id: nat)

  /** `holder` is who holds the heap lock: 0 nobody, 1 the dispatcher, `u + 2`
      user `u`. The socket pair holds at most `capacity` unread bytes. */
  datatype State = State(
    timers: Timers<nat>, bytes: nat, capacity: nat, clock: int, holder: nat, dispatcher: Dispatcher, users: seq<User>)

  ghost predicate Init(s: State) {
    && s.timers == map[] && s.bytes == 0 < s.capacity && s.holder == 0 && s.dispatcher == First
    && forall u :: 0 <= u < |s.users| ==> s.users[u] == Idle
  }

  // ----- steps

  /** How a write of one byte ends: done, interrupted and tried again, or given
      up because the pair is full. */
  datatype Outcome = Done | Interrupted | Full

  predicate WriteCan(s: State, o: Outcome) {
    match o
    case Done => s.bytes < s.capacity
    case Interrupted => true
    case Full => s.bytes == s.capacity
  }

  /** What decides a step that can go several ways. */
  datatype Move =
    | Tick(clock: int)
    | UserMove(u: nat, op: Op<nat>, outcome: Outcome)
    | DispatcherMove(ele: Option<nat>, op: Op<nat>, outcome: Outcome, readable: bool, again: bool)

  predicate CanUser(s: State, u: nat, op: Op<nat>, o: Outcome) {
    && u < |s.users|
    && match s.users[u]
       case Idle => true
       case Lock(_) => s.holder == 0
       case Body(op') => Allowed(s.timers, op')
       case Write => WriteCan(s, o)
       case Unlock => true
  }

  function StepUser(s: State, u: nat, op: Op<nat>, o: Outcome): State
    requires CanUser(s, u, op, o)
  {
    match s.users[u]
    case Idle => s.(users := s.users[u := Lock(op)])
    case Lock(op') => s.(holder := u + 2, users := s.users[u := Body(op')])
    case Body(op') =>
      s.(timers := Apply(s.timers, op'), users := s.users[u := if MustWrite(s.timers, op') then Write else Unlock])
    case Write =>
      if o.Interrupted? then s
      else s.(bytes := if o.Done? then s.bytes + 1 else s.bytes, users := s.users[u := Unlock])
    case Unlock => s.(holder := 0, users := s.users[u := Idle])
  }

  /** `ele` is the tree's minimum when there is one. */
  predicate MinOrNone(timers: Timers<nat>, ele: Option<nat>) {
    match ele
    case None => timers == map[]
    case Some(id) => IsMin(timers, id)
  }

  /** select() returns when a byte is there, when its time is up, or when it is interrupted. */
  predicate CanWake(s: State, readable: bool, interrupted: bool)
    requires s.dispatcher.Select?
  {
    if readable then s.bytes > 0
    else
      || interrupted
      || (s.dispatcher.timeout.Some? && s.dispatcher.entered + s.dispatcher.timeout.value <= s.clock)
  }

  predicate CanDispatch(s: State, m: Move) {
    && m.DispatcherMove?
    && match s.dispatcher
       case First => s.holder == 0
       case Choose => MinOrNone(s.timers, m.ele)
       case Release(_, _) => true
       case Enter(_, _) => true
       case Select(_, _, _) => CanWake(s, m.readable, m.again)
       case Retake(_) => s.holder == 0
       case Drain => true
       case Scan => MinOrNone(s.timers, m.ele)
       case Fire(_) => MinOrNone(s.timers, m.ele) && m.ele.Some?
       case Callback(_, _) => m.again || MinOrNone(s.timers, m.ele)
       case CallbackBody(_, _, op) => Allowed(s.timers, op)
       case CallbackWrite(_, _) => WriteCan(s, m.outcome)
  }

  function StepDispatch(s: State, m: Move): State
    requires CanDispatch(s, m)
  {
    match s.dispatcher
    case First => s.(holder := 1, dispatcher := Choose)
    case Choose =>
      // sleep for ever, not at all, or until the earliest deadline
      s.(dispatcher := Release(
           match m.ele
           case None => None
           case Some(id) => Some(if s.timers[id] > s.clock then s.timers[id] - s.clock else 0),
           s.clock))
    case Release(timeout, since) => s.(holder := 0, dispatcher := Enter(timeout, since))
    case Enter(timeout, since) => s.(dispatcher := Select(timeout, since, s.clock))
    case Select(_, _, _) => s.(dispatcher := Retake(m.readable))
    case Retake(readable) => s.(holder := 1, dispatcher := if readable then Drain else Scan)
    case Drain =>
      // one byte per read; an interrupted read is repeated, an empty pair ends the loop
      if m.again then s
      else if s.bytes > 0 then s.(bytes := s.bytes - 1) else s.(dispatcher := Scan)
    case Scan => s.(dispatcher := if m.ele.None? then Choose else Fire(s.clock))
    case Fire(now) =>
      var id := m.ele.value;
      if s.timers[id] <= now then s.(timers := s.timers - {id}, dispatcher := Callback(now, id))
      else s.(dispatcher := Choose)
    case Callback(now, id) =>
      // the callback may use the heap, as the lock is recursive
      if m.again then s.(dispatcher := CallbackBody(now, id, m.op))
      else s.(dispatcher := if m.ele.None? then Choose else Fire(now))
    case CallbackBody(now, id, op) =>
      s.(timers := Apply(s.timers, op),
         dispatcher := if MustWrite(s.timers, op) then CallbackWrite(now, id) else Callback(now, id))
    case CallbackWrite(now, id) =>
      if m.outcome.Interrupted? then s
      else s.(bytes := if m.outcome.Done? then s.bytes + 1 else s.bytes, dispatcher := Callback(now, id))
  }

  predicate CanStep(s: State, m: Move) {
    match m
    case Tick(clock) => clock >= s.clock
    case UserMove(u, op, o) => CanUser(s, u, op, o)
    case DispatcherMove(_, _, _, _, _) => CanDispatch(s, m)
  }

  function Step(s: State, m: Move): State
    requires CanStep(s, m)
  {
    match m
    case Tick(clock) => s.(clock := clock)
    case UserMove(u, op, o) => StepUser(s, u, op, o)
    case DispatcherMove(_, _, _, _, _) => StepDispatch(s, m)
  }

  ghost predicate Run(s: State, moves: seq<Move>, s': State)
    decreases |moves|
  {
    if moves == [] then s' == s else CanStep(s, moves[0]) && Run(Step(s, moves[0]), moves[1..], s')
  }

  ghost predicate Reachable(s: State) {
    exists s0, moves :: Init(s0) && Run(s0, moves, s)
  }

  // ----- who holds the lock

  predicate UserHolds(x: User) {
    x.Body? || x.Write? || x.Unlock?
  }

  predicate DispatcherHolds(d: Dispatcher) {
    !(d.First? || d.Enter? || d.Select? || d.Retake?)
  }

  ghost predicate LockInv(s: State) {
    && s.bytes <= s.capacity && s.capacity > 0
    && (s.holder == 1 <==> DispatcherHolds(s.dispatcher))
    && forall u :: 0 <= u < |s.users| ==> (UserHolds(s.users[u]) <==> s.holder == u + 2)
  }

  lemma StepLock(s: State, m: Move)
    requires LockInv(s) && CanStep(s, m)
    ensures LockInv(Step(s, m))
  {
    if m.UserMove? {
      assert UserHolds(s.users[m.u]) <==> s.holder == m.u + 2;
    }
  }

  // ----- no lost wake-up

  predicate Asleep(d: Dispatcher) {
    d.Release? || d.Enter? || d.Select?
  }

  /** Nothing in the tree comes due before `since` plus the timeout, unless the
      timeout is zero because something was due at `since`. */
  predicate Covers(timers: Timers<nat>, timeout: Option<int>, since: int) {
    match timeout
    case None => timers == map[]
    case Some(wait) => wait == 0 || forall i :: i in timers ==> since + wait <= timers[i]
  }

  /** The dispatcher read the clock before it entered select(). */
  predicate InTime(d: Dispatcher, clock: int) {
    Asleep(d) ==> d.since <= clock && (d.Select? ==> d.since <= d.entered <= clock)
  }

  /** Some user has added an earliest timer and is about to write the byte. */
  ghost predicate WritePending(s: State) {
    exists u :: 0 <= u < |s.users| && s.users[u].Write?
  }

  ghost predicate WakeInv(s: State) {
    && InTime(s.dispatcher, s.clock)
    && (Asleep(s.dispatcher) ==>
          s.bytes > 0 || WritePending(s) || Covers(s.timers, s.dispatcher.timeout, s.dispatcher.since))
  }

  /** An operation that does not write leaves the sleeper covered. */
  lemma ApplyCovers(timers: Timers<nat>, op: Op<nat>, timeout: Option<int>, since: int)
    requires Covers(timers, timeout, since) && !MustWrite(timers, op)
    ensures Covers(Apply(timers, op), timeout, since)
  {
    if !op.Destroy? {
      var rest := if op.Reset? then timers - {op.id} else timers;
      var i :| i in rest && rest[i] < op.deadline;
      assert i in timers && timers[i] == rest[i];
    }
  }

  lemma StepWake(s: State, m: Move)
    requires LockInv(s) && WakeInv(s) && CanStep(s, m)
    ensures WakeInv(Step(s, m))
  {
    var s' := Step(s, m);
    match m
    case Tick(_) =>
      assert WritePending(s) ==> WritePending(s');
    case DispatcherMove(_, _, _, _, _) =>
      assert WritePending(s) ==> WritePending(s');
    case UserMove(u, _, _) =>
      UserWake(s, m);
  }

  lemma UserWake(s: State, m: Move)
    requires LockInv(s) && WakeInv(s) && CanStep(s, m) && m.UserMove?
    ensures WakeInv(Step(s, m))
  {
    var s', u := Step(s, m), m.u;
    if Asleep(s.dispatcher) && s'.bytes == 0 {
      if s.users[u].Body? {
        if MustWrite(s.timers, s.users[u].op) {
          assert s'.users[u].Write?;
        } else {
          // the holder of the lock is the only user past it
          assert !WritePending(s) by {
            assert s.holder == u + 2;
          }
          ApplyCovers(s.timers, s.users[u].op, s.dispatcher.timeout, s.dispatcher.since);
        }
      } else if WritePending(s) {
        var v :| 0 <= v < |s.users| && s.users[v].Write?;
        assert s'.users[v].Write?;
      }
    }
  }

  ghost predicate Inv(s: State) {
    LockInv(s) && WakeInv(s)
  }

  lemma {:induction false} RunInv(s: State, moves: seq<Move>, s': State)
    requires Inv(s) && Run(s, moves, s')
    ensures Inv(s')
    decreases |moves|
  {
    if moves != [] {
      StepLock(s, moves[0]);
      StepWake(s, moves[0]);
      RunInv(Step(s, moves[0]), moves[1..], s');
    }
  }

  /** While the dispatcher sleeps, a byte is waiting, or is about to be written
      by the thread inside the lock, or the timeout it took at `since` ends
      before any timer comes due. */
  lemma SleeperCovered(s: State)
    requires Reachable(s) && s.dispatcher.Select?
    ensures s.bytes > 0 || WritePending(s) || Covers(s.timers, s.dispatcher.timeout, s.dispatcher.since)
    ensures s.holder == 0 ==> !WritePending(s)
    ensures s.dispatcher.since <= s.dispatcher.entered <= s.clock
  {
    var s0, moves :| Init(s0) && Run(s0, moves, s);
    RunInv(s0, moves, s);
  }

  /** No wake-up is lost: once a timer has been due for as long as the dispatcher
      took from reading the clock to entering select(), select() has something
      to return. */
  lemma NoLostWakeup(s: State, id: nat)
    requires Reachable(s) && s.dispatcher.Select? && s.holder == 0
    requires id in s.timers && s.timers[id] + (s.dispatcher.entered - s.dispatcher.since) <= s.clock
    ensures exists readable :: CanWake(s, readable, false)
  {
    SleeperCovered(s);
    assert CanWake(s, s.bytes > 0, false);
  }

  /** A timer that was due before the clock was read needs no delay at all. */
  lemma DueAtOnce(s: State, id: nat)
    requires Reachable(s) && s.dispatcher.Select? && s.holder == 0
    requires id in s.timers && s.timers[id] <= s.dispatcher.since
    ensures exists readable :: CanWake(s, readable, false)
  {
    SleeperCovered(s);
    assert CanWake(s, s.bytes > 0, false);
  }

  /** Only the holder of the lock touches the timers and the pipe's write side:
      two critical sections never overlap. */
  lemma OneInside(s: State, u: nat, v: nat)
    requires Reachable(s) && u < v < |s.users|
    ensures !(UserHolds(s.users[u]) && UserHolds(s.users[v]))
    ensures UserHolds(s.users[u]) ==> !DispatcherHolds(s.dispatcher)
  {
    var s0, moves :| Init(s0) && Run(s0, moves, s);
    RunInv(s0, moves, s);
  }

  /** A callback fires only for a timer whose deadline has passed, and that timer is then out of the tree. */
  lemma FiresDue(s: State, m: Move)
    requires CanStep(s, m) && m.DispatcherMove? && s.dispatcher.Fire?
    ensures var s' := Step(s, m);
      if s'.dispatcher.Callback? then
        var id := s'.dispatcher.id;
        IsMin(s.timers, id) && s.timers[id] <= s.dispatcher.now && s'.timers == s.timers - {id}
      else
        s'.timers == s.timers && forall i :: i in s.timers ==> s.timers[i] > s.dispatcher.now
  {
    assert IsMin(s.timers, m.ele.value);
  }

  // ----- nobody is stuck

  lemma {:induction false} SomeMin(timers: Timers<nat>) returns (ele: Option<nat>)
    ensures MinOrNone(timers, ele)
    decreases |timers|
  {
    if timers == map[] {
      ele := None;
    } else {
      var id :| id in timers;
      var rest := SomeMin(timers - {id});
      ele := if rest.Some? && timers[rest.value] < timers[id] then rest else Some(id);
      assert forall i :: i in timers ==> i == id || i in timers - {id};
    }
  }

  /** A thread that looks for the next timer to fire has one. */
  predicate FireInv(s: State) {
    s.dispatcher.Fire? ==> s.timers != map[]
  }

  lemma StepFire(s: State, m: Move)
    requires LockInv(s) && FireInv(s) && CanStep(s, m)
    ensures FireInv(Step(s, m))
  {
    if m.UserMove? {
      assert UserHolds(s.users[m.u]) <==> s.holder == m.u + 2;
    }
  }

  lemma {:induction false} RunFire(s: State, moves: seq<Move>, s': State)
    requires LockInv(s) && FireInv(s) && Run(s, moves, s')
    ensures LockInv(s') && FireInv(s')
    decreases |moves|
  {
    if moves != [] {
      StepLock(s, moves[0]);
      StepFire(s, moves[0]);
      RunFire(Step(s, moves[0]), moves[1..], s');
    }
  }

  /** Neither waiting for the lock nor creating a timer at an address that is in the tree. */
  predicate UserFree(s: State, x: User) {
    (x.Lock? ==> s.holder == 0) && (x.Body? ==> Allowed(s.timers, x.op))
  }

  predicate DispatcherFree(s: State, d: Dispatcher) {
    (d.First? || d.Retake? ==> s.holder == 0) && (d.CallbackBody? ==> Allowed(s.timers, d.op))
  }

  /** In every run a thread can go on exactly when it does not wait for the lock,
      so whoever holds it can; and an idle thread can make any call. */
  lemma NeverStuck(s: State)
    requires Reachable(s)
    ensures (exists m: Move :: m.DispatcherMove? && CanStep(s, m)) <==> DispatcherFree(s, s.dispatcher)
    ensures forall u :: 0 <= u < |s.users| ==>
      ((exists op, o :: CanStep(s, UserMove(u, op, o))) <==> UserFree(s, s.users[u]))
    ensures forall u, op, o :: 0 <= u < |s.users| && s.users[u].Idle? ==> CanStep(s, UserMove(u, op, o))
  {
    var s0, moves :| Init(s0) && Run(s0, moves, s);
    RunFire(s0, moves, s);
    var ele := SomeMin(s.timers);
    var o := if s.bytes < s.capacity then Done else Full;
    if DispatcherFree(s, s.dispatcher) {
      assert CanStep(s, DispatcherMove(ele, Destroy(0), o, false, true));
    }
    forall u | 0 <= u < |s.users| && UserFree(s, s.users[u])
      ensures exists op, o :: CanStep(s, UserMove(u, op, o))
    {
      assert CanStep(s, UserMove(u, Destroy(0), o));
    }
  }

  // ----- the dispatcher comes round

  /** How far the dispatcher is from choosing its next timeout: first the part of
      its way, then the bytes to read or the timers to fire. */
  ghost function Ahead(s: State): (nat, nat) {
    match s.dispatcher
    case Drain => (3, s.bytes)
    case Scan => (2, 0)
    case Fire(now) => (1, 2 * |Due(s.timers, now)|)
    case Callback(now, _) => (1, 2 * |Due(s.timers, now)| + 1)
    case _ => (0, 0)
  }

  /** Every step from reading the bytes to the end of the pass brings the dispatcher
      nearer to that end, unless it is interrupted or a callback uses the heap. */
  lemma ComesRound(s: State, m: Move)
    requires CanStep(s, m) && m.DispatcherMove? && !m.again && Ahead(s).0 > 0
    ensures var (before, after) := (Ahead(s), Ahead(Step(s, m)));
      after.0 < before.0 || (after.0 == before.0 && after.1 < before.1)
    ensures Ahead(Step(s, m)).0 == 0 ==> Step(s, m).dispatcher.Choose?
  {
    if s.dispatcher.Fire? && s.timers[m.ele.value] <= s.dispatcher.now {
      var id, now := m.ele.value, s.dispatcher.now;
      assert Due(s.timers - {id}, now) == Due(s.timers, now) - {id} && id in Due(s.timers, now);
    }
  }
}
