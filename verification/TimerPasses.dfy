/** What the dispatcher of a timer heap does in a run: how long it sleeps, what it
    fires when it wakes, and that every call on the heap takes effect once, in the
    order in which the calls get the lock. */
module TimerPasses {
  import opened Options
  import opened TimerOps
  import opened TimerWakeup

  // ----- the calls, one after the other

  /** An observer of a run: what each user called last, what the callback running
      called last, and the timers as the calls and the firings make them. */
  datatype Observer = Observer(asked: seq<Op<nat>>, inside: Op<nat>, timers: Timers<nat>)

  function WatchUser(o: Observer, x: User, u: nat, op: Op<nat>): Observer {
    if u >= |o.asked| then o
    else if x.Idle? then o.(asked := o.asked[u := op])
    else if x.Body? then o.(timers := Apply(o.timers, o.asked[u]))
    else o
  }

  function WatchDispatcher(o: Observer, d: Dispatcher, m: Move): Observer
    requires m.DispatcherMove?
  {
    if d.Callback? && m.again then o.(inside := m.op)
    else if d.CallbackBody? then o.(timers := Apply(o.timers, o.inside))
    else if d.Fire? && m.ele.Some? && m.ele.value in o.timers && o.timers[m.ele.value] <= d.now then
      o.(timers := o.timers - {m.ele.value})
    else o
  }

  ghost function Watch(o: Observer, s: State, m: Move): Observer {
    match m
    case Tick(_) => o
    case UserMove(u, op, _) => if u < |s.users| then WatchUser(o, s.users[u], u, op) else o
    case DispatcherMove(_, _, _, _, _) => WatchDispatcher(o, s.dispatcher, m)
  }

  ghost function Observed(o: Observer, s: State, moves: seq<Move>): Observer
    decreases |moves|
  {
    if moves == [] || !CanStep(s, moves[0]) then o
    else Observed(Watch(o, s, moves[0]), Step(s, moves[0]), moves[1..])
  }

  predicate Does(x: User, op: Op<nat>) {
    (x.Lock? || x.Body?) ==> x.op == op
  }

  ghost predicate Agrees(s: State, o: Observer) {
    && s.timers == o.timers && |o.asked| == |s.users|
    && (forall u :: 0 <= u < |s.users| ==> Does(s.users[u], o.asked[u]))
    && (s.dispatcher.CallbackBody? ==> s.dispatcher.op == o.inside)
  }

  lemma StepAgrees(s: State, m: Move, o: Observer)
    requires Agrees(s, o) && CanStep(s, m)
    ensures Agrees(Step(s, m), Watch(o, s, m))
  {
    if m.UserMove? {
      assert Does(s.users[m.u], o.asked[m.u]);
    }
    hide Apply, MustWrite, Allowed;
  }

  lemma {:induction false} RunAgrees(s: State, moves: seq<Move>, s': State, o: Observer)
    requires Agrees(s, o) && Run(s, moves, s')
    ensures Agrees(s', Observed(o, s, moves))
    decreases |moves|
  {
    hide Agrees, Watch;
    if moves != [] {
      StepAgrees(s, moves[0], o);
      RunAgrees(Step(s, moves[0]), moves[1..], s', Watch(o, s, moves[0]));
    }
  }

  /** In every run the timers in the tree are what the calls and the firings make of
      them one after the other, with the callers' own arguments. */
  lemma Linearized(s0: State, moves: seq<Move>, s: State, o0: Observer)
    requires Init(s0) && Run(s0, moves, s) && |o0.asked| == |s0.users| && o0.timers == map[]
    ensures s.timers == Observed(o0, s0, moves).timers
  {
    RunAgrees(s0, moves, s, o0);
  }

  /** How many calls user `u` makes in a run, and how many of its steps change the timers. */
  ghost function Made(s: State, moves: seq<Move>, u: nat): nat
    decreases |moves|
  {
    if moves == [] || !CanStep(s, moves[0]) || u >= |s.users| then 0
    else (if Moves(moves[0], u) && s.users[u].Idle? then 1 else 0) + Made(Step(s, moves[0]), moves[1..], u)
  }

  ghost function Done(s: State, moves: seq<Move>, u: nat): nat
    decreases |moves|
  {
    if moves == [] || !CanStep(s, moves[0]) || u >= |s.users| then 0
    else (if Moves(moves[0], u) && s.users[u].Body? then 1 else 0) + Done(Step(s, moves[0]), moves[1..], u)
  }

  predicate Moves(m: Move, u: nat) {
    m.UserMove? && m.u == u
  }

  function Undone(x: User): nat {
    if x.Lock? || x.Body? then 1 else 0
  }

  lemma {:induction false} RunDone(s: State, moves: seq<Move>, s': State, u: nat)
    requires Run(s, moves, s') && u < |s.users|
    ensures |s'.users| == |s.users|
    ensures Undone(s'.users[u]) + Done(s, moves, u) == Undone(s.users[u]) + Made(s, moves, u)
    decreases |moves|
  {
    hide Apply, MustWrite, Allowed;
    if moves != [] {
      StepUndone(s, moves[0], u);
      RunDone(Step(s, moves[0]), moves[1..], s', u);
    }
  }

  lemma StepUndone(s: State, m: Move, u: nat)
    requires CanStep(s, m) && u < |s.users|
    ensures |Step(s, m).users| == |s.users|
    ensures Undone(Step(s, m).users[u]) + (if Moves(m, u) && s.users[u].Body? then 1 else 0) ==
      Undone(s.users[u]) + (if Moves(m, u) && s.users[u].Idle? then 1 else 0)
  {
    hide Apply, MustWrite, Allowed;
  }

  /** Every call that has returned took effect exactly once. */
  lemma EachCallOnce(s0: State, moves: seq<Move>, s: State, u: nat)
    requires Init(s0) && Run(s0, moves, s) && u < |s0.users|
    ensures u < |s.users| && (s.users[u].Idle? ==> Done(s0, moves, u) == Made(s0, moves, u))
  {
    RunDone(s0, moves, s, u);
  }

  // ----- how long the dispatcher sleeps

  /** The state in which the dispatcher last chose its timeout, and the clock when it
      last entered select(). */
  datatype Sleep = Sleep(chosen: Option<State>, began: int)

  ghost function NoteSleep(l: Sleep, s: State, m: Move): Sleep {
    if !m.DispatcherMove? then l
    else if s.dispatcher.Choose? then l.(chosen := Some(s))
    else if s.dispatcher.Enter? then l.(began := s.clock)
    else l
  }

  ghost function Slept(l: Sleep, s: State, moves: seq<Move>): Sleep
    decreases |moves|
  {
    if moves == [] || !CanStep(s, moves[0]) then l
    else Slept(NoteSleep(l, s, moves[0]), Step(s, moves[0]), moves[1..])
  }

  /** For ever without timers, and otherwise until the earliest deadline, if that is
      still to come at `since`. */
  ghost predicate ExactWait(timers: Timers<nat>, timeout: Option<int>, since: int) {
    && (timeout == None <==> timers == map[])
    && (timeout.Some? ==>
          exists id :: IsMin(timers, id) && timeout.value == if timers[id] > since then timers[id] - since else 0)
  }

  ghost predicate SleepInv(s: State, l: Sleep) {
    && (Asleep(s.dispatcher) ==>
          && l.chosen.Some? && l.chosen.value.clock == s.dispatcher.since
          && ExactWait(l.chosen.value.timers, s.dispatcher.timeout, s.dispatcher.since))
    && (s.dispatcher.Release? ==> s.timers == l.chosen.value.timers)
    && (s.dispatcher.Select? ==> s.dispatcher.entered == l.began)
  }

  lemma StepSleep(s: State, m: Move, l: Sleep)
    requires LockInv(s) && SleepInv(s, l) && CanStep(s, m)
    ensures SleepInv(Step(s, m), NoteSleep(l, s, m))
  {
    hide Apply, MustWrite, Allowed;
    if m.UserMove? {
      assert UserHolds(s.users[m.u]) <==> s.holder == m.u + 2;
    } else if m.DispatcherMove? && s.dispatcher.Choose? && m.ele.Some? {
      assert IsMin(s.timers, m.ele.value);
    }
  }

  lemma {:induction false} RunSleep(s: State, moves: seq<Move>, s': State, l: Sleep)
    requires LockInv(s) && SleepInv(s, l) && Run(s, moves, s')
    ensures SleepInv(s', Slept(l, s, moves))
    decreases |moves|
  {
    hide SleepInv, NoteSleep, LockInv;
    if moves != [] {
      StepSleep(s, moves[0], l);
      StepLock(s, moves[0]);
      RunSleep(Step(s, moves[0]), moves[1..], s', NoteSleep(l, s, moves[0]));
    }
  }

  /** In every run the timeout with which the dispatcher goes to sleep is exactly the
      time to the earliest deadline in the tree when it read the clock, and select()
      counts it from when it was entered. */
  lemma SleepsExactly(s0: State, moves: seq<Move>, s: State, l0: Sleep)
    requires Init(s0) && Run(s0, moves, s)
    ensures var l := Slept(l0, s0, moves); Asleep(s.dispatcher) ==>
      && l.chosen.Some? && l.chosen.value.clock == s.dispatcher.since
      && ExactWait(l.chosen.value.timers, s.dispatcher.timeout, s.dispatcher.since)
      && (s.dispatcher.Select? ==> s.dispatcher.entered == l.began)
    ensures s.dispatcher.Release? ==> ExactWait(s.timers, s.dispatcher.timeout, s.dispatcher.since)
  {
    RunSleep(s0, moves, s, l0);
  }

  // ----- what the dispatcher fires

  /** The last of `passes` passes of the dispatcher: the timers in the tree and the
      clock when it took the lock again, whether select() had found a byte, the clock
      by which it fires, the timers whose callbacks ran with their deadlines, and what
      each callback did. */
  datatype Round = Round(
    passes: nat, start: Timers<nat>, woken: int, readable: bool, now: int,
    fired: seq<(nat, int)>, script: seq<seq<Op<nat>>>)

  ghost function NoteRound(r: Round, s: State, m: Move): Round {
    if !m.DispatcherMove? || !CanStep(s, m) then r
    else
      match s.dispatcher
      case Select(_, _, _) => r.(readable := m.readable)
      case Retake(_) => Round(r.passes + 1, s.timers, s.clock, r.readable, s.clock, [], [])
      case Scan => r.(now := s.clock)
      case Fire(_) =>
        var d := Step(s, m).dispatcher;
        if d.Callback? && d.id in s.timers then
          r.(fired := r.fired + [(d.id, s.timers[d.id])], script := r.script + [[]])
        else r
      case CallbackBody(_, _, op) => if r.script == [] then r else r.(script := OneMore(r.script, op))
      case _ => r
  }

  ghost function Rounds(r: Round, s: State, moves: seq<Move>): Round
    decreases |moves|
  {
    if moves == [] || !CanStep(s, moves[0]) then r
    else Rounds(NoteRound(r, s, moves[0]), Step(s, moves[0]), moves[1..])
  }

  /** What holds at each place of a pass. */
  ghost predicate RoundInv(s: State, r: Round) {
    match s.dispatcher
    case Retake(readable) => r.readable == readable
    case Drain => r.readable && Begun(s, r)
    case Scan => Begun(s, r) && (r.readable ==> s.bytes == 0)
    case Fire(now) => Going(s, r, now)
    case Callback(now, id) => Going(s, r, now) && Running(r, id)
    case CallbackBody(now, id, _) => Going(s, r, now) && Running(r, id)
    case CallbackWrite(now, id) => Going(s, r, now) && Running(r, id)
    case Choose => r.passes > 0 ==> PassDone(s, r)
    case First => r.passes == 0
    case _ => true
  }

  ghost predicate Begun(s: State, r: Round) {
    r.start == s.timers && r.woken <= s.clock && r.fired == [] && r.script == []
  }

  ghost predicate Going(s: State, r: Round, now: int) {
    && r.now == now && r.woken <= now <= s.clock && |r.script| == |r.fired|
    && Fires(r.start, now, r.script, r.fired, s.timers)
  }

  /** The callback that runs is that of the timer fired last. */
  predicate Running(r: Round, id: nat) {
    r.fired != [] && r.fired[|r.fired| - 1].0 == id
  }

  /** The dispatcher has come to the end of its pass. */
  ghost predicate PassDone(s: State, r: Round) {
    r.woken <= r.now <= s.clock && |r.script| == |r.fired| && Pass(r.start, r.now, r.script, r.fired, s.timers)
  }

  /** A step of a user, or of the clock, does not disturb the dispatcher's pass. */
  lemma OtherRound(s: State, m: Move, r: Round)
    requires LockInv(s) && RoundInv(s, r) && CanStep(s, m) && !m.DispatcherMove?
    ensures RoundInv(Step(s, m), r)
  {
    hide Apply, MustWrite, Allowed, Fires;
    if m.UserMove? {
      assert UserHolds(s.users[m.u]) <==> s.holder == m.u + 2;
    }
  }

  lemma FireRound(s: State, m: Move, r: Round)
    requires RoundInv(s, r) && CanStep(s, m) && m.DispatcherMove? && s.dispatcher.Fire?
    ensures var s' := Step(s, m);
      && RoundInv(s', NoteRound(r, s, m)) && (s'.dispatcher.Choose? ==> PassDone(s', NoteRound(r, s, m)))
  {
    var now, id := s.dispatcher.now, m.ele.value;
    assert IsMin(s.timers, id);
    if s.timers[id] <= now {
      FireOne(r.start, now, r.script, r.fired, s.timers, id);
      FiresPad(r.start, now, r.script, r.fired + [(id, s.timers[id])], s.timers - {id});
    }
    hide Fires, IsMin;
  }

  lemma BodyRound(s: State, m: Move, r: Round)
    requires RoundInv(s, r) && CanStep(s, m) && m.DispatcherMove? && s.dispatcher.CallbackBody?
    ensures RoundInv(Step(s, m), NoteRound(r, s, m)) && !Step(s, m).dispatcher.Choose?
  {
    FiresMore(r.start, s.dispatcher.now, r.script, r.fired, s.timers, s.dispatcher.op);
    hide Fires, Apply, MustWrite;
  }

  lemma StepRound(s: State, m: Move, r: Round)
    requires LockInv(s) && RoundInv(s, r) && CanStep(s, m)
    ensures RoundInv(Step(s, m), NoteRound(r, s, m))
  {
    if !m.DispatcherMove? {
      OtherRound(s, m, r);
    } else if s.dispatcher.Fire? {
      FireRound(s, m, r);
    } else if s.dispatcher.CallbackBody? {
      BodyRound(s, m, r);
    } else {
      QuietRound(s, m, r);
    }
  }

  lemma QuietRound(s: State, m: Move, r: Round)
    requires RoundInv(s, r) && CanStep(s, m) && m.DispatcherMove?
    requires !s.dispatcher.Fire? && !s.dispatcher.CallbackBody?
    ensures RoundInv(Step(s, m), NoteRound(r, s, m))
  {
    hide Apply, MustWrite, Allowed;
  }

  lemma {:induction false} RunRounds(s: State, moves: seq<Move>, s': State, r: Round)
    requires LockInv(s) && RoundInv(s, r) && Run(s, moves, s')
    ensures LockInv(s') && RoundInv(s', Rounds(r, s, moves))
    decreases |moves|
  {
    hide RoundInv, NoteRound, LockInv;
    if moves != [] {
      StepRound(s, moves[0], r);
      StepLock(s, moves[0]);
      RunRounds(Step(s, moves[0]), moves[1..], s', NoteRound(r, s, moves[0]));
    }
  }

  /** In every run, from taking the lock again to choosing the next timeout the
      dispatcher makes a whole pass over the timers it finds, by a clock that is not
      before the one at which it took the lock; nobody else gets in between. */
  lemma PassesWhole(s0: State, moves: seq<Move>, s: State, r0: Round)
    requires Init(s0) && Run(s0, moves, s) && r0.passes == 0
    ensures var r := Rounds(r0, s0, moves); s.dispatcher.Choose? && r.passes > 0 ==> PassDone(s, r)
    ensures var r := Rounds(r0, s0, moves); s.dispatcher.Scan? && r.readable ==> s.bytes == 0
    ensures var r := Rounds(r0, s0, moves); s.dispatcher.Callback? ==> Running(r, s.dispatcher.id)
  {
    hide PassDone, Begun, Going;
    RunRounds(s0, moves, s, r0);
  }

  /** So when a pass ends, no timer is left that was due when the dispatcher woke; and
      one that it found due and no callback touched has fired, exactly once, while
      one that was not due then or later is still there. */
  lemma WokenFires(s0: State, moves: seq<Move>, s: State, r0: Round, id: nat)
    requires Init(s0) && Run(s0, moves, s) && r0.passes == 0
    ensures var r := Rounds(r0, s0, moves); s.dispatcher.Choose? && r.passes > 0 ==>
      && (id in s.timers ==> s.timers[id] > r.woken)
      && (id in r.start && id !in s.timers ==> Firings(r.fired, id) >= 1 || !Spares(r.script, id))
      && (Spares(r.script, id) ==>
            && (id in r.start && r.start[id] <= r.woken ==> Firings(r.fired, id) == 1)
            && (id in r.start && r.start[id] > s.clock ==> id in s.timers && s.timers[id] == r.start[id]))
  {
    var r := Rounds(r0, s0, moves);
    PassesWhole(s0, moves, s, r0);
    hide Rounds, Run, Init;
    if s.dispatcher.Choose? && r.passes > 0 && Spares(r.script, id) {
      FiresOnce(r.start, r.now, r.script, r.fired, s.timers, id);
    }
    hide Fires, Firings, Spares;
  }
}
