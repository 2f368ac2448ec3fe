/** The semaphore protocol of the dispatch queue, for any number of threads.
    `enqueue` and `unblock` post under the lock; a consumer takes a token from
    the semaphore first and the lock afterwards. */
module QueueTokens {
  import opened Options
  import opened QueueSpec

  /** How a consumer takes its item: dispatch looks before it removes, poll and flush do not. */
  datatype Kind = Dispatch | Poll

  datatype Thread =
    | Idle
    | AddLock(x: int)
    | Add(x: int)
    | AddPost
    | Wait(kind: Kind)
    | TakeLock(kind: Kind)
    | Take(kind: Kind)
    | FlagLock
    | Flag
    | FlagPost
    | Unlock

  /** `items` is the queue, `added` and `taken` are all items ever put in and
      taken out. `holder` is 0 or one more than the thread in the lock.
      `broken` is set when a sentinel is removed from the links. */
  datatype Shared = Shared(
    sem: nat, items: seq<int>, unblocking: bool, holder: nat, added: seq<int>, taken: seq<int>, broken: bool)

  datatype State = State(shared: Shared, threads: seq<Thread>)

  /** What an idle thread calls, and how a step that can go two ways goes. */
  datatype Call = Enqueue(x: int) | Consume(kind: Kind) | Unblock

  datatype Move = Move(t: nat, call: Call, ok: bool)

  predicate NeedsLock(x: Thread) {
    x.AddLock? || x.TakeLock? || x.FlagLock?
  }

  predicate InLock(x: Thread) {
    x.Add? || x.AddPost? || x.Take? || x.Flag? || x.FlagPost? || x.Unlock?
  }

  /** A blocked wait is a step that cannot happen; with `!m.ok` a timed wait or a poll gives up. */
  predicate Can(s: Shared, x: Thread, m: Move) {
    && (NeedsLock(x) ==> s.holder == 0)
    && (x.Wait? && m.ok ==> s.sem > 0)
  }

  function Begin(call: Call): Thread {
    match call
    case Enqueue(v) => AddLock(v)
    case Consume(kind) => Wait(kind)
    case Unblock => FlagLock
  }

  function NextThread(s: Shared, x: Thread, m: Move): Thread {
    match x
    case Idle => Begin(m.call)
    case AddLock(v) => Add(v)
    case Add(_) => if m.ok then AddPost else Unlock
    case AddPost => Unlock
    case Wait(kind) => if m.ok then TakeLock(kind) else Idle
    case TakeLock(kind) => Take(kind)
    case Take(_) => Unlock
    case FlagLock => Flag
    case Flag => FlagPost
    case FlagPost => Unlock
    case Unlock => Idle
  }

  function TakeFirst(s: Shared): Shared {
    if s.items == [] then s.(broken := true)
    else s.(items := s.items[1..], taken := s.taken + [s.items[0]])
  }

  function NextShared(s: Shared, x: Thread, m: Move): Shared
    requires Can(s, x, m)
  {
    match x
    case Idle => s
    case AddLock(_) => s.(holder := m.t + 1)
    case Add(v) => if m.ok then s.(items := s.items + [v], added := s.added + [v]) else s
    case AddPost => s.(sem := s.sem + 1)
    case Wait(_) => if m.ok then s.(sem := s.sem - 1) else s
    case TakeLock(_) => s.(holder := m.t + 1)
    case Take(kind) =>
      if kind.Poll? then TakeFirst(s)
      else if s.unblocking then s.(unblocking := false)
      else if s.items == [] then s
      else TakeFirst(s)
    case FlagLock => s.(holder := m.t + 1)
    case Flag => s.(unblocking := true)
    case FlagPost => s.(sem := s.sem + 1)
    case Unlock => s.(holder := 0)
  }

  predicate CanStep(s: State, m: Move) {
    m.t < |s.threads| && Can(s.shared, s.threads[m.t], m)
  }

  function Step(s: State, m: Move): State
    requires CanStep(s, m)
  {
    var x := s.threads[m.t];
    State(NextShared(s.shared, x, m), s.threads[m.t := NextThread(s.shared, x, m)])
  }

  ghost predicate Init(s: State) {
    && s.shared == Shared(0, [], false, 0, [], [], false)
    && forall t :: 0 <= t < |s.threads| ==> s.threads[t] == Idle
  }

  ghost predicate Run(s: State, moves: seq<Move>, s': State)
    decreases |moves|
  {
    if moves == [] then s' == s else CanStep(s, moves[0]) && Run(Step(s, moves[0]), moves[1..], s')
  }

  ghost predicate NoPoll(moves: seq<Move>) {
    forall k :: 0 <= k < |moves| ==> moves[k].call != Consume(Poll)
  }

  ghost predicate NoUnblock(moves: seq<Move>) {
    forall k :: 0 <= k < |moves| ==> moves[k].call != Unblock
  }

  // ----- tokens

  /** Tokens a thread has: taken from the semaphore and not used up, or owed to it. */
  function Carried(x: Thread): nat {
    if x.TakeLock? || x.Take? || x.AddPost? || x.FlagPost? then 1 else 0
  }

  function Tokens(threads: seq<Thread>): nat {
    if threads == [] then 0 else Carried(threads[0]) + Tokens(threads[1..])
  }

  lemma {:induction false} TokensUpdate(threads: seq<Thread>, t: nat, x: Thread)
    requires t < |threads|
    ensures Tokens(threads[t := x]) == Tokens(threads) - Carried(threads[t]) + Carried(x)
  {
    if t > 0 {
      assert threads[t := x][1..] == threads[1..][t - 1 := x];
      TokensUpdate(threads[1..], t - 1, x);
    }
  }

  lemma {:induction false} TokenAt(threads: seq<Thread>, t: nat)
    requires t < |threads|
    ensures Tokens(threads) >= Carried(threads[t])
  {
    if t > 0 {
      TokenAt(threads[1..], t - 1);
    }
  }

  lemma {:induction false} SomeToken(threads: seq<Thread>) returns (t: nat)
    requires Tokens(threads) > 0
    ensures t < |threads| && Carried(threads[t]) == 1
  {
    if Carried(threads[0]) == 1 {
      t := 0;
    } else {
      t := SomeToken(threads[1..]);
      t := t + 1;
    }
  }

  function Bit(b: bool): nat {
    if b then 1 else 0
  }

  ghost predicate LockInv(s: State) {
    forall t :: 0 <= t < |s.threads| ==> (InLock(s.threads[t]) <==> s.shared.holder == t + 1)
  }

  ghost predicate Enough(s: State) {
    s.shared.sem + Tokens(s.threads) >= |s.shared.items| + Bit(s.shared.unblocking)
  }

  /** Every item ever added is either still queued or was taken, in that order. */
  ghost predicate Conserved(s: Shared) {
    s.added == s.taken + s.items
  }

  lemma StepLock(s: State, m: Move)
    requires LockInv(s) && CanStep(s, m)
    ensures LockInv(Step(s, m))
  {
    assert InLock(s.threads[m.t]) <==> s.shared.holder == m.t + 1;
  }

  lemma StepConserves(s: State, m: Move)
    requires Conserved(s.shared) && CanStep(s, m)
    ensures Conserved(Step(s, m).shared)
  {
    hide NextThread;
    assert Step(s, m).shared == NextShared(s.shared, s.threads[m.t], m);
  }

  /** Every consumer is a dispatcher. */
  ghost predicate NoPollers(threads: seq<Thread>) {
    forall t :: 0 <= t < |threads| ==> !Polls(threads[t])
  }

  predicate Polls(x: Thread) {
    (x.Wait? || x.TakeLock? || x.Take?) && x.kind.Poll?
  }

  /** Tokens never run short, whoever consumes, until a sentinel is removed; and
      that happens exactly when a poll or flush with a token finds the queue empty. */
  lemma StepEnough(s: State, m: Move)
    requires Enough(s) && !s.shared.broken && CanStep(s, m)
    ensures Step(s, m).shared.broken <==> s.threads[m.t] == Take(Poll) && s.shared.items == []
    ensures !Step(s, m).shared.broken ==> Enough(Step(s, m))
  {
    var x := s.threads[m.t];
    TokensUpdate(s.threads, m.t, NextThread(s.shared, x, m));
    TokenAt(s.threads, m.t);
  }

  /** A poll that finds the queue empty got one of the tokens that stand for no item. */
  lemma BreaksOnSurplus(s: State, m: Move)
    requires !s.shared.broken && CanStep(s, m) && Step(s, m).shared.broken
    ensures s.shared.sem + Tokens(s.threads) > |s.shared.items|
  {
    TokenAt(s.threads, m.t);
  }

  lemma StepPollers(s: State, m: Move)
    requires NoPollers(s.threads) && CanStep(s, m) && m.call != Consume(Poll)
    ensures NoPollers(Step(s, m).threads)
  {
    assert !Polls(s.threads[m.t]);
  }

  lemma BrokenStays(s: State, m: Move)
    requires CanStep(s, m) && s.shared.broken
    ensures Step(s, m).shared.broken
  {
  }

  predicate Unblocks(x: Thread) {
    x.FlagLock? || x.Flag? || x.FlagPost?
  }

  /** Without unblock there is exactly one token for each item. */
  ghost predicate Exact(s: State) {
    && s.shared.sem + Tokens(s.threads) == |s.shared.items| && !s.shared.unblocking && !s.shared.broken
    && forall t :: 0 <= t < |s.threads| ==> !Unblocks(s.threads[t])
  }

  lemma StepExact(s: State, m: Move)
    requires Exact(s) && CanStep(s, m) && m.call != Unblock
    ensures Exact(Step(s, m))
  {
    var x := s.threads[m.t];
    assert !Unblocks(x);
    TokensUpdate(s.threads, m.t, NextThread(s.shared, x, m));
    TokenAt(s.threads, m.t);
  }

  // ----- whole runs

  lemma {:induction false} InitTokens(threads: seq<Thread>)
    requires forall t :: 0 <= t < |threads| ==> threads[t] == Idle
    ensures Tokens(threads) == 0
  {
    if threads != [] {
      InitTokens(threads[1..]);
    }
  }

  lemma {:induction false} RunBasic(s: State, moves: seq<Move>, s': State)
    requires LockInv(s) && Conserved(s.shared) && Run(s, moves, s')
    ensures LockInv(s') && Conserved(s'.shared)
    decreases |moves|
  {
    if moves != [] {
      StepLock(s, moves[0]);
      StepConserves(s, moves[0]);
      RunBasic(Step(s, moves[0]), moves[1..], s');
    }
  }

  lemma {:induction false} RunBroken(s: State, moves: seq<Move>, s': State)
    requires Run(s, moves, s') && s.shared.broken
    ensures s'.shared.broken
    decreases |moves|
  {
    if moves != [] {
      BrokenStays(s, moves[0]);
      RunBroken(Step(s, moves[0]), moves[1..], s');
    }
  }

  lemma {:induction false} RunEnough(s: State, moves: seq<Move>, s': State)
    requires Enough(s) && !s.shared.broken && Run(s, moves, s') && !s'.shared.broken
    ensures Enough(s')
    decreases |moves|
  {
    if moves != [] {
      var s1 := Step(s, moves[0]);
      if s1.shared.broken {
        RunBroken(s1, moves[1..], s');
      } else {
        StepEnough(s, moves[0]);
        RunEnough(s1, moves[1..], s');
      }
    }
  }

  lemma {:induction false} RunWithoutPoll(s: State, moves: seq<Move>, s': State)
    requires Enough(s) && NoPollers(s.threads) && !s.shared.broken && Run(s, moves, s') && NoPoll(moves)
    ensures !s'.shared.broken
    decreases |moves|
  {
    if moves != [] {
      assert !Polls(s.threads[moves[0].t]);
      StepEnough(s, moves[0]);
      StepPollers(s, moves[0]);
      RunWithoutPoll(Step(s, moves[0]), moves[1..], s');
    }
  }

  lemma {:induction false} RunExact(s: State, moves: seq<Move>, s': State)
    requires Exact(s) && Run(s, moves, s') && NoUnblock(moves)
    ensures Exact(s')
    decreases |moves|
  {
    if moves != [] {
      StepExact(s, moves[0]);
      RunExact(Step(s, moves[0]), moves[1..], s');
    }
  }

  // ----- the calls, one after the other

  /** An observer of a run: what each thread called last, the queue as the calls that
      have taken effect make it one after the other, the entries accepted and handed
      out, and how often unblock and the consumers took effect. */
  datatype Observer = Observer(
    asked: seq<Call>, queue: Queued<int>, accepted: seq<int>, handed: seq<int>,
    unblocks: nat, takes: nat, broken: bool)

  /** A call takes effect in the one step in which it has what it waited for. */
  predicate TakesEffect(x: Thread, m: Move) {
    (x.Add? && m.ok) || x.Take? || x.Flag?
  }

  /** The call takes effect as if it were alone. */
  function Perform(o: Observer, call: Call): Observer {
    match call
    case Enqueue(x) => o.(queue := Enqueued(o.queue, x), accepted := o.accepted + [x])
    case Consume(kind) =>
      if kind.Dispatch? then
        var (q, d) := Dispatched(o.queue);
        o.(queue := q, handed := o.handed + (if d.Some? then [d.value] else []), takes := o.takes + 1)
      else
        (match Polled(o.queue)
         case None => o.(broken := true, takes := o.takes + 1)
         case Some((q, d)) => o.(queue := q, handed := o.handed + [d], takes := o.takes + 1))
    case Unblock => o.(queue := Unblocked(o.queue), unblocks := o.unblocks + 1)
  }

  function Watch(o: Observer, x: Thread, m: Move): Observer {
    if m.t >= |o.asked| then o
    else if x.Idle? then o.(asked := o.asked[m.t := m.call])
    else if TakesEffect(x, m) then Perform(o, o.asked[m.t])
    else o
  }

  ghost function Observed(o: Observer, s: State, moves: seq<Move>): Observer
    decreases |moves|
  {
    if moves == [] || !CanStep(s, moves[0]) then o
    else Observed(Watch(o, s.threads[moves[0].t], moves[0]), Step(s, moves[0]), moves[1..])
  }

  /** A thread under way is in the call it was last asked for. */
  predicate Does(x: Thread, call: Call) {
    match x
    case Idle => true
    case AddLock(v) => call == Enqueue(v)
    case Add(v) => call == Enqueue(v)
    case AddPost => call.Enqueue?
    case Wait(kind) => call == Consume(kind)
    case TakeLock(kind) => call == Consume(kind)
    case Take(kind) => call == Consume(kind)
    case FlagLock => call.Unblock?
    case Flag => call.Unblock?
    case FlagPost => call.Unblock?
    case Unlock => true
  }

  predicate Same(s: Shared, o: Observer) {
    && s.items == o.queue.items && s.unblocking == o.queue.flag
    && s.added == o.accepted && s.taken == o.handed && s.broken == o.broken
  }

  ghost predicate Agrees(s: State, o: Observer) {
    && |o.asked| == |s.threads|
    && (forall t :: 0 <= t < |s.threads| ==> Does(s.threads[t], o.asked[t]))
    && Same(s.shared, o)
    && s.shared.sem + Tokens(s.threads) + o.takes == |o.accepted| + o.unblocks
  }

  /** One step of one thread, seen by the observer. */
  lemma SameStep(s: Shared, x: Thread, m: Move, o: Observer)
    requires Can(s, x, m) && m.t < |o.asked| && Does(x, o.asked[m.t]) && Same(s, o)
    ensures Same(NextShared(s, x, m), Watch(o, x, m))
  {
  }

  lemma DoesStep(s: Shared, x: Thread, m: Move, o: Observer)
    requires Can(s, x, m) && m.t < |o.asked| && Does(x, o.asked[m.t])
    ensures Does(NextThread(s, x, m), Watch(o, x, m).asked[m.t])
    ensures Watch(o, x, m).asked == o.asked[m.t := Watch(o, x, m).asked[m.t]]
  {
  }

  lemma TokenStep(s: Shared, x: Thread, m: Move, o: Observer)
    requires Can(s, x, m) && m.t < |o.asked| && Does(x, o.asked[m.t])
    ensures var o' := Watch(o, x, m);
      NextShared(s, x, m).sem + Carried(NextThread(s, x, m)) + o'.takes + |o.accepted| + o.unblocks ==
      s.sem + Carried(x) + o.takes + |o'.accepted| + o'.unblocks
  {
  }

  lemma StepAgrees(s: State, m: Move, o: Observer)
    requires Agrees(s, o) && CanStep(s, m)
    ensures Agrees(Step(s, m), Watch(o, s.threads[m.t], m))
  {
    var x := s.threads[m.t];
    hide Does, Same, Watch, NextShared, NextThread, Carried, Can;
    assert Does(x, o.asked[m.t]);
    SameStep(s.shared, x, m, o);
    DoesStep(s.shared, x, m, o);
    TokenStep(s.shared, x, m, o);
    TokensUpdate(s.threads, m.t, NextThread(s.shared, x, m));
  }

  lemma {:induction false} RunAgrees(s: State, moves: seq<Move>, s': State, o: Observer)
    requires Agrees(s, o) && Run(s, moves, s')
    ensures Agrees(s', Observed(o, s, moves))
    decreases |moves|
  {
    hide Agrees, Watch;
    if moves != [] {
      StepAgrees(s, moves[0], o);
      RunAgrees(Step(s, moves[0]), moves[1..], s', Watch(o, s.threads[moves[0].t], moves[0]));
    }
  }

  ghost predicate Fresh(o: Observer, n: nat) {
    |o.asked| == n && o == Observer(o.asked, Queued([], false), [], [], 0, 0, false)
  }

  /** In every run the queue and the flag are what the calls make of them one after
      the other, in the order in which they take effect and with their callers' own
      arguments; the entries handed out and still queued are the callers' entries
      that were accepted, in that order; and a token is there, or under way, for each
      entry accepted and each unblock that no consumer has used up. */
  lemma Linearized(s0: State, moves: seq<Move>, s: State, o0: Observer)
    requires Init(s0) && Run(s0, moves, s) && Fresh(o0, |s0.threads|)
    ensures var o := Observed(o0, s0, moves);
      && s.shared.items == o.queue.items && s.shared.unblocking == o.queue.flag && s.shared.broken == o.broken
      && s.shared.taken == o.handed && o.accepted == o.handed + s.shared.items
      && s.shared.sem + Tokens(s.threads) == |o.accepted| + o.unblocks - o.takes
  {
    InitTokens(s0.threads);
    RunAgrees(s0, moves, s, o0);
    Fifo(s0, moves, s);
  }

  /** How many calls thread `t` makes in a run, and how many of its steps let a call
      take effect or turn it away. */
  ghost function Made(s: State, moves: seq<Move>, t: nat): nat
    decreases |moves|
  {
    if moves == [] || !CanStep(s, moves[0]) || t >= |s.threads| then 0
    else Bit(moves[0].t == t && s.threads[t].Idle?) + Made(Step(s, moves[0]), moves[1..], t)
  }

  ghost function Answered(s: State, moves: seq<Move>, t: nat): nat
    decreases |moves|
  {
    if moves == [] || !CanStep(s, moves[0]) || t >= |s.threads| then 0
    else
      var x := s.threads[t];
      Bit(moves[0].t == t && (TakesEffect(x, moves[0]) || TurnedAway(x, moves[0])))
      + Answered(Step(s, moves[0]), moves[1..], t)
  }

  /** The queue is full, or the wait was given up. */
  predicate TurnedAway(x: Thread, m: Move) {
    (x.Add? || x.Wait?) && !m.ok
  }

  function Unanswered(x: Thread): nat {
    if x.AddLock? || x.Add? || x.Wait? || x.TakeLock? || x.Take? || x.FlagLock? || x.Flag? then 1 else 0
  }

  lemma {:induction false} RunAnswered(s: State, moves: seq<Move>, s': State, t: nat)
    requires Run(s, moves, s') && t < |s.threads|
    ensures |s'.threads| == |s.threads|
    ensures Unanswered(s'.threads[t]) + Answered(s, moves, t) == Unanswered(s.threads[t]) + Made(s, moves, t)
    decreases |moves|
  {
    if moves != [] {
      RunAnswered(Step(s, moves[0]), moves[1..], s', t);
    }
  }

  /** Every call that has returned took effect, or was turned away, exactly once. */
  lemma EachCallOnce(s0: State, moves: seq<Move>, s: State, t: nat)
    requires Init(s0) && Run(s0, moves, s) && t < |s0.threads|
    ensures t < |s.threads| && (s.threads[t].Idle? ==> Answered(s0, moves, t) == Made(s0, moves, t))
  {
    RunAnswered(s0, moves, s, t);
  }

  /** First in, first out, with nothing lost or doubled, whatever the interleaving. */
  lemma Fifo(s0: State, moves: seq<Move>, s: State)
    requires Init(s0) && Run(s0, moves, s)
    ensures s.shared.added == s.shared.taken + s.shared.items
  {
    RunBasic(s0, moves, s);
  }

  /** In every run, as long as no sentinel has been removed: the semaphore and the
      tokens underway cover the queue and the unblock flag. When nobody is in
      the lock, a queue that is not empty can always be served: the semaphore is
      up or a consumer that has its token is on its way to the lock. */
  lemma QueueHasToken(s0: State, moves: seq<Move>, s: State)
    requires Init(s0) && Run(s0, moves, s) && !s.shared.broken
    ensures s.shared.sem + Tokens(s.threads) >= |s.shared.items| + Bit(s.shared.unblocking)
    ensures s.shared.holder == 0 && (s.shared.items != [] || s.shared.unblocking) ==>
      s.shared.sem > 0 || exists t :: 0 <= t < |s.threads| && s.threads[t].TakeLock?
  {
    InitTokens(s0.threads);
    RunEnough(s0, moves, s);
    RunBasic(s0, moves, s);
    if s.shared.holder == 0 && Tokens(s.threads) > 0 {
      var t := SomeToken(s.threads);
      assert !InLock(s.threads[t]);
    }
  }

  /** With enqueue, dispatch, timed dispatch and unblock no sentinel is ever removed. */
  lemma DispatchNeverBreaks(s0: State, moves: seq<Move>, s: State)
    requires Init(s0) && Run(s0, moves, s) && NoPoll(moves)
    ensures !s.shared.broken
  {
    InitTokens(s0.threads);
    RunWithoutPoll(s0, moves, s);
  }

  /** Poll and unblock together can: unblock leaves a token, and a poll takes it
      in a queue without items. */
  lemma PollAfterUnblock() returns (s0: State, moves: seq<Move>, s: State)
    ensures Init(s0) && Run(s0, moves, s) && s.shared.broken
  {
    var empty := Shared(0, [], false, 0, [], [], false);
    s0 := State(empty, [Idle]);
    var u := Move(0, Unblock, true);
    var s1, s2 := State(empty, [FlagLock]), State(empty.(holder := 1), [Flag]);
    var s3 := State(s2.shared.(unblocking := true), [FlagPost]);
    var s4 := State(s3.shared.(sem := 1), [Unlock]);
    var s5 := State(s4.shared.(holder := 0), [Idle]);
    assert Step(s0, u) == s1 && Step(s1, u) == s2 && Step(s2, u) == s3 && Step(s3, u) == s4 && Step(s4, u) == s5;
    s, moves := PollEmpty(s5);
    RunPrepend(s4, u, moves, s);
    moves := [u] + moves;
    RunPrepend(s3, u, moves, s);
    moves := [u] + moves;
    RunPrepend(s2, u, moves, s);
    moves := [u] + moves;
    RunPrepend(s1, u, moves, s);
    moves := [u] + moves;
    RunPrepend(s0, u, moves, s);
    moves := [u] + moves;
  }

  /** A poll that takes a token in a queue without items. */
  lemma PollEmpty(s0: State) returns (s: State, moves: seq<Move>)
    requires s0.threads == [Idle] && s0.shared.items == [] && s0.shared.sem > 0 && s0.shared.holder == 0
    ensures Run(s0, moves, s) && s.shared.broken
  {
    var p := Move(0, Consume(Poll), true);
    var s1 := State(s0.shared, [Wait(Poll)]);
    var s2 := State(s0.shared.(sem := s0.shared.sem - 1), [TakeLock(Poll)]);
    var s3 := State(s2.shared.(holder := 1), [Take(Poll)]);
    s := State(s3.shared.(broken := true), [Unlock]);
    assert Step(s0, p) == s1 && Step(s1, p) == s2 && Step(s2, p) == s3 && Step(s3, p) == s;
    moves := [];
    RunPrepend(s3, p, moves, s);
    moves := [p] + moves;
    RunPrepend(s2, p, moves, s);
    moves := [p] + moves;
    RunPrepend(s1, p, moves, s);
    moves := [p] + moves;
    RunPrepend(s0, p, moves, s);
    moves := [p] + moves;
  }

  lemma RunPrepend(s: State, m: Move, moves: seq<Move>, s': State)
    requires CanStep(s, m) && Run(Step(s, m), moves, s')
    ensures Run(s, [m] + moves, s')
  {
    assert ([m] + moves)[1..] == moves;
  }

  /** Without unblock the count is exact, and a poll, flush or dispatch that got a
      token always finds a real item. */
  lemma ExactCount(s0: State, moves: seq<Move>, s: State)
    requires Init(s0) && Run(s0, moves, s) && NoUnblock(moves)
    ensures s.shared.sem + Tokens(s.threads) == |s.shared.items| && !s.shared.broken
    ensures forall t :: 0 <= t < |s.threads| && s.threads[t].Take? ==> s.shared.items != []
  {
    InitTokens(s0.threads);
    RunExact(s0, moves, s);
    forall t | 0 <= t < |s.threads| && s.threads[t].Take?
      ensures s.shared.items != []
    {
      TokenAt(s.threads, t);
    }
  }
}
